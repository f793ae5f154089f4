/**
 * Decimal digit strings: JavaScript's `Number#toString` for non-negative
 * integers and `String#padStart`, with the value a digit string denotes.
 */
module Text {

  predicate IsDigit(c: char) {
    '0' <= c <= '9'
  }

  predicate AllDigits(s: string) {
    forall i :: 0 <= i < |s| ==> IsDigit(s[i])
  }

  function DigitValue(c: char): (d: nat)
    requires IsDigit(c)
    ensures d < 10
  {
    c as int - '0' as int
  }

  function DigitChar(d: nat): (c: char)
    requires d < 10
    ensures IsDigit(c) && DigitValue(c) == d
  {
    ('0' as int + d) as char
  }

  /** The number a string of decimal digits denotes (most significant first). */
  function DigitsValue(s: string): nat
    requires AllDigits(s)
  {
    if s == [] then 0 else DigitsValue(s[..|s| - 1]) * 10 + DigitValue(s[|s| - 1])
  }

  /** `n.toString()` for a non-negative integer: shortest decimal, no leading zero. */
  function NatToString(n: nat): (s: string)
    ensures |s| >= 1 && AllDigits(s)
    ensures |s| > 1 ==> s[0] != '0'
    ensures n < 10 <==> |s| == 1
  {
    if n < 10 then [DigitChar(n)] else NatToString(n / 10) + [DigitChar(n % 10)]
  }

  /** Reading back what NatToString writes gives the number again. */
  lemma {:induction false} NatToStringValue(n: nat)
    ensures DigitsValue(NatToString(n)) == n
  {
    if n >= 10 {
      var s := NatToString(n);
      assert s[..|s| - 1] == NatToString(n / 10);
      NatToStringValue(n / 10);
    }
  }

  /** `s.padStart(width, fill)`: `s` itself when long enough, else `fill`s then `s`. */
  function PadStart(s: string, width: nat, fill: char): (r: string)
    ensures |r| == if |s| >= width then |s| else width
    ensures r[|r| - |s|..] == s
    ensures forall i :: 0 <= i < |r| - |s| ==> r[i] == fill
  {
    if |s| >= width then s
    else
      var pad := seq(width - |s|, _ => fill);
      assert (pad + s)[|pad|..] == s;
      pad + s
  }

  /** Leading zeros do not change the value of a digit string. */
  lemma {:induction false} LeadingZerosValue(z: string, s: string)
    requires forall i :: 0 <= i < |z| ==> z[i] == '0'
    requires AllDigits(s)
    ensures AllDigits(z + s) && DigitsValue(z + s) == DigitsValue(s)
    decreases |s|, |z|
  {
    assert AllDigits(z + s) by {
      forall i | 0 <= i < |z + s| ensures IsDigit((z + s)[i]) {
        if i < |z| { assert (z + s)[i] == z[i]; } else { assert (z + s)[i] == s[i - |z|]; }
      }
    }
    if s == [] {
      assert z + s == z;
      if z != [] {
        assert z[..|z| - 1] + [] == z[..|z| - 1];
        LeadingZerosValue(z[..|z| - 1], []);
      }
    } else {
      var w := z + s;
      assert w[..|w| - 1] == z + s[..|s| - 1];
      assert w[|w| - 1] == s[|s| - 1];
      LeadingZerosValue(z, s[..|s| - 1]);
    }
  }

  /** Zero-padding to a width keeps the value: what `padStart(2, '0')` shows. */
  lemma PadStartValue(s: string, width: nat)
    requires AllDigits(s)
    ensures AllDigits(PadStart(s, width, '0'))
    ensures DigitsValue(PadStart(s, width, '0')) == DigitsValue(s)
  {
    var r := PadStart(s, width, '0');
    var z := r[..|r| - |s|];
    assert r == z + s;
    LeadingZerosValue(z, s);
  }
}
