/**
 * Money as the app handles it. Amounts are kept as integer cents, since every
 * stored amount went through `Math.round(x * 100) / 100`. `parseFloat` is a
 * decimal-prefix parser that returns an exact rational (`None` stands for NaN).
 * `toFixed(2)` and `Number#toString` are written out for two-decimal amounts.
 */
module Money {
  import opened Common
  import opened Text

  function Abs(x: int): (r: nat)
    ensures r == x || r == -x
  {
    if x < 0 then -x else x
  }

  function Pow10(k: nat): (r: nat)
    ensures r >= 1
  {
    if k == 0 then 1 else 10 * Pow10(k - 1)
  }

  /** The dollar value of an amount in cents. */
  function Dollars(cents: int): real {
    cents as real / 100.0
  }

  /** `Math.round(x * 100)`: nearest integer, halves rounded up (towards +infinity). */
  function RoundCents(x: real): int {
    (x * 100.0 + 0.5).Floor
  }

  /** RoundCents is within half a cent of the exact amount. */
  lemma RoundCentsNearest(x: real)
    ensures x * 100.0 - 0.5 < RoundCents(x) as real <= x * 100.0 + 0.5
  {
  }

  /** Rounding an amount that already has whole cents changes nothing. */
  lemma RoundCentsOfDollars(cents: int)
    ensures RoundCents(Dollars(cents)) == cents
  {
    assert Dollars(cents) * 100.0 == cents as real;
    assert (cents as real + 0.5).Floor == cents;
  }

  /** JavaScript's `v || fallback` on a parsed number: NaN and 0 are falsy. */
  function NumberOr(v: Option<real>, fallback: real): real {
    if v.Some? && v.value != 0.0 then v.value else fallback
  }

  /**
   * The white-space characters `parseFloat` skips: ECMAScript's WhiteSpace
   * (tab, vertical tab, form feed, the byte-order mark and every space
   * separator of Unicode category Zs) and LineTerminator.
   */
  predicate IsWhiteSpace(c: char) {
    || c == '\t' || c == '\U{B}' || c == '\U{C}' || c == '\U{FEFF}'
    || c == ' ' || c == '\U{A0}' || c == '\U{1680}' || '\U{2000}' <= c <= '\U{200A}'
    || c == '\U{202F}' || c == '\U{205F}' || c == '\U{3000}'
    || c == '\n' || c == '\r' || c == '\U{2028}' || c == '\U{2029}'
  }

  /** Drops leading white space, as `parseFloat` does first. */
  function TrimStart(s: string): (r: string)
    ensures |r| <= |s|
    ensures r == [] || !IsWhiteSpace(r[0])
  {
    if s != [] && IsWhiteSpace(s[0]) then TrimStart(s[1..]) else s
  }

  /** The longest prefix of `s` made of decimal digits. */
  function DigitPrefix(s: string): (r: string)
    ensures |r| <= |s| && r == s[..|r|] && AllDigits(r)
    ensures |r| == |s| || !IsDigit(s[|r|])
  {
    if s == [] || !IsDigit(s[0]) then [] else [s[0]] + DigitPrefix(s[1..])
  }

  /** The exact value of the decimal numeral `ip.fp`. */
  function DecimalValue(ip: string, fp: string): real
    requires AllDigits(ip) && AllDigits(fp)
  {
    DigitsValue(ip) as real + DigitsValue(fp) as real / Pow10(|fp|) as real
  }

  /**
   * The unsigned part of `parseFloat`: digits, an optional point and more
   * digits, with at least one digit in all; anything after that is ignored.
   */
  function ParseUnsigned(u: string): (r: Option<real>)
    ensures r.Some? ==> r.value >= 0.0
  {
    var ip := DigitPrefix(u);
    var rest := u[|ip|..];
    var fp := if rest != [] && rest[0] == '.' then DigitPrefix(rest[1..]) else [];
    if ip == [] && fp == [] then None else Some(DecimalValue(ip, fp))
  }

  /** `parseFloat(s)`: white space, an optional sign, then an unsigned decimal. */
  function ParseFloat(s: string): Option<real> {
    var t := TrimStart(s);
    if t != [] && (t[0] == '-' || t[0] == '+') then
      match ParseUnsigned(t[1..])
      case None => None
      case Some(v) => Some(if t[0] == '-' then -v else v)
    else
      ParseUnsigned(t)
  }

  /** White space in front of a number, of any of the kinds above, never changes what `parseFloat` reads. */
  lemma LeadingWhiteSpaceIgnored(ws: string, s: string)
    requires forall i :: 0 <= i < |ws| ==> IsWhiteSpace(ws[i])
    ensures ParseFloat(ws + s) == ParseFloat(s)
  {
    TrimStartSkips(ws, s);
  }

  lemma {:induction false} TrimStartSkips(ws: string, s: string)
    requires forall i :: 0 <= i < |ws| ==> IsWhiteSpace(ws[i])
    ensures TrimStart(ws + s) == TrimStart(s)
  {
    if ws != [] {
      assert (ws + s)[1..] == ws[1..] + s;
      TrimStartSkips(ws[1..], s);
    } else {
      assert ws + s == s;
    }
  }

  /** A digit prefix stops exactly where the digits stop. */
  lemma {:induction false} DigitPrefixOf(d: string, t: string)
    requires AllDigits(d)
    requires t == [] || !IsDigit(t[0])
    ensures DigitPrefix(d + t) == d
  {
    if d != [] {
      assert (d + t)[1..] == d[1..] + t;
      DigitPrefixOf(d[1..], t);
    } else {
      assert d + t == t;
    }
  }

  lemma DecimalWhole(ip: string)
    requires AllDigits(ip)
    ensures DecimalValue(ip, []) == DigitsValue(ip) as real
  {
    assert DigitsValue([]) == 0 && Pow10(0) == 1;
  }

  lemma DecimalTenths(ip: string, d: char)
    requires AllDigits(ip) && IsDigit(d)
    ensures DecimalValue(ip, [d]) == DigitsValue(ip) as real + DigitValue(d) as real / 10.0
  {
    assert DigitsValue([d]) == DigitValue(d) by { assert [d][..0] == []; }
    assert Pow10(1) == 10;
  }

  lemma DecimalHundredths(ip: string, fp: string)
    requires AllDigits(ip) && AllDigits(fp) && |fp| == 2
    ensures DecimalValue(ip, fp) == DigitsValue(ip) as real + DigitsValue(fp) as real / 100.0
  {
    assert Pow10(2) == 100 by { assert Pow10(1) == 10; }
  }

  /** `parseFloat` reads `ip.fp` followed by anything that does not continue the numeral. */
  lemma ParseUnsignedFraction(ip: string, fp: string, t: string)
    requires AllDigits(ip) && AllDigits(fp) && ip != []
    requires t == [] || !IsDigit(t[0])
    ensures ParseUnsigned(ip + "." + fp + t) == Some(DecimalValue(ip, fp))
  {
    var u := ip + "." + fp + t;
    assert u == ip + ("." + fp + t);
    DigitPrefixOf(ip, "." + fp + t);
    assert u[|ip|..] == "." + fp + t;
    assert ("." + fp + t)[1..] == fp + t;
    DigitPrefixOf(fp, t);
  }

  /** `parseFloat` reads a whole number followed by anything that is neither a digit nor a point. */
  lemma ParseUnsignedInteger(ip: string, t: string)
    requires AllDigits(ip) && ip != []
    requires t == [] || (!IsDigit(t[0]) && t[0] != '.')
    ensures ParseUnsigned(ip + t) == Some(DigitsValue(ip) as real)
  {
    DigitPrefixOf(ip, t);
    assert (ip + t)[|ip|..] == t;
    DecimalWhole(ip);
  }

  /** Puts the sign in front of an unsigned numeral, as both formatters do. */
  function Signed(negative: bool, body: string): string {
    (if negative then "-" else "") + body
  }

  /** `parseFloat` of a signed numeral whose body starts with a digit. */
  lemma ParseSigned(negative: bool, body: string, v: real)
    requires body != [] && IsDigit(body[0])
    requires ParseUnsigned(body) == Some(v)
    ensures ParseFloat(Signed(negative, body)) == Some(if negative then -v else v)
  {
    var s := Signed(negative, body);
    assert !IsWhiteSpace(s[0]);
    assert TrimStart(s) == s;
    if negative {
      assert s[0] == '-' && s[1..] == body;
    } else {
      assert s == body && s[0] != '-' && s[0] != '+';
    }
  }

  /** `(cents / 100).toFixed(2)`: the whole part, a point and exactly two decimals. */
  function ToFixed2(cents: int): string {
    var a := Abs(cents);
    Signed(cents < 0, NatToString(a / 100) + "." + CentsDigits(a % 100))
  }

  /**
   * `(cents / 100).toString()`: the shortest decimal, so no point for whole
   * dollars and one decimal when the cents are a multiple of ten.
   */
  function ToNumberString(cents: int): string {
    var a := Abs(cents);
    var f := a % 100;
    Signed(cents < 0, NatToString(a / 100) +
      if f == 0 then ""
      else if f % 10 == 0 then "." + [DigitChar(f / 10)]
      else "." + CentsDigits(f))
  }

  /** The two decimals `toFixed(2)` writes for `f` cents: the tens digit, then the units digit. */
  function CentsDigits(f: nat): (s: string)
    requires f < 100
    ensures |s| == 2 && AllDigits(s)
  {
    [DigitChar(f / 10), DigitChar(f % 10)]
  }

  lemma CentsDigitsValue(f: nat)
    requires f < 100
    ensures DigitsValue(CentsDigits(f)) == f
  {
    var s := CentsDigits(f);
    assert s[..1] == [s[0]] && [s[0]][..0] == [];
    assert DigitsValue(s[..1]) == f / 10;
  }

  /** Whole part `q` and cents `f` written with a two-digit fraction denote `(100q + f) / 100`. */
  lemma DecimalOfCents(q: nat, f: nat)
    requires f < 100
    ensures DecimalValue(NatToString(q), CentsDigits(f)) == Dollars(100 * q + f)
  {
    var fp := CentsDigits(f);
    CentsDigitsValue(f);
    NatToStringValue(q);
    DecimalHundredths(NatToString(q), fp);
    CentsSum(q, f);
  }

  lemma CentsSum(q: nat, f: nat)
    ensures q as real + f as real / 100.0 == Dollars(100 * q + f)
  {
  }

  /**
   * What `toFixed(2)` prints reads back, through `parseFloat`, as exactly the
   * amount, even when more text follows that does not continue the numeral.
   */
  lemma ToFixed2ReadsBack(cents: int, t: string)
    requires t == [] || !IsDigit(t[0])
    ensures ParseFloat(ToFixed2(cents) + t) == Some(Dollars(cents))
  {
    ToFixed2Layout(cents, t);
    SignedFixedValue(cents, t);
  }

  lemma SignedFixedValue(cents: int, t: string)
    requires t == [] || !IsDigit(t[0])
    ensures ParseFloat(Signed(cents < 0, FixedBody(Abs(cents), t))) == Some(Dollars(cents))
  {
    FixedBodyValue(Abs(cents), t);
    SignedReadsBack(cents, FixedBody(Abs(cents), t));
  }

  /** A sign put in front of an unsigned numeral for `|cents|` reads back as `cents`. */
  lemma SignedReadsBack(cents: int, body: string)
    requires body != [] && IsDigit(body[0])
    requires ParseUnsigned(body) == Some(Dollars(Abs(cents)))
    ensures ParseFloat(Signed(cents < 0, body)) == Some(Dollars(cents))
  {
    ParseSigned(cents < 0, body, Dollars(Abs(cents)));
    SignedDollars(cents);
  }

  /** The unsigned part of what `toFixed(2)` prints, followed by `t`. */
  function FixedBody(a: nat, t: string): string {
    NatToString(a / 100) + "." + CentsDigits(a % 100) + t
  }

  lemma ToFixed2Layout(cents: int, t: string)
    ensures ToFixed2(cents) + t == Signed(cents < 0, FixedBody(Abs(cents), t))
  {
  }

  lemma FixedBodyValue(a: nat, t: string)
    requires t == [] || !IsDigit(t[0])
    ensures FixedBody(a, t) != [] && IsDigit(FixedBody(a, t)[0])
    ensures ParseUnsigned(FixedBody(a, t)) == Some(Dollars(a))
  {
    FixedNumeralValue(a / 100, a % 100, t);
    assert 100 * (a / 100) + a % 100 == a;
  }

  /** Whole part `q`, a point, the two-digit cents `f`, then `t`, reads as `(100q + f) / 100`. */
  lemma FixedNumeralValue(q: nat, f: nat, t: string)
    requires f < 100
    requires t == [] || !IsDigit(t[0])
    ensures var s := NatToString(q) + "." + CentsDigits(f) + t;
      s != [] && IsDigit(s[0]) && ParseUnsigned(s) == Some(Dollars(100 * q + f))
  {
    var ip := NatToString(q);
    var fp := CentsDigits(f);
    assert (ip + "." + fp + t)[0] == ip[0];
    DecimalOfCents(q, f);
    ParseUnsignedFraction(ip, fp, t);
  }

  lemma SignedDollars(cents: int)
    ensures (if cents < 0 then -Dollars(Abs(cents)) else Dollars(Abs(cents))) == Dollars(cents)
  {
  }

  /** The unsigned part of what `toString` prints for a two-decimal amount. */
  function NumberBody(q: nat, f: nat): string
    requires f < 100
  {
    NatToString(q) +
      if f == 0 then ""
      else if f % 10 == 0 then "." + [DigitChar(f / 10)]
      else "." + CentsDigits(f)
  }

  lemma ToNumberStringLayout(cents: int)
    ensures ToNumberString(cents) == Signed(cents < 0, NumberBody(Abs(cents) / 100, Abs(cents) % 100))
  {
  }

  /** `parseFloat` reads the unsigned part back as `(100q + f) / 100`. */
  lemma NumberBodyValue(q: nat, f: nat)
    requires f < 100
    ensures NumberBody(q, f) != [] && IsDigit(NumberBody(q, f)[0])
    ensures ParseUnsigned(NumberBody(q, f)) == Some(Dollars(100 * q + f))
  {
    assert NumberBody(q, f)[0] == NatToString(q)[0];
    if f == 0 {
      WholeDollarsValue(q);
    } else if f % 10 == 0 {
      TenthsValue(q, f / 10);
    } else {
      HundredthsValue(q, f);
    }
  }

  lemma HundredthsValue(q: nat, f: nat)
    requires f < 100 && f % 10 != 0
    ensures ParseUnsigned(NumberBody(q, f)) == Some(Dollars(100 * q + f))
  {
    var ip, fp := NatToString(q), CentsDigits(f);
    assert NumberBody(q, f) == ip + "." + fp + [];
    DecimalOfCents(q, f);
    ParseUnsignedFraction(ip, fp, []);
  }

  lemma WholeDollarsValue(q: nat)
    ensures ParseUnsigned(NumberBody(q, 0)) == Some(Dollars(100 * q))
  {
    assert NumberBody(q, 0) == NatToString(q) + [];
    ParseUnsignedInteger(NatToString(q), []);
    NatToStringValue(q);
  }

  lemma TenthsValue(q: nat, d: nat)
    requires 0 < d < 10
    ensures ParseUnsigned(NumberBody(q, 10 * d)) == Some(Dollars(100 * q + 10 * d))
  {
    var ip, fp := NatToString(q), [DigitChar(d)];
    assert (10 * d) / 10 == d && (10 * d) % 10 == 0;
    assert NumberBody(q, 10 * d) == ip + "." + fp + [];
    ParseUnsignedFraction(ip, fp, []);
    NatToStringValue(q);
    DecimalTenths(ip, DigitChar(d));
    calc {
      DecimalValue(ip, fp);
      q as real + d as real / 10.0;
      (100 * q + 10 * d) as real / 100.0;
    }
  }

  /** What `toString` prints for a two-decimal amount reads back as exactly the amount. */
  lemma ToNumberStringReadsBack(cents: int)
    ensures ParseFloat(ToNumberString(cents)) == Some(Dollars(cents))
  {
    var a := Abs(cents);
    ToNumberStringLayout(cents);
    NumberBodyValue(a / 100, a % 100);
    assert 100 * (a / 100) + a % 100 == a;
    SignedReadsBack(cents, NumberBody(a / 100, a % 100));
  }
}
