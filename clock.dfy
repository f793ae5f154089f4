/**
 * The session clock's display, `formatDuration`, which both the table and the
 * end-of-session screen define the same way: whole seconds as `HH:MM:SS`.
 */
module Clock {
  import opened Common
  import opened Text

  /** `n.toString().padStart(2, '0')`. */
  function TwoDigit(n: nat): string {
    PadStart(NatToString(n), 2, '0')
  }

  /** `formatDuration(seconds)`: hours, minutes and seconds, each padded to two digits. */
  function FormatDuration(seconds: nat): string {
    var hours := seconds / 3600;
    var minutes := (seconds % 3600) / 60;
    var secs := seconds % 60;
    TwoDigit(hours) + ":" + TwoDigit(minutes) + ":" + TwoDigit(secs)
  }

  /**
   * Reads a clock display `H…H:MM:SS` back into its three fields: the hours
   * field is everything before the last two colons and has at least two digits.
   */
  function ClockFields(t: string): Option<(nat, nat, nat)> {
    if |t| >= 8 && t[|t| - 6] == ':' && t[|t| - 3] == ':'
       && AllDigits(t[..|t| - 6]) && AllDigits(t[|t| - 5..|t| - 3]) && AllDigits(t[|t| - 2..])
    then Some((DigitsValue(t[..|t| - 6]), DigitsValue(t[|t| - 5..|t| - 3]), DigitsValue(t[|t| - 2..])))
    else None
  }

  lemma TwoDigitShape(n: nat)
    ensures AllDigits(TwoDigit(n)) && |TwoDigit(n)| >= 2
    ensures n < 100 ==> |TwoDigit(n)| == 2
    ensures DigitsValue(TwoDigit(n)) == n
  {
    PadStartValue(NatToString(n), 2);
    NatToStringValue(n);
    if 10 <= n < 100 {
      assert NatToString(n) == NatToString(n / 10) + [DigitChar(n % 10)];
    }
  }

  /** Where the pieces of `hh:mm:ss` sit, counted from the end. */
  lemma JoinSlices(hh: string, mm: string, ss: string)
    requires |mm| == 2 && |ss| == 2
    ensures var t := hh + ":" + mm + ":" + ss;
      |t| == |hh| + 6 && t[..|t| - 6] == hh && t[|t| - 5..|t| - 3] == mm && t[|t| - 2..] == ss
      && t[|t| - 6] == ':' && t[|t| - 3] == ':'
  {
    var t := hh + ":" + mm + ":" + ss;
    assert t == hh + (":" + mm + ":" + ss);
    var tail := ":" + mm + ":" + ss;
    assert t[|hh|..] == tail;
    assert tail[1..3] == mm && tail[4..] == ss;
  }

  /** Three digit fields joined by colons read back as those fields. */
  lemma ClockFieldsOfJoin(hh: string, mm: string, ss: string)
    requires AllDigits(hh) && AllDigits(mm) && AllDigits(ss)
    requires |hh| >= 2 && |mm| == 2 && |ss| == 2
    ensures ClockFields(hh + ":" + mm + ":" + ss) == Some((DigitsValue(hh), DigitsValue(mm), DigitsValue(ss)))
  {
    JoinSlices(hh, mm, ss);
  }

  /**
   * The display is well formed and its fields are the decomposition of the
   * seconds into hours, minutes below 60 and seconds below 60.
   */
  lemma FormatDurationFields(seconds: nat)
    ensures ClockFields(FormatDuration(seconds)).Some?
    ensures var (h, m, s) := ClockFields(FormatDuration(seconds)).value;
      m < 60 && s < 60 && 3600 * h + 60 * m + s == seconds
  {
    var hours := seconds / 3600;
    var minutes := (seconds % 3600) / 60;
    var secs := seconds % 60;
    assert minutes < 60 && 3600 * hours + 60 * minutes + secs == seconds by {
      SplitSeconds(seconds);
    }
    assert ClockFields(FormatDuration(seconds)) == Some((hours, minutes, secs)) by {
      TwoDigitShape(hours);
      TwoDigitShape(minutes);
      TwoDigitShape(secs);
      ClockFieldsOfJoin(TwoDigit(hours), TwoDigit(minutes), TwoDigit(secs));
    }
  }

  lemma SplitSeconds(seconds: nat)
    ensures (seconds % 3600) / 60 < 60
    ensures 3600 * (seconds / 3600) + 60 * ((seconds % 3600) / 60) + seconds % 60 == seconds
  {
    var r := seconds % 3600;
    assert seconds == 3600 * (seconds / 3600) + r;
    assert r == 60 * (r / 60) + r % 60;
    assert r % 60 == seconds % 60 by {
      assert seconds == 60 * (60 * (seconds / 3600) + r / 60) + r % 60;
    }
  }

  /** Different durations never show the same display. */
  lemma FormatDurationInjective(a: nat, b: nat)
    requires FormatDuration(a) == FormatDuration(b)
    ensures a == b
  {
    FormatDurationFields(a);
    FormatDurationFields(b);
  }
}
