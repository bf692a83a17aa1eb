/**
 * The stopwatch display: a millisecond count rendered as hours, minutes and
 * seconds, each field written in decimal and zero-padded to at least two
 * digits, separated by ':'. Sub-second milliseconds are dropped.
 *
 * Only non-negative counts are modelled; the stopwatch never produces others.
 */
module TimeFormat {
  import opened Wrappers

  const MillisPerSecond: nat := 1000
  const SecondsPerMinute: nat := 60
  const SecondsPerHour: nat := 3600

  datatype Clock = Clock(hours: nat, minutes: nat, seconds: nat)

  /** The whole seconds of `ms` split into hours, minutes and seconds. */
  function Split(ms: nat): (c: Clock)
    ensures c.hours * SecondsPerHour + c.minutes * SecondsPerMinute + c.seconds == ms / MillisPerSecond
    ensures c.minutes < 60 && c.seconds < 60
  {
    var total := ms / MillisPerSecond;
    var c := Clock(total / SecondsPerHour, (total % SecondsPerHour) / SecondsPerMinute, total % SecondsPerMinute);
    SplitSeconds(total);
    c
  }

  lemma SplitSeconds(total: nat)
    ensures (total / 3600) * 3600 + ((total % 3600) / 60) * 60 + total % 60 == total
    ensures (total % 3600) / 60 < 60
  {
    var h, rest := total / 3600, total % 3600;
    assert total == h * 3600 + rest;
    var m, sec := rest / 60, rest % 60;
    assert rest == m * 60 + sec;
    assert total == (h * 60 + m) * 60 + sec;
    assert total % 60 == sec;
  }

  predicate IsDigit(c: char) {
    '0' <= c <= '9'
  }

  predicate AllDigits(s: string) {
    forall i :: 0 <= i < |s| ==> IsDigit(s[i])
  }

  function DigitChar(d: nat): (c: char)
    requires d < 10
    ensures IsDigit(c)
  {
    ('0' as int + d) as char
  }

  function DigitValue(c: char): (d: nat)
    requires IsDigit(c)
    ensures d < 10
  {
    c as int - '0' as int
  }

  /** `n` in decimal with no leading zeros. */
  function Decimal(n: nat): (s: string)
    ensures 1 <= |s| && AllDigits(s)
    ensures s[0] == '0' ==> n == 0
    ensures n < 10 <==> |s| == 1
    ensures 10 <= n < 100 ==> |s| == 2
    decreases n
  {
    if n < 10 then [DigitChar(n)] else Decimal(n / 10) + [DigitChar(n % 10)]
  }

  /** `n` in decimal, zero-padded on the left to at least two digits: the
      digits read back as `n`, and a leading zero appears only as padding. */
  function Pad2(n: nat): (s: string)
    ensures 2 <= |s| && AllDigits(s)
    ensures n < 100 <==> |s| == 2
    ensures ParseDecimal(s) == n
    ensures s[0] == '0' ==> n < 10
  {
    ParseDecimalOfDecimal(n);
    if n < 10 then
      ParseDecimalLeadingZero(Decimal(n));
      "0" + Decimal(n)
    else
      Decimal(n)
  }

  /** The display of an elapsed time of `ms` milliseconds: HH:MM:SS, the hours
      field growing beyond two digits when needed. */
  function FormatTime(ms: nat): (t: string)
    ensures 8 <= |t|
    ensures t[|t| - 6] == ':' && t[|t| - 3] == ':'
    ensures AllDigits(t[..|t| - 6]) && AllDigits(t[|t| - 5..|t| - 3]) && AllDigits(t[|t| - 2..])
    ensures |t| == 8 <==> Split(ms).hours < 100
    ensures ParseDecimal(t[..|t| - 6]) == Split(ms).hours
    ensures ParseDecimal(t[|t| - 5..|t| - 3]) == Split(ms).minutes
    ensures ParseDecimal(t[|t| - 2..]) == Split(ms).seconds
    ensures t[0] == '0' ==> Split(ms).hours < 10
  {
    var c := Split(ms);
    var h, m, s := Pad2(c.hours), Pad2(c.minutes), Pad2(c.seconds);
    var t := h + ":" + m + ":" + s;
    assert t[..|t| - 6] == h;
    assert t[|t| - 5..|t| - 3] == m;
    assert t[|t| - 2..] == s;
    t
  }

  /** The value of a string of decimal digits; leading zeros are allowed. */
  function ParseDecimal(s: string): nat
    requires AllDigits(s)
    decreases |s|
  {
    if |s| == 0 then 0 else ParseDecimal(s[..|s| - 1]) * 10 + DigitValue(s[|s| - 1])
  }

  /** Reads a display back into whole seconds: `None` unless it has the
      shape digits ':' two digits ':' two digits. */
  function ParseTime(t: string): Option<nat> {
    if 8 <= |t| && t[|t| - 6] == ':' && t[|t| - 3] == ':'
       && AllDigits(t[..|t| - 6]) && AllDigits(t[|t| - 5..|t| - 3]) && AllDigits(t[|t| - 2..])
    then
      Some(ParseDecimal(t[..|t| - 6]) * SecondsPerHour
           + ParseDecimal(t[|t| - 5..|t| - 3]) * SecondsPerMinute
           + ParseDecimal(t[|t| - 2..]))
    else None
  }

  lemma {:induction false} ParseDecimalOfDecimal(n: nat)
    ensures ParseDecimal(Decimal(n)) == n
    decreases n
  {
    if n >= 10 {
      var s := Decimal(n);
      assert s[..|s| - 1] == Decimal(n / 10);
      ParseDecimalOfDecimal(n / 10);
    }
  }

  /** A leading zero does not change the value read. */
  lemma {:induction false} ParseDecimalLeadingZero(s: string)
    requires AllDigits(s)
    ensures AllDigits("0" + s) && ParseDecimal("0" + s) == ParseDecimal(s)
    decreases |s|
  {
    var z := "0" + s;
    if |s| != 0 {
      assert z[..|z| - 1] == "0" + s[..|s| - 1];
      ParseDecimalLeadingZero(s[..|s| - 1]);
    }
  }

  /** Reading the display back yields the whole seconds of the elapsed time. */
  lemma ParseFormatTime(ms: nat)
    ensures ParseTime(FormatTime(ms)) == Some(ms / MillisPerSecond)
  {
  }

  /** Two elapsed times show the same display exactly when they have the same
      number of whole seconds. */
  lemma FormatTimeSameDisplay(a: nat, b: nat)
    ensures FormatTime(a) == FormatTime(b) <==> a / MillisPerSecond == b / MillisPerSecond
  {
    ParseFormatTime(a);
    ParseFormatTime(b);
  }

  /** The sub-second part of the count never shows. */
  lemma FormatTimeTruncates(ms: nat)
    ensures FormatTime(ms) == FormatTime(ms - ms % MillisPerSecond)
  {
    assert (ms - ms % 1000) / 1000 == ms / 1000;
    FormatTimeSameDisplay(ms, ms - ms % MillisPerSecond);
  }

  /** Below 100 hours the display is exactly eight characters long. */
  lemma FormatTimeLength(ms: nat)
    requires ms < 100 * SecondsPerHour * MillisPerSecond
    ensures |FormatTime(ms)| == 8
  {
    var c := Split(ms);
    assert c.hours * SecondsPerHour <= ms / MillisPerSecond;
  }
}
