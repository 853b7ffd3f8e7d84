/** Display formatting (app/services/display.py): durations and times of
    day as "HH:MM" text, and the weekend test the pages use. Durations are
    whole seconds; text is a sequence of characters. */
module Display {
  import opened Wrappers
  import opened Timely
  import opened Dates
  import CalendarService

  // ---------------------------------------------------------------------
  // Decimal digits

  predicate IsDigit(c: char) {
    '0' <= c <= '9'
  }

  predicate AllDigits(s: string) {
    forall i :: 0 <= i < |s| ==> IsDigit(s[i])
  }

  function DigitChar(n: nat): (c: char)
    requires n < 10
    ensures IsDigit(c) && c as int - '0' as int == n
  {
    ('0' as int + n) as char
  }

  function DigitValue(c: char): (n: nat)
    requires IsDigit(c)
    ensures n < 10
  {
    c as int - '0' as int
  }

  /** `str(n)`: decimal notation without leading zeros. */
  function Decimal(n: nat): (s: string)
    ensures AllDigits(s)
    ensures 1 <= |s|
    ensures n < 10 <==> |s| == 1
    ensures n < 100 <==> |s| <= 2
    ensures |s| > 1 ==> s[0] != '0'
  {
    if n < 10 then [DigitChar(n)] else Decimal(n / 10) + [DigitChar(n % 10)]
  }

  /** The number that a string of decimal digits denotes. */
  function ParseDecimal(s: string): (n: nat)
    requires AllDigits(s)
  {
    if |s| == 0 then 0 else ParseDecimal(s[..|s| - 1]) * 10 + DigitValue(s[|s| - 1])
  }

  lemma {:induction false} DecimalRoundTrip(n: nat)
    ensures ParseDecimal(Decimal(n)) == n
  {
    if n >= 10 {
      var s := Decimal(n);
      assert s[..|s| - 1] == Decimal(n / 10);
      DecimalRoundTrip(n / 10);
    }
  }

  /** Leading zeros do not change the value. */
  lemma {:induction false} LeadingZero(s: string)
    requires AllDigits(s)
    ensures AllDigits("0" + s) && ParseDecimal("0" + s) == ParseDecimal(s)
  {
    var t := "0" + s;
    if |s| > 0 {
      assert t[..|t| - 1] == "0" + s[..|s| - 1];
      LeadingZero(s[..|s| - 1]);
    }
  }

  /** Powers of ten, for bounding the value of a digit string by its length. */
  function Pow10(k: nat): (p: nat)
    ensures p >= 1
  {
    if k == 0 then 1 else 10 * Pow10(k - 1)
  }

  lemma {:induction false} Pow10Grows(i: nat, j: nat)
    requires i <= j
    ensures Pow10(i) <= Pow10(j)
  {
    if i < j {
      Pow10Grows(i, j - 1);
    }
  }

  /** A string of `k` digits denotes a number below `10^k`. */
  lemma {:induction false} ParseDecimalBelow(s: string)
    requires AllDigits(s)
    ensures ParseDecimal(s) < Pow10(|s|)
  {
    if |s| > 0 {
      ParseDecimalBelow(s[..|s| - 1]);
    }
  }

  /** A string of `k` digits that does not start with 0 denotes at least `10^(k-1)`. */
  lemma {:induction false} ParseDecimalAtLeast(s: string)
    requires AllDigits(s) && |s| > 0 && s[0] != '0'
    ensures ParseDecimal(s) >= Pow10(|s| - 1)
  {
    if |s| > 1 {
      var t := s[..|s| - 1];
      assert t[0] == s[0];
      ParseDecimalAtLeast(t);
    }
  }

  /** The last digit is the value mod 10, and the digits before it denote the value div 10. */
  lemma LastDigit(s: string)
    requires AllDigits(s) && |s| > 0
    ensures DigitValue(s[|s| - 1]) == ParseDecimal(s) % 10
    ensures ParseDecimal(s[..|s| - 1]) == ParseDecimal(s) / 10
  {
  }

  /** Two digit strings of one length with one value are the same string. */
  lemma {:induction false} SameLengthSameValue(a: string, b: string)
    requires AllDigits(a) && AllDigits(b) && |a| == |b|
    requires ParseDecimal(a) == ParseDecimal(b)
    ensures a == b
  {
    if |a| > 0 {
      var n := |a| - 1;
      LastDigit(a);
      LastDigit(b);
      assert a[n] == b[n];
      SameLengthSameValue(a[..n], b[..n]);
      assert a == a[..n] + [a[n]] && b == b[..n] + [b[n]];
    }
  }

  /** The hour digits the display writes: at least two, and a leading
      zero only to pad a number below ten. */
  predicate HourDigits(h: string) {
    AllDigits(h) && |h| >= 2 && (|h| > 2 ==> h[0] != '0')
  }

  /** A longer hour-digit text denotes a larger number. */
  lemma LongerHourDigitsAreLarger(a: string, b: string)
    requires HourDigits(a) && HourDigits(b) && |a| < |b|
    ensures ParseDecimal(a) < ParseDecimal(b)
  {
    ParseDecimalBelow(a);
    ParseDecimalAtLeast(b);
    Pow10Grows(|a|, |b| - 1);
  }

  /** Each number has exactly one hour-digit text. */
  lemma HourDigitsUnique(a: string, b: string)
    requires HourDigits(a) && HourDigits(b)
    requires ParseDecimal(a) == ParseDecimal(b)
    ensures a == b
  {
    if |a| < |b| {
      LongerHourDigitsAreLarger(a, b);
    } else if |b| < |a| {
      LongerHourDigitsAreLarger(b, a);
    } else {
      SameLengthSameValue(a, b);
    }
  }

  /** `f"{n:02d}"`: zero-padded to at least two digits; more digits are kept. */
  function Pad2(n: nat): (s: string)
    ensures AllDigits(s) && ParseDecimal(s) == n
    ensures 2 <= |s|
    ensures n < 100 <==> |s| == 2
    ensures |s| > 2 ==> s[0] != '0'
  {
    DecimalRoundTrip(n);
    if n < 10 then
      LeadingZero(Decimal(n));
      "0" + Decimal(n)
    else Decimal(n)
  }

  // ---------------------------------------------------------------------
  // Reading the text back

  /** Reads "H...H:MM": at least two hour digits, a colon, two minute digits. */
  function ParseClock(s: string): (r: Option<(nat, nat)>)
  {
    if |s| >= 5 && s[|s| - 3] == ':' && AllDigits(s[..|s| - 3]) && AllDigits(s[|s| - 2..])
    then Some((ParseDecimal(s[..|s| - 3]), ParseDecimal(s[|s| - 2..])))
    else None
  }

  /** Reads an optional minus sign followed by a clock text. */
  function ParseSigned(s: string): (r: Option<(bool, nat, nat)>)
  {
    if |s| > 0 && s[0] == '-' then
      match ParseClock(s[1..])
      case Some((h, m)) => Some((true, h, m))
      case None => None
    else
      match ParseClock(s)
      case Some((h, m)) => Some((false, h, m))
      case None => None
  }

  /** A clock text whose hours are written as the display writes them. */
  predicate CanonicalClock(t: string) {
    |t| >= 5 && HourDigits(t[..|t| - 3])
  }

  /** An optional minus sign followed by a canonical clock text. */
  predicate CanonicalSigned(s: string) {
    if |s| > 0 && s[0] == '-' then CanonicalClock(s[1..]) else CanonicalClock(s)
  }

  /** `s` is a canonical signed text that reads back as the sign, hours and minutes. */
  predicate ShowsSigned(s: string, negative: bool, hours: nat, minutes: nat) {
    ParseSigned(s) == Some((negative, hours, minutes)) && CanonicalSigned(s)
  }

  /** Two canonical clock texts that read back the same are the same text. */
  lemma CanonicalClockUnique(a: string, b: string)
    requires CanonicalClock(a) && CanonicalClock(b)
    requires ParseClock(a).Some? && ParseClock(a) == ParseClock(b)
    ensures a == b
  {
    var ha, hb := a[..|a| - 3], b[..|b| - 3];
    var ma, mb := a[|a| - 2..], b[|b| - 2..];
    HourDigitsUnique(ha, hb);
    SameLengthSameValue(ma, mb);
    assert a == ha + ":" + ma;
    assert b == hb + ":" + mb;
  }

  /** A minus sign in front of a clock text reads as a negative sign. */
  lemma SignedClock(t: string)
    requires CanonicalClock(t) && ParseClock(t).Some?
    ensures CanonicalSigned("-" + t)
    ensures ParseSigned("-" + t) == Some((true, ParseClock(t).value.0, ParseClock(t).value.1))
  {
    assert ("-" + t)[1..] == t;
  }

  /** A clock text alone reads as a non-negative sign. */
  lemma UnsignedClock(t: string)
    requires CanonicalClock(t) && ParseClock(t).Some?
    ensures CanonicalSigned(t)
    ensures ParseSigned(t) == Some((false, ParseClock(t).value.0, ParseClock(t).value.1))
  {
    UnsignedHasNoSign(t);
  }

  /** A minus sign cannot be read as an hour digit. */
  lemma UnsignedHasNoSign(s: string)
    requires ParseClock(s).Some?
    ensures |s| > 0 && s[0] != '-'
  {
    assert s[0] == s[..|s| - 3][0];
  }

  // ---------------------------------------------------------------------
  // Formatting

  /** `_timedelta_to_str` on a non-negative number of seconds: whole hours,
      a colon, and the minutes of the hour; leftover seconds are dropped. */
  function ClockText(seconds: nat): (s: string)
    ensures |s| >= 5 && s[|s| - 3] == ':'
    ensures ParseClock(s) == Some((seconds / 3600, seconds / 60 % 60))
    ensures CanonicalClock(s)
    ensures seconds < 100 * 3600 <==> |s| == 5
  {
    var hh := Pad2(seconds / 3600);
    var mm := Pad2(seconds / 60 % 60);
    var s := hh + ":" + mm;
    assert s[..|s| - 3] == hh && s[|s| - 2..] == mm;
    s
  }

  /** The hours and minutes shown are the duration rounded down to a whole minute. */
  lemma ClockTextTruncates(seconds: nat)
    ensures ParseClock(ClockText(seconds)).Some?
    ensures var (h, m) := ParseClock(ClockText(seconds)).value;
      && m < 60
      && h * 3600 + m * 60 <= seconds < h * 3600 + m * 60 + 60
  {
    var minutes := seconds / 60;
    assert minutes * 60 <= seconds < minutes * 60 + 60;
    assert minutes / 60 * 60 + minutes % 60 == minutes;
    assert seconds / 3600 == minutes / 60;
  }

  /** `DisplayService.format_timedelta`: "" for no duration; a negative
      duration is a minus sign followed by the text of its magnitude. */
  function FormatTimedelta(d: Option<Duration>): (s: string)
    ensures d.None? <==> s == ""
    ensures d.Some? ==>
      ShowsSigned(s, d.value < 0, Magnitude(d.value) / 3600, Magnitude(d.value) / 60 % 60)
  {
    if d.None? then "" else SignedText(d.value < 0, Magnitude(d.value))
  }

  /** The absolute value of a duration. */
  function Magnitude(v: Duration): (m: nat)
    ensures m == v || m == -v
  {
    if v < 0 then -v else v
  }

  /** A clock text, preceded by a minus sign when `negative`. */
  function SignedText(negative: bool, seconds: nat): (s: string)
    ensures ShowsSigned(s, negative, seconds / 3600, seconds / 60 % 60)
    ensures |s| >= 5
  {
    var t := ClockText(seconds);
    if negative then
      SignedClock(t);
      "-" + t
    else
      UnsignedClock(t);
      t
  }

  /** The shown text is the only canonical text that reads back as the
      sign, hours and minutes of the duration. */
  lemma FormatTimedeltaIsTheOnlyReading(v: Duration, s: string)
    requires CanonicalSigned(s)
    requires ParseSigned(s) == ParseSigned(FormatTimedelta(Some(v)))
    ensures s == FormatTimedelta(Some(v))
  {
    var f := FormatTimedelta(Some(v));
    if v < 0 {
      assert s[0] == '-' && f[0] == '-';
      CanonicalClockUnique(s[1..], f[1..]);
      assert s == [s[0]] + s[1..] && f == [f[0]] + f[1..];
    } else {
      CanonicalClockUnique(s, f);
    }
  }

  /** `DisplayService.format_time`: "" for no time; otherwise the 24-hour
      "HH:MM" text. Every time of day, midnight included, is shown. */
  function FormatTime(t: Option<TimeOfDay>): (s: string)
    ensures t.None? <==> s == ""
    ensures t.Some? ==> |s| == 5 && ParseClock(s) == Some((t.value / 3600, t.value / 60 % 60))
    ensures t.Some? ==> t.value / 3600 < 24
  {
    match t
    case None => ""
    case Some(v) => ClockText(v)
  }

  lemma MidnightIsShown()
    ensures FormatTime(Some(0)) == "00:00"
  {
  }

  lemma SmallPads()
    ensures Pad2(0) == "00" && Pad2(1) == "01"
  {
    assert DigitChar(0) == '0' && DigitChar(1) == '1';
  }

  /** Ninety seconds show as one minute. */
  lemma SubMinuteSecondsDropped()
    ensures FormatTimedelta(Some(90)) == "00:01"
  {
    SmallPads();
  }

  /** `DisplayService.is_weekend`: Saturday or Sunday. */
  function IsWeekend(d: Date): (r: bool)
    ensures r <==> !CalendarService.IsWorkDay(d)
  {
    Weekday(d) >= 5
  }
}
