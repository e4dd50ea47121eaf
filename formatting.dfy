/** The two text formatters of the tide clock: `formatTime`, which renders a
    duration in milliseconds as HH:MM:SS, and `formatDateTimeLocal`, which
    renders local date-time components as the value of a
    `datetime-local` input field (YYYY-MM-DDTHH:MM). */
module Formatting {
  import opened Wrappers
  import opened JsText

  /** `String(n).padStart(2, '0')`: at least two characters; for a
      non-negative n all digits that read back as n, zero-padded only up to
      two characters; a negative n is already two characters long and
      stays `String(n)`. */
  function Pad2(n: int): (r: string)
    ensures |r| >= 2
    ensures n >= 0 ==> AllDigits(r) && DigitsValue(r) == n
    ensures n >= 0 && |r| > 2 ==> r[0] != '0'
    ensures n < 0 ==> r == IntToString(n)
  {
    if n >= 0 then
      PaddedNatRoundTrip(n, 2);
      PadStartZero(IntToString(n), 2)
    else
      PadStartZero(IntToString(n), 2)
  }

  /** A field in 0..99 is rendered as exactly two digits that read back as it. */
  lemma TwoDigitField(n: int)
    requires 0 <= n < 100
    ensures |Pad2(n)| == 2 && AllDigits(Pad2(n)) && DigitsValue(Pad2(n)) == n
  {
    NatToStringWidth(n, 2);
    assert Pow10(2) == 100;
    PaddedNatRoundTrip(n, 2);
  }

  /** A non-negative field is rendered as at least two digits that read back as it. */
  lemma WideField(n: int)
    requires n >= 0
    ensures |Pad2(n)| >= 2 && AllDigits(Pad2(n)) && DigitsValue(Pad2(n)) == n
    ensures |Pad2(n)| == 2 <==> n < 100
  {
    NatToStringWidth(n, 2);
    assert Pow10(2) == 100;
    PaddedNatRoundTrip(n, 2);
  }

  /** `formatTime(ms)`: whole seconds (`Math.floor(ms / 1000)`) split into
      hours, minutes and seconds, each padded to two characters. For a
      non-negative duration the text reads back as its whole seconds. */
  function FormatTime(ms: int): (r: string)
    ensures |r| >= 8 && r != "N/A"
    ensures ms >= 0 ==> IsClockText(r, ms / 1000)
  {
    var totalSeconds := ms / 1000;
    var hours := totalSeconds / 3600;
    var minutes := JsRem(totalSeconds, 3600) / 60;
    var seconds := JsRem(totalSeconds, 60);
    if totalSeconds >= 0 then
      ClockTextOfSeconds(totalSeconds);
      Pad2(hours) + ":" + Pad2(minutes) + ":" + Pad2(seconds)
    else
      Pad2(hours) + ":" + Pad2(minutes) + ":" + Pad2(seconds)
  }

  /** `r` is an HH:MM:SS clock text: an hour field of two or more digits
      (with no leading zero once it is wider than two), a minute and a
      second field of two digits each below 60, separated by colons, that
      together stand for `total` seconds. */
  predicate IsClockText(r: string, total: int) {
    var n := |r|;
    n >= 8 && r[n - 6] == ':' && r[n - 3] == ':' && (n > 8 ==> r[0] != '0') &&
    AllDigits(r[..n - 6]) && AllDigits(r[n - 5..n - 3]) && AllDigits(r[n - 2..]) &&
    DigitsValue(r[n - 5..n - 3]) < 60 && DigitsValue(r[n - 2..]) < 60 &&
    DigitsValue(r[..n - 6]) * 3600 + DigitsValue(r[n - 5..n - 3]) * 60 + DigitsValue(r[n - 2..]) == total
  }

  /** The fields formatTime builds from non-negative whole seconds form a
      clock text of those seconds, 8 characters long exactly when the hours
      are below 100. */
  lemma ClockTextOfSeconds(ts: int)
    requires ts >= 0
    ensures var text := Pad2(ts / 3600) + ":" + Pad2(JsRem(ts, 3600) / 60) + ":" + Pad2(JsRem(ts, 60));
      IsClockText(text, ts) && (|text| == 8 <==> ts < 360_000)
  {
    var h, m, s := ts / 3600, JsRem(ts, 3600) / 60, JsRem(ts, 60);
    ClockArithmetic(ts);
    WideField(h);
    TwoDigitField(m);
    TwoDigitField(s);
    ClockTextOfFields(Pad2(h), Pad2(m), Pad2(s), ts);
  }

  /** The text of a non-negative duration is exactly 8 characters long
      precisely when the duration is under 100 hours. */
  lemma FormatTimeWidth(ms: int)
    requires ms >= 0
    ensures |FormatTime(ms)| == 8 <==> ms < 360_000_000
  {
    ClockTextOfSeconds(ms / 1000);
  }

  /** Whole seconds split as formatTime splits them recombine exactly. */
  lemma ClockArithmetic(ts: int)
    requires ts >= 0
    ensures var m, s := JsRem(ts, 3600) / 60, JsRem(ts, 60);
      0 <= m < 60 && 0 <= s < 60 && (ts / 3600) * 3600 + m * 60 + s == ts
  {
    assert JsRem(ts, 3600) == ts % 3600 && JsRem(ts, 60) == ts % 60;
  }

  lemma ClockTextOfFields(a: string, b: string, c: string, total: int)
    requires |a| >= 2 && |b| == 2 && |c| == 2
    requires |a| > 2 ==> a[0] != '0'
    requires AllDigits(a) && AllDigits(b) && AllDigits(c)
    requires DigitsValue(b) < 60 && DigitsValue(c) < 60
    requires DigitsValue(a) * 3600 + DigitsValue(b) * 60 + DigitsValue(c) == total
    ensures IsClockText(a + ":" + b + ":" + c, total)
  {
    var r := a + ":" + b + ":" + c;
    var n := |r|;
    assert r[..n - 6] == a && r[n - 5..n - 3] == b && r[n - 2..] == c;
  }

  /** The local date-time components a `Date` reports: full year, 0-based
      month, day of month, hours and minutes. */
  datatype LocalDateTime = LocalDateTime(year: int, month0: int, day: int, hours: int, minutes: int)

  predicate InCalendarRange(d: LocalDateTime) {
    1000 <= d.year <= 9999 && 0 <= d.month0 < 12 && 1 <= d.day <= 31 &&
    0 <= d.hours < 24 && 0 <= d.minutes < 60
  }

  /** `formatDateTimeLocal(date)`: "N/A" for a missing date, otherwise
      year-month-dayThours:minutes with the month shifted to 1-based and
      every field but the year padded to two characters. For a four-digit
      year and in-range components the text has the fixed 16-character
      layout and every field reads back as its component. */
  function FormatDateTimeLocal(date: Option<LocalDateTime>): (r: string)
    ensures date.None? <==> r == "N/A"
    ensures date.Some? && InCalendarRange(date.value) ==> IsDateTimeLocalText(r, date.value)
  {
    match date
    case None => "N/A"
    case Some(d) =>
      var text := IntToString(d.year) + "-" + Pad2(d.month0 + 1) + "-" + Pad2(d.day) +
        "T" + Pad2(d.hours) + ":" + Pad2(d.minutes);
      if InCalendarRange(d) then
        DateFieldsReadBack(d);
        text
      else
        text
  }

  /** `r` is the 16-character text YYYY-MM-DDTHH:MM whose fields read as the
      components of `d`, the month as month0 + 1. */
  predicate IsDateTimeLocalText(r: string, d: LocalDateTime) {
    |r| == 16 && r[4] == '-' && r[7] == '-' && r[10] == 'T' && r[13] == ':' &&
    AllDigits(r[0..4]) && AllDigits(r[5..7]) && AllDigits(r[8..10]) &&
    AllDigits(r[11..13]) && AllDigits(r[14..16]) &&
    DigitsValue(r[0..4]) == d.year && DigitsValue(r[5..7]) == d.month0 + 1 &&
    DigitsValue(r[8..10]) == d.day && DigitsValue(r[11..13]) == d.hours &&
    DigitsValue(r[14..16]) == d.minutes
  }

  /** A four-digit year is rendered as four digits that read back as it. */
  lemma FourDigitYear(year: int)
    requires 1000 <= year <= 9999
    ensures |IntToString(year)| == 4 && AllDigits(IntToString(year)) && DigitsValue(IntToString(year)) == year
  {
    NatToStringWidth(year, 4);
    NatToStringWidth(year, 3);
    assert Pow10(4) == 10000 && Pow10(3) == 1000;
    NatToStringRoundTrip(year);
  }

  lemma DateFieldsReadBack(d: LocalDateTime)
    requires InCalendarRange(d)
    ensures IsDateTimeLocalText(IntToString(d.year) + "-" + Pad2(d.month0 + 1) + "-" + Pad2(d.day) +
      "T" + Pad2(d.hours) + ":" + Pad2(d.minutes), d)
  {
    FourDigitYear(d.year);
    TwoDigitField(d.month0 + 1);
    TwoDigitField(d.day);
    TwoDigitField(d.hours);
    TwoDigitField(d.minutes);
    DateTextOfFields(IntToString(d.year), Pad2(d.month0 + 1), Pad2(d.day), Pad2(d.hours), Pad2(d.minutes), d);
  }

  lemma DateTextOfFields(y: string, mo: string, da: string, ho: string, mi: string, d: LocalDateTime)
    requires |y| == 4 && |mo| == 2 && |da| == 2 && |ho| == 2 && |mi| == 2
    requires AllDigits(y) && AllDigits(mo) && AllDigits(da) && AllDigits(ho) && AllDigits(mi)
    requires DigitsValue(y) == d.year && DigitsValue(mo) == d.month0 + 1 && DigitsValue(da) == d.day
    requires DigitsValue(ho) == d.hours && DigitsValue(mi) == d.minutes
    ensures IsDateTimeLocalText(y + "-" + mo + "-" + da + "T" + ho + ":" + mi, d)
  {
    DateLayout(y, mo, da, ho, mi);
  }

  /** Where the five fields land in the joined date-time text. */
  lemma DateLayout(y: string, mo: string, da: string, ho: string, mi: string)
    requires |y| == 4 && |mo| == 2 && |da| == 2 && |ho| == 2 && |mi| == 2
    ensures var r := y + "-" + mo + "-" + da + "T" + ho + ":" + mi;
      |r| == 16 && r[4] == '-' && r[7] == '-' && r[10] == 'T' && r[13] == ':' &&
      r[0..4] == y && r[5..7] == mo && r[8..10] == da && r[11..13] == ho && r[14..16] == mi
  {
    var r := y + "-" + mo + "-" + da + "T" + ho + ":" + mi;
    assert forall i | 0 <= i < 2 :: r[5 + i] == mo[i] && r[8 + i] == da[i] && r[11 + i] == ho[i] && r[14 + i] == mi[i];
  }
}
