/** The time-zone helpers: conversions between instants and local `HH:MM`
    text, truncation to the local date, and minute arithmetic on instants.

    ISO 8601 strings are the instants they denote (see JsDate); `HH:MM` text
    is a real string, because the calendar splits and parses it. */
module TimeCodec {
  import opened Wrappers
  import opened Gregorian
  import opened JsDate
  import opened JsText

  /** Hour and minute as `HH:MM`, each zero-padded to two digits. */
  function FormatTime(h: nat, m: nat): string
  {
    TwoDigits(h) + ":" + TwoDigits(m)
  }

  /** A well-formed local time: two digits, a colon, two digits; hour 00..23
      and minute 00..59. */
  predicate WellFormedTime(s: string)
  {
    |s| == 5 && s[2] == ':' && AllDigits(s[..2]) && AllDigits(s[3..])
    && DigitsValue(s[..2]) < 24 && DigitsValue(s[3..]) < 60
  }

  /** `const [hh, mm] = s.split(":").map(Number)`, as hour and minute; None
      when either is NaN or there is no second piece. */
  function ParseTime(s: string): Option<(nat, nat)>
  {
    var parts := Split(s, ':');
    if |parts| < 2 then None
    else
      match (Number(parts[0]), Number(parts[1]))
      case (Some(h), Some(m)) => Some((h, m))
      case _ => None
  }

  /** `isoToLocalTime`: the local wall-clock time of an instant. */
  function IsoToLocalTime(zone: int, t: Instant): (s: string)
    ensures WellFormedTime(s)
    ensures ParseTime(s) == Some((GetHours(zone, t), GetMinutes(zone, t)))
  {
    var h, m := GetHours(zone, t), GetMinutes(zone, t);
    FormatParse(h, m);
    FormatTime(h, m)
  }

  /** `isoToLocalDate` as written: `new Date(year, month, day)` of the local
      date, which reads the years 0..99 as 1900..1999. */
  function IsoToLocalDateAsWritten(zone: int, t: Instant): Instant
  {
    NewDate(zone, GetFullYear(zone, t), GetMonth(zone, t), GetDate(zone, t))
  }

  /** `isoToLocalDate`: local midnight of the instant's local date. */
  function IsoToLocalDate(zone: int, t: Instant): Instant
  {
    MidnightOf(zone, GetFullYear(zone, t), GetMonth(zone, t), GetDate(zone, t))
  }

  /** `localDateAndTimeToUTCISO`: the instant at local time `hhmm` on the
      local day of `localDate`; None where the Date would be invalid
      (`toISOString` then throws). */
  function LocalDateAndTimeToUtc(zone: int, localDate: Instant, hhmm: string): Option<Instant>
  {
    match ParseTime(hhmm)
    case Some((h, m)) => Some(SetHours(zone, localDate, h, m, 0, 0))
    case None => None
  }

  /** `isoAddMinutes`. */
  function IsoAddMinutes(t: Instant, minutes: int): Instant
  {
    t + minutes * MsPerMinute
  }

  /** `minutesBetweenISOs`: the difference rounded to the nearest minute,
      halves rounding up as `Math.round` does. */
  function MinutesBetween(start: Instant, end: Instant): (r: int)
    ensures -MsPerMinute / 2 <= (end - start) - r * MsPerMinute < MsPerMinute / 2
  {
    (end - start + MsPerMinute / 2) / MsPerMinute
  }

  // ---------------------------------------------------------------
  // Properties
  // ---------------------------------------------------------------

  /** Text made of two colon-free pieces around a colon parses to the
      numbers of the two pieces. */
  lemma ParseTwoPieces(a: string, b: string)
    requires ':' !in a && ':' !in b
    ensures ParseTime(a + ":" + b) ==
      if Number(a).Some? && Number(b).Some? then Some((Number(a).value, Number(b).value)) else None
  {
    SplitTwo(a, ':', b);
  }

  /** Formatting an hour and minute below 100 and parsing the text gives them back. */
  lemma FormatParse(h: nat, m: nat)
    requires h < 100 && m < 100
    ensures ParseTime(FormatTime(h, m)) == Some((h, m))
    ensures h < 24 && m < 60 ==> WellFormedTime(FormatTime(h, m))
  {
    TwoDigitsOf(h);
    TwoDigitsOf(m);
    NumberOfTwoDigits(h);
    NumberOfTwoDigits(m);
    ParseTwoPieces(TwoDigits(h), TwoDigits(m));
    var s := FormatTime(h, m);
    assert s[..2] == TwoDigits(h) && s[3..] == TwoDigits(m);
  }

  /** The text before the colon of a formatted time is the hour's two
      digits, which read back as the hour. */
  lemma HourPiece(h: nat, m: nat)
    requires h < 100 && m < 100
    ensures Split(FormatTime(h, m), ':')[0] == TwoDigits(h)
    ensures Number(Split(FormatTime(h, m), ':')[0]) == Some(h)
  {
    var a, b := TwoDigits(h), TwoDigits(m);
    TwoDigitsOf(h);
    TwoDigitsOf(m);
    assert a == [DigitChar(h / 10), DigitChar(h % 10)];
    assert b == [DigitChar(m / 10), DigitChar(m % 10)];
    assert ':' !in a && ':' !in b;
    assert FormatTime(h, m) == a + [':'] + b;
    SplitTwo(a, ':', b);
    NumberOfTwoDigits(h);
  }

  /** A well-formed time is the formatting of the hour and minute it parses to. */
  lemma WellFormedParse(s: string)
    requires WellFormedTime(s)
    ensures ParseTime(s).Some?
    ensures ParseTime(s).value.0 < 24 && ParseTime(s).value.1 < 60
    ensures FormatTime(ParseTime(s).value.0, ParseTime(s).value.1) == s
  {
    WellFormedPieces(s);
    var h, m := DigitsValue(s[..2]), DigitsValue(s[3..]);
    FormatParse(h, m);
  }

  /** A well-formed time parses to an hour below 24 and a minute below 60. */
  lemma WellFormedRange(s: string)
    requires WellFormedTime(s)
    ensures ParseTime(s).Some? && ParseTime(s).value.0 < 24 && ParseTime(s).value.1 < 60
  {
    WellFormedParse(s);
  }

  /** Two well-formed times are the same text exactly when they parse alike. */
  lemma SameTextIff(s: string, t: string)
    requires WellFormedTime(s) && WellFormedTime(t)
    ensures s == t <==> ParseTime(s) == ParseTime(t)
  {
    WellFormedParse(s);
    WellFormedParse(t);
  }

  lemma WellFormedPieces(s: string)
    requires WellFormedTime(s)
    ensures FormatTime(DigitsValue(s[..2]), DigitsValue(s[3..])) == s
  {
    var a, b := s[..2], s[3..];
    assert a == [s[0], s[1]] && b == [s[3], s[4]];
    assert s == a + ":" + b;
    TwoDigitsOfValue(a);
    TwoDigitsOfValue(b);
  }

  /** The local date is local midnight of the same local day. */
  lemma LocalDateIsMidnight(zone: int, t: Instant)
    ensures IsoToLocalDate(zone, t) == FromLocal(zone, LocalDay(zone, t), 0)
    ensures LocalDay(zone, IsoToLocalDate(zone, t)) == LocalDay(zone, t)
    ensures TimeInDay(zone, IsoToLocalDate(zone, t)) == 0
  {
    var day := LocalDay(zone, t);
    MakeDayInYear(YearOf(day), MonthOf(day), DateOf(day));
    DayOfFirstOfCivil(day);
    FromLocalParts(zone, day, 0);
  }

  /** Truncating to the local date (corrected) twice is truncating once. */
  lemma LocalDateIdempotent(zone: int, t: Instant)
    ensures IsoToLocalDate(zone, IsoToLocalDate(zone, t)) == IsoToLocalDate(zone, t)
  {
    LocalDateIsMidnight(zone, t);
    LocalDateIsMidnight(zone, IsoToLocalDate(zone, t));
  }

  /** As written, a local date in the years 0..99 is carried at least 1900
      years forward. */
  lemma LocalDateAsWrittenYearShift(zone: int, t: Instant)
    requires 0 <= GetFullYear(zone, t) <= 99
    ensures LocalDay(zone, IsoToLocalDateAsWritten(zone, t)) >= LocalDay(zone, t) + 365 * 1900
  {
    var day := LocalDay(zone, t);
    var n := MakeDay(1900 + YearOf(day), MonthOf(day), DateOf(day));
    assert IsoToLocalDateAsWritten(zone, t) == FromLocal(zone, n, 0);
    FromLocalParts(zone, n, 0);
    YearShiftDays(day);
  }

  /** Outside the years 0..99 `isoToLocalDate` as written is the corrected
      truncation. */
  lemma LocalDateAsWrittenAgrees(zone: int, t: Instant)
    requires !(0 <= GetFullYear(zone, t) <= 99)
    ensures IsoToLocalDateAsWritten(zone, t) == IsoToLocalDate(zone, t)
  {
  }

  lemma YearShiftDays(day: int)
    ensures MakeDay(1900 + YearOf(day), MonthOf(day), DateOf(day)) >= day + 365 * 1900
  {
    var y, m, d := YearOf(day), MonthOf(day), DateOf(day);
    MakeDayInYear(1900 + y, m, d);
    DayOfFirstOfCivil(day);
    DayOfFirstYearGap(y, 1900 + y, m);
  }

  /** A well-formed `HH:MM` gives an instant on the same local date, at that
      local time, with seconds and milliseconds zero, and reading its local
      time back gives the text again. */
  lemma LocalTimeRoundTrip(zone: int, localDate: Instant, hhmm: string)
    requires WellFormedTime(hhmm)
    ensures LocalDateAndTimeToUtc(zone, localDate, hhmm).Some?
    ensures LocalDay(zone, LocalDateAndTimeToUtc(zone, localDate, hhmm).value) == LocalDay(zone, localDate)
    ensures TimeInDay(zone, LocalDateAndTimeToUtc(zone, localDate, hhmm).value) % MsPerMinute == 0
    ensures IsoToLocalTime(zone, LocalDateAndTimeToUtc(zone, localDate, hhmm).value) == hhmm
  {
    WellFormedParse(hhmm);
    var (h, m) := ParseTime(hhmm).value;
    assert LocalDateAndTimeToUtc(zone, localDate, hhmm) == Some(SetHours(zone, localDate, h, m, 0, 0));
    SetHoursText(zone, localDate, h, m);
  }

  /** Setting the local time to `h:m` keeps the local day and reads back as `h:m`. */
  lemma SetHoursText(zone: int, localDate: Instant, h: int, m: int)
    requires 0 <= h < 24 && 0 <= m < 60
    ensures LocalDay(zone, SetHours(zone, localDate, h, m, 0, 0)) == LocalDay(zone, localDate)
    ensures TimeInDay(zone, SetHours(zone, localDate, h, m, 0, 0)) % MsPerMinute == 0
    ensures IsoToLocalTime(zone, SetHours(zone, localDate, h, m, 0, 0)) == FormatTime(h, m)
  {
    var t := SetHours(zone, localDate, h, m, 0, 0);
    SetHoursReads(zone, localDate, h, m);
    var k := 60 * h + m;
    assert TimeInDay(zone, t) == k * MsPerMinute;
    WholeMinutes(k);
    LocalTimeText(zone, t);
  }

  lemma WholeMinutes(k: int)
    ensures (k * MsPerMinute) % MsPerMinute == 0
  {
  }

  lemma LocalTimeText(zone: int, t: Instant)
    ensures IsoToLocalTime(zone, t) == FormatTime(GetHours(zone, t), GetMinutes(zone, t))
  {
  }

  /** Adding no minutes changes nothing. */
  lemma AddZeroMinutes(t: Instant)
    ensures IsoAddMinutes(t, 0) == t
  {
  }

  /** Adding `a` minutes and then `b` minutes adds `a + b` minutes. */
  lemma AddMinutesTwice(t: Instant, a: int, b: int)
    ensures IsoAddMinutes(IsoAddMinutes(t, a), b) == IsoAddMinutes(t, a + b)
  {
  }

  /** The rounded gap after adding `m` minutes is `m`. */
  lemma MinutesBetweenAdd(start: Instant, m: int)
    ensures MinutesBetween(start, IsoAddMinutes(start, m)) == m
  {
    var r := MinutesBetween(start, IsoAddMinutes(start, m));
    assert -30000 <= (m - r) * MsPerMinute < 30000;
  }

  /** The rounded gap is negative exactly when the end lies more than half a
      minute before the start. */
  lemma MinutesBetweenSign(start: Instant, end: Instant)
    ensures MinutesBetween(start, end) < 0 <==> end - start < -MsPerMinute / 2
  {
  }
}
