/** The parts of JavaScript's `Date` the calendar relies on, over a fixed
    local time zone.

    A `Date` is an instant: whole milliseconds since 1970-01-01T00:00:00Z.
    Its local reading adds `zone`, the local offset in milliseconds
    (for instance -5 hours in New York in winter). Local days, hours and
    the calendar date are read from the local reading; the setters build a
    new local reading and subtract `zone` again. */
module JsDate {
  import opened Gregorian

  type Instant = int

  const MsPerSecond := 1000
  const MsPerMinute := 60000
  const MsPerHour := 3600000
  const MsPerDay := 86400000

  /** The local day number of an instant (0 is 1970-01-01). */
  function LocalDay(zone: int, t: Instant): int
  {
    (t + zone) / MsPerDay
  }

  /** Milliseconds since local midnight. */
  function TimeInDay(zone: int, t: Instant): (r: int)
    ensures 0 <= r < MsPerDay
    ensures LocalDay(zone, t) * MsPerDay + r == t + zone
  {
    (t + zone) % MsPerDay
  }

  /** `getHours()`. */
  function GetHours(zone: int, t: Instant): (h: int)
    ensures 0 <= h < 24
  {
    TimeInDay(zone, t) / MsPerHour
  }

  /** `getMinutes()`. */
  function GetMinutes(zone: int, t: Instant): (m: int)
    ensures 0 <= m < 60
  {
    TimeInDay(zone, t) / MsPerMinute % 60
  }

  /** `getFullYear()`, `getMonth()` (0..11), `getDate()` (1..31) and `getDay()` (0 is Sunday). */
  function GetFullYear(zone: int, t: Instant): int { YearOf(LocalDay(zone, t)) }
  function GetMonth(zone: int, t: Instant): (m: int)
    ensures 0 <= m < 12
  {
    MonthOf(LocalDay(zone, t))
  }

  function GetDate(zone: int, t: Instant): (d: int)
    ensures 1 <= d <= 31
  {
    DateOf(LocalDay(zone, t))
  }

  function GetDay(zone: int, t: Instant): int { DayOfWeek(LocalDay(zone, t)) }

  /** The instant whose local reading is local day `day` plus `time` milliseconds. */
  function FromLocal(zone: int, day: int, time: int): Instant
  {
    day * MsPerDay + time - zone
  }

  /** `setHours(h, m, s, ms)`: the same local day at the given time of day;
      arguments past their usual range carry on into later (or earlier) days. */
  function SetHours(zone: int, t: Instant, h: int, m: int, s: int, ms: int): Instant
  {
    FromLocal(zone, LocalDay(zone, t), h * MsPerHour + m * MsPerMinute + s * MsPerSecond + ms)
  }

  /** `setDate(d)`: day `d` of the same local year and month, counting on
      from the 1st, at the same time of day. */
  function SetDate(zone: int, t: Instant, d: int): Instant
  {
    var day := LocalDay(zone, t);
    FromLocal(zone, MakeDay(YearOf(day), MonthOf(day), d), TimeInDay(zone, t))
  }

  /** `setMonth(m)`: month `m` (carrying into the year) of the same local
      year, same day of month and time of day. */
  function SetMonth(zone: int, t: Instant, m: int): Instant
  {
    var day := LocalDay(zone, t);
    FromLocal(zone, MakeDay(YearOf(day), m, DateOf(day)), TimeInDay(zone, t))
  }

  /** Local midnight of a calendar date, with no special treatment of any year. */
  function MidnightOf(zone: int, y: int, m: int, d: int): Instant
  {
    FromLocal(zone, MakeDay(y, m, d), 0)
  }

  /** `new Date(y, m, d)`: local midnight of the date; a year 0..99 is read
      as 1900..1999. */
  function NewDate(zone: int, y: int, m: int, d: int): Instant
  {
    MidnightOf(zone, if 0 <= y <= 99 then 1900 + y else y, m, d)
  }

  /** `a.toDateString() === b.toDateString()`: the same local calendar date. */
  predicate SameDate(zone: int, a: Instant, b: Instant)
  {
    CivilOf(LocalDay(zone, a)) == CivilOf(LocalDay(zone, b))
  }

  /** `Array.from({ length: n }, (_, i) => { d = new Date(start); d.setDate(start.getDate() + i) })`:
      the `n` dates counting on from `start` one day at a time. */
  function DaysFrom(zone: int, start: Instant, n: nat): seq<Instant>
  {
    seq(n, i => SetDate(zone, start, GetDate(zone, start) + i))
  }

  /** `d.setDate(d.getDate() - d.getDay())`: the Sunday on or before `t`. */
  function SundayOnOrBefore(zone: int, t: Instant): Instant
  {
    SetDate(zone, t, GetDate(zone, t) - GetDay(zone, t))
  }

  // ---------------------------------------------------------------
  // Properties
  // ---------------------------------------------------------------

  /** Reading back an instant built from a local day and a time of day. */
  lemma FromLocalParts(zone: int, day: int, time: int)
    requires 0 <= time < MsPerDay
    ensures LocalDay(zone, FromLocal(zone, day, time)) == day
    ensures TimeInDay(zone, FromLocal(zone, day, time)) == time
  {
    var t := FromLocal(zone, day, time);
    assert t + zone == day * MsPerDay + time;
  }

  /** An instant is its local day and its time of day put back together. */
  lemma FromLocalOfParts(zone: int, t: Instant)
    ensures FromLocal(zone, LocalDay(zone, t), TimeInDay(zone, t)) == t
  {
  }

  /** Moving a whole number of days moves the local day by that number and
      keeps the time of day. */
  lemma ShiftDays(zone: int, t: Instant, k: int)
    ensures LocalDay(zone, t + k * MsPerDay) == LocalDay(zone, t) + k
    ensures TimeInDay(zone, t + k * MsPerDay) == TimeInDay(zone, t)
  {
    FromLocalParts(zone, LocalDay(zone, t) + k, TimeInDay(zone, t));
  }

  /** Setting hours 0..23 and minutes 0..59 lands on that local time of the same day. */
  lemma SetHoursReads(zone: int, t: Instant, h: int, m: int)
    requires 0 <= h < 24 && 0 <= m < 60
    ensures LocalDay(zone, SetHours(zone, t, h, m, 0, 0)) == LocalDay(zone, t)
    ensures TimeInDay(zone, SetHours(zone, t, h, m, 0, 0)) == h * MsPerHour + m * MsPerMinute
    ensures GetHours(zone, SetHours(zone, t, h, m, 0, 0)) == h
    ensures GetMinutes(zone, SetHours(zone, t, h, m, 0, 0)) == m
  {
    var time := h * MsPerHour + m * MsPerMinute;
    FromLocalParts(zone, LocalDay(zone, t), time);
    assert time / MsPerHour == h;
    assert time / MsPerMinute == 60 * h + m;
  }

  /** `setDate(getDate() + k)` moves exactly `k` days, across month and year ends. */
  lemma SetDateShift(zone: int, t: Instant, k: int)
    ensures SetDate(zone, t, GetDate(zone, t) + k) == t + k * MsPerDay
  {
    var day := LocalDay(zone, t);
    MakeDayInYear(YearOf(day), MonthOf(day), DateOf(day) + k);
    DayOfFirstOfCivil(day);
  }

  /** Two instants show the same local date exactly when they fall on the same local day. */
  lemma SameDateIff(zone: int, a: Instant, b: Instant)
    ensures SameDate(zone, a, b) <==> LocalDay(zone, a) == LocalDay(zone, b)
  {
    DayOfFirstOfCivil(LocalDay(zone, a));
    DayOfFirstOfCivil(LocalDay(zone, b));
  }

  /** The dates counted on from `start` are whole days apart, at its time of day. */
  lemma DaysFromShift(zone: int, start: Instant, n: nat)
    ensures |DaysFrom(zone, start, n)| == n
    ensures forall i :: 0 <= i < n ==> DaysFrom(zone, start, n)[i] == start + i * MsPerDay
    ensures forall i :: 0 <= i < n ==> LocalDay(zone, DaysFrom(zone, start, n)[i]) == LocalDay(zone, start) + i
    ensures forall i :: 0 <= i < n ==> TimeInDay(zone, DaysFrom(zone, start, n)[i]) == TimeInDay(zone, start)
  {
    forall i | 0 <= i < n
      ensures DaysFrom(zone, start, n)[i] == start + i * MsPerDay
      ensures LocalDay(zone, DaysFrom(zone, start, n)[i]) == LocalDay(zone, start) + i
      ensures TimeInDay(zone, DaysFrom(zone, start, n)[i]) == TimeInDay(zone, start)
    {
      SetDateShift(zone, start, i);
      ShiftDays(zone, start, i);
    }
  }

  /** Moving back by the day of the week lands on a Sunday, whole days
      earlier, at the same time of day. */
  lemma SundayOnOrBeforeDay(zone: int, t: Instant)
    ensures SundayOnOrBefore(zone, t) == t - GetDay(zone, t) * MsPerDay
    ensures LocalDay(zone, SundayOnOrBefore(zone, t)) == LocalDay(zone, t) - GetDay(zone, t)
    ensures TimeInDay(zone, SundayOnOrBefore(zone, t)) == TimeInDay(zone, t)
    ensures GetDay(zone, SundayOnOrBefore(zone, t)) == 0
  {
    var w := GetDay(zone, t);
    SetDateShift(zone, t, -w);
    ShiftDays(zone, t, -w);
    SundayBefore(LocalDay(zone, t));
  }

  /** Going back by its day of the week from any day reaches a Sunday. */
  lemma SundayBefore(n: int)
    ensures DayOfWeek(n - DayOfWeek(n)) == 0
  {
    var w := DayOfWeek(n);
    assert (n - w) % 7 == 3;
    assert (n - w + 4) % 7 == 0;
  }

  /** `setMonth(m)` lands on day `getDate()` of month `m % 12` of year
      `getFullYear() + m / 12` (that day counted on from the 1st), at the
      same time of day. */
  lemma SetMonthLands(zone: int, t: Instant, m: int)
    ensures LocalDay(zone, SetMonth(zone, t, m))
         == DayOfFirst(GetFullYear(zone, t) + m / 12, m % 12) + GetDate(zone, t) - 1
    ensures TimeInDay(zone, SetMonth(zone, t, m)) == TimeInDay(zone, t)
  {
    var day := LocalDay(zone, t);
    FromLocalParts(zone, MakeDay(YearOf(day), m, DateOf(day)), TimeInDay(zone, t));
  }
}
