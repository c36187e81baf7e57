/** The month view: a grid of 6 weeks of dates starting on the Sunday on or
    before the 1st of the selected month, each cell listing the events that
    start on its date, and a drop on a cell moving the dragged event to that
    date at its old time of day. */
module MonthView {
  import opened Wrappers
  import opened Gregorian
  import opened JsDate
  import opened CalendarTypes
  import opened DragData
  import opened EventList

  const GridSize := 42
  const WeekLength := 7

  /** `startOfMonth` as written: `new Date(year, month, 1)`, which reads the
      years 0..99 as 1900..1999. */
  function StartOfMonthAsWritten(zone: int, selected: Instant): Instant
  {
    NewDate(zone, GetFullYear(zone, selected), GetMonth(zone, selected), 1)
  }

  /** Local midnight of the 1st of the selected date's month. */
  function StartOfMonth(zone: int, selected: Instant): (r: Instant)
    ensures LocalDay(zone, r) == DayOfFirst(GetFullYear(zone, selected), GetMonth(zone, selected))
    ensures TimeInDay(zone, r) == 0
  {
    var y, m := GetFullYear(zone, selected), GetMonth(zone, selected);
    MakeDayInYear(y, m, 1);
    FromLocalParts(zone, MakeDay(y, m, 1), 0);
    MidnightOf(zone, y, m, 1)
  }

  /** `days`: the 42 dates of the grid. */
  function Days(zone: int, selected: Instant): (days: seq<Instant>)
    ensures |days| == GridSize
  {
    DaysFrom(zone, SundayOnOrBefore(zone, StartOfMonth(zone, selected)), GridSize)
  }

  /** `days` as written, from `StartOfMonthAsWritten`. */
  function DaysAsWritten(zone: int, selected: Instant): seq<Instant>
  {
    DaysFrom(zone, SundayOnOrBefore(zone, StartOfMonthAsWritten(zone, selected)), GridSize)
  }

  /** The first `k` rows of 7 of `days`. */
  function Rows(days: seq<Instant>, k: nat): seq<seq<Instant>>
    requires WeekLength * k <= |days|
  {
    seq(k, i requires 0 <= i < k => days[WeekLength * i .. WeekLength * i + WeekLength])
  }

  /** `weeks`: the grid cut into 6 rows of 7. */
  function Weeks(days: seq<Instant>): seq<seq<Instant>>
    requires |days| == GridSize
  {
    Rows(days, 6)
  }

  /** `weeks.flat()`. */
  function Flat(rows: seq<seq<Instant>>): seq<Instant>
  {
    if |rows| == 0 then [] else Flat(rows[..|rows| - 1]) + rows[|rows| - 1]
  }

  /** `isCurrentMonth`: the cell's month number is the selected date's. */
  predicate IsCurrentMonth(zone: int, cell: Instant, selected: Instant)
  {
    GetMonth(zone, cell) == GetMonth(zone, selected)
  }

  /** `dayEvents` of a cell: the events whose start shows the cell's date. */
  function CellEvents(zone: int, events: seq<CalendarEvent>, cell: Instant): seq<CalendarEvent>
  {
    StartsOn(zone, events, LocalDay(zone, cell))
  }

  /** `handleDropOnDay` as written: the `application/json` payload moved to
      the cell's date at its old local hour and minute (seconds and
      milliseconds zeroed), with the exact duration; every other field,
      `date` included, is copied from the payload. None when nothing was dropped. */
  function HandleDropOnDayAsWritten(zone: int, dt: DataTransfer, cell: Instant): Option<CalendarEvent>
  {
    match GetData(dt, JsonFormat)
    case None => None
    case Some(dragged) =>
      var duration := dragged.endTime - dragged.startTime;
      var newStart := SetHours(zone, cell, GetHours(zone, dragged.startTime), GetMinutes(zone, dragged.startTime), 0, 0);
      Some(dragged.(startTime := newStart, endTime := newStart + duration))
  }

  /** `handleDropOnDay`, filing the moved event under the cell's date as the
      week view's drop does. */
  function HandleDropOnDay(zone: int, dt: DataTransfer, cell: Instant): Option<CalendarEvent>
  {
    match HandleDropOnDayAsWritten(zone, dt, cell)
    case None => None
    case Some(moved) => Some(moved.(date := cell))
  }

  // ---------------------------------------------------------------
  // Properties
  // ---------------------------------------------------------------

  /** The grid is 42 dates at local midnight, each one day after the one before. */
  lemma DaysConsecutive(zone: int, selected: Instant)
    ensures |Days(zone, selected)| == GridSize
    ensures forall i :: 0 <= i < GridSize - 1 ==> Days(zone, selected)[i + 1] == Days(zone, selected)[i] + MsPerDay
    ensures forall i :: 0 <= i < GridSize ==>
      LocalDay(zone, Days(zone, selected)[i]) == LocalDay(zone, Days(zone, selected)[0]) + i
    ensures forall i :: 0 <= i < GridSize ==> TimeInDay(zone, Days(zone, selected)[i]) == 0
  {
    var som := StartOfMonth(zone, selected);
    SundayOnOrBeforeDay(zone, som);
    DaysFromShift(zone, SundayOnOrBefore(zone, som), GridSize);
  }

  /** The grid starts on a Sunday at most six days before the 1st of the
      month, and the 1st sits at the index of its day of the week. */
  lemma GridStartsOnSunday(zone: int, selected: Instant)
    ensures |Days(zone, selected)| == GridSize
    ensures GetDay(zone, Days(zone, selected)[0]) == 0
    ensures LocalDay(zone, Days(zone, selected)[0])
         == DayOfFirst(GetFullYear(zone, selected), GetMonth(zone, selected))
          - DayOfWeek(DayOfFirst(GetFullYear(zone, selected), GetMonth(zone, selected)))
    ensures LocalDay(zone, Days(zone, selected)[DayOfWeek(DayOfFirst(GetFullYear(zone, selected), GetMonth(zone, selected)))])
         == DayOfFirst(GetFullYear(zone, selected), GetMonth(zone, selected))
  {
    var som := StartOfMonth(zone, selected);
    SundayOnOrBeforeDay(zone, som);
    DaysFromShift(zone, SundayOnOrBefore(zone, som), GridSize);
  }

  /** Every date of the selected month is in the grid: day `d` at index
      (day of the week of the 1st) + d - 1. */
  lemma GridHasDay(zone: int, selected: Instant, d: int)
    requires 1 <= d <= DaysInMonth(GetFullYear(zone, selected), GetMonth(zone, selected))
    ensures DayOfWeek(DayOfFirst(GetFullYear(zone, selected), GetMonth(zone, selected))) + d - 1 < GridSize
    ensures GetFullYear(zone, Days(zone, selected)[DayOfWeek(DayOfFirst(GetFullYear(zone, selected), GetMonth(zone, selected))) + d - 1])
         == GetFullYear(zone, selected)
    ensures GetMonth(zone, Days(zone, selected)[DayOfWeek(DayOfFirst(GetFullYear(zone, selected), GetMonth(zone, selected))) + d - 1])
         == GetMonth(zone, selected)
    ensures GetDate(zone, Days(zone, selected)[DayOfWeek(DayOfFirst(GetFullYear(zone, selected), GetMonth(zone, selected))) + d - 1])
         == d
  {
    var y, m := GetFullYear(zone, selected), GetMonth(zone, selected);
    var first := DayOfFirst(y, m);
    var i := DayOfWeek(first) + d - 1;
    GridStartsOnSunday(zone, selected);
    DaysConsecutive(zone, selected);
    CivilAt(LocalDay(zone, Days(zone, selected)[i]), y, m, d);
  }

  /** Flattening the first `k` rows gives the first `7 * k` dates. */
  lemma {:induction false} FlatRows(days: seq<Instant>, k: nat)
    requires WeekLength * k <= |days|
    ensures Flat(Rows(days, k)) == days[..WeekLength * k]
  {
    if k > 0 {
      var rows := Rows(days, k);
      assert rows[..k - 1] == Rows(days, k - 1);
      FlatRows(days, k - 1);
      assert days[..WeekLength * k] == days[..WeekLength * (k - 1)] + rows[k - 1];
    }
  }

  /** `weeks` is 6 rows of 7 whose concatenation is the grid. */
  lemma WeeksFlat(days: seq<Instant>)
    requires |days| == GridSize
    ensures |Weeks(days)| == 6
    ensures forall i :: 0 <= i < 6 ==> |Weeks(days)[i]| == WeekLength
    ensures Flat(Weeks(days)) == days
  {
    FlatRows(days, 6);
    assert days[..GridSize] == days;
  }

  /** A cell is marked as in the current month exactly when its date lies in
      the selected month of the selected year: the grid is too short to
      reach that month in another year. */
  lemma CurrentMonthIff(zone: int, selected: Instant, i: int)
    requires 0 <= i < GridSize
    ensures |Days(zone, selected)| == GridSize
    ensures IsCurrentMonth(zone, Days(zone, selected)[i], selected)
        <==> (GetFullYear(zone, Days(zone, selected)[i]) == GetFullYear(zone, selected)
              && GetMonth(zone, Days(zone, selected)[i]) == GetMonth(zone, selected))
  {
    var y, m := GetFullYear(zone, selected), GetMonth(zone, selected);
    var first := DayOfFirst(y, m);
    GridStartsOnSunday(zone, selected);
    DaysConsecutive(zone, selected);
    var n := LocalDay(zone, Days(zone, selected)[i]);
    assert first - 6 <= n <= first + 41;
    if MonthOf(n) == m && YearOf(n) != y {
      OtherYearFarAway(n, y, m, first);
    }
  }

  /** A day in month `m` of a year other than `y` is at least a year away
      from the 1st of month `m` of year `y`. */
  lemma OtherYearFarAway(n: int, y: int, m: int, first: int)
    requires 0 <= m < 12 && first == DayOfFirst(y, m)
    requires MonthOf(n) == m && YearOf(n) != y
    ensures n < first - 300 || first + 300 < n
  {
    var y2 := YearOf(n);
    DayOfFirstOfCivil(n);
    if y2 < y {
      DayOfFirstYearGap(y2, y, m);
    } else {
      DayOfFirstYearGap(y, y2, m);
    }
  }

  /** An event is listed in a cell exactly when it is one of the events and
      its start shows the cell's local date. */
  lemma CellEventsIff(zone: int, events: seq<CalendarEvent>, cell: Instant, e: CalendarEvent)
    ensures e in CellEvents(zone, events, cell) <==> e in events && SameDate(zone, e.startTime, cell)
  {
    StartsOnMember(zone, events, LocalDay(zone, cell), e);
    SameDateIff(zone, e.startTime, cell);
  }

  /** No event is listed in two cells of the grid. */
  lemma CellEventsOneCell(zone: int, events: seq<CalendarEvent>, selected: Instant, i: int, j: int, e: CalendarEvent)
    requires 0 <= i < GridSize && 0 <= j < GridSize
    requires e in CellEvents(zone, events, Days(zone, selected)[i])
    requires e in CellEvents(zone, events, Days(zone, selected)[j])
    ensures i == j
  {
    DaysConsecutive(zone, selected);
    OnOneDayOnly(zone, events, e, LocalDay(zone, Days(zone, selected)[i]), LocalDay(zone, Days(zone, selected)[j]));
  }

  /** With a payload, a drop lands on the cell's local date at the dragged
      start's local hour and minute, with seconds and milliseconds zero,
      keeps the exact duration, and changes nothing but start and end. */
  lemma DropOnDayLands(zone: int, dt: DataTransfer, cell: Instant)
    requires JsonFormat in dt
    ensures HandleDropOnDayAsWritten(zone, dt, cell).Some?
    ensures LocalDay(zone, HandleDropOnDayAsWritten(zone, dt, cell).value.startTime) == LocalDay(zone, cell)
    ensures GetHours(zone, HandleDropOnDayAsWritten(zone, dt, cell).value.startTime) == GetHours(zone, dt[JsonFormat].startTime)
    ensures GetMinutes(zone, HandleDropOnDayAsWritten(zone, dt, cell).value.startTime) == GetMinutes(zone, dt[JsonFormat].startTime)
    ensures TimeInDay(zone, HandleDropOnDayAsWritten(zone, dt, cell).value.startTime) % MsPerMinute == 0
    ensures HandleDropOnDayAsWritten(zone, dt, cell).value.endTime - HandleDropOnDayAsWritten(zone, dt, cell).value.startTime
         == dt[JsonFormat].endTime - dt[JsonFormat].startTime
    ensures HandleDropOnDayAsWritten(zone, dt, cell).value.(startTime := dt[JsonFormat].startTime, endTime := dt[JsonFormat].endTime)
         == dt[JsonFormat]
  {
    var dragged := dt[JsonFormat];
    var h, m := GetHours(zone, dragged.startTime), GetMinutes(zone, dragged.startTime);
    SetHoursReads(zone, cell, h, m);
    assert (h * MsPerHour + m * MsPerMinute) % MsPerMinute == 0;
  }

  /** The corrected drop lands where the drop as written does, and files the
      event under the cell's date, which is the day it now starts on. */
  lemma DropOnDayFiles(zone: int, dt: DataTransfer, cell: Instant)
    requires JsonFormat in dt
    ensures HandleDropOnDay(zone, dt, cell).Some?
    ensures HandleDropOnDay(zone, dt, cell).value.startTime == HandleDropOnDayAsWritten(zone, dt, cell).value.startTime
    ensures HandleDropOnDay(zone, dt, cell).value.endTime == HandleDropOnDayAsWritten(zone, dt, cell).value.endTime
    ensures HandleDropOnDay(zone, dt, cell).value.date == cell
    ensures HandleDropOnDay(zone, dt, cell).value.(date := dt[JsonFormat].date) == HandleDropOnDayAsWritten(zone, dt, cell).value
    ensures FiledOnStartDay(zone, HandleDropOnDay(zone, dt, cell).value)
  {
    DropOnDayLands(zone, dt, cell);
  }

  /** As written, a drop on another day leaves an event that was filed under
      its start day filed under the old day. */
  lemma DropOnDayAsWrittenUnfiles(zone: int, dt: DataTransfer, cell: Instant)
    requires JsonFormat in dt && FiledOnStartDay(zone, dt[JsonFormat])
    requires LocalDay(zone, cell) != LocalDay(zone, dt[JsonFormat].startTime)
    ensures HandleDropOnDayAsWritten(zone, dt, cell).Some?
    ensures !FiledOnStartDay(zone, HandleDropOnDayAsWritten(zone, dt, cell).value)
  {
    DropOnDayLands(zone, dt, cell);
  }

  /** Without an `application/json` payload a drop does nothing. */
  lemma DropOnDayNoPayload(zone: int, dt: DataTransfer, cell: Instant)
    requires JsonFormat !in dt
    ensures HandleDropOnDayAsWritten(zone, dt, cell) == None
    ensures HandleDropOnDay(zone, dt, cell) == None
  {
  }

  /** As written, a selected date in the years 0..99 gets the grid of that
      month at least 1899 years later, so no cell shows a date of the
      selected month. */
  lemma AsWrittenGridElsewhere(zone: int, selected: Instant, i: int)
    requires 0 <= GetFullYear(zone, selected) <= 99
    requires 0 <= i < GridSize
    ensures |DaysAsWritten(zone, selected)| == GridSize
    ensures LocalDay(zone, DaysAsWritten(zone, selected)[i])
          > DayOfFirst(GetFullYear(zone, selected), GetMonth(zone, selected)) + 365 * 1899
  {
    var som := StartOfMonthAsWritten(zone, selected);
    AsWrittenStartOfMonth(zone, selected);
    SundayOnOrBeforeDay(zone, som);
    DaysFromShift(zone, SundayOnOrBefore(zone, som), GridSize);
  }

  /** As written, the start of a month in the years 0..99 is the 1st of that
      month 1900 years later. */
  lemma AsWrittenStartOfMonth(zone: int, selected: Instant)
    requires 0 <= GetFullYear(zone, selected) <= 99
    ensures LocalDay(zone, StartOfMonthAsWritten(zone, selected))
         >= DayOfFirst(GetFullYear(zone, selected), GetMonth(zone, selected)) + 365 * 1900
  {
    var y, m := GetFullYear(zone, selected), GetMonth(zone, selected);
    MakeDayInYear(1900 + y, m, 1);
    FromLocalParts(zone, MakeDay(1900 + y, m, 1), 0);
    DayOfFirstYearGap(y, 1900 + y, m);
  }

  /** Outside the years 0..99 the grid as written is the corrected grid. */
  lemma AsWrittenGridAgrees(zone: int, selected: Instant)
    requires !(0 <= GetFullYear(zone, selected) <= 99)
    ensures DaysAsWritten(zone, selected) == Days(zone, selected)
  {
  }
}
