/** What the week and day views share: the vertical position of an event
    card in an hour column, and where dropping an event on an hour slot
    moves it. */
module HourSlots {
  import opened JsDate
  import opened TimeCodec
  import opened CalendarTypes
  import opened EventList

  /** Pixels per hour row, and the height of the column header above hour 0. */
  const HourHeight := 60
  const HeaderOffset := 28

  /** The card's `top`: the local start time read back from its `HH:MM`
      text, one pixel per minute, below the header. */
  function CardTop(zone: int, ev: CalendarEvent): (top: int)
    ensures top == GetHours(zone, ev.startTime) * HourHeight + GetMinutes(zone, ev.startTime) + HeaderOffset
    ensures HeaderOffset <= top <= 23 * HourHeight + 59 + HeaderOffset
  {
    var p := ParseTime(IsoToLocalTime(zone, ev.startTime)).value;
    p.0 * HourHeight + p.1 * HourHeight / 60 + HeaderOffset
  }

  /** The new start and end of an event dropped on hour slot `hour` of the
      local day of `base`: the start at `hour:00:00.000`, the end the
      dragged event's duration, rounded to whole minutes, after it. */
  function MoveToHour(zone: int, dragged: CalendarEvent, base: Instant, hour: int): (Instant, Instant)
  {
    var duration := MinutesBetween(dragged.startTime, dragged.endTime);
    var startIso := SetHours(zone, base, hour, 0, 0, 0);
    (startIso, IsoAddMinutes(startIso, duration))
  }

  /** `dayEvents` of an hour column: the events that start on the local
      date of `date`, sorted by start. */
  function Column(zone: int, events: seq<CalendarEvent>, date: Instant): seq<CalendarEvent>
  {
    SortByStart(StartsOn(zone, events, LocalDay(zone, date)))
  }

  // ---------------------------------------------------------------
  // Properties
  // ---------------------------------------------------------------

  /** Hours and minutes of the local time are the whole minutes since local midnight. */
  lemma HoursAndMinutes(zone: int, t: Instant)
    ensures GetHours(zone, t) * 60 + GetMinutes(zone, t) == TimeInDay(zone, t) / MsPerMinute
  {
    var r := TimeInDay(zone, t);
    var q := r / MsPerMinute;
    assert r / MsPerHour == q / 60;
  }

  /** The card sits one pixel per whole minute since local midnight below the header. */
  lemma CardTopMinutes(zone: int, ev: CalendarEvent)
    ensures CardTop(zone, ev) - HeaderOffset == TimeInDay(zone, ev.startTime) / MsPerMinute
  {
    HoursAndMinutes(zone, ev.startTime);
  }

  /** Within one local day, a later start never puts its card higher up. */
  lemma CardTopOrder(zone: int, a: CalendarEvent, b: CalendarEvent)
    requires LocalDay(zone, a.startTime) == LocalDay(zone, b.startTime)
    requires a.startTime <= b.startTime
    ensures CardTop(zone, a) <= CardTop(zone, b)
  {
    CardTopMinutes(zone, a);
    CardTopMinutes(zone, b);
  }

  /** A drop on hour slot 0..23 starts the event at that full hour on the
      slot's local day, ends it the rounded minute duration later, so it
      keeps its rounded minute duration, and keeps the exact
      duration exactly when that was a whole number of minutes. */
  lemma MoveToHourLands(zone: int, dragged: CalendarEvent, base: Instant, hour: int)
    requires 0 <= hour < 24
    ensures LocalDay(zone, MoveToHour(zone, dragged, base, hour).0) == LocalDay(zone, base)
    ensures TimeInDay(zone, MoveToHour(zone, dragged, base, hour).0) == hour * MsPerHour
    ensures GetHours(zone, MoveToHour(zone, dragged, base, hour).0) == hour
    ensures GetMinutes(zone, MoveToHour(zone, dragged, base, hour).0) == 0
    ensures MoveToHour(zone, dragged, base, hour).1
         == MoveToHour(zone, dragged, base, hour).0 + MinutesBetween(dragged.startTime, dragged.endTime) * MsPerMinute
    ensures MinutesBetween(MoveToHour(zone, dragged, base, hour).0, MoveToHour(zone, dragged, base, hour).1)
         == MinutesBetween(dragged.startTime, dragged.endTime)
    ensures MoveToHour(zone, dragged, base, hour).1 - MoveToHour(zone, dragged, base, hour).0
         == dragged.endTime - dragged.startTime
        <==> (dragged.endTime - dragged.startTime) % MsPerMinute == 0
  {
    var (s, e) := MoveToHour(zone, dragged, base, hour);
    SetHoursReads(zone, base, hour, 0);
    var duration := MinutesBetween(dragged.startTime, dragged.endTime);
    MinutesBetweenAdd(s, duration);
    var d := dragged.endTime - dragged.startTime;
    if d % MsPerMinute == 0 {
      assert d == d / MsPerMinute * MsPerMinute;
      assert duration == d / MsPerMinute;
    }
  }

  /** A column lists exactly the events whose start shows its date, each as
      often as in the list, in ascending order of start. */
  lemma ColumnExactly(zone: int, events: seq<CalendarEvent>, date: Instant, e: CalendarEvent)
    ensures SortedByStart(Column(zone, events, date))
    ensures multiset(Column(zone, events, date))[e]
         == if SameDate(zone, e.startTime, date) then multiset(events)[e] else 0
  {
    StartsOnCount(zone, events, LocalDay(zone, date), e);
    SameDateIff(zone, e.startTime, date);
  }

  /** Events of a column that start at the same instant keep the order of the list. */
  lemma ColumnStable(zone: int, events: seq<CalendarEvent>, date: Instant, k: Instant)
    ensures StartingAt(Column(zone, events, date), k) == StartingAt(StartsOn(zone, events, LocalDay(zone, date)), k)
  {
    SortStable(StartsOn(zone, events, LocalDay(zone, date)), k);
  }
}
