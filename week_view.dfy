/** The week view: the seven dates from the Sunday on or before the selected
    date, an hour column for each, and a drop on an hour slot moving the
    dragged event to that hour of the column's date. */
module WeekView {
  import opened Wrappers
  import opened JsDate
  import opened TimeCodec
  import opened CalendarTypes
  import opened DragData
  import opened HourSlots

  const WeekLength := 7

  /** `startOfWeek`: a copy of the selected date moved back by its day of the week. */
  function StartOfWeek(zone: int, selected: Instant): Instant
  {
    SundayOnOrBefore(zone, selected)
  }

  /** `days`: the seven dates of the week, at the selected date's time of day. */
  function Days(zone: int, selected: Instant): seq<Instant>
  {
    DaysFrom(zone, StartOfWeek(zone, selected), WeekLength)
  }

  /** `handleDropOnHour`: the `text/plain` payload moved to `hour:00` on the
      column's date with its duration rounded to whole minutes, and filed
      under the column's date. None when nothing was dropped. */
  function HandleDropOnHour(zone: int, dt: DataTransfer, date: Instant, hour: int): Option<CalendarEvent>
  {
    match GetData(dt, TextFormat)
    case None => None
    case Some(dragged) =>
      var (startIso, endIso) := MoveToHour(zone, dragged, date, hour);
      Some(dragged.(date := date, startTime := startIso, endTime := endIso))
  }

  // ---------------------------------------------------------------
  // Properties
  // ---------------------------------------------------------------

  /** Seven consecutive dates starting on a Sunday, the selected date among
      them at the index of its day of the week. */
  lemma WeekDays(zone: int, selected: Instant)
    ensures |Days(zone, selected)| == WeekLength
    ensures GetDay(zone, Days(zone, selected)[0]) == 0
    ensures forall i :: 0 <= i < WeekLength ==> Days(zone, selected)[i] == Days(zone, selected)[0] + i * MsPerDay
    ensures Days(zone, selected)[GetDay(zone, selected)] == selected
  {
    SundayOnOrBeforeDay(zone, selected);
    DaysFromShift(zone, StartOfWeek(zone, selected), WeekLength);
  }

  /** With a payload, a drop on hour slot 0..23 starts the event at that full
      hour on the column's date, ends it the rounded minute duration later
      (so it keeps the rounded minute duration, and the
      exact one exactly when that was whole minutes), files the event under
      the column's date and keeps id, title and description. */
  lemma DropOnHourLands(zone: int, dt: DataTransfer, date: Instant, hour: int)
    requires TextFormat in dt && 0 <= hour < 24
    ensures HandleDropOnHour(zone, dt, date, hour).Some?
    ensures LocalDay(zone, HandleDropOnHour(zone, dt, date, hour).value.startTime) == LocalDay(zone, date)
    ensures TimeInDay(zone, HandleDropOnHour(zone, dt, date, hour).value.startTime) == hour * MsPerHour
    ensures HandleDropOnHour(zone, dt, date, hour).value.endTime
         == HandleDropOnHour(zone, dt, date, hour).value.startTime
            + MinutesBetween(dt[TextFormat].startTime, dt[TextFormat].endTime) * MsPerMinute
    ensures MinutesBetween(HandleDropOnHour(zone, dt, date, hour).value.startTime, HandleDropOnHour(zone, dt, date, hour).value.endTime)
         == MinutesBetween(dt[TextFormat].startTime, dt[TextFormat].endTime)
    ensures HandleDropOnHour(zone, dt, date, hour).value.endTime - HandleDropOnHour(zone, dt, date, hour).value.startTime
         == dt[TextFormat].endTime - dt[TextFormat].startTime
        <==> (dt[TextFormat].endTime - dt[TextFormat].startTime) % MsPerMinute == 0
    ensures HandleDropOnHour(zone, dt, date, hour).value.date == date
    ensures FiledOnStartDay(zone, HandleDropOnHour(zone, dt, date, hour).value)
    ensures HandleDropOnHour(zone, dt, date, hour).value.(
              date := dt[TextFormat].date, startTime := dt[TextFormat].startTime, endTime := dt[TextFormat].endTime)
         == dt[TextFormat]
  {
    MoveToHourLands(zone, dt[TextFormat], date, hour);
  }

  /** Without a `text/plain` payload a drop does nothing. */
  lemma DropOnHourNoPayload(zone: int, dt: DataTransfer, date: Instant, hour: int)
    requires TextFormat !in dt
    ensures HandleDropOnHour(zone, dt, date, hour) == None
  {
  }

  /** The card's drag start writes the `text/plain` payload this drop reads. */
  lemma DraggedCardDrops(zone: int, ev: CalendarEvent, date: Instant, hour: int)
    ensures HandleDropOnHour(zone, DragStart(ev), date, hour).Some?
    ensures HandleDropOnHour(zone, DragStart(ev), date, hour).value.id == ev.id
  {
    DragStartCarries(ev);
  }
}
