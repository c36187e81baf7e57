/** The day view: one hour column for the selected date, and a drop on an
    hour slot moving the dragged event to that hour of the selected date. */
module DayView {
  import opened Wrappers
  import opened JsDate
  import opened TimeCodec
  import opened CalendarTypes
  import opened DragData
  import opened HourSlots

  /** `handleDropOnHour`: the `application/json` payload moved to `hour:00`
      on the selected date with its duration rounded to whole minutes; every
      other field, `date` included, is copied from the payload. None when
      nothing was dropped. */
  function HandleDropOnHour(zone: int, dt: DataTransfer, selected: Instant, hour: int): Option<CalendarEvent>
  {
    match GetData(dt, JsonFormat)
    case None => None
    case Some(dragged) =>
      var (startIso, endIso) := MoveToHour(zone, dragged, selected, hour);
      Some(dragged.(startTime := startIso, endTime := endIso))
  }

  // ---------------------------------------------------------------
  // Properties
  // ---------------------------------------------------------------

  /** With a payload, a drop on hour slot 0..23 starts the event at that full
      hour on the selected date, ends it the rounded minute duration later
      (so it keeps the rounded minute duration, and the
      exact one exactly when that was whole minutes) and changes nothing but
      start and end. */
  lemma DropOnHourLands(zone: int, dt: DataTransfer, selected: Instant, hour: int)
    requires JsonFormat in dt && 0 <= hour < 24
    ensures HandleDropOnHour(zone, dt, selected, hour).Some?
    ensures LocalDay(zone, HandleDropOnHour(zone, dt, selected, hour).value.startTime) == LocalDay(zone, selected)
    ensures TimeInDay(zone, HandleDropOnHour(zone, dt, selected, hour).value.startTime) == hour * MsPerHour
    ensures HandleDropOnHour(zone, dt, selected, hour).value.endTime
         == HandleDropOnHour(zone, dt, selected, hour).value.startTime
            + MinutesBetween(dt[JsonFormat].startTime, dt[JsonFormat].endTime) * MsPerMinute
    ensures MinutesBetween(HandleDropOnHour(zone, dt, selected, hour).value.startTime, HandleDropOnHour(zone, dt, selected, hour).value.endTime)
         == MinutesBetween(dt[JsonFormat].startTime, dt[JsonFormat].endTime)
    ensures HandleDropOnHour(zone, dt, selected, hour).value.endTime - HandleDropOnHour(zone, dt, selected, hour).value.startTime
         == dt[JsonFormat].endTime - dt[JsonFormat].startTime
        <==> (dt[JsonFormat].endTime - dt[JsonFormat].startTime) % MsPerMinute == 0
    ensures HandleDropOnHour(zone, dt, selected, hour).value.(
              startTime := dt[JsonFormat].startTime, endTime := dt[JsonFormat].endTime)
         == dt[JsonFormat]
  {
    MoveToHourLands(zone, dt[JsonFormat], selected, hour);
  }

  /** An event shown in the day view and filed under its start day stays
      filed under its start day when dropped on another hour. */
  lemma DropOnHourKeepsFiling(zone: int, dt: DataTransfer, selected: Instant, hour: int)
    requires JsonFormat in dt && 0 <= hour < 24
    requires FiledOnStartDay(zone, dt[JsonFormat])
    requires LocalDay(zone, dt[JsonFormat].startTime) == LocalDay(zone, selected)
    ensures HandleDropOnHour(zone, dt, selected, hour).Some?
    ensures FiledOnStartDay(zone, HandleDropOnHour(zone, dt, selected, hour).value)
  {
    MoveToHourLands(zone, dt[JsonFormat], selected, hour);
  }

  /** Without an `application/json` payload a drop does nothing. */
  lemma DropOnHourNoPayload(zone: int, dt: DataTransfer, selected: Instant, hour: int)
    requires JsonFormat !in dt
    ensures HandleDropOnHour(zone, dt, selected, hour) == None
  {
  }
}
