/** The calendar's data: the three views and the event record. */
module CalendarTypes {
  import opened JsDate

  datatype CalendarView = Month | Week | Day

  /** An event. `startTime` and `endTime` are instants (kept as UTC ISO
      strings by the application); `date` is the day the event was filed
      under when it was last saved or moved in the week view. */
  datatype CalendarEvent = CalendarEvent(
    id: int,
    description: string,
    title: string,
    date: Instant,
    startTime: Instant,
    endTime: Instant)

  /** The event is filed under the local day it starts on. */
  predicate FiledOnStartDay(zone: int, ev: CalendarEvent)
  {
    LocalDay(zone, ev.date) == LocalDay(zone, ev.startTime)
  }
}
