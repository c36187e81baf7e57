/** Interactions that cross components: creating an event from a click on
    an hour slot, and opening and saving an event after a drop in the
    month view. */
module Flows {
  import opened Wrappers
  import opened JsDate
  import opened TimeCodec
  import opened CalendarTypes
  import opened DragData
  import opened MonthView
  import opened EventModal
  import opened CalendarGrid

  /** A click on hour slot 0..23 of `date`, a title typed and save pressed:
      the new event gets the fresh id, is filed under `date`, starts at that
      hour on that date and lasts an hour, except that from 23:00 it ends at
      00:00 of the same date. */
  lemma HourClickSave(zone: int, date: Instant, hour: nat, title: string, freshId: int)
    requires hour < 24 && title != ""
    ensures SubmitForm(zone, date, None, title, "", InitialStart(HourLabel(hour)), InitialEnd(HourLabel(hour)), freshId).Saved?
    ensures var r := SubmitForm(zone, date, None, title, "", InitialStart(HourLabel(hour)), InitialEnd(HourLabel(hour)), freshId).event;
      && r.id == freshId && r.date == date
      && LocalDay(zone, r.startTime) == LocalDay(zone, date)
      && LocalDay(zone, r.endTime) == LocalDay(zone, date)
      && GetHours(zone, r.startTime) == hour && GetMinutes(zone, r.startTime) == 0
      && MinutesBetween(r.startTime, r.endTime) == if hour == 23 then -1380 else 60
  {
    var s, e := InitialStart(HourLabel(hour)), InitialEnd(HourLabel(hour));
    HourClickTimes(hour);
    HourClickDuration(hour);
    SubmitSaves(zone, date, None, title, "", s, e, freshId);
    var r := SubmitForm(zone, date, None, title, "", s, e, freshId).event;
    assert ParseTime(IsoToLocalTime(zone, r.startTime)) == ParseTime(s);
  }

  /** As written: an event filed under its start day and moved to another
      day in the month view, then opened and saved unchanged, goes back to
      the day it started on before the move, at the same time of day. */
  lemma ResaveAfterMonthDropAsWritten(zone: int, dt: DataTransfer, cell: Instant, freshId: int)
    requires JsonFormat in dt && FiledOnStartDay(zone, dt[JsonFormat]) && dt[JsonFormat].title != ""
    requires LocalDay(zone, cell) != LocalDay(zone, dt[JsonFormat].startTime)
    ensures HandleDropOnDayAsWritten(zone, dt, cell).Some?
    ensures var moved := HandleDropOnDayAsWritten(zone, dt, cell).value;
      var out := SubmitForm(zone, moved.date, Some(moved), moved.title, moved.description,
                            IsoToLocalTime(zone, moved.startTime), IsoToLocalTime(zone, moved.endTime), freshId);
      && LocalDay(zone, moved.startTime) == LocalDay(zone, cell)
      && out.Saved?
      && LocalDay(zone, out.event.startTime) == LocalDay(zone, dt[JsonFormat].startTime)
      && LocalDay(zone, out.event.startTime) != LocalDay(zone, moved.startTime)
      && IsoToLocalTime(zone, out.event.startTime) == IsoToLocalTime(zone, moved.startTime)
  {
    DropOnDayLands(zone, dt, cell);
    var moved := HandleDropOnDayAsWritten(zone, dt, cell).value;
    SubmitSaves(zone, moved.date, Some(moved), moved.title, moved.description,
                IsoToLocalTime(zone, moved.startTime), IsoToLocalTime(zone, moved.endTime), freshId);
  }

  /** With the drop filing the event under the cell's date, opening and
      saving it unchanged keeps its start where it was dropped. */
  lemma ResaveAfterMonthDrop(zone: int, dt: DataTransfer, cell: Instant, freshId: int)
    requires JsonFormat in dt && dt[JsonFormat].title != ""
    ensures HandleDropOnDay(zone, dt, cell).Some?
    ensures var moved := HandleDropOnDay(zone, dt, cell).value;
      var out := SubmitForm(zone, moved.date, Some(moved), moved.title, moved.description,
                            IsoToLocalTime(zone, moved.startTime), IsoToLocalTime(zone, moved.endTime), freshId);
      && out.Saved?
      && out.event.startTime == moved.startTime
      && LocalDay(zone, out.event.startTime) == LocalDay(zone, cell)
  {
    DropOnDayFiles(zone, dt, cell);
    DropOnDayLands(zone, dt, cell);
    var moved := HandleDropOnDay(zone, dt, cell).value;
    var s, e := IsoToLocalTime(zone, moved.startTime), IsoToLocalTime(zone, moved.endTime);
    SubmitSaves(zone, moved.date, Some(moved), moved.title, moved.description, s, e, freshId);
    var out := SubmitForm(zone, moved.date, Some(moved), moved.title, moved.description, s, e, freshId);
    SameClock(zone, out.event.startTime, moved.startTime);
  }
}
