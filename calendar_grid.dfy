/** The calendar body: the view the switch shows, and the state of the event
    form — whether it is open, the day it saves under, the event it edits
    and the start time it offers a new event — with the click, save and
    delete handlers that change it. */
module CalendarGrid {
  import opened Wrappers
  import opened JsDate
  import opened JsText
  import opened TimeCodec
  import opened CalendarTypes
  import opened Calendar
  import opened EventModal

  /** The start time offered after a click on hour slot `hour`: the hour
      zero-padded to two digits, then ":00". */
  function HourLabel(hour: nat): string
  {
    TwoDigits(hour) + ":00"
  }

  /** The views the switch renders for `view`, in the order written. */
  function ShownViews(view: CalendarView): seq<CalendarView>
  {
    (if view == Month then [Month] else [])
    + (if view == Week then [Week] else [])
    + (if view == Day then [Day] else [])
  }

  class CalendarGrid {
    var showModal: bool
    var editingEvent: Option<CalendarEvent>
    var modalDate: Option<Instant>
    var defaultStartTime: string

    /** The form is closed, with no day, no event and no start time. */
    constructor()
      ensures !showModal && editingEvent == None && modalDate == None && defaultStartTime == ""
    {
      showModal := false;
      editingEvent := None;
      modalDate := None;
      defaultStartTime := "";
    }

    /** The form is on screen: shown, with a day to save under. */
    predicate ModalOpen()
      reads this
    {
      showModal && modalDate.Some?
    }

    /** `handleDayClick`: a new event on `date`; the start time offered is
        whatever the last hour click left. */
    method DayClick(date: Instant)
      modifies this
      ensures editingEvent == None && modalDate == Some(date) && showModal
      ensures defaultStartTime == old(defaultStartTime)
    {
      editingEvent := None;
      modalDate := Some(date);
      showModal := true;
    }

    /** `handleHourClick`: a new event on `date` starting at `hour`:00. */
    method HourClick(date: Instant, hour: nat)
      modifies this
      ensures editingEvent == None && modalDate == Some(date) && showModal
      ensures defaultStartTime == HourLabel(hour)
    {
      var text := HourLabel(hour);
      editingEvent, modalDate, defaultStartTime, showModal := None, Some(date), text, true;
    }

    /** `handleEventClick`: editing `ev`, saving under the day it is filed under. */
    method EventClick(ev: CalendarEvent)
      modifies this
      ensures editingEvent == Some(ev) && modalDate == Some(ev.date) && showModal
      ensures defaultStartTime == old(defaultStartTime)
    {
      editingEvent := Some(ev);
      modalDate := Some(ev.date);
      showModal := true;
    }

    /** The form as rendered when it is open: on `modalDate`, editing
        `editingEvent`, offering `defaultStartTime`. */
    method OpenModal(zone: int) returns (m: EventModal?)
      ensures m != null <==> ModalOpen()
      ensures m != null ==> fresh(m) && m.zone == zone && m.selectedDate == modalDate.value && m.existing == editingEvent
      ensures m != null && editingEvent.None? ==>
        m.title == "" && m.description == "" && m.startTime == InitialStart(defaultStartTime) && m.endTime == InitialEnd(defaultStartTime)
      ensures m != null && editingEvent.Some? ==>
        m.title == editingEvent.value.title && m.description == editingEvent.value.description
        && m.startTime == IsoToLocalTime(zone, editingEvent.value.startTime)
        && m.endTime == IsoToLocalTime(zone, editingEvent.value.endTime)
    {
      m := null;
      if showModal && modalDate.Some? {
        m := new EventModal(zone, modalDate.value, editingEvent, defaultStartTime);
      }
    }

    /** `handleSaveEvent`: an update when editing, an add otherwise (the
        calendar gives an added event the fresh id); the form closes. */
    method SaveEvent(ev: CalendarEvent, cal: Calendar, freshId: int)
      modifies this, cal
      ensures cal.events == if old(editingEvent).Some? then Updated(old(cal.events), ev)
                            else Added(old(cal.events), ev, freshId)
      ensures cal.view == old(cal.view) && cal.selectedDate == old(cal.selectedDate)
      ensures !showModal
      ensures editingEvent == old(editingEvent) && modalDate == old(modalDate)
      ensures defaultStartTime == old(defaultStartTime)
    {
      if editingEvent.Some? {
        cal.UpdateEvent(ev);
      } else {
        cal.AddEvent(ev, freshId);
      }
      showModal := false;
    }

    /** `handleDeleteEvent`: the event deleted; the form closes. */
    method DeleteEvent(id: int, cal: Calendar)
      modifies this, cal
      ensures cal.events == Deleted(old(cal.events), id)
      ensures cal.view == old(cal.view) && cal.selectedDate == old(cal.selectedDate)
      ensures !showModal
      ensures editingEvent == old(editingEvent) && modalDate == old(modalDate)
      ensures defaultStartTime == old(defaultStartTime)
    {
      cal.DeleteEvent(id);
      showModal := false;
    }

    /** The form's `onClose`. */
    method Close()
      modifies this
      ensures !showModal
      ensures editingEvent == old(editingEvent) && modalDate == old(modalDate)
      ensures defaultStartTime == old(defaultStartTime)
    {
      showModal := false;
    }
  }

  // ---------------------------------------------------------------
  // Properties
  // ---------------------------------------------------------------

  /** The switch renders exactly the selected view. */
  lemma OneViewShown(view: CalendarView)
    ensures ShownViews(view) == [view]
  {
  }

  /** The label of an hour is that hour with minute 00. */
  lemma HourLabelIsTime(hour: nat)
    requires hour < 100
    ensures HourLabel(hour) == FormatTime(hour, 0)
  {
    TwoDigitsOf(0);
  }

  /** After a click on hour slot 0..23 a new event's form starts at that
      hour and ends at the next full hour, 23 wrapping to 00. */
  lemma HourClickTimes(hour: nat)
    requires hour < 24
    ensures WellFormedTime(InitialStart(HourLabel(hour))) && WellFormedTime(InitialEnd(HourLabel(hour)))
    ensures ParseTime(InitialStart(HourLabel(hour))) == Some((hour, 0))
    ensures ParseTime(InitialEnd(HourLabel(hour))) == Some((((hour + 1) % 24) as nat, 0))
  {
    HourLabelIsTime(hour);
    StartAt(HourLabel(hour), hour, 0);
    FormatParse(hour, 0);
    FormatParse((hour + 1) % 24, 0);
  }

  /** Saved unchanged, such a form lasts an hour, except that from 23:00 it
      ends at 00:00, 1380 minutes before the start. */
  lemma HourClickDuration(hour: nat)
    requires hour < 24
    ensures DurationMinutes(InitialStart(HourLabel(hour)), InitialEnd(HourLabel(hour)))
         == Some(if hour == 23 then -1380 else 60)
  {
    HourClickTimes(hour);
    var next: nat := (hour + 1) % 24;
    NextHour(hour);
    DurationOf(InitialStart(HourLabel(hour)), InitialEnd(HourLabel(hour)), hour, 0, next, 0);
  }

  lemma NextHour(hour: nat)
    requires hour < 24
    ensures (hour + 1) % 24 == if hour == 23 then 0 else hour + 1
  {
  }
}
