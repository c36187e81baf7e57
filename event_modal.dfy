/** The event form: the values its fields open with, the save that turns
    the form into an event, and the delete button. */
module EventModal {
  import opened Wrappers
  import opened JsDate
  import opened JsText
  import opened TimeCodec
  import opened CalendarTypes
  import opened HourSlots

  /** What pressing save does. */
  datatype Outcome =
    | Blocked                      // a required field is empty: the browser does not submit
    | Failed                       // a time is not a number: `toISOString` throws, nothing is saved
    | Saved(event: CalendarEvent)  // `onSave` receives the event

  /** The start of a new event when no hour was clicked. */
  const DefaultStart := "09:00"

  /** The start field of a new event: the clicked hour's text, or 09:00
      when there is none (an empty string is falsy). */
  function InitialStart(defaultStartTime: string): string
  {
    if defaultStartTime == "" then DefaultStart else defaultStartTime
  }

  /** `Number` of the start text before its first colon. */
  function StartHour(defaultStartTime: string): Option<nat>
  {
    Number(Split(InitialStart(defaultStartTime), ':')[0])
  }

  /** The end field of a new event: the full hour after the start's hour,
      23 wrapping to 00; `String(NaN)` is "NaN". */
  function InitialEnd(defaultStartTime: string): string
  {
    match StartHour(defaultStartTime)
    case Some(h) => TwoDigits((h + 1) % 24) + ":00"
    case None => "NaN:00"
  }

  /** `durationMinutes`: end hour and minute less start hour and minute, in
      minutes; None when either is NaN. */
  function DurationMinutes(startTime: string, endTime: string): Option<int>
  {
    match (ParseTime(startTime), ParseTime(endTime))
    case (Some((sh, sm)), Some((eh, em))) => Some(eh * 60 + em - (sh * 60 + sm))
    case _ => None
  }

  /** `existingEvent?.id || Date.now()`: an id of 0 is falsy too. */
  function SavedId(existing: Option<CalendarEvent>, freshId: int): int
  {
    if existing.Some? && existing.value.id != 0 then existing.value.id else freshId
  }

  /** `handleSubmit` with the form's fields: the start on the local day of
      `selectedDate`, the end `durationMinutes` after it, filed under
      `selectedDate`. */
  function SubmitForm(zone: int, selectedDate: Instant, existing: Option<CalendarEvent>,
                      title: string, description: string, startTime: string, endTime: string,
                      freshId: int): Outcome
  {
    if title == "" || startTime == "" || endTime == "" then Blocked
    else
      match (LocalDateAndTimeToUtc(zone, selectedDate, startTime), DurationMinutes(startTime, endTime))
      case (Some(startIso), Some(duration)) =>
        Saved(CalendarEvent(SavedId(existing, freshId), description, title, selectedDate,
                            startIso, IsoAddMinutes(startIso, duration)))
      case _ => Failed
  }

  /** The form while it is open. `existing` is the event being edited, if
      any; `selectedDate` is the day the event is saved under. */
  class EventModal {
    const zone: int
    const selectedDate: Instant
    const existing: Option<CalendarEvent>
    var title: string
    var description: string
    var startTime: string
    var endTime: string

    /** Opening the form: an edited event's fields, its times as local
        `HH:MM`; otherwise empty text and the default times. */
    constructor(zone: int, selectedDate: Instant, existing: Option<CalendarEvent>, defaultStartTime: string)
      ensures this.zone == zone && this.selectedDate == selectedDate && this.existing == existing
      ensures existing.Some? ==>
        title == existing.value.title && description == existing.value.description
        && startTime == IsoToLocalTime(zone, existing.value.startTime)
        && endTime == IsoToLocalTime(zone, existing.value.endTime)
      ensures existing.None? ==>
        title == "" && description == ""
        && startTime == InitialStart(defaultStartTime) && endTime == InitialEnd(defaultStartTime)
    {
      this.zone := zone;
      this.selectedDate := selectedDate;
      this.existing := existing;
      if existing.Some? {
        title := existing.value.title;
        description := existing.value.description;
        startTime := IsoToLocalTime(zone, existing.value.startTime);
        endTime := IsoToLocalTime(zone, existing.value.endTime);
      } else {
        title := "";
        description := "";
        startTime := InitialStart(defaultStartTime);
        endTime := InitialEnd(defaultStartTime);
      }
    }

    method SetTitle(t: string)
      modifies this
      ensures title == t
      ensures description == old(description) && startTime == old(startTime) && endTime == old(endTime)
    {
      title := t;
    }

    method SetDescription(d: string)
      modifies this
      ensures description == d
      ensures title == old(title) && startTime == old(startTime) && endTime == old(endTime)
    {
      description := d;
    }

    method SetStartTime(s: string)
      modifies this
      ensures startTime == s
      ensures title == old(title) && description == old(description) && endTime == old(endTime)
    {
      startTime := s;
    }

    method SetEndTime(e: string)
      modifies this
      ensures endTime == e
      ensures title == old(title) && description == old(description) && startTime == old(startTime)
    {
      endTime := e;
    }

    /** `handleSubmit`, step by step; it computes `SubmitForm` of the form's
        fields. `freshId` is the clock reading `Date.now()`. */
    method Submit(freshId: int) returns (outcome: Outcome)
      ensures outcome == SubmitForm(zone, selectedDate, existing, title, description, startTime, endTime, freshId)
    {
      if title == "" || startTime == "" || endTime == "" {
        return Blocked;
      }
      var startIso := LocalDateAndTimeToUtc(zone, selectedDate, startTime);
      var start := ParseTime(startTime);
      var end := ParseTime(endTime);
      if startIso.None? || start.None? || end.None? {
        return Failed;
      }
      var (sh, sm) := start.value;
      var (eh, em) := end.value;
      var durationMinutes := eh * 60 + em - (sh * 60 + sm);
      var endIso := IsoAddMinutes(startIso.value, durationMinutes);
      var id := if existing.Some? && existing.value.id != 0 then existing.value.id else freshId;
      outcome := Saved(CalendarEvent(id, description, title, selectedDate, startIso.value, endIso));
    }

    /** `handleDelete`: the id handed to `onDelete`, only when editing. */
    method Delete() returns (deleted: Option<int>)
      ensures existing.Some? <==> deleted.Some?
      ensures existing.Some? ==> deleted.value == existing.value.id
    {
      deleted := None;
      if existing.Some? {
        deleted := Some(existing.value.id);
      }
    }
  }

  // ---------------------------------------------------------------
  // Properties
  // ---------------------------------------------------------------

  /** With no hour clicked a new event runs from 09:00 to 10:00. */
  lemma NewEventDefaults(noHour: string)
    requires noHour == ""
    ensures ParseTime(InitialStart(noHour)) == Some((9, 0))
    ensures ParseTime(InitialEnd(noHour)) == Some((10, 0))
  {
    DefaultIsNine();
    StartAt(noHour, 9, 0);
  }

  /** A start field showing hour `h` and minute `m` parses to them, and the
      end field is the full hour after `h`, 23 wrapping to 00. */
  lemma StartAt(defaultStartTime: string, h: nat, m: nat)
    requires h < 24 && m < 60 && InitialStart(defaultStartTime) == FormatTime(h, m)
    ensures ParseTime(InitialStart(defaultStartTime)) == Some((h, m))
    ensures StartHour(defaultStartTime) == Some(h)
    ensures InitialEnd(defaultStartTime) == FormatTime((h + 1) % 24, 0)
    ensures ParseTime(InitialEnd(defaultStartTime)) == Some((((h + 1) % 24) as nat, 0))
  {
    FormatParse(h, m);
    HourPiece(h, m);
    InitialEndParses(defaultStartTime);
  }

  lemma DefaultIsNine()
    ensures DefaultStart == FormatTime(9, 0)
  {
    TwoDigitsOf(9);
    TwoDigitsOf(0);
  }

  /** When the start's hour piece is the number `h`, the end field is the
      well-formed time `(h + 1) % 24`:00; when it is not a number, the end
      field does not parse. */
  lemma InitialEndParses(defaultStartTime: string)
    ensures StartHour(defaultStartTime).Some? ==>
      var next: nat := (StartHour(defaultStartTime).value + 1) % 24;
      && InitialEnd(defaultStartTime) == FormatTime(next, 0)
      && WellFormedTime(InitialEnd(defaultStartTime))
      && ParseTime(InitialEnd(defaultStartTime)) == Some((next, 0))
    ensures StartHour(defaultStartTime).None? ==> ParseTime(InitialEnd(defaultStartTime)) == None
  {
    if StartHour(defaultStartTime).Some? {
      var k := (StartHour(defaultStartTime).value + 1) % 24;
      TwoDigitsOf(0);
      assert InitialEnd(defaultStartTime) == FormatTime(k, 0);
      FormatParse(k, 0);
    } else {
      assert InitialEnd(defaultStartTime) == "NaN" + ":" + "00";
      assert !IsDigit("NaN"[0]);
      ParseTwoPieces("NaN", "00");
    }
  }

  /** Two well-formed times give a duration of less than a day either way,
      negative exactly when the end is earlier in the day than the start,
      and zero exactly when the two times are the same text. */
  lemma DurationBounds(startTime: string, endTime: string)
    requires WellFormedTime(startTime) && WellFormedTime(endTime)
    ensures DurationMinutes(startTime, endTime).Some?
    ensures var d, (sh, sm), (eh, em) := DurationMinutes(startTime, endTime).value,
                                         ParseTime(startTime).value, ParseTime(endTime).value;
      && -1439 <= d <= 1439
      && (d < 0 <==> eh < sh || (eh == sh && em < sm))
      && (d == 0 <==> startTime == endTime)
  {
    WellFormedRange(startTime);
    WellFormedRange(endTime);
    var p, q := ParseTime(startTime).value, ParseTime(endTime).value;
    ClockDifference(p.0, p.1, q.0, q.1);
    SameTextIff(startTime, endTime);
  }

  /** Minutes from one time of day to another, as `durationMinutes` counts them. */
  lemma ClockDifference(sh: int, sm: int, eh: int, em: int)
    requires 0 <= sh < 24 && 0 <= sm < 60 && 0 <= eh < 24 && 0 <= em < 60
    ensures -1439 <= eh * 60 + em - (sh * 60 + sm) <= 1439
    ensures eh * 60 + em - (sh * 60 + sm) < 0 <==> eh < sh || (eh == sh && em < sm)
    ensures eh * 60 + em - (sh * 60 + sm) == 0 <==> eh == sh && em == sm
  {
  }

  /** The duration of two parsed times, in their numbers. */
  lemma DurationOf(startTime: string, endTime: string, sh: nat, sm: nat, eh: nat, em: nat)
    requires ParseTime(startTime) == Some((sh, sm)) && ParseTime(endTime) == Some((eh, em))
    ensures DurationMinutes(startTime, endTime) == Some(eh * 60 + em - (sh * 60 + sm))
  {
  }

  /** Save is refused exactly when the title, the start or the end is empty;
      whitespace counts as content. */
  lemma SubmitBlockedIff(zone: int, selectedDate: Instant, existing: Option<CalendarEvent>,
                         title: string, description: string, startTime: string, endTime: string, freshId: int)
    ensures SubmitForm(zone, selectedDate, existing, title, description, startTime, endTime, freshId) == Blocked
        <==> title == "" || startTime == "" || endTime == ""
  {
  }

  /** A submitted form saves nothing exactly when the start or the end does
      not parse to two numbers. */
  lemma SubmitFailedIff(zone: int, selectedDate: Instant, existing: Option<CalendarEvent>,
                        title: string, description: string, startTime: string, endTime: string, freshId: int)
    requires title != "" && startTime != "" && endTime != ""
    ensures SubmitForm(zone, selectedDate, existing, title, description, startTime, endTime, freshId) == Failed
        <==> ParseTime(startTime).None? || ParseTime(endTime).None?
  {
  }

  /** Saving well-formed times gives an event with the form's text, under
      the edited event's id (a fresh one for a new event or id 0), filed
      under `selectedDate`, starting and ending on its local day at the two
      times as typed (an end earlier than the start stays on that day), and
      lasting the duration in minutes. */
  lemma SubmitSaves(zone: int, selectedDate: Instant, existing: Option<CalendarEvent>,
                    title: string, description: string, startTime: string, endTime: string, freshId: int)
    requires title != "" && WellFormedTime(startTime) && WellFormedTime(endTime)
    ensures SubmitForm(zone, selectedDate, existing, title, description, startTime, endTime, freshId).Saved?
    ensures var r := SubmitForm(zone, selectedDate, existing, title, description, startTime, endTime, freshId).event;
      && r.id == (if existing.Some? && existing.value.id != 0 then existing.value.id else freshId)
      && r.title == title && r.description == description && r.date == selectedDate
      && LocalDay(zone, r.startTime) == LocalDay(zone, selectedDate)
      && LocalDay(zone, r.endTime) == LocalDay(zone, selectedDate)
      && IsoToLocalTime(zone, r.startTime) == startTime
      && IsoToLocalTime(zone, r.endTime) == endTime
      && TimeInDay(zone, r.startTime) % MsPerMinute == 0
      && TimeInDay(zone, r.endTime) % MsPerMinute == 0
      && MinutesBetween(r.startTime, r.endTime) == DurationMinutes(startTime, endTime).value
      && FiledOnStartDay(zone, r)
  {
    WellFormedParse(startTime);
    WellFormedParse(endTime);
    var p, q := ParseTime(startTime).value, ParseTime(endTime).value;
    SavedShape(zone, selectedDate, existing, title, description, startTime, endTime, freshId, p.0, p.1, q.0, q.1);
    SetHoursText(zone, selectedDate, p.0, p.1);
    SetHoursText(zone, selectedDate, q.0, q.1);
  }

  /** With the two times parsed, the saved event runs from the start time to
      the end time on the local day of `selectedDate`. */
  lemma SavedShape(zone: int, selectedDate: Instant, existing: Option<CalendarEvent>,
                   title: string, description: string, startTime: string, endTime: string, freshId: int,
                   sh: nat, sm: nat, eh: nat, em: nat)
    requires title != "" && startTime != "" && endTime != ""
    requires ParseTime(startTime) == Some((sh, sm)) && ParseTime(endTime) == Some((eh, em))
    ensures DurationMinutes(startTime, endTime) == Some(eh * 60 + em - (sh * 60 + sm))
    ensures SubmitForm(zone, selectedDate, existing, title, description, startTime, endTime, freshId)
         == Saved(CalendarEvent(SavedId(existing, freshId), description, title, selectedDate,
                                SetHours(zone, selectedDate, sh, sm, 0, 0), SetHours(zone, selectedDate, eh, em, 0, 0)))
    ensures MinutesBetween(SetHours(zone, selectedDate, sh, sm, 0, 0), SetHours(zone, selectedDate, eh, em, 0, 0))
         == eh * 60 + em - (sh * 60 + sm)
  {
    var start := SetHours(zone, selectedDate, sh, sm, 0, 0);
    var duration := eh * 60 + em - (sh * 60 + sm);
    assert IsoAddMinutes(start, duration) == SetHours(zone, selectedDate, eh, em, 0, 0);
    MinutesBetweenAdd(start, duration);
  }

  /** Opening an event and saving it unchanged gives it back, when it is
      filed under its start day, starts and ends on that day on whole
      minutes, and has a title and a non-zero id. */
  lemma EditUnchanged(zone: int, ev: CalendarEvent, freshId: int)
    requires ev.title != "" && ev.id != 0 && FiledOnStartDay(zone, ev)
    requires LocalDay(zone, ev.endTime) == LocalDay(zone, ev.startTime)
    requires TimeInDay(zone, ev.startTime) % MsPerMinute == 0 && TimeInDay(zone, ev.endTime) % MsPerMinute == 0
    ensures SubmitForm(zone, ev.date, Some(ev), ev.title, ev.description,
                       IsoToLocalTime(zone, ev.startTime), IsoToLocalTime(zone, ev.endTime), freshId)
         == Saved(ev)
  {
    var s, e := IsoToLocalTime(zone, ev.startTime), IsoToLocalTime(zone, ev.endTime);
    SubmitSaves(zone, ev.date, Some(ev), ev.title, ev.description, s, e, freshId);
    var r := SubmitForm(zone, ev.date, Some(ev), ev.title, ev.description, s, e, freshId).event;
    SameClock(zone, r.startTime, ev.startTime);
    SameClock(zone, r.endTime, ev.endTime);
  }

  /** Two instants on the same local day and on whole minutes that show the
      same `HH:MM` are the same instant. */
  lemma SameClock(zone: int, a: Instant, b: Instant)
    requires LocalDay(zone, a) == LocalDay(zone, b)
    requires TimeInDay(zone, a) % MsPerMinute == 0 && TimeInDay(zone, b) % MsPerMinute == 0
    requires IsoToLocalTime(zone, a) == IsoToLocalTime(zone, b)
    ensures a == b
  {
    assert ParseTime(IsoToLocalTime(zone, a)) == ParseTime(IsoToLocalTime(zone, b));
    assert GetHours(zone, a) == GetHours(zone, b) && GetMinutes(zone, a) == GetMinutes(zone, b);
    WholeMinuteTime(zone, a);
    WholeMinuteTime(zone, b);
    FromLocalOfParts(zone, a);
    FromLocalOfParts(zone, b);
  }

  /** On a whole minute the time of day is its hours and minutes. */
  lemma WholeMinuteTime(zone: int, t: Instant)
    requires TimeInDay(zone, t) % MsPerMinute == 0
    ensures TimeInDay(zone, t) == (GetHours(zone, t) * 60 + GetMinutes(zone, t)) * MsPerMinute
  {
    HoursAndMinutes(zone, t);
  }
}
