# Calendar: a verified model of its date arithmetic and event handling

This project models the logic of a small React calendar. The calendar shows
events in a month grid, a week of hour columns or a single day. Events are
created and edited in a form, and moved by dragging them onto a day cell or
an hour slot.

The model covers:

- **The time-zone helpers**: local `HH:MM` of an instant, truncation to the
  local date, an `HH:MM` on a date to an instant, and minute arithmetic on
  instants (`TimeCodec`).
- **The parts of JavaScript's `Date`, `String` and `Number` the calendar
  relies on**: a proleptic Gregorian calendar with 0-based months
  (`Gregorian`), local readings and setters over a fixed local offset
  (`JsDate`), and `String(n)`, `padStart`, `split` and `Number` (`JsText`).
- **The three views**:
  - the month view's 42-day grid, its 6 weeks, the "current month" marking,
    the per-cell event filter and the drop on a day (`MonthView`);
  - the week view's 7 days and its drop on an hour (`WeekView`);
  - the day view's drop on an hour (`DayView`).
  - The week and day views share the card position, the per-column filter
    and sort (`HourSlots`, `EventList`), and the drag payload (`DragData`).
- **The top-level state** (`Calendar`): view, selected date and event list,
  with add, update, delete, and next and previous by a month, a week or a
  day (`Navigation`).
- **The event form** (`EventModal`): default times, the `required` check,
  the duration, the saved record and delete.
- **The modal routing of the calendar body** (`CalendarGrid`).
- **Cross-component flows** (`Flows`): an hour click followed by a save,
  and a month-view drop followed by opening and saving the event again.

Modelling choices:

- A `Date` is an instant: integer milliseconds since the epoch. The local
  reading adds a fixed offset `zone`.
- ISO 8601 strings are the instants they denote.
- `HH:MM` text is a real string, because the calendar splits and parses it.
- The state of the `Calendar`, `EventModal` and `CalendarGrid` components
  are classes whose methods update their fields. The pure parts are
  functions, and the lemmas beside them state what the source promises.

## Model

| member | source | states |
|---|---|---|
| TimeCodec.IsoToLocalTime | src/utils/timezoneHelpers.ts:1-6 | the result is always two digits, a colon and two digits, with hour 00..23 and minute 00..59, and it reads back as the instant's local hour and minute |
| TimeCodec.MinutesBetween | src/utils/timezoneHelpers.ts:27-28 | the result is the millisecond gap rounded to the nearest minute: it is within half a minute of the exact gap, with halves rounding up |
| TimeCodec.ParseTwoPieces | src/utils/timezoneHelpers.ts:14 | `split(":").map(Number)` of two colon-free pieces joined by a colon gives the numbers of the two pieces, or nothing when either is not a number |
| TimeCodec.FormatParse | src/utils/timezoneHelpers.ts:3-5 | an hour and minute below 100, zero-padded and joined by a colon, parse back to themselves; in range they form a well-formed time |
| TimeCodec.WellFormedParse | src/utils/timezoneHelpers.ts:14 | the reverse round trip: a well-formed `HH:MM` parses to an hour below 24 and a minute below 60 whose formatting is the text again |
| TimeCodec.HourPiece | src/components/EventModal.tsx:35 | the text before the colon of a formatted time is the hour's two digits, which `Number` reads as the hour |
| TimeCodec.SameTextIff | src/components/EventModal.tsx:55-56 | two well-formed times are the same text exactly when they parse to the same hour and minute |
| TimeCodec.LocalDateIsMidnight | src/utils/timezoneHelpers.ts:8-11 | the corrected `isoToLocalDate` is local midnight of the instant's own local day |
| TimeCodec.LocalDateIdempotent | src/utils/timezoneHelpers.ts:8-11 | the corrected truncation to the local date, applied twice, is the same as applied once |
| TimeCodec.LocalDateAsWrittenAgrees | src/utils/timezoneHelpers.ts:8-11 | outside the years 0..99 `isoToLocalDate` as written equals the corrected truncation, so what LocalDateIsMidnight states holds of it there |
| TimeCodec.LocalDateAsWrittenYearShift | src/utils/timezoneHelpers.ts:10 | as written, an instant in the years 0..99 truncates to a day at least 1900 years later |
| TimeCodec.LocalTimeRoundTrip | src/utils/timezoneHelpers.ts:13-19 | a well-formed `HH:MM` on a date gives an instant on that local date, at that time with seconds and milliseconds zero, whose `isoToLocalTime` is the same text |
| TimeCodec.SetHoursText | src/utils/timezoneHelpers.ts:15-16 | setting hours 0..23 and minutes 0..59 keeps the local day, lands on a whole minute, and reads back as that `HH:MM` |
| TimeCodec.AddZeroMinutes | src/utils/timezoneHelpers.ts:21-25 | adding 0 minutes is the identity |
| TimeCodec.AddMinutesTwice | src/utils/timezoneHelpers.ts:21-25 | adding `a` then `b` minutes is adding `a + b` minutes |
| TimeCodec.MinutesBetweenAdd | src/utils/timezoneHelpers.ts:21-28 | the rounded minute gap from an instant to that instant plus `m` minutes is `m`, for every integer `m` |
| TimeCodec.MinutesBetweenSign | src/utils/timezoneHelpers.ts:27-28 | the rounded gap is negative exactly when the end lies more than half a minute before the start |
| JsText.Decimal | src/utils/timezoneHelpers.ts:3 | `String(n)` is a non-empty digit string without a leading zero, one character long exactly when `n < 10` |
| JsText.PadStart2 | src/utils/timezoneHelpers.ts:3-4 | `padStart(2, "0")` gives length 2 for shorter text, ends with the original text, and fills the front with zeros |
| JsText.Split | src/utils/timezoneHelpers.ts:14 | `split` gives at least one piece, and no piece contains the separator |
| JsText.Number | src/utils/timezoneHelpers.ts:14 | `Number` gives a number exactly for digit strings |
| JsText.NumberOfDecimal | src/components/EventModal.tsx:36 | `Number(String(n)) == n` for every whole number |
| JsText.TwoDigitsOf | src/utils/timezoneHelpers.ts:3-4 | a number below 100, padded, is its tens digit followed by its units digit |
| JsText.NumberOfTwoDigits | src/utils/timezoneHelpers.ts:14 | reading back two padded digits gives the number |
| JsText.TwoDigitsOfValue | src/utils/timezoneHelpers.ts:14 | two digits are the padded writing of their value |
| JsText.JoinSplit | src/utils/timezoneHelpers.ts:14 | joining the pieces of a split with the separator gives the string back |
| JsText.SplitJoin | src/utils/timezoneHelpers.ts:14 | splitting the join of separator-free pieces gives the pieces back |
| JsText.SplitTwo | src/utils/timezoneHelpers.ts:14 | two separator-free pieces around the separator split into exactly those two |
| JsDate.TimeInDay | src/utils/timezoneHelpers.ts:2 | the time of day is in [0, one day) and, with the local day, rebuilds the local reading |
| JsDate.GetHours | src/utils/timezoneHelpers.ts:3 | `getHours()` is in 0..23 |
| JsDate.GetMinutes | src/utils/timezoneHelpers.ts:4 | `getMinutes()` is in 0..59 |
| JsDate.GetMonth | src/views/MonthView.tsx:65 | `getMonth()` is in 0..11 |
| JsDate.GetDate | src/views/MonthView.tsx:20 | `getDate()` is in 1..31 |
| JsDate.FromLocalParts | src/utils/timezoneHelpers.ts:16 | the instant built from a local day and a time of day reads back as that day and time |
| JsDate.ShiftDays | src/views/MonthView.tsx:18-22 | moving by whole days moves the local day by that many and keeps the time of day |
| JsDate.SetHoursReads | src/views/MonthView.tsx:43 | `setHours(h, m, 0, 0)` with h 0..23 and m 0..59 keeps the local day and reads back as hour h and minute m |
| JsDate.SetDateShift | src/components/Calendar.tsx:76-77 | `setDate(getDate() + k)` moves exactly k days, across month and year ends |
| JsDate.SameDateIff | src/views/MonthView.tsx:63 | equal `toDateString()` holds exactly when the local days are equal |
| JsDate.DaysFromShift | src/views/MonthView.tsx:18-22 | the `Array.from` of n dates counting on from a start has n entries, each i days after the start at its time of day |
| JsDate.SundayOnOrBeforeDay | src/views/WeekView.tsx:17-18 | moving back by the day of the week lands on a Sunday, that many days earlier, at the same time of day |
| JsDate.SetMonthLands | src/components/Calendar.tsx:75 | `setMonth(m)` lands on day `getDate()` counted from the 1st of month m (carrying into the year), at the same time of day |
| HourSlots.CardTop | src/views/WeekView.tsx:89-90 | a card's top is local hours × 60 + minutes + 28 pixels, so it lies in [28, 1467] |
| HourSlots.CardTopMinutes | src/views/DayView.tsx:75-76 | a card sits one pixel per whole minute since local midnight below the 28-pixel header |
| HourSlots.CardTopOrder | src/views/WeekView.tsx:88-90 | within one local day a later start never puts its card higher |
| HourSlots.MoveToHourLands | src/views/WeekView.tsx:37-42 | a drop on hour 0..23 starts the event at that full hour of the slot's day and ends it exactly the rounded minute gap (in whole minutes) later, so the rounded duration is kept; the exact duration is kept exactly when it was whole minutes |
| HourSlots.ColumnExactly | src/views/WeekView.tsx:64-66 | a column lists, in ascending start order, exactly the events whose start shows its date, each as often as in the list |
| HourSlots.ColumnStable | src/views/DayView.tsx:38-40 | events of a column with the same start keep their order in the list |
| EventList.Insert | src/views/WeekView.tsx:66 | insertion adds exactly the one event to the list's multiset |
| EventList.SortByStart | src/views/WeekView.tsx:66 | the sort gives a list in ascending start order that is a permutation of its input |
| EventList.InsertSorted | src/views/WeekView.tsx:66 | inserting into a list in start order keeps it in start order |
| EventList.StartsOnCount | src/views/MonthView.tsx:63 | the filter keeps each event as often as it occurs if it starts on the day, and drops it otherwise |
| EventList.StartsOnMember | src/views/MonthView.tsx:63 | an event is kept exactly when it is in the list and starts on the day |
| EventList.StartsOnAppend | src/views/MonthView.tsx:63 | filtering a concatenation is concatenating the filtered parts |
| EventList.OnOneDayOnly | src/views/MonthView.tsx:63 | an event is kept for at most one day |
| EventList.SortStable | src/views/WeekView.tsx:66 | the sort is stable: events with the same start keep their relative order |
| EventList.SortSorted | src/views/DayView.tsx:40 | a list already in start order is left unchanged by the sort |
| MonthView.StartOfMonth | src/views/MonthView.tsx:13 | the corrected start of the month is local midnight of the 1st of the selected year and month |
| MonthView.DaysConsecutive | src/views/MonthView.tsx:18-22 | the grid is 42 dates at local midnight, each exactly one day after the one before |
| MonthView.GridStartsOnSunday | src/views/MonthView.tsx:13-16 | the first cell is a Sunday, the day of the week of the 1st before the 1st, and the 1st sits at the index of its day of the week |
| MonthView.GridHasDay | src/views/MonthView.tsx:13-22 | every day d of the selected month is in the grid, at index (day of the week of the 1st) + d − 1 |
| MonthView.FlatRows | src/views/MonthView.tsx:25 | flattening the first k slices of 7 gives the first 7k dates |
| MonthView.WeeksFlat | src/views/MonthView.tsx:62 | `weeks` is 6 rows of 7 whose concatenation is exactly `days` |
| MonthView.CurrentMonthIff | src/views/MonthView.tsx:65 | a cell is marked current-month exactly when its date lies in the selected month of the selected year |
| MonthView.OtherYearFarAway | src/views/MonthView.tsx:65 | a day in the same month number of another year is more than 300 days from the 1st of the selected month, so no grid cell can be one |
| MonthView.CellEventsIff | src/views/MonthView.tsx:63 | an event is listed in a cell exactly when it is one of the events and its start shows the cell's date |
| MonthView.CellEventsOneCell | src/views/MonthView.tsx:63 | no event is listed in two cells of the grid |
| MonthView.DropOnDayLands | src/views/MonthView.tsx:38-46 | with a payload, a drop lands on the cell's date at the dragged start's hour and minute, on a whole minute, keeps the exact millisecond duration, and changes nothing but start and end |
| MonthView.DropOnDayFiles | src/views/MonthView.tsx:46 | the corrected drop has the same start and end and files the event under the cell's date, which is its start day |
| MonthView.DropOnDayAsWrittenUnfiles | src/views/MonthView.tsx:46 | as written, an event filed under its start day and dropped on another day is no longer filed under its start day |
| MonthView.DropOnDayNoPayload | src/views/MonthView.tsx:33-34 | without an `application/json` payload a drop does nothing |
| MonthView.AsWrittenStartOfMonth | src/views/MonthView.tsx:13 | as written, the start of a month in the years 0..99 is at least 1900 years after the 1st of that month |
| MonthView.AsWrittenGridElsewhere | src/views/MonthView.tsx:13-22 | as written, for a selected year 0..99 every grid cell is more than 1899 years after the 1st of the selected month |
| MonthView.AsWrittenGridAgrees | src/views/MonthView.tsx:13-22 | outside the years 0..99 the grid as written is the corrected grid |
| WeekView.WeekDays | src/views/WeekView.tsx:17-24 | seven dates one day apart starting on a Sunday, with the selected date at the index of its day of the week |
| WeekView.DropOnHourLands | src/views/WeekView.tsx:30-45 | with a `text/plain` payload, a drop on hour 0..23 starts at that full hour of the column's date, ends exactly the rounded minute gap later, so it keeps the rounded minute duration (and the exact one exactly when it was whole minutes), files the event under the column's date, and keeps id, title and description |
| WeekView.DropOnHourNoPayload | src/views/WeekView.tsx:32-33 | without a `text/plain` payload a drop does nothing |
| WeekView.DraggedCardDrops | src/components/EventCard.tsx:17-19 | dragging a card writes the `text/plain` payload the week view reads, so the drop moves that event |
| DayView.DropOnHourLands | src/views/DayView.tsx:21-36 | with an `application/json` payload, a drop on hour 0..23 starts at that full hour of the selected date, ends exactly the rounded minute gap later, so it keeps the rounded minute duration (and the exact one exactly when it was whole minutes), and changes nothing but start and end |
| DayView.DropOnHourKeepsFiling | src/views/DayView.tsx:35 | an event shown in the day view and filed under its start day stays filed under it after a drop |
| DayView.DropOnHourNoPayload | src/views/DayView.tsx:23-24 | without an `application/json` payload a drop does nothing |
| DragData.DragStartCarries | src/components/EventCard.tsx:17-19 | a drag start stores the event under both `application/json` and `text/plain` |
| Calendar.Calendar.constructor | src/components/Calendar.tsx:24-31 | the initial view is Month, the selected date is now, and the events are the stored ones |
| Calendar.Calendar.SetView | src/components/CalendarHeader.tsx:45 | the view switch changes the view and nothing else |
| Calendar.Calendar.AddEvent | src/components/Calendar.tsx:60-62 | the events become the old list with the event, under the fresh id, appended; view and date are unchanged |
| Calendar.Calendar.UpdateEvent | src/components/Calendar.tsx:64-66 | the events become the old list with every event of the updated id replaced; view and date are unchanged |
| Calendar.Calendar.DeleteEvent | src/components/Calendar.tsx:68-70 | the events become the old list without the events of the id; view and date are unchanged |
| Calendar.Calendar.Next | src/components/Calendar.tsx:73-79 | the step-by-step date update moves the selected date to the next month, week or day, and leaves view and events unchanged |
| Calendar.Calendar.Prev | src/components/Calendar.tsx:82-88 | the same backwards |
| Calendar.AddedAppends | src/components/Calendar.tsx:60-62 | adding keeps the earlier events in order, appends one event equal to the added one under the fresh id, and adds the fresh id to the ids |
| Calendar.AddedUnique | src/components/Calendar.tsx:61 | a fresh id not yet in use keeps the ids unique |
| Calendar.UpdatedReplaces | src/components/Calendar.tsx:64-66 | updating keeps the length, replaces every event with the id, keeps every other event, and includes the update when the id was present |
| Calendar.UpdatedAbsent | src/components/Calendar.tsx:65 | updating an id not in the list leaves the list as it is |
| Calendar.UpdatedIdempotent | src/components/Calendar.tsx:65 | updating twice with the same event is updating once |
| Calendar.UpdatedIds | src/components/Calendar.tsx:65 | updating keeps the set of ids and their uniqueness |
| Calendar.DeletedCount | src/components/Calendar.tsx:69 | deleting removes every event with the id and keeps each other event as often as before |
| Calendar.DeletedAppend | src/components/Calendar.tsx:69 | deleting from a concatenation deletes from each part, so the kept events stay in order |
| Calendar.DeletedAbsent | src/components/Calendar.tsx:69 | deleting an absent id leaves the list as it is |
| Calendar.DeletedGone | src/components/Calendar.tsx:69 | after deleting, no event has the id, and deleting again changes nothing |
| Calendar.DeleteUndoesAdd | src/components/Calendar.tsx:60-70 | deleting the fresh id of an added event gives the list back |
| Calendar.DeletedUnique | src/components/Calendar.tsx:69 | deleting keeps the ids unique |
| Navigation.WeekSteps | src/components/Calendar.tsx:76-85 | in the week view next and previous move by exactly 7 days |
| Navigation.DaySteps | src/components/Calendar.tsx:77-86 | in the day view next and previous move by exactly 1 day |
| Navigation.NextSteps | src/components/Calendar.tsx:76-77 | outside the month view next moves by 7 days in the week view and 1 day in the day view |
| Navigation.PrevSteps | src/components/Calendar.tsx:85-86 | outside the month view previous moves by 7 days in the week view and 1 day in the day view |
| Navigation.WeekAndDayRoundTrip | src/components/Calendar.tsx:73-88 | in the week and day views next then previous, and previous then next, give the selected date back |
| Navigation.LandsOn | src/components/Calendar.tsx:75 | day d counted from the 1st of a month is day d of that month, or, past its end, the matching day of the month after |
| Navigation.NextMonthLands | src/components/Calendar.tsx:75 | in the month view next keeps the time of day and the day of the month in the following month, December carrying into January; a day the month lacks rolls over (January 31 becomes March 2 or 3) |
| Navigation.PrevMonthLands | src/components/Calendar.tsx:84 | in the month view previous moves to the month before, January carrying into December, with the same rollover |
| Navigation.MonthRoundTrip | src/components/Calendar.tsx:73-88 | in the month view next and previous undo each other on days 1 to 28 |
| Navigation.NextThenPrev | src/components/Calendar.tsx:73-88 | next then previous in the month view gives the date back on days 1 to 28 |
| Navigation.PrevThenNext | src/components/Calendar.tsx:73-88 | previous then next in the month view gives the date back on days 1 to 28 |
| EventModal.EventModal.constructor | src/components/EventModal.tsx:23-38 | editing fills the fields from the event, its times as local `HH:MM`; a new event gets empty text and the default start and end |
| EventModal.EventModal.SetTitle | src/components/EventModal.tsx:108 | the title changes and no other field does |
| EventModal.EventModal.SetDescription | src/components/EventModal.tsx:120 | the description changes and no other field does |
| EventModal.EventModal.SetStartTime | src/components/EventModal.tsx:132 | the start time changes and no other field does |
| EventModal.EventModal.SetEndTime | src/components/EventModal.tsx:142 | the end time changes and no other field does |
| EventModal.EventModal.Submit | src/components/EventModal.tsx:50-70 | the step-by-step submit produces what the form's fields give under the save rules below |
| EventModal.EventModal.Delete | src/components/EventModal.tsx:72-77 | delete hands on an id exactly when an event is being edited, and that id is the event's |
| EventModal.NewEventDefaults | src/components/EventModal.tsx:28-38 | with no hour clicked a new event runs from 09:00 to 10:00 |
| EventModal.StartAt | src/components/EventModal.tsx:28-37 | a start showing h:m parses to it, and the end is the full hour after h, zero-padded, 23 wrapping to 00, with the minutes dropped |
| EventModal.InitialEndParses | src/components/EventModal.tsx:34-37 | when the start's hour is a number the end is the well-formed `(h + 1) % 24`:00; when it is not, the end does not parse |
| EventModal.DurationBounds | src/components/EventModal.tsx:55-57 | for well-formed times the duration exists, lies in [−1439, 1439], is negative exactly when the end is earlier in the day, and is zero exactly when the texts are equal |
| EventModal.SubmitBlockedIff | src/components/EventModal.tsx:109-143 | save is refused exactly when the title, the start or the end is empty |
| EventModal.SubmitFailedIff | src/components/EventModal.tsx:54-58 | with the fields filled, nothing is saved exactly when the start or the end does not read as two numbers |
| EventModal.SubmitSaves | src/components/EventModal.tsx:50-70 | well-formed times save an event with the form's text, the kept id (a fresh one for a new event or id 0), filed under the form's date, starting and ending on that local day at the two times as typed, on whole minutes, with a rounded gap equal to the duration |
| EventModal.SavedShape | src/components/EventModal.tsx:54-65 | with the two times parsed, the saved event runs from the start time to the end time set on the form's date |
| EventModal.EditUnchanged | src/components/EventModal.tsx:28-67 | opening an event filed under its start day, on whole minutes and ending that day, and saving it unchanged gives the same event back |
| CalendarGrid.CalendarGrid.constructor | src/components/CalendarGrid.tsx:19-22 | the form starts closed, with no date, no event and an empty start time |
| CalendarGrid.CalendarGrid.DayClick | src/components/CalendarGrid.tsx:26-30 | a day click opens a new-event form on that date and leaves the offered start time unchanged |
| CalendarGrid.CalendarGrid.HourClick | src/components/CalendarGrid.tsx:33-38 | an hour click opens a new-event form on that date, offering the padded hour followed by ":00" |
| CalendarGrid.CalendarGrid.EventClick | src/components/CalendarGrid.tsx:41-45 | an event click opens the form editing that event, on the date it is filed under |
| CalendarGrid.CalendarGrid.OpenModal | src/components/CalendarGrid.tsx:77-86 | the form is rendered exactly when it is shown and has a date, and then opens on that date: editing fills title, description and times from the event; a new event gets empty title and description and the default start and end for the offered start time |
| CalendarGrid.CalendarGrid.SaveEvent | src/components/CalendarGrid.tsx:49-53 | save updates the calendar when an event is being edited and adds otherwise, then closes the form |
| CalendarGrid.CalendarGrid.DeleteEvent | src/components/CalendarGrid.tsx:56-59 | delete removes the id from the calendar and closes the form |
| CalendarGrid.CalendarGrid.Close | src/components/CalendarGrid.tsx:82 | closing hides the form and keeps the rest of its state |
| CalendarGrid.OneViewShown | src/components/CalendarGrid.tsx:73-75 | the view switch renders exactly the selected view |
| CalendarGrid.HourLabelIsTime | src/components/CalendarGrid.tsx:36 | the offered start is the `HH:MM` of the hour with minute 00 |
| CalendarGrid.HourClickTimes | src/components/CalendarGrid.tsx:33-38 | after a click on hour 0..23 the form starts at that hour and ends at the next full hour, 23 wrapping to 00, both well formed |
| CalendarGrid.HourClickDuration | src/components/CalendarGrid.tsx:33-38 | saved unchanged, that form lasts 60 minutes, except from 23:00, where it lasts −1380 |
| Flows.HourClickSave | src/components/EventModal.tsx:28-67 | a click on hour 0..23 of a date, a title and save give an event with the fresh id, filed under the date, starting at that hour on it, and ending 60 minutes later (or 23 hours earlier from 23:00) on the same date |
| Flows.ResaveAfterMonthDropAsWritten | src/views/MonthView.tsx:46 | as written, an event moved to another day in the month view, then opened and saved unchanged, goes back to the day it started on before the move |
| Flows.ResaveAfterMonthDrop | src/views/MonthView.tsx:46 | with the corrected drop, opening and saving the moved event keeps its start where it was dropped |

## Left out

- Local storage (src/components/Calendar.tsx:26-58) is I/O. The stored list is the constructor's `stored` parameter. The initial loader at line 29 has no try/catch, unlike the effect at lines 37-51; that difference is not modelled.
- `Date.now()` (src/components/Calendar.tsx:61, src/components/EventModal.tsx:61) reads the clock. It is the `freshId` parameter. The source does not guarantee that it is unused, so `Calendar.AddedUnique` assumes it.
- `new Date()` at src/components/Calendar.tsx:25 is the constructor's `now` parameter.
- Time zones and daylight saving: the local offset is fixed. Round trips through local time fail in daylight-saving gaps and are not modelled there.
- ISO 8601 parsing and `toISOString` formatting: an ISO string is its instant. An instant outside `Date`'s range is not modelled.
- `JSON.stringify`/`JSON.parse` and the drag `dataTransfer`: the payload is a map from format to event. A malformed payload, which throws uncaught, is not modelled.
- React hook and effect timing, JSX and CSS layout. This includes the reset effect at src/components/EventModal.tsx:40-48, which sets the same values the initialisers do, and `onClose` after save and delete.
- src/components/CalendarHeader.tsx (locale date formatting and buttons), src/components/EventCard.tsx (display and event propagation) and src/App.tsx (a wrapper) are not part of this model beyond the view switch and the drag payload.
- HourSlots.CardTop: the card top is computed over integers, as hours × 60 + minutes + 28. The source computes `(startMin / 60) * 60` in floating point, which can differ from `startMin` by a rounding error.
- JsText.Number: it models `Number` on digit strings only, and gives no number (NaN) for any other text. JavaScript also accepts surrounding whitespace, signs, fractions and exponents. The calendar only feeds it `HH:MM` text from its own formatting or a time input.
- EventModal.SubmitBlockedIff: the browser's `required` check is modelled as "not the empty string", with no trimming. The time inputs of type `time` produce either "" or a well-formed `HH:MM`; that browser guarantee is not modelled, so malformed times are handled as the code handles them (`Failed`).
- Navigation.MonthRoundTrip: next then previous in the month view is the identity only on days 1 to 28. On later days the source rolls over (January 31 → March 2 or 3 → February 2 or 3). `Navigation.NextMonthLands` states the rollover exactly.
- The week and day views' per-day lists are modelled by `HourSlots.Column`. The month view's `dayEvents` (no sort) is `MonthView.CellEvents`.

## Findings

| source | as written | input that shows it | evidently intended | confidence | as-written member | corrected member |
|---|---|---|---|---|---|---|
| src/views/MonthView.tsx:46 | the moved event keeps the `date` it was filed under, while its start moves to the cell's day | an event filed under May 10 and starting then, dropped on the May 20 cell, then clicked and saved unchanged: the form opens on May 10 (src/components/CalendarGrid.tsx:43) and the start goes back to May 10 | `date` set to the cell's date, as the week view's drop does at src/views/WeekView.tsx:44 | not executed | MonthView.HandleDropOnDayAsWritten, MonthView.DropOnDayAsWrittenUnfiles, Flows.ResaveAfterMonthDropAsWritten | MonthView.HandleDropOnDay, MonthView.DropOnDayFiles, Flows.ResaveAfterMonthDrop |
| src/views/MonthView.tsx:13 | `new Date(year, month, 1)` reads the years 0..99 as 1900..1999 | a selected date in March of year 50: the grid shows March 1950 | the grid of the selected year's month | not executed | MonthView.StartOfMonthAsWritten, MonthView.DaysAsWritten, MonthView.AsWrittenGridElsewhere | MonthView.StartOfMonth, MonthView.Days, MonthView.GridHasDay |
| src/utils/timezoneHelpers.ts:10 | `new Date(y, m, d)` reads the years 0..99 as 1900..1999 | an instant on March 5 of year 50 truncates to March 5, 1950 | local midnight of the instant's own date | not executed | TimeCodec.IsoToLocalDateAsWritten, TimeCodec.LocalDateAsWrittenYearShift | TimeCodec.IsoToLocalDate, TimeCodec.LocalDateIsMidnight |
