/** The drag-and-drop payload of an event card.

    A drag's `dataTransfer` is a map from format to payload; the payload is
    the dragged event itself (its JSON text is not modelled). A format that
    was never set reads as the empty string, which the drop handlers treat
    as "nothing dropped". */
module DragData {
  import opened Wrappers
  import opened CalendarTypes

  type DataTransfer = map<string, CalendarEvent>

  const JsonFormat := "application/json"
  const TextFormat := "text/plain"

  /** Starting to drag an event card: the view's handler stores the event
      under "application/json", then the card stores it under "text/plain". */
  function DragStart(ev: CalendarEvent): DataTransfer
  {
    map[JsonFormat := ev][TextFormat := ev]
  }

  /** `getData(format)`, with None for the empty string. */
  function GetData(dt: DataTransfer, format: string): Option<CalendarEvent>
  {
    if format in dt then Some(dt[format]) else None
  }

  /** Both formats a drop handler may read carry the dragged event. */
  lemma DragStartCarries(ev: CalendarEvent)
    ensures GetData(DragStart(ev), JsonFormat) == Some(ev)
    ensures GetData(DragStart(ev), TextFormat) == Some(ev)
  {
  }
}
