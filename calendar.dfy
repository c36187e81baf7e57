/** The calendar's top-level state: the view, the selected date and the
    event list, with the handlers that add, update and delete events and
    move the selected date a month, a week or a day forward and back. */
module Calendar {
  import opened Gregorian
  import opened JsDate
  import opened CalendarTypes
  import opened Navigation

  /** `handleAddEvent`: the event appended, its id replaced by `freshId`
      (the clock reading `Date.now()`). */
  function Added(events: seq<CalendarEvent>, ev: CalendarEvent, freshId: int): seq<CalendarEvent>
  {
    events + [ev.(id := freshId)]
  }

  /** `handleUpdateEvent`: every event with the updated event's id replaced by it. */
  function Updated(events: seq<CalendarEvent>, updated: CalendarEvent): seq<CalendarEvent>
  {
    seq(|events|, i requires 0 <= i < |events| => if events[i].id == updated.id then updated else events[i])
  }

  /** `handleDeleteEvent`: the events whose id is not `id`, in order. */
  function Deleted(events: seq<CalendarEvent>, id: int): seq<CalendarEvent>
  {
    if |events| == 0 then []
    else (if events[0].id == id then [] else [events[0]]) + Deleted(events[1..], id)
  }

  function Ids(events: seq<CalendarEvent>): set<int>
  {
    set e | e in events :: e.id
  }

  predicate UniqueIds(events: seq<CalendarEvent>)
  {
    forall i, j :: 0 <= i < j < |events| ==> events[i].id != events[j].id
  }

  /** The component's state. `zone` is the machine's local offset; `events`
      is what local storage is loaded from and saved to. */
  class Calendar {
    const zone: int
    var view: CalendarView
    var selectedDate: Instant
    var events: seq<CalendarEvent>

    /** The initial state: the month view on the current date `now`, with
        the stored events. */
    constructor(zone: int, now: Instant, stored: seq<CalendarEvent>)
      ensures this.zone == zone
      ensures view == Month && selectedDate == now && events == stored
    {
      this.zone := zone;
      view := Month;
      selectedDate := now;
      events := stored;
    }

    /** `setView`, from the header's view switch. */
    method SetView(v: CalendarView)
      modifies this
      ensures view == v
      ensures selectedDate == old(selectedDate) && events == old(events)
    {
      view := v;
    }

    method AddEvent(ev: CalendarEvent, freshId: int)
      modifies this
      ensures events == Added(old(events), ev, freshId)
      ensures view == old(view) && selectedDate == old(selectedDate)
    {
      events := events + [ev.(id := freshId)];
    }

    method UpdateEvent(updated: CalendarEvent)
      modifies this
      ensures events == Updated(old(events), updated)
      ensures view == old(view) && selectedDate == old(selectedDate)
    {
      events := Updated(events, updated);
    }

    method DeleteEvent(id: int)
      modifies this
      ensures events == Deleted(old(events), id)
      ensures view == old(view) && selectedDate == old(selectedDate)
    {
      events := Deleted(events, id);
    }

    /** `handleNext`, step by step on a copy of the date; it computes `NextDate`. */
    method Next()
      modifies this
      ensures selectedDate == NextDate(zone, old(view), old(selectedDate))
      ensures view == old(view) && events == old(events)
    {
      var newDate := selectedDate;
      if view == Month {
        newDate := SetMonth(zone, newDate, GetMonth(zone, newDate) + 1);
      } else if view == Week {
        newDate := SetDate(zone, newDate, GetDate(zone, newDate) + 7);
      } else {
        newDate := SetDate(zone, newDate, GetDate(zone, newDate) + 1);
      }
      selectedDate := newDate;
    }

    /** `handlePrev`, step by step on a copy of the date; it computes `PrevDate`. */
    method Prev()
      modifies this
      ensures selectedDate == PrevDate(zone, old(view), old(selectedDate))
      ensures view == old(view) && events == old(events)
    {
      var newDate := selectedDate;
      if view == Month {
        newDate := SetMonth(zone, newDate, GetMonth(zone, newDate) - 1);
      } else if view == Week {
        newDate := SetDate(zone, newDate, GetDate(zone, newDate) - 7);
      } else {
        newDate := SetDate(zone, newDate, GetDate(zone, newDate) - 1);
      }
      selectedDate := newDate;
    }
  }

  // ---------------------------------------------------------------
  // Properties of the event list
  // ---------------------------------------------------------------

  /** Adding keeps the earlier events in order and appends one event under
      the fresh id, which joins the ids. */
  lemma AddedAppends(events: seq<CalendarEvent>, ev: CalendarEvent, freshId: int)
    ensures |Added(events, ev, freshId)| == |events| + 1
    ensures Added(events, ev, freshId)[..|events|] == events
    ensures Added(events, ev, freshId)[|events|] == ev.(id := freshId)
    ensures Ids(Added(events, ev, freshId)) == Ids(events) + {freshId}
  {
    var r := Added(events, ev, freshId);
    assert r[|events|] in r;
    forall x | x in Ids(r)
      ensures x in Ids(events) + {freshId}
    {
      var e :| e in r && e.id == x;
      if e != r[|events|] {
        var i :| 0 <= i < |r| && r[i] == e;
        assert events[i] == e;
      }
    }
  }

  /** A fresh id keeps the ids unique. */
  lemma AddedUnique(events: seq<CalendarEvent>, ev: CalendarEvent, freshId: int)
    requires UniqueIds(events) && freshId !in Ids(events)
    ensures UniqueIds(Added(events, ev, freshId))
  {
    var r := Added(events, ev, freshId);
    forall i, j | 0 <= i < j < |r|
      ensures r[i].id != r[j].id
    {
      if j == |events| {
        assert events[i] in events;
      }
    }
  }

  /** Updating replaces the events with the matching id and leaves every
      other event where it was. */
  lemma UpdatedReplaces(events: seq<CalendarEvent>, updated: CalendarEvent, e: CalendarEvent)
    ensures |Updated(events, updated)| == |events|
    ensures e in Updated(events, updated) && e.id == updated.id ==> e == updated
    ensures e in Updated(events, updated) && e.id != updated.id <==> e in events && e.id != updated.id
    ensures updated.id in Ids(events) ==> updated in Updated(events, updated)
  {
    var r := Updated(events, updated);
    if e in r && e.id != updated.id {
      var i :| 0 <= i < |r| && r[i] == e;
      assert events[i] == e;
    }
    if e in events && e.id != updated.id {
      var i :| 0 <= i < |events| && events[i] == e;
      assert r[i] == e;
    }
    if updated.id in Ids(events) {
      var x :| x in events && x.id == updated.id;
      var i :| 0 <= i < |events| && events[i] == x;
      assert r[i] == updated;
    }
  }

  /** Updating an id that is not in the list changes nothing. */
  lemma UpdatedAbsent(events: seq<CalendarEvent>, updated: CalendarEvent)
    requires updated.id !in Ids(events)
    ensures Updated(events, updated) == events
  {
    forall i | 0 <= i < |events|
      ensures events[i].id != updated.id
    {
      assert events[i] in events;
    }
  }

  /** Updating twice with the same event is updating once. */
  lemma UpdatedIdempotent(events: seq<CalendarEvent>, updated: CalendarEvent)
    ensures Updated(Updated(events, updated), updated) == Updated(events, updated)
  {
  }

  /** Updating keeps the set of ids and their uniqueness. */
  lemma UpdatedIds(events: seq<CalendarEvent>, updated: CalendarEvent)
    ensures Ids(Updated(events, updated)) == Ids(events)
    ensures UniqueIds(events) ==> UniqueIds(Updated(events, updated))
  {
    var r := Updated(events, updated);
    forall x | x in Ids(r)
      ensures x in Ids(events)
    {
      var e :| e in r && e.id == x;
      var i :| 0 <= i < |r| && r[i] == e;
      assert events[i].id == x;
    }
    forall x | x in Ids(events)
      ensures x in Ids(r)
    {
      var e :| e in events && e.id == x;
      var i :| 0 <= i < |events| && events[i] == e;
      assert r[i].id == x && r[i] in r;
    }
  }

  /** Deleting removes every event with the id and keeps each other event
      as often as it was there. */
  lemma {:induction false} DeletedCount(events: seq<CalendarEvent>, id: int, e: CalendarEvent)
    ensures multiset(Deleted(events, id))[e] == if e.id == id then 0 else multiset(events)[e]
  {
    if |events| > 0 {
      DeletedCount(events[1..], id, e);
      assert events == [events[0]] + events[1..];
    }
  }

  /** Deleting from a concatenation deletes from each part, so the kept
      events stay in their order. */
  lemma {:induction false} DeletedAppend(a: seq<CalendarEvent>, b: seq<CalendarEvent>, id: int)
    ensures Deleted(a + b, id) == Deleted(a, id) + Deleted(b, id)
  {
    if |a| > 0 {
      assert (a + b)[0] == a[0] && (a + b)[1..] == a[1..] + b;
      DeletedAppend(a[1..], b, id);
    } else {
      assert a + b == b;
    }
  }

  /** Deleting an id that is not in the list changes nothing. */
  lemma {:induction false} DeletedAbsent(events: seq<CalendarEvent>, id: int)
    requires id !in Ids(events)
    ensures Deleted(events, id) == events
  {
    if |events| > 0 {
      assert events[0] in events;
      assert Ids(events[1..]) <= Ids(events) by {
        forall x | x in Ids(events[1..])
          ensures x in Ids(events)
        {
          var e :| e in events[1..] && e.id == x;
          assert e in events;
        }
      }
      DeletedAbsent(events[1..], id);
      assert events == [events[0]] + events[1..];
    }
  }

  /** After deleting an id no event has it; deleting it again changes nothing. */
  lemma DeletedGone(events: seq<CalendarEvent>, id: int)
    ensures id !in Ids(Deleted(events, id))
    ensures Deleted(Deleted(events, id), id) == Deleted(events, id)
  {
    if id in Ids(Deleted(events, id)) {
      var e :| e in Deleted(events, id) && e.id == id;
      DeletedCount(events, id, e);
      assert false;
    }
    DeletedAbsent(Deleted(events, id), id);
  }

  /** Deleting the fresh id of an added event gives the list back. */
  lemma DeleteUndoesAdd(events: seq<CalendarEvent>, ev: CalendarEvent, freshId: int)
    requires freshId !in Ids(events)
    ensures Deleted(Added(events, ev, freshId), freshId) == events
  {
    DeletedAppend(events, [ev.(id := freshId)], freshId);
    DeletedAbsent(events, freshId);
    assert [ev.(id := freshId)][1..] == [];
  }

  /** Deleting keeps the ids unique. */
  lemma {:induction false} DeletedUnique(events: seq<CalendarEvent>, id: int)
    requires UniqueIds(events)
    ensures UniqueIds(Deleted(events, id))
  {
    if |events| > 0 {
      var tail := events[1..];
      assert UniqueIds(tail) by {
        forall i, j | 0 <= i < j < |tail|
          ensures tail[i].id != tail[j].id
        {
          assert tail[i] == events[i + 1] && tail[j] == events[j + 1];
        }
      }
      DeletedUnique(tail, id);
      var rest := Deleted(tail, id);
      if events[0].id != id {
        forall k | 0 <= k < |rest|
          ensures rest[k].id != events[0].id
        {
          DeletedCount(tail, id, rest[k]);
          assert rest[k] in multiset(rest);
          assert rest[k] in multiset(tail);
          var j :| 0 <= j < |tail| && tail[j] == rest[k];
          assert events[j + 1] == rest[k];
        }
        UniqueCons(events[0], rest);
      }
    }
  }

  lemma UniqueCons(x: CalendarEvent, s: seq<CalendarEvent>)
    requires UniqueIds(s)
    requires forall k :: 0 <= k < |s| ==> s[k].id != x.id
    ensures UniqueIds([x] + s)
  {
    var r := [x] + s;
    forall i, j | 0 <= i < j < |r|
      ensures r[i].id != r[j].id
    {
      assert r[j] == s[j - 1];
      if i > 0 {
        assert r[i] == s[i - 1];
      }
    }
  }
}
