/** The per-day event lists the views show: the events whose start falls on
    a local day (`filter` on `toDateString()`), and for the week and day
    views those sorted by start (`sort` on `getTime()` differences, which
    JavaScript guarantees to be stable). */
module EventList {
  import opened JsDate
  import opened CalendarTypes

  /** The events that start on local day `day`, in their original order. */
  function StartsOn(zone: int, events: seq<CalendarEvent>, day: int): seq<CalendarEvent>
  {
    if |events| == 0 then []
    else
      (if LocalDay(zone, events[0].startTime) == day then [events[0]] else [])
        + StartsOn(zone, events[1..], day)
  }

  predicate SortedByStart(s: seq<CalendarEvent>)
  {
    forall i, j :: 0 <= i < j < |s| ==> s[i].startTime <= s[j].startTime
  }

  /** Inserts `e` before the first event that does not start earlier. */
  function Insert(e: CalendarEvent, s: seq<CalendarEvent>): (r: seq<CalendarEvent>)
    ensures multiset(r) == multiset(s) + multiset{e}
  {
    if |s| == 0 || e.startTime <= s[0].startTime then [e] + s
    else
      assert s == [s[0]] + s[1..];
      [s[0]] + Insert(e, s[1..])
  }

  /** Stable sort by start instant. */
  function SortByStart(s: seq<CalendarEvent>): (r: seq<CalendarEvent>)
    ensures SortedByStart(r)
    ensures multiset(r) == multiset(s)
  {
    if |s| == 0 then []
    else
      assert s == [s[0]] + s[1..];
      var t := SortByStart(s[1..]);
      InsertSorted(s[0], t);
      Insert(s[0], t)
  }

  /** Inserting into a sorted list keeps it sorted. */
  lemma {:induction false} InsertSorted(e: CalendarEvent, s: seq<CalendarEvent>)
    requires SortedByStart(s)
    ensures SortedByStart(Insert(e, s))
  {
    if |s| > 0 && e.startTime > s[0].startTime {
      SortedTail(s);
      InsertSorted(e, s[1..]);
      InsertBound(e, s[1..], s[0].startTime);
      SortedCons(s[0], Insert(e, s[1..]));
    }
  }

  lemma SortedTail(s: seq<CalendarEvent>)
    requires |s| > 0 && SortedByStart(s)
    ensures SortedByStart(s[1..])
    ensures forall i :: 0 <= i < |s| - 1 ==> s[0].startTime <= s[1..][i].startTime
  {
    forall i, j | 0 <= i < j < |s| - 1
      ensures s[1..][i].startTime <= s[1..][j].startTime
    {
      assert s[1..][i] == s[i + 1] && s[1..][j] == s[j + 1];
    }
  }

  /** Every event of `Insert(e, s)` starts no earlier than `b` when `e` and
      every event of `s` do. */
  lemma InsertBound(e: CalendarEvent, s: seq<CalendarEvent>, b: Instant)
    requires b <= e.startTime
    requires forall i :: 0 <= i < |s| ==> b <= s[i].startTime
    ensures forall i :: 0 <= i < |Insert(e, s)| ==> b <= Insert(e, s)[i].startTime
  {
    var t := Insert(e, s);
    forall i | 0 <= i < |t|
      ensures b <= t[i].startTime
    {
      assert t[i] in multiset(t);
      if t[i] != e {
        assert t[i] in multiset(s);
        var j :| 0 <= j < |s| && s[j] == t[i];
      }
    }
  }

  lemma SortedCons(x: CalendarEvent, t: seq<CalendarEvent>)
    requires SortedByStart(t)
    requires forall i :: 0 <= i < |t| ==> x.startTime <= t[i].startTime
    ensures SortedByStart([x] + t)
  {
    var r := [x] + t;
    forall i, j | 0 <= i < j < |r|
      ensures r[i].startTime <= r[j].startTime
    {
      assert r[j] == t[j - 1];
      if i > 0 {
        assert r[i] == t[i - 1];
      }
    }
  }

  /** The events that start exactly at instant `k`, in order. */
  function StartingAt(s: seq<CalendarEvent>, k: Instant): seq<CalendarEvent>
  {
    if |s| == 0 then []
    else (if s[0].startTime == k then [s[0]] else []) + StartingAt(s[1..], k)
  }

  // ---------------------------------------------------------------
  // Properties
  // ---------------------------------------------------------------

  /** An event is listed as often as it occurs in the list if it starts on
      the day, and not at all otherwise. */
  lemma {:induction false} StartsOnCount(zone: int, events: seq<CalendarEvent>, day: int, e: CalendarEvent)
    ensures multiset(StartsOn(zone, events, day))[e]
         == if LocalDay(zone, e.startTime) == day then multiset(events)[e] else 0
  {
    if |events| > 0 {
      StartsOnCount(zone, events[1..], day, e);
      assert events == [events[0]] + events[1..];
    }
  }

  /** An event is listed exactly when it is in the list and starts on the day. */
  lemma StartsOnMember(zone: int, events: seq<CalendarEvent>, day: int, e: CalendarEvent)
    ensures e in StartsOn(zone, events, day) <==> e in events && LocalDay(zone, e.startTime) == day
  {
    StartsOnCount(zone, events, day, e);
    assert e in StartsOn(zone, events, day) <==> multiset(StartsOn(zone, events, day))[e] > 0;
    assert e in events <==> multiset(events)[e] > 0;
  }

  /** Filtering a concatenation filters each part, keeping their order. */
  lemma {:induction false} StartsOnAppend(zone: int, a: seq<CalendarEvent>, b: seq<CalendarEvent>, day: int)
    ensures StartsOn(zone, a + b, day) == StartsOn(zone, a, day) + StartsOn(zone, b, day)
  {
    if |a| > 0 {
      assert (a + b)[0] == a[0] && (a + b)[1..] == a[1..] + b;
      StartsOnAppend(zone, a[1..], b, day);
    } else {
      assert a + b == b;
    }
  }

  /** An event is listed on at most one day. */
  lemma OnOneDayOnly(zone: int, events: seq<CalendarEvent>, e: CalendarEvent, d1: int, d2: int)
    requires e in StartsOn(zone, events, d1) && e in StartsOn(zone, events, d2)
    ensures d1 == d2
  {
    StartsOnCount(zone, events, d1, e);
    StartsOnCount(zone, events, d2, e);
    assert multiset(StartsOn(zone, events, d1))[e] > 0;
    assert multiset(StartsOn(zone, events, d2))[e] > 0;
  }

  /** Sorting keeps events with the same start in their original order. */
  lemma {:induction false} SortStable(s: seq<CalendarEvent>, k: Instant)
    ensures StartingAt(SortByStart(s), k) == StartingAt(s, k)
  {
    if |s| > 0 {
      SortStable(s[1..], k);
      InsertStartingAt(s[0], SortByStart(s[1..]), k);
    }
  }

  lemma {:induction false} InsertStartingAt(e: CalendarEvent, s: seq<CalendarEvent>, k: Instant)
    ensures StartingAt(Insert(e, s), k) == (if e.startTime == k then [e] else []) + StartingAt(s, k)
  {
    if |s| == 0 || e.startTime <= s[0].startTime {
      assert ([e] + s)[1..] == s;
    } else {
      InsertStartingAt(e, s[1..], k);
      assert ([s[0]] + Insert(e, s[1..]))[1..] == Insert(e, s[1..]);
    }
  }

  /** A list already in start order is left as it is. */
  lemma {:induction false} SortSorted(s: seq<CalendarEvent>)
    requires SortedByStart(s)
    ensures SortByStart(s) == s
  {
    if |s| > 0 {
      SortSorted(s[1..]);
      assert s == [s[0]] + s[1..];
    }
  }
}
