/** Moving the selected date: `handleNext` and `handlePrev` step it by a
    calendar month, a week or a day, depending on the view. */
module Navigation {
  import opened Gregorian
  import opened JsDate
  import opened CalendarTypes

  /** `handleNext`: `setMonth(getMonth() + 1)` in the month view,
      `setDate(getDate() + 7)` in the week view, `setDate(getDate() + 1)`
      in the day view. */
  function NextDate(zone: int, view: CalendarView, selected: Instant): Instant
  {
    match view
    case Month => SetMonth(zone, selected, GetMonth(zone, selected) + 1)
    case Week => SetDate(zone, selected, GetDate(zone, selected) + 7)
    case Day => SetDate(zone, selected, GetDate(zone, selected) + 1)
  }

  /** `handlePrev`: the same steps backwards. */
  function PrevDate(zone: int, view: CalendarView, selected: Instant): Instant
  {
    match view
    case Month => SetMonth(zone, selected, GetMonth(zone, selected) - 1)
    case Week => SetDate(zone, selected, GetDate(zone, selected) - 7)
    case Day => SetDate(zone, selected, GetDate(zone, selected) - 1)
  }

  // ---------------------------------------------------------------
  // Properties
  // ---------------------------------------------------------------

  /** In the week view next and previous move by exactly 7 days. */
  lemma WeekSteps(zone: int, selected: Instant)
    ensures NextDate(zone, Week, selected) == selected + 7 * MsPerDay
    ensures PrevDate(zone, Week, selected) == selected - 7 * MsPerDay
  {
    NextSteps(zone, Week, selected, 7);
    PrevSteps(zone, Week, selected, 7);
  }

  /** In the day view next and previous move by exactly 1 day. */
  lemma DaySteps(zone: int, selected: Instant)
    ensures NextDate(zone, Day, selected) == selected + MsPerDay
    ensures PrevDate(zone, Day, selected) == selected - MsPerDay
  {
    NextSteps(zone, Day, selected, 1);
    PrevSteps(zone, Day, selected, 1);
  }

  lemma NextSteps(zone: int, view: CalendarView, selected: Instant, k: int)
    requires view != Month && k == if view == Week then 7 else 1
    ensures NextDate(zone, view, selected) == selected + k * MsPerDay
  {
    assert NextDate(zone, view, selected) == SetDate(zone, selected, GetDate(zone, selected) + k);
    SetDateShift(zone, selected, k);
  }

  lemma PrevSteps(zone: int, view: CalendarView, selected: Instant, k: int)
    requires view != Month && k == if view == Week then 7 else 1
    ensures PrevDate(zone, view, selected) == selected - k * MsPerDay
  {
    assert PrevDate(zone, view, selected) == SetDate(zone, selected, GetDate(zone, selected) - k);
    SetDateShift(zone, selected, -k);
  }

  /** Next and previous undo each other in the week and day views. */
  lemma WeekAndDayRoundTrip(zone: int, view: CalendarView, selected: Instant)
    requires view != Month
    ensures PrevDate(zone, view, NextDate(zone, view, selected)) == selected
    ensures NextDate(zone, view, PrevDate(zone, view, selected)) == selected
  {
    if view == Week {
      WeekSteps(zone, selected);
      WeekSteps(zone, NextDate(zone, view, selected));
      WeekSteps(zone, PrevDate(zone, view, selected));
    } else {
      DaySteps(zone, selected);
      DaySteps(zone, NextDate(zone, view, selected));
      DaySteps(zone, PrevDate(zone, view, selected));
    }
  }

  /** Day `d` of month `m` of year `y`, or, when that month is shorter,
      the day as many days into the month after it. */
  function MonthLanding(y: int, m: int, d: int): Civil
    requires 0 <= m < 12
  {
    if d <= DaysInMonth(y, m) then Civil(y, m, d)
    else Civil(y + (m + 1) / 12, (m + 1) % 12, d - DaysInMonth(y, m))
  }

  /** Day number `DayOfFirst(y, m) + d - 1` is the landing date of day `d` of month `m`. */
  lemma LandsOn(n: int, y: int, m: int, d: int)
    requires 0 <= m < 12 && 1 <= d <= 31
    requires n == DayOfFirst(y, m) + d - 1
    ensures CivilOf(n) == MonthLanding(y, m, d)
  {
    if d <= DaysInMonth(y, m) {
      CivilAt(n, y, m, d);
    } else {
      var y2, m2, e := y + (m + 1) / 12, (m + 1) % 12, d - DaysInMonth(y, m);
      MakeDayInYear(y, m, d);
      OverflowDay(y, m, d);
      assert n == DayOfFirst(y2, m2) + e - 1;
      CivilAt(n, y2, m2, e);
    }
  }

  /** In the month view next keeps the day of the month and the time of day
      and moves to the following month, into January of the next year after
      December; a day the new month lacks rolls over into the month after it
      (January 31 becomes March 2 or 3). */
  lemma NextMonthLands(zone: int, selected: Instant)
    ensures TimeInDay(zone, NextDate(zone, Month, selected)) == TimeInDay(zone, selected)
    ensures var y, m := GetFullYear(zone, selected), GetMonth(zone, selected);
      CivilOf(LocalDay(zone, NextDate(zone, Month, selected)))
      == MonthLanding(if m == 11 then y + 1 else y, if m == 11 then 0 else m + 1, GetDate(zone, selected))
  {
    NextMonthStep(zone, selected);
    NextMonthDay(LocalDay(zone, NextDate(zone, Month, selected)),
      GetFullYear(zone, selected), GetMonth(zone, selected), GetDate(zone, selected));
  }

  lemma NextMonthStep(zone: int, selected: Instant)
    ensures LocalDay(zone, NextDate(zone, Month, selected))
         == DayOfFirst(GetFullYear(zone, selected) + (GetMonth(zone, selected) + 1) / 12,
                       (GetMonth(zone, selected) + 1) % 12) + GetDate(zone, selected) - 1
    ensures TimeInDay(zone, NextDate(zone, Month, selected)) == TimeInDay(zone, selected)
  {
    SetMonthLands(zone, selected, GetMonth(zone, selected) + 1);
  }

  lemma NextMonthDay(n: int, y: int, m: int, d: int)
    requires 0 <= m < 12 && 1 <= d <= 31
    requires n == DayOfFirst(y + (m + 1) / 12, (m + 1) % 12) + d - 1
    ensures CivilOf(n) == MonthLanding(if m == 11 then y + 1 else y, if m == 11 then 0 else m + 1, d)
  {
    if m == 11 {
      assert (m + 1) / 12 == 1 && (m + 1) % 12 == 0;
      LandsOn(n, y + 1, 0, d);
    } else {
      assert (m + 1) / 12 == 0 && (m + 1) % 12 == m + 1;
      LandsOn(n, y, m + 1, d);
    }
  }

  /** In the month view previous moves to the month before, into December of
      the year before after January, with the same rollover. */
  lemma PrevMonthLands(zone: int, selected: Instant)
    ensures TimeInDay(zone, PrevDate(zone, Month, selected)) == TimeInDay(zone, selected)
    ensures var y, m := GetFullYear(zone, selected), GetMonth(zone, selected);
      CivilOf(LocalDay(zone, PrevDate(zone, Month, selected)))
      == MonthLanding(if m == 0 then y - 1 else y, if m == 0 then 11 else m - 1, GetDate(zone, selected))
  {
    PrevMonthStep(zone, selected);
    PrevMonthDay(LocalDay(zone, PrevDate(zone, Month, selected)),
      GetFullYear(zone, selected), GetMonth(zone, selected), GetDate(zone, selected));
  }

  lemma PrevMonthStep(zone: int, selected: Instant)
    ensures LocalDay(zone, PrevDate(zone, Month, selected))
         == DayOfFirst(GetFullYear(zone, selected) + (GetMonth(zone, selected) - 1) / 12,
                       (GetMonth(zone, selected) - 1) % 12) + GetDate(zone, selected) - 1
    ensures TimeInDay(zone, PrevDate(zone, Month, selected)) == TimeInDay(zone, selected)
  {
    SetMonthLands(zone, selected, GetMonth(zone, selected) - 1);
  }

  lemma PrevMonthDay(n: int, y: int, m: int, d: int)
    requires 0 <= m < 12 && 1 <= d <= 31
    requires n == DayOfFirst(y + (m - 1) / 12, (m - 1) % 12) + d - 1
    ensures CivilOf(n) == MonthLanding(if m == 0 then y - 1 else y, if m == 0 then 11 else m - 1, d)
  {
    if m == 0 {
      assert (m - 1) / 12 == -1 && (m - 1) % 12 == 11;
      LandsOn(n, y - 1, 11, d);
    } else {
      assert (m - 1) / 12 == 0 && (m - 1) % 12 == m - 1;
      LandsOn(n, y, m - 1, d);
    }
  }

  /** In the month view next and previous undo each other on days 1 to 28,
      which every month has. */
  lemma MonthRoundTrip(zone: int, selected: Instant)
    requires GetDate(zone, selected) <= 28
    ensures PrevDate(zone, Month, NextDate(zone, Month, selected)) == selected
    ensures NextDate(zone, Month, PrevDate(zone, Month, selected)) == selected
  {
    NextThenPrev(zone, selected);
    PrevThenNext(zone, selected);
  }

  lemma NextThenPrev(zone: int, selected: Instant)
    requires GetDate(zone, selected) <= 28
    ensures PrevDate(zone, Month, NextDate(zone, Month, selected)) == selected
  {
    var t1 := NextDate(zone, Month, selected);
    var t2 := PrevDate(zone, Month, t1);
    NextMonthLands(zone, selected);
    PrevMonthLands(zone, t1);
    SameDateIff(zone, t2, selected);
    FromLocalOfParts(zone, t2);
    FromLocalOfParts(zone, selected);
  }

  lemma PrevThenNext(zone: int, selected: Instant)
    requires GetDate(zone, selected) <= 28
    ensures NextDate(zone, Month, PrevDate(zone, Month, selected)) == selected
  {
    var t1 := PrevDate(zone, Month, selected);
    var t2 := NextDate(zone, Month, t1);
    PrevMonthLands(zone, selected);
    NextMonthLands(zone, t1);
    SameDateIff(zone, t2, selected);
    FromLocalOfParts(zone, t2);
    FromLocalOfParts(zone, selected);
  }
}
