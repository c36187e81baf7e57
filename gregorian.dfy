/** Proleptic Gregorian calendar over day numbers.

    A day number counts days from 1970-01-01 (day 0), negative before it.
    Months count from 0 (January) to 11 (December), as JavaScript's Date
    does. Internally a date is split the way ECMAScript engines commonly do:
    into a 400-year era (146097 days) of years that start on the 1st of
    March, so that the leap day is the last day of its year. */
module Gregorian {

  /** A calendar date: year, month 0..11 and day of month 1..31. */
  datatype Civil = Civil(year: int, month: int, day: int)

  /** Days in 400 Gregorian years. */
  const DaysPerEra := 146097
  /** Days from 0000-03-01 to 1970-01-01. */
  const EpochShift := 719468

  predicate IsLeapYear(y: int) {
    y % 4 == 0 && (y % 100 != 0 || y % 400 == 0)
  }

  function DaysInMonth(y: int, m: int): (n: int)
    requires 0 <= m < 12
    ensures 28 <= n <= 31
    ensures m == 1 ==> (n == 29 <==> IsLeapYear(y))
  {
    if m == 1 then (if IsLeapYear(y) then 29 else 28)
    else if m == 3 || m == 5 || m == 8 || m == 10 then 30
    else 31
  }

  /** Day of week, 0 for Sunday; day 0 (1970-01-01) was a Thursday. */
  function DayOfWeek(n: int): (w: int)
    ensures 0 <= w < 7
    ensures (n - w) % 7 == 3
  {
    (n + 4) % 7
  }

  // ---------------------------------------------------------------
  // The era decomposition
  // ---------------------------------------------------------------

  /** Days from the start of an era to the start of its March-based year `yoe`. */
  function YearStart(yoe: int): int
    requires 0 <= yoe <= 400
  {
    365 * yoe + yoe / 4 - yoe / 100 + yoe / 400
  }

  /** Days from the 1st of March to the first day of March-based month `mp`
      (0 is March, 10 is January, 11 is February). */
  function MonthStart(mp: int): int
    requires 0 <= mp < 12
  {
    if mp < 6 then [0, 31, 61, 92, 122, 153][mp]
    else [184, 214, 245, 275, 306, 337][mp - 6]
  }

  /** March-based year `yoe` of an era ends in February of calendar year
      400 * era + yoe + 1, and is one day longer exactly when that year is a
      leap year. */
  lemma YearLength(e: int, yoe: int)
    requires 0 <= yoe < 400
    ensures YearStart(yoe + 1) - YearStart(yoe) == if IsLeapYear(400 * e + yoe + 1) then 366 else 365
  {
    LeapYearPeriod(e, yoe + 1);
    StepQuotient(yoe, 4);
    StepQuotient(yoe, 100);
    StepQuotient(yoe, 400);
  }

  /** Floor division by `p` goes up by one exactly at multiples of `p`. */
  lemma StepQuotient(k: int, p: int)
    requires p == 4 || p == 100 || p == 400
    ensures (k + 1) / p - k / p == if (k + 1) % p == 0 then 1 else 0
  {
    var q, r := k / p, k % p;
    if r == p - 1 {
      assert k + 1 == p * (q + 1) + 0;
    } else {
      assert k + 1 == p * q + (r + 1);
    }
  }

  /** The leap-year rule repeats every 400 years. */
  lemma LeapYearPeriod(e: int, k: int)
    ensures IsLeapYear(400 * e + k) == IsLeapYear(k)
  {
    RemainderPeriod(4, 100 * e, k);
    RemainderPeriod(100, 4 * e, k);
    RemainderPeriod(400, e, k);
  }

  /** Adding a multiple of `p` leaves the remainder modulo `p` alone. */
  lemma RemainderPeriod(p: int, q: int, k: int)
    requires p == 4 || p == 100 || p == 400
    ensures (p * q + k) % p == k % p
  {
    var n := p * q + k;
    var d := n / p - q - k / p;
    assert p * d == k % p - n % p;
    assert -p < p * d < p;
    SmallMultiple(p, d);
  }

  /** The only multiple of `p` strictly between -p and p is 0. */
  lemma SmallMultiple(p: int, d: int)
    requires p == 4 || p == 100 || p == 400
    requires -p < p * d < p
    ensures d == 0
  {
  }

  /** YearStart never decreases. */
  lemma YearStartMonotonic(a: int, b: int)
    requires 0 <= a <= b <= 400
    ensures YearStart(a) <= YearStart(b)
  {
    assert a / 4 <= b / 4 && a / 400 <= b / 400;
    assert b / 100 <= 4;
    if a < b {
      assert 365 * (b - a) >= 365;
    }
  }

  /** The March-based year of an era that contains day `doe` of the era. */
  function YearOfEra(doe: int): (yoe: int)
    requires 0 <= doe < DaysPerEra
    ensures 0 <= yoe < 400
    ensures YearStart(yoe) <= doe < YearStart(yoe + 1) <= YearStart(yoe) + 366
  {
    var c := if doe / 36524 < 3 then doe / 36524 else 3;
    var r1 := doe - 36524 * c;
    var q := r1 / 1461;
    var r2 := r1 - 1461 * q;
    var yr := if r2 / 365 < 3 then r2 / 365 else 3;
    YearOfEraStep(c, q, yr);
    100 * c + 4 * q + yr
  }

  lemma YearOfEraStep(c: int, q: int, yr: int)
    requires 0 <= c <= 3 && 0 <= q <= 24 && 0 <= yr <= 3
    ensures YearStart(100 * c + 4 * q + yr) == 36524 * c + 1461 * q + 365 * yr
    ensures YearStart(100 * c + 4 * q + yr + 1) - YearStart(100 * c + 4 * q + yr)
         == if yr == 3 && (q < 24 || c == 3) then 366 else 365
  {
    var y := 100 * c + 4 * q + yr;
    assert y / 4 == 25 * c + q;
    assert y / 100 == c;
    assert y / 400 == 0;
    assert (y + 1) / 400 == if y + 1 == 400 then 1 else 0;
    assert (y + 1) / 4 == if yr == 3 then 25 * c + q + 1 else 25 * c + q;
    assert (y + 1) / 100 == if yr == 3 && q == 24 then c + 1 else c;
  }

  /** The March-based month containing day `doy` of its year. */
  function MonthOfYear(doy: int): (mp: int)
    requires 0 <= doy < 366
    ensures 0 <= mp < 12
    ensures MonthStart(mp) <= doy
    ensures mp < 11 ==> doy < MonthStart(mp + 1)
  {
    if doy < 31 then 0
    else if doy < 61 then 1
    else if doy < 92 then 2
    else if doy < 122 then 3
    else if doy < 153 then 4
    else if doy < 184 then 5
    else if doy < 214 then 6
    else if doy < 245 then 7
    else if doy < 275 then 8
    else if doy < 306 then 9
    else if doy < 337 then 10
    else 11
  }

  // ---------------------------------------------------------------
  // Conversions
  // ---------------------------------------------------------------

  /** The day number of the 1st of March of year `y`. */
  function MarchFirst(y: int): int
  {
    DaysPerEra * (y / 400) + YearStart(y % 400) - EpochShift
  }

  /** The day number of the first day of month `m` of year `y`. */
  function DayOfFirst(y: int, m: int): int
    requires 0 <= m < 12
  {
    var yy := if m < 2 then y - 1 else y;
    var mp := if m < 2 then m + 10 else m - 2;
    MarchFirst(yy) + MonthStart(mp)
  }

  /** ECMAScript's MakeDay: month `m` may lie outside 0..11 (it carries into
      the year by floor division) and `d` outside the month (it counts on
      from the 1st). */
  function MakeDay(y: int, m: int, d: int): int
  {
    DayOfFirst(y + m / 12, m % 12) + d - 1
  }

  /** The calendar date of day number `n`. */
  function CivilOf(n: int): (c: Civil)
    ensures 0 <= c.month < 12 && 1 <= c.day <= 31
  {
    var z := n + EpochShift;
    var era := z / DaysPerEra;
    var doe := z % DaysPerEra;
    var yoe := YearOfEra(doe);
    var doy := doe - YearStart(yoe);
    var mp := MonthOfYear(doy);
    var m := if mp < 10 then mp + 2 else mp - 10;
    var y := 400 * era + yoe + (if mp < 10 then 0 else 1);
    Civil(y, m, doy - MonthStart(mp) + 1)
  }

  /** Calendar year, month and day of month of a day number. */
  function YearOf(n: int): int { CivilOf(n).year }
  function MonthOf(n: int): (m: int)
    ensures 0 <= m < 12
  {
    CivilOf(n).month
  }

  function DateOf(n: int): (d: int)
    ensures 1 <= d <= 31
  {
    CivilOf(n).day
  }

  /** The day of month CivilOf gives exists in its month. */
  lemma CivilOfValid(n: int)
    ensures DateOf(n) <= DaysInMonth(YearOf(n), MonthOf(n))
  {
    var z := n + EpochShift;
    var era, doe := z / DaysPerEra, z % DaysPerEra;
    YearLength(era, YearOfEra(doe));
  }

  /** Every day number is the `day`-th day of its month. */
  lemma {:induction false} DayOfFirstOfCivil(n: int)
    ensures DayOfFirst(YearOf(n), MonthOf(n)) + DateOf(n) - 1 == n
  {
    var z := n + EpochShift;
    var era, doe := z / DaysPerEra, z % DaysPerEra;
    var yoe := YearOfEra(doe);
    var mp := MonthOfYear(doe - YearStart(yoe));
    CivilOfParts(n, era, doe, yoe, mp);
    DayOfFirstOfMarch(era, yoe, mp);
  }

  /** The first day of a month given in March-based terms. */
  lemma DayOfFirstOfMarch(era: int, yoe: int, mp: int)
    requires 0 <= yoe < 400 && 0 <= mp < 12
    ensures DayOfFirst(400 * era + yoe + (if mp < 10 then 0 else 1), if mp < 10 then mp + 2 else mp - 10)
         == DaysPerEra * era + YearStart(yoe) + MonthStart(mp) - EpochShift
  {
    var yy := 400 * era + yoe;
    assert yy / 400 == era && yy % 400 == yoe;
  }

  /** Each valid date is the calendar date of exactly the day number that
      DayOfFirst gives it. */
  lemma {:induction false} CivilOfDayOfFirst(y: int, m: int, d: int)
    requires 0 <= m < 12 && 1 <= d <= DaysInMonth(y, m)
    ensures CivilOf(DayOfFirst(y, m) + d - 1) == Civil(y, m, d)
  {
    var era, yoe, mp := MarchDate(y, m, d);
    CivilOfCore(DayOfFirst(y, m) + d - 1, y, m, d, era, yoe, mp);
  }

  /** A valid date in March-based terms: era, year of era and month. */
  lemma MarchDate(y: int, m: int, d: int) returns (era: int, yoe: int, mp: int)
    requires 0 <= m < 12 && 1 <= d <= DaysInMonth(y, m)
    ensures 400 * era + yoe + (if mp < 10 then 0 else 1) == y
    ensures (if mp < 10 then mp + 2 else mp - 10) == m
    ensures 0 <= yoe < 400 && 0 <= mp < 12
    ensures MonthStart(mp) + d - 1 < YearStart(yoe + 1) - YearStart(yoe) <= 366
    ensures mp < 11 ==> MonthStart(mp) + d - 1 < MonthStart(mp + 1)
    ensures DayOfFirst(y, m) + EpochShift == DaysPerEra * era + YearStart(yoe) + MonthStart(mp)
  {
    var yy := if m < 2 then y - 1 else y;
    mp := if m < 2 then m + 10 else m - 2;
    era, yoe := yy / 400, yy % 400;
    assert yy == 400 * era + yoe;
    DayInMonthFits(y, m, d, yy, mp, era, yoe);
    MarchToCalendar(y, m, era, yoe, mp);
  }

  /** Reading a March-based year and month back as a calendar year and month. */
  lemma MarchToCalendar(y: int, m: int, era: int, yoe: int, mp: int)
    requires 0 <= m < 12 && mp == (if m < 2 then m + 10 else m - 2)
    requires 400 * era + yoe == (if m < 2 then y - 1 else y)
    ensures 400 * era + yoe + (if mp < 10 then 0 else 1) == y
    ensures (if mp < 10 then mp + 2 else mp - 10) == m
  {
  }

  lemma CivilOfCore(n: int, y: int, m: int, d: int, era: int, yoe: int, mp: int)
    requires 400 * era + yoe + (if mp < 10 then 0 else 1) == y
    requires (if mp < 10 then mp + 2 else mp - 10) == m
    requires 0 <= yoe < 400 && 0 <= mp < 12 && 1 <= d
    requires MonthStart(mp) + d - 1 < YearStart(yoe + 1) - YearStart(yoe) <= 366
    requires mp < 11 ==> MonthStart(mp) + d - 1 < MonthStart(mp + 1)
    requires n + EpochShift == DaysPerEra * era + YearStart(yoe) + MonthStart(mp) + d - 1
    ensures CivilOf(n) == Civil(y, m, d)
  {
    var doe := YearStart(yoe) + MonthStart(mp) + d - 1;
    PartsOfDay(n, era, yoe, mp, d, doe);
    CivilOfParts(n, era, doe, yoe, mp);
  }

  /** The intermediate values CivilOf computes for a day given by era,
      March-based year, March-based month and day of month. */
  lemma PartsOfDay(n: int, era: int, yoe: int, mp: int, d: int, doe: int)
    requires 0 <= yoe < 400 && 0 <= mp < 12 && 1 <= d
    requires MonthStart(mp) + d - 1 < YearStart(yoe + 1) - YearStart(yoe) <= 366
    requires mp < 11 ==> MonthStart(mp) + d - 1 < MonthStart(mp + 1)
    requires doe == YearStart(yoe) + MonthStart(mp) + d - 1
    requires n + EpochShift == DaysPerEra * era + doe
    ensures 0 <= doe < DaysPerEra
    ensures (n + EpochShift) / DaysPerEra == era && (n + EpochShift) % DaysPerEra == doe
    ensures YearOfEra(doe) == yoe && 0 <= doe - YearStart(yoe) < 366
    ensures MonthOfYear(doe - YearStart(yoe)) == mp
  {
    assert 0 <= doe < DaysPerEra by {
      YearStartMonotonic(yoe + 1, 400);
    }
    EraSplit(n + EpochShift, era, doe);
    YearAndMonthOfEra(yoe, mp, d, doe);
  }

  lemma YearAndMonthOfEra(yoe: int, mp: int, d: int, doe: int)
    requires 0 <= yoe < 400 && 0 <= mp < 12 && 1 <= d
    requires MonthStart(mp) + d - 1 < YearStart(yoe + 1) - YearStart(yoe) <= 366
    requires mp < 11 ==> MonthStart(mp) + d - 1 < MonthStart(mp + 1)
    requires doe == YearStart(yoe) + MonthStart(mp) + d - 1 < DaysPerEra
    ensures YearOfEra(doe) == yoe && 0 <= doe - YearStart(yoe) < 366
    ensures MonthOfYear(doe - YearStart(yoe)) == mp
  {
    YearOfEraUnique(doe, yoe, YearOfEra(doe));
    MonthOfYearUnique(mp, d - 1);
  }

  /** CivilOf, given the pieces of its computation. */
  lemma CivilOfParts(n: int, era: int, doe: int, yoe: int, mp: int)
    requires 0 <= doe < DaysPerEra && 0 <= yoe < 400
    requires (n + EpochShift) / DaysPerEra == era && (n + EpochShift) % DaysPerEra == doe
    requires YearOfEra(doe) == yoe && 0 <= doe - YearStart(yoe) < 366
    requires MonthOfYear(doe - YearStart(yoe)) == mp
    ensures CivilOf(n) == Civil(400 * era + yoe + (if mp < 10 then 0 else 1),
                                if mp < 10 then mp + 2 else mp - 10,
                                doe - YearStart(yoe) - MonthStart(mp) + 1)
  {
  }

  lemma DayInMonthFits(y: int, m: int, d: int, yy: int, mp: int, era: int, yoe: int)
    requires 0 <= m < 12 && 1 <= d <= DaysInMonth(y, m)
    requires yy == (if m < 2 then y - 1 else y) && mp == (if m < 2 then m + 10 else m - 2)
    requires 0 <= yoe < 400 && yy == 400 * era + yoe
    ensures MonthStart(mp) + d - 1 < YearStart(yoe + 1) - YearStart(yoe) <= 366
    ensures mp < 11 ==> MonthStart(mp) + d - 1 < MonthStart(mp + 1)
  {
    YearLength(era, yoe);
  }

  lemma EraSplit(z: int, era: int, doe: int)
    requires 0 <= doe < DaysPerEra && z == DaysPerEra * era + doe
    ensures z / DaysPerEra == era && z % DaysPerEra == doe
  {
  }

  lemma MonthOfYearUnique(mp: int, off: int)
    requires 0 <= mp < 12 && 0 <= off
    requires mp < 11 ==> MonthStart(mp) + off < MonthStart(mp + 1)
    requires MonthStart(mp) + off < 366
    ensures MonthOfYear(MonthStart(mp) + off) == mp
  {
  }

  lemma YearOfEraUnique(doe: int, a: int, b: int)
    requires 0 <= a < 400 && 0 <= b < 400
    requires YearStart(a) <= doe < YearStart(a + 1)
    requires YearStart(b) <= doe < YearStart(b + 1)
    ensures a == b
  {
    if a < b {
      YearStartMonotonic(a + 1, b);
    } else if b < a {
      YearStartMonotonic(b + 1, a);
    }
  }

  // ---------------------------------------------------------------
  // Month and year steps
  // ---------------------------------------------------------------

  /** From one 1st of March to the next there are 366 days exactly when the
      second one follows a 29th of February. */
  lemma MarchYearLength(y: int)
    ensures MarchFirst(y + 1) - MarchFirst(y) == if IsLeapYear(y + 1) then 366 else 365
  {
    var era, yoe := y / 400, y % 400;
    assert y == 400 * era + yoe;
    YearLength(era, yoe);
    if yoe == 399 {
      assert (y + 1) / 400 == era + 1 && (y + 1) % 400 == 0;
    } else {
      assert (y + 1) / 400 == era && (y + 1) % 400 == yoe + 1;
    }
  }

  /** A month ends where the next one (in ECMAScript's month arithmetic) begins. */
  lemma {:induction false} NextMonthFirst(y: int, m: int)
    requires 0 <= m < 12
    ensures DayOfFirst(y, m) + DaysInMonth(y, m) == MakeDay(y, m + 1, 1)
  {
    if m == 1 {
      MarchYearLength(y - 1);
    } else if m == 11 {
      assert (m + 1) / 12 == 1 && (m + 1) % 12 == 0;
    } else {
      assert (m + 1) / 12 == 0 && (m + 1) % 12 == m + 1;
    }
  }

  /** The same month one year later starts 365 or 366 days later. */
  lemma DayOfFirstYearStep(y: int, m: int)
    requires 0 <= m < 12
    ensures 365 <= DayOfFirst(y + 1, m) - DayOfFirst(y, m) <= 366
  {
    MarchYearLength(if m < 2 then y - 1 else y);
  }

  /** Across `k` years the same month moves on by at least 365 * k days. */
  lemma {:induction false} DayOfFirstYearGap(y1: int, y2: int, m: int)
    requires 0 <= m < 12 && y1 <= y2
    ensures DayOfFirst(y1, m) + 365 * (y2 - y1) <= DayOfFirst(y2, m)
    decreases y2 - y1
  {
    if y1 < y2 {
      DayOfFirstYearGap(y1, y2 - 1, m);
      DayOfFirstYearStep(y2 - 1, m);
    }
  }

  /** MakeDay on a month in 0..11 is the plain day count from the 1st. */
  lemma MakeDayInYear(y: int, m: int, d: int)
    requires 0 <= m < 12
    ensures MakeDay(y, m, d) == DayOfFirst(y, m) + d - 1
  {
    assert m / 12 == 0 && m % 12 == m;
  }

  /** Asking for day `d` of a month: a day that exists in the month is that
      day; a day past the month's end rolls over into the following month. */
  lemma MakeDayLands(y: int, m: int, d: int)
    requires 0 <= m < 12 && 1 <= d <= 31
    ensures d <= DaysInMonth(y, m) ==> CivilOf(MakeDay(y, m, d)) == Civil(y, m, d)
    ensures d > DaysInMonth(y, m) ==>
      CivilOf(MakeDay(y, m, d)) == Civil(y + (m + 1) / 12, (m + 1) % 12, d - DaysInMonth(y, m))
  {
    MakeDayInYear(y, m, d);
    if d <= DaysInMonth(y, m) {
      CivilOfDayOfFirst(y, m, d);
    } else {
      MakeDayOverflow(y, m, d);
    }
  }

  lemma MakeDayOverflow(y: int, m: int, d: int)
    requires 0 <= m < 12 && DaysInMonth(y, m) < d <= 31
    ensures CivilOf(MakeDay(y, m, d)) == Civil(y + (m + 1) / 12, (m + 1) % 12, d - DaysInMonth(y, m))
  {
    OverflowDay(y, m, d);
    CivilAt(MakeDay(y, m, d), y + (m + 1) / 12, (m + 1) % 12, d - DaysInMonth(y, m));
  }

  /** A day past the end of a month is an early day of the next month. */
  lemma OverflowDay(y: int, m: int, d: int)
    requires 0 <= m < 12 && DaysInMonth(y, m) < d <= 31
    ensures 0 <= (m + 1) % 12 < 12
    ensures 1 <= d - DaysInMonth(y, m) <= DaysInMonth(y + (m + 1) / 12, (m + 1) % 12)
    ensures MakeDay(y, m, d) == DayOfFirst(y + (m + 1) / 12, (m + 1) % 12) + (d - DaysInMonth(y, m)) - 1
  {
    var e := d - DaysInMonth(y, m);
    MonthRollover(y, m, e);
    NextMonthStart(y, m, e);
  }

  /** The first few days after a month's end are days of the next month. */
  lemma NextMonthStart(y: int, m: int, e: int)
    requires 0 <= m < 12 && 1 <= e <= 3
    ensures 0 <= (m + 1) % 12 < 12 && e <= DaysInMonth(y + (m + 1) / 12, (m + 1) % 12)
    ensures MakeDay(y, m + 1, e) == DayOfFirst(y + (m + 1) / 12, (m + 1) % 12) + e - 1
  {
  }

  /** The civil date of a day number given as an offset into a month. */
  lemma CivilAt(n: int, y: int, m: int, d: int)
    requires 0 <= m < 12 && 1 <= d <= DaysInMonth(y, m)
    requires n == DayOfFirst(y, m) + d - 1
    ensures CivilOf(n) == Civil(y, m, d)
  {
    CivilOfDayOfFirst(y, m, d);
  }

  /** Counting past the end of a month counts on into the next one. */
  lemma MonthRollover(y: int, m: int, e: int)
    requires 0 <= m < 12
    ensures MakeDay(y, m, DaysInMonth(y, m) + e) == MakeDay(y, m + 1, e)
  {
    MakeDayInYear(y, m, DaysInMonth(y, m) + e);
    NextMonthFirst(y, m);
  }
}
