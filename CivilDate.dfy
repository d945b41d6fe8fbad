/** Dates at day granularity under the proleptic Gregorian calendar.

    The widget takes every date fact from the platform calendar: the weekday
    of a date (Sunday = 1 ... Saturday = 7), the first day of its month,
    adding days, adding months, and comparing two dates by day or by month.
    This module states those rules explicitly instead of reading an ambient
    calendar.  A `Date` is, as on the platform, a point on a time line; here
    the line is counted in whole days from 2000-01-01 (day 0, a Saturday).
    Its (year, month, day) reading is a `Civil` triple.
 */
module CivilDate {

  /** A day on the time line: days elapsed since 2000-01-01 (negative before it). */
  datatype Date = Date(serial: int)

  /** The (year, month, day) components of a date. */
  datatype Civil = Civil(year: int, month: int, day: int)

  predicate IsLeapYear(y: int) {
    y % 4 == 0 && (y % 100 != 0 || y % 400 == 0)
  }

  function DaysInMonth(y: int, m: int): (n: int)
    requires 1 <= m <= 12
    ensures 28 <= n <= 31
    ensures m == 2 ==> (n == 29 <==> IsLeapYear(y))
  {
    if m == 2 then (if IsLeapYear(y) then 29 else 28)
    else if m == 4 || m == 6 || m == 9 || m == 11 then 30
    else 31
  }

  /** A well-formed (year, month, day) triple. */
  predicate Valid(d: Civil) {
    1 <= d.month <= 12 && 1 <= d.day <= DaysInMonth(d.year, d.month)
  }

  function YearLength(y: int): int {
    if IsLeapYear(y) then 366 else 365
  }

  /** Day number of January 1st of year y: the days of the years from 2000
      up to y, or minus the days of the years from y up to 1999. */
  function DaysBeforeYear(y: int): int {
    if y >= 2000 then DaysOfYearsFrom2000(y - 2000) else -DaysOfYearsBefore2000(2000 - y)
  }

  /** Days in the k years 2000, 2001, ..., 1999 + k. */
  function DaysOfYearsFrom2000(k: nat): int {
    if k == 0 then 0 else DaysOfYearsFrom2000(k - 1) + YearLength(1999 + k)
  }

  /** Days in the k years 2000 - k, ..., 1998, 1999. */
  function DaysOfYearsBefore2000(k: nat): int {
    if k == 0 then 0 else DaysOfYearsBefore2000(k - 1) + YearLength(2000 - k)
  }

  /** Days of year y that precede the 1st of month m; m == 13 gives the whole year. */
  function DaysBeforeMonth(y: int, m: int): (r: int)
    requires 1 <= m <= 13
    ensures 28 * (m - 1) <= r <= 31 * (m - 1)
  {
    if m == 1 then 0 else DaysBeforeMonth(y, m - 1) + DaysInMonth(y, m - 1)
  }

  lemma YearStep(y: int)
    ensures DaysBeforeYear(y + 1) == DaysBeforeYear(y) + YearLength(y)
  {
    if y >= 2000 {
      assert DaysOfYearsFrom2000(y + 1 - 2000) == DaysOfYearsFrom2000(y - 2000) + YearLength(y);
    } else {
      assert DaysOfYearsBefore2000(2000 - y) == DaysOfYearsBefore2000(1999 - y) + YearLength(y);
    }
  }

  lemma MonthStep(y: int, m: int)
    requires 1 <= m <= 12
    ensures DaysBeforeMonth(y, m + 1) == DaysBeforeMonth(y, m) + DaysInMonth(y, m)
    ensures DaysBeforeMonth(y, 13) == YearLength(y)
  {
    assert DaysBeforeMonth(y, 2) == DaysBeforeMonth(y, 1) + DaysInMonth(y, 1);
    assert DaysBeforeMonth(y, 3) == DaysBeforeMonth(y, 2) + DaysInMonth(y, 2);
    assert DaysBeforeMonth(y, 4) == DaysBeforeMonth(y, 3) + DaysInMonth(y, 3);
    assert DaysBeforeMonth(y, 5) == DaysBeforeMonth(y, 4) + DaysInMonth(y, 4);
    assert DaysBeforeMonth(y, 6) == DaysBeforeMonth(y, 5) + DaysInMonth(y, 5);
    assert DaysBeforeMonth(y, 7) == DaysBeforeMonth(y, 6) + DaysInMonth(y, 6);
    assert DaysBeforeMonth(y, 8) == DaysBeforeMonth(y, 7) + DaysInMonth(y, 7);
    assert DaysBeforeMonth(y, 9) == DaysBeforeMonth(y, 8) + DaysInMonth(y, 8);
    assert DaysBeforeMonth(y, 10) == DaysBeforeMonth(y, 9) + DaysInMonth(y, 9);
    assert DaysBeforeMonth(y, 11) == DaysBeforeMonth(y, 10) + DaysInMonth(y, 10);
    assert DaysBeforeMonth(y, 12) == DaysBeforeMonth(y, 11) + DaysInMonth(y, 11);
    assert DaysBeforeMonth(y, 13) == DaysBeforeMonth(y, 12) + DaysInMonth(y, 12);
  }

  /** The Gregorian leap-day count in closed form: 365 days a year plus one
      for every fourth year, less the centuries, plus every fourth century. */
  function GregorianDaysBeforeYear(y: int): int {
    365 * (y - 2000) + (y - 1) / 4 - (y - 1) / 100 + (y - 1) / 400 - 484
  }

  lemma GregorianYearStep(y: int)
    ensures GregorianDaysBeforeYear(y + 1) == GregorianDaysBeforeYear(y) + YearLength(y)
  {
    DivStep(y - 1, 4);
    DivStep(y - 1, 100);
    DivStep(y - 1, 400);
  }

  /** Moving x up by one moves x / d up by one exactly when x + 1 is a multiple of d.
      Kept apart from GregorianYearStep so that each divisor is reasoned about
      on its own rather than all three in one proof. */
  lemma DivStep(x: int, d: int)
    requires d == 4 || d == 100 || d == 400
    ensures (x + 1) / d == x / d + (if (x + 1) % d == 0 then 1 else 0)
  {
  }

  /** The year-by-year count agrees with the closed form for every year. */
  lemma {:induction false} DaysBeforeYearClosedForm(y: int)
    ensures DaysBeforeYear(y) == GregorianDaysBeforeYear(y)
    decreases if y < 2000 then 2000 - y else y - 2000
  {
    if y > 2000 {
      DaysBeforeYearClosedForm(y - 1);
      GregorianYearStep(y - 1);
      YearStep(y - 1);
    } else if y < 2000 {
      DaysBeforeYearClosedForm(y + 1);
      GregorianYearStep(y);
      YearStep(y);
    }
  }

  /** Positions on the day line of the days the grid scenarios use. */
  lemma Serials2024()
    ensures DateOf(Civil(2024, 1, 28)) == Date(8793)
    ensures DateOf(Civil(2024, 2, 1)) == Date(8797)
    ensures DateOf(Civil(2024, 2, 29)) == Date(8825)
    ensures DateOf(Civil(2024, 3, 1)) == Date(8826)
  {
    DaysBeforeYearClosedForm(2024);
  }

  lemma Serials2025()
    ensures DateOf(Civil(2025, 6, 1)) == Date(9283)
  {
    DaysBeforeYearClosedForm(2025);
  }

  /** Years start strictly later as the year grows: every year is non-empty. */
  lemma {:induction false} DaysBeforeYearMonotone(y1: int, y2: int)
    requires y1 < y2
    ensures DaysBeforeYear(y1 + 1) <= DaysBeforeYear(y2)
    decreases y2 - y1
  {
    if y2 > y1 + 1 {
      DaysBeforeYearMonotone(y1, y2 - 1);
      YearStep(y2 - 1);
    }
  }

  /** Months start strictly later as the month grows within a year. */
  lemma {:induction false} DaysBeforeMonthMonotone(y: int, m1: int, m2: int)
    requires 1 <= m1 < m2 <= 13
    ensures DaysBeforeMonth(y, m1 + 1) <= DaysBeforeMonth(y, m2)
    decreases m2 - m1
  {
    if m2 > m1 + 1 {
      DaysBeforeMonthMonotone(y, m1, m2 - 1);
      MonthStep(y, m2 - 1);
    }
  }

  /** The day number of a triple: days elapsed since 2000-01-01. */
  function DayNumber(d: Civil): int
    requires Valid(d)
  {
    DaysBeforeYear(d.year) + DaysBeforeMonth(d.year, d.month) + d.day - 1
  }

  /** A date's day number lies inside its year and inside its month. */
  lemma DayNumberBounds(d: Civil)
    requires Valid(d)
    ensures DaysBeforeYear(d.year) <= DayNumber(d) < DaysBeforeYear(d.year + 1)
    ensures DaysBeforeMonth(d.year, d.month) <= DayNumber(d) - DaysBeforeYear(d.year) < DaysBeforeMonth(d.year, d.month + 1)
  {
    YearStep(d.year);
    MonthStep(d.year, d.month);
    DaysBeforeMonthMonotone(d.year, d.month, 13);
  }

  /** The triple of day n, searching upward from year y, whose January 1st
      is not after day n. */
  function CivilUp(n: int, y: int): (c: Civil)
    requires DaysBeforeYear(y) <= n
    ensures Valid(c)
    decreases n - DaysBeforeYear(y)
  {
    YearStep(y);
    if n < DaysBeforeYear(y + 1) then CivilInYear(y, n - DaysBeforeYear(y)) else CivilUp(n, y + 1)
  }

  /** The triple of day n, searching downward from year y, which ends after day n. */
  function CivilDown(n: int, y: int): (c: Civil)
    requires n < DaysBeforeYear(y + 1)
    ensures Valid(c)
    decreases DaysBeforeYear(y + 1) - n
  {
    YearStep(y);
    if DaysBeforeYear(y) <= n then CivilInYear(y, n - DaysBeforeYear(y)) else CivilDown(n, y - 1)
  }

  /** The month of year y holding day-of-year doy (0-based), searching from month m. */
  function MonthFrom(y: int, doy: int, m: int): (r: int)
    requires 1 <= m <= 12
    requires DaysBeforeMonth(y, m) <= doy < YearLength(y)
    ensures m <= r <= 12
    ensures DaysBeforeMonth(y, r) <= doy < DaysBeforeMonth(y, r + 1)
    decreases 12 - m
  {
    MonthStep(y, m);
    if m == 12 || doy < DaysBeforeMonth(y, m + 1) then m else MonthFrom(y, doy, m + 1)
  }

  /** The triple of day doy (0-based) of year y. */
  function CivilInYear(y: int, doy: int): (c: Civil)
    requires 0 <= doy < YearLength(y)
    ensures c.year == y && Valid(c)
    ensures DaysBeforeMonth(y, c.month) + c.day - 1 == doy
  {
    var m := MonthFrom(y, doy, 1);
    MonthStep(y, m);
    Civil(y, m, doy - DaysBeforeMonth(y, m) + 1)
  }

  /** The triple whose day number is n. */
  function FromDayNumber(n: int): (c: Civil)
    ensures Valid(c)
  {
    if 0 <= n then CivilUp(n, 2000) else CivilDown(n, 1999)
  }

  lemma {:induction false} CivilUpIsInverse(n: int, y: int)
    requires DaysBeforeYear(y) <= n
    ensures DayNumber(CivilUp(n, y)) == n
    decreases n - DaysBeforeYear(y)
  {
    YearStep(y);
    if DaysBeforeYear(y + 1) <= n {
      assert CivilUp(n, y) == CivilUp(n, y + 1);
      CivilUpIsInverse(n, y + 1);
    } else {
      assert CivilUp(n, y) == CivilInYear(y, n - DaysBeforeYear(y));
    }
  }

  lemma {:induction false} CivilDownIsInverse(n: int, y: int)
    requires n < DaysBeforeYear(y + 1)
    ensures DayNumber(CivilDown(n, y)) == n
    decreases DaysBeforeYear(y + 1) - n
  {
    YearStep(y);
    if n < DaysBeforeYear(y) {
      assert CivilDown(n, y) == CivilDown(n, y - 1);
      CivilDownIsInverse(n, y - 1);
    } else {
      assert CivilDown(n, y) == CivilInYear(y, n - DaysBeforeYear(y));
    }
  }

  /** Day-number round trip: the triple found for day n has day number n. */
  lemma FromDayNumberIsInverse(n: int)
    ensures DayNumber(FromDayNumber(n)) == n
  {
    if 0 <= n {
      CivilUpIsInverse(n, 2000);
    } else {
      CivilDownIsInverse(n, 1999);
    }
  }

  /** Distinct valid triples have distinct day numbers. */
  lemma DayNumberInjective(a: Civil, b: Civil)
    requires Valid(a) && Valid(b)
    requires DayNumber(a) == DayNumber(b)
    ensures a == b
  {
    DayNumberBounds(a);
    DayNumberBounds(b);
    if a.year < b.year {
      DaysBeforeYearMonotone(a.year, b.year);
      assert false;
    } else if b.year < a.year {
      DaysBeforeYearMonotone(b.year, a.year);
      assert false;
    }
    if a.month < b.month {
      DaysBeforeMonthMonotone(a.year, a.month, b.month);
      assert false;
    } else if b.month < a.month {
      DaysBeforeMonthMonotone(a.year, b.month, a.month);
      assert false;
    }
  }

  /** Day-number round trip in the other direction. */
  lemma FromDayNumberOfDayNumber(d: Civil)
    requires Valid(d)
    ensures FromDayNumber(DayNumber(d)) == d
  {
    FromDayNumberIsInverse(DayNumber(d));
    DayNumberInjective(FromDayNumber(DayNumber(d)), d);
  }

  /** `dateComponents([.year, .month, .day], from: d)`. */
  function Components(d: Date): (c: Civil)
    ensures Valid(c)
  {
    FromDayNumber(d.serial)
  }

  /** Building a date back from the components of d gives d. */
  lemma DateOfComponents(d: Date)
    ensures DateOf(Components(d)) == d
  {
    FromDayNumberIsInverse(d.serial);
  }

  /** `date(from: components)` for a well-formed triple. */
  function DateOf(c: Civil): Date
    requires Valid(c)
  {
    Date(DayNumber(c))
  }

  /** Reading back the components of the date built from a triple gives the triple. */
  lemma ComponentsOfDateOf(c: Civil)
    requires Valid(c)
    ensures Components(DateOf(c)) == c
  {
    FromDayNumberOfDayNumber(c);
  }

  /** The triple of the following day: the next day of the month, else the
      1st of the next month, else January 1st of the next year. */
  function NextDay(c: Civil): (r: Civil)
    requires Valid(c)
    ensures Valid(r)
  {
    if c.day < DaysInMonth(c.year, c.month) then Civil(c.year, c.month, c.day + 1)
    else if c.month < 12 then Civil(c.year, c.month + 1, 1)
    else Civil(c.year + 1, 1, 1)
  }

  lemma NextDayNumber(c: Civil)
    requires Valid(c)
    ensures DayNumber(NextDay(c)) == DayNumber(c) + 1
  {
    MonthStep(c.year, c.month);
    YearStep(c.year);
  }

  /** Calendar arithmetic by days (`date(byAdding: .day, value: k, to: d)`). */
  function AddDays(d: Date, k: int): (r: Date)
    ensures r.serial - d.serial == k
  {
    Date(d.serial + k)
  }

  /** Adding one day moves the components to the next day of the calendar. */
  lemma AddOneDay(d: Date)
    ensures Components(AddDays(d, 1)) == NextDay(Components(d))
  {
    var c := Components(d);
    DateOfComponents(d);
    NextDayNumber(c);
    ComponentsOfDateOf(NextDay(c));
  }

  /** The triple of the previous day: the previous day of the month, else the
      last day of the previous month, else December 31st of the previous year. */
  function PrevDay(c: Civil): (r: Civil)
    requires Valid(c)
    ensures Valid(r)
  {
    if c.day > 1 then Civil(c.year, c.month, c.day - 1)
    else if c.month > 1 then Civil(c.year, c.month - 1, DaysInMonth(c.year, c.month - 1))
    else Civil(c.year - 1, 12, 31)
  }

  lemma PrevDayNumber(c: Civil)
    requires Valid(c)
    ensures DayNumber(PrevDay(c)) == DayNumber(c) - 1
  {
    if c.day == 1 {
      if c.month > 1 {
        MonthStep(c.year, c.month - 1);
      } else {
        MonthStep(c.year - 1, 12);
        YearStep(c.year - 1);
      }
    }
  }

  /** Subtracting one day moves the components to the previous day of the calendar. */
  lemma SubtractOneDay(d: Date)
    ensures Components(AddDays(d, -1)) == PrevDay(Components(d))
  {
    var c := Components(d);
    DateOfComponents(d);
    PrevDayNumber(c);
    ComponentsOfDateOf(PrevDay(c));
  }

  /** The triple k days after c (k days before it when k is negative), stepping
      through the calendar one day at a time. */
  function StepDays(c: Civil, k: int): (r: Civil)
    requires Valid(c)
    ensures Valid(r)
    decreases if k < 0 then -k else k
  {
    if k == 0 then c
    else if k > 0 then StepDays(NextDay(c), k - 1)
    else StepDays(PrevDay(c), k + 1)
  }

  /** Adding k days, for any k, moves the components k calendar days on (back
      for negative k), rolling over month and year ends one day at a time. */
  lemma {:induction false} AddDaysComponents(d: Date, k: int)
    ensures Components(AddDays(d, k)) == StepDays(Components(d), k)
    decreases if k < 0 then -k else k
  {
    if k > 0 {
      AddOneDay(d);
      AddDaysComponents(AddDays(d, 1), k - 1);
      assert AddDays(AddDays(d, 1), k - 1) == AddDays(d, k);
    } else if k < 0 {
      SubtractOneDay(d);
      AddDaysComponents(AddDays(d, -1), k + 1);
      assert AddDays(AddDays(d, -1), k + 1) == AddDays(d, k);
    }
  }

  /** Weekday of a date, Sunday = 1 ... Saturday = 7 (2000-01-01 is a Saturday). */
  function Weekday(d: Date): (w: int)
    ensures 1 <= w <= 7
  {
    (d.serial + 6) % 7 + 1
  }

  /** Day 0, January 1st 2000, was a Saturday: weekday 7 when Sunday is 1. */
  lemma EpochIsSaturday()
    ensures Weekday(DateOf(Civil(2000, 1, 1))) == 7
  {
  }

  /** Moving k days moves the weekday k steps round the week. */
  lemma WeekdayAddDays(d: Date, k: int)
    ensures Weekday(AddDays(d, k)) == (Weekday(d) - 1 + k) % 7 + 1
  {
    var n := d.serial;
    var q := (n + 6) / 7;
    assert n + 6 + k == 7 * q + ((n + 6) % 7 + k);
    ModSevenShift(q, (n + 6) % 7 + k);
  }

  lemma ModSevenShift(q: int, x: int)
    ensures (7 * q + x) % 7 == x % 7
  {
  }

  /** `firstDayOfTheMonth`: the date built from the year and month of d alone. */
  function FirstDayOfMonth(d: Date): Date {
    var c := Components(d);
    DateOf(Civil(c.year, c.month, 1))
  }

  /** The first day of d's month reads as day 1 of that month and lies
      (day of month - 1) days before d. */
  lemma FirstDayOfMonthSpec(d: Date)
    ensures Components(FirstDayOfMonth(d)) == Civil(Components(d).year, Components(d).month, 1)
    ensures FirstDayOfMonth(d).serial == d.serial - (Components(d).day - 1)
  {
    var c := Components(d);
    ComponentsOfDateOf(Civil(c.year, c.month, 1));
    DateOfComponents(d);
  }

  /** The number of days in the month that holds d. */
  function DaysInMonthOf(d: Date): (n: int)
    ensures 28 <= n <= 31
  {
    DaysInMonth(Components(d).year, Components(d).month)
  }

  /** Comparison at month granularity (`isDate(_:equalTo:toGranularity: .month)`). */
  predicate SameMonth(a: Date, b: Date) {
    Components(a).year == Components(b).year && Components(a).month == Components(b).month
  }

  /** Comparison at day granularity (`compare(_:to:toGranularity: .day)` is
      `.orderedSame`): the two dates read as the same (year, month, day),
      which on a line of whole days is equality of dates. */
  function SameDay(a: Date, b: Date): (same: bool)
    ensures same <==> a == b
  {
    DateOfComponents(a);
    DateOfComponents(b);
    Components(a) == Components(b)
  }

  /** Two dates share a month exactly when they share the 1st of it. */
  lemma SameMonthIffSameFirstDay(a: Date, b: Date)
    ensures SameMonth(a, b) <==> FirstDayOfMonth(a) == FirstDayOfMonth(b)
  {
    FirstDayOfMonthSpec(a);
    FirstDayOfMonthSpec(b);
    if FirstDayOfMonth(a) == FirstDayOfMonth(b) {
      assert Components(FirstDayOfMonth(a)) == Components(FirstDayOfMonth(b));
    }
  }

  /** The days of a month are the run of consecutive dates that starts on its
      1st and is as long as the month. */
  lemma InMonthIffInRun(d: Date, c: Civil)
    requires Valid(c) && c.day == 1
    ensures (Components(d).year == c.year && Components(d).month == c.month) <==>
              DateOf(c).serial <= d.serial < DateOf(c).serial + DaysInMonth(c.year, c.month)
  {
    var n := d.serial - DateOf(c).serial;
    DateOfComponents(d);
    if 0 <= n < DaysInMonth(c.year, c.month) {
      var e := Civil(c.year, c.month, n + 1);
      assert DayNumber(e) == d.serial;
      ComponentsOfDateOf(e);
    }
  }

  /** Months elapsed since January of year 0. */
  function MonthIndex(c: Civil): int {
    c.year * 12 + (c.month - 1)
  }

  lemma MonthIndexInjective(a: Civil, b: Civil)
    requires 1 <= a.month <= 12 && 1 <= b.month <= 12
    ensures a.year == b.year && a.month == b.month <==> MonthIndex(a) == MonthIndex(b)
  {
  }

  /** Month arithmetic on components: the month moves by exactly k and the
      day of month is kept when the target month has it, otherwise clamped
      to that month's last day. */
  function AddMonthsToCivil(c: Civil, k: int): (r: Civil)
    requires Valid(c)
    ensures Valid(r)
    ensures MonthIndex(r) == MonthIndex(c) + k
    ensures r.day <= c.day
    ensures r.day == c.day || r.day == DaysInMonth(r.year, r.month)
    ensures c.day <= DaysInMonth(r.year, r.month) ==> r.day == c.day
  {
    var t := MonthIndex(c) + k;
    var y := t / 12;
    var m := t % 12 + 1;
    var last := DaysInMonth(y, m);
    Civil(y, m, if c.day <= last then c.day else last)
  }

  /** Calendar arithmetic by months (`date(byAdding: .month, value: k, to: d)`). */
  function AddMonths(d: Date, k: int): Date {
    DateOf(AddMonthsToCivil(Components(d), k))
  }

  /** The components of d moved by k months are those of the result. */
  lemma AddMonthsComponents(d: Date, k: int)
    ensures Components(AddMonths(d, k)) == AddMonthsToCivil(Components(d), k)
  {
    ComponentsOfDateOf(AddMonthsToCivil(Components(d), k));
  }

  /** Moving k months and back lands in the starting month, and on the
      starting day whenever that day was not clamped on the way out. */
  lemma AddMonthsToCivilBack(c: Civil, k: int)
    requires Valid(c)
    ensures AddMonthsToCivil(AddMonthsToCivil(c, k), -k).year == c.year
    ensures AddMonthsToCivil(AddMonthsToCivil(c, k), -k).month == c.month
    ensures c.day <= AddMonthsToCivil(c, k).day ==> AddMonthsToCivil(AddMonthsToCivil(c, k), -k) == c
  {
    MonthIndexInjective(AddMonthsToCivil(AddMonthsToCivil(c, k), -k), c);
  }

  /** Advancing one month and rewinding one month comes back to the same month,
      and to the same date whenever the day of month exists in the next month. */
  lemma AdvanceThenRewind(d: Date)
    ensures SameMonth(AddMonths(AddMonths(d, 1), -1), d)
    ensures Components(d).day <= Components(AddMonths(d, 1)).day ==> AddMonths(AddMonths(d, 1), -1) == d
  {
    var e := AddMonths(d, 1);
    AddMonthsComponents(d, 1);
    AddMonthsComponents(e, -1);
    AddMonthsToCivilBack(Components(d), 1);
    if Components(d).day <= Components(e).day {
      DateOfComponents(d);
      DateOfComponents(AddMonths(e, -1));
    }
  }

  lemma RewindThenAdvance(d: Date)
    ensures SameMonth(AddMonths(AddMonths(d, -1), 1), d)
    ensures Components(d).day <= Components(AddMonths(d, -1)).day ==> AddMonths(AddMonths(d, -1), 1) == d
  {
    var e := AddMonths(d, -1);
    AddMonthsComponents(d, -1);
    AddMonthsComponents(e, 1);
    AddMonthsToCivilBack(Components(d), -1);
    if Components(d).day <= Components(e).day {
      DateOfComponents(d);
      DateOfComponents(AddMonths(e, 1));
    }
  }

  /** January 31st plus one month is the last day of February. */
  lemma MonthEndClamps()
    ensures AddMonthsToCivil(Civil(2025, 1, 31), 1) == Civil(2025, 2, 28)
    ensures AddMonthsToCivil(Civil(2024, 1, 31), 1) == Civil(2024, 2, 29)
    ensures AddMonthsToCivil(Civil(2025, 3, 31), -1) == Civil(2025, 2, 28)
    ensures AddMonthsToCivil(Civil(2025, 12, 15), 1) == Civil(2026, 1, 15)
    ensures AddMonthsToCivil(Civil(2025, 1, 15), -1) == Civil(2024, 12, 15)
  {
  }
}
