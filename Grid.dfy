/** The date grid: which day sits in each of the 42 cells (6 rows of 7
    columns, Sunday first) for the month of an anchor date, which cells are
    in that month, and which cell shows a selected date.  These are the
    specification functions that `CalendarView.Layout` and the selection
    observers are proved against.
 */
module Grid {
  import opened CivilDate
  import opened Wrappers

  const Rows: nat := 6
  const Columns: nat := 7
  /** Six weeks are always shown, because some months need them. */
  const CellCount: nat := 42

  /** Cells of the first row that come before the 1st of the month. */
  function Offset(anchor: Date): (k: nat)
    ensures k < Columns
  {
    Weekday(FirstDayOfMonth(anchor)) - 1
  }

  /** The date of the first cell: the 1st of the month moved back by
      (its weekday - 1) days, so always a Sunday in the week of the 1st. */
  function GridStart(anchor: Date): (s: Date)
    ensures Weekday(s) == 1
    ensures s.serial <= FirstDayOfMonth(anchor).serial < s.serial + Columns
  {
    var first := FirstDayOfMonth(anchor);
    var w := Weekday(first);
    WeekdayAddDays(first, -(w - 1));
    assert Weekday(AddDays(first, -(w - 1))) == 1;
    AddDays(first, -(w - 1))
  }

  /** The date of cell i: i days after the first cell. */
  function CellDate(anchor: Date, i: int): Date {
    AddDays(GridStart(anchor), i)
  }

  /** The dates of the 42 cells, row by row. */
  function GridDates(anchor: Date): (g: seq<Date>)
    ensures |g| == CellCount
  {
    seq(CellCount, i requires 0 <= i < CellCount => CellDate(anchor, i))
  }

  /** In-month flag of each cell: the cell's (year, month) is the anchor's. */
  function InMonthFlags(anchor: Date): (f: seq<bool>)
    ensures |f| == CellCount
  {
    seq(CellCount, i requires 0 <= i < CellCount => SameMonth(CellDate(anchor, i), anchor))
  }

  /** Selected flag of each cell when the selected date is sd: a cell is
      selected iff its date equals sd at day granularity. */
  function SelectionFlags(anchor: Date, sd: Option<Date>): (f: seq<bool>)
    ensures |f| == CellCount
  {
    seq(CellCount, i requires 0 <= i < CellCount => sd == Some(CellDate(anchor, i)))
  }

  /** The weekday shown above each of the 7 columns, taken from the first row. */
  function WeekdayHeader(anchor: Date): (h: seq<int>)
    ensures |h| == Columns
  {
    seq(Columns, i requires 0 <= i < Columns => Weekday(CellDate(anchor, i)))
  }

  /** The index of the cell that shows a day of the anchor's month. */
  function CellIndex(anchor: Date, d: Date): int {
    Offset(anchor) + Components(d).day - 1
  }

  function CountTrue(f: seq<bool>): (n: nat)
    ensures n <= |f|
  {
    if f == [] then 0 else CountTrue(f[..|f| - 1]) + (if f[|f| - 1] then 1 else 0)
  }

  /** A flag sequence that is true exactly on [lo, hi) has hi - lo true flags. */
  lemma {:induction false} CountTrueOfRange(f: seq<bool>, lo: nat, hi: nat)
    requires lo <= hi <= |f|
    requires forall i :: 0 <= i < |f| ==> (f[i] <==> lo <= i < hi)
    ensures CountTrue(f) == hi - lo
  {
    if f != [] {
      var n := |f| - 1;
      var lo', hi' := if lo < n then lo else n, if hi < n then hi else n;
      CountTrueOfRange(f[..n], lo', hi');
    }
  }

  /** The first cell is a Sunday, on or before the 1st of the month and less
      than a week before it; the 1st sits Offset cells after it. */
  lemma GridStartsOnSunday(anchor: Date)
    ensures Weekday(GridDates(anchor)[0]) == 1
    ensures GridDates(anchor)[0].serial <= FirstDayOfMonth(anchor).serial < GridDates(anchor)[0].serial + Columns
    ensures GridDates(anchor)[Offset(anchor)] == FirstDayOfMonth(anchor)
  {
    var g := GridDates(anchor);
    assert g[0] == GridStart(anchor);
    assert g[Offset(anchor)] == AddDays(GridStart(anchor), Offset(anchor));
    var first := FirstDayOfMonth(anchor);
    WeekdayAddDays(GridStart(anchor), Offset(anchor));
    WeekdayAddDays(GridStart(anchor), first.serial - GridStart(anchor).serial);
    assert AddDays(GridStart(anchor), first.serial - GridStart(anchor).serial) == first;
  }

  /** Each cell holds the day after the previous cell's date. */
  lemma GridIsContiguous(anchor: Date)
    ensures forall i :: 0 <= i < CellCount - 1 ==> GridDates(anchor)[i + 1] == AddDays(GridDates(anchor)[i], 1)
  {
  }

  /** No date appears in two cells. */
  lemma GridIsDistinct(anchor: Date, i: int, j: int)
    requires 0 <= i < CellCount && 0 <= j < CellCount
    ensures GridDates(anchor)[i] == GridDates(anchor)[j] <==> i == j
  {
  }

  /** A date is in the grid iff it lies in the 42-day window from the first cell. */
  lemma GridWindow(anchor: Date, d: Date)
    ensures d in GridDates(anchor) <==>
              GridStart(anchor).serial <= d.serial < GridStart(anchor).serial + CellCount
  {
    var g := GridDates(anchor);
    var k := d.serial - GridStart(anchor).serial;
    if 0 <= k < CellCount {
      assert g[k] == d;
    }
  }

  /** Every day of the anchor's month is in the grid, at CellIndex. */
  lemma GridCoversMonth(anchor: Date, d: Date)
    requires SameMonth(d, anchor)
    ensures 0 <= CellIndex(anchor, d) < CellCount
    ensures GridDates(anchor)[CellIndex(anchor, d)] == d
  {
    SameMonthIffSameFirstDay(d, anchor);
    FirstDayOfMonthSpec(d);
    GridStartsOnSunday(anchor);
  }

  /** A cell is in the month iff it lies in the run of DaysInMonthOf(anchor)
      cells that starts at the 1st. */
  lemma InMonthIff(anchor: Date, i: int)
    requires 0 <= i < CellCount
    ensures SameMonth(GridDates(anchor)[i], anchor) <==>
              Offset(anchor) <= i < Offset(anchor) + DaysInMonthOf(anchor)
  {
    var c := Components(anchor);
    var first := Civil(c.year, c.month, 1);
    ComponentsOfDateOf(first);
    assert DateOf(first) == FirstDayOfMonth(anchor);
    GridStartsOnSunday(anchor);
    InMonthIffInRun(GridDates(anchor)[i], first);
  }

  /** The number of in-month cells is the number of days in the month. */
  lemma InMonthCount(anchor: Date)
    ensures CountTrue(InMonthFlags(anchor)) == DaysInMonthOf(anchor)
  {
    var f := InMonthFlags(anchor);
    var lo := Offset(anchor);
    forall i | 0 <= i < CellCount
      ensures f[i] <==> lo <= i < lo + DaysInMonthOf(anchor)
    {
      InMonthIff(anchor, i);
    }
    CountTrueOfRange(f, lo, lo + DaysInMonthOf(anchor));
  }

  /** Column c of every row shows weekday c + 1 (Sunday = 1). */
  lemma GridColumnWeekday(anchor: Date, i: int)
    requires 0 <= i < CellCount
    ensures Weekday(GridDates(anchor)[i]) == i % 7 + 1
  {
    WeekdayAddDays(GridStart(anchor), i);
  }

  lemma FirstRowWeekday(anchor: Date, i: int)
    requires 0 <= i < Columns
    ensures Weekday(GridDates(anchor)[i]) == i + 1
  {
    GridColumnWeekday(anchor, i);
    SmallRemainder(i);
  }

  lemma SmallRemainder(i: int)
    requires 0 <= i < 7
    ensures i % 7 == i
  {
  }

  /** The weekday header reads Sunday ... Saturday. */
  lemma WeekdayHeaderIsSundayFirst(anchor: Date)
    ensures forall i :: 0 <= i < Columns ==> WeekdayHeader(anchor)[i] == i + 1
  {
    var h := WeekdayHeader(anchor);
    forall i | 0 <= i < 7
      ensures h[i] == i + 1
    {
      assert h[i] == Weekday(GridDates(anchor)[i]);
      FirstRowWeekday(anchor, i);
    }
  }

  /** Only the anchor's (year, month) matters, not its day. */
  lemma GridDependsOnMonthOnly(a: Date, b: Date)
    requires SameMonth(a, b)
    ensures GridDates(a) == GridDates(b)
    ensures InMonthFlags(a) == InMonthFlags(b)
  {
    SameMonthIffSameFirstDay(a, b);
    assert GridStart(a) == GridStart(b);
  }

  /** At most one cell is selected, and exactly one iff the selected date
      lies in the grid window. */
  lemma SelectionAtMostOne(anchor: Date, sd: Option<Date>)
    ensures CountTrue(SelectionFlags(anchor, sd)) <= 1
    ensures CountTrue(SelectionFlags(anchor, sd)) == 1 <==> sd.Some? && sd.value in GridDates(anchor)
  {
    if sd.Some? && sd.value in GridDates(anchor) {
      SelectionInWindow(anchor, sd.value);
    } else {
      SelectionOutsideWindow(anchor, sd);
    }
  }

  lemma SelectionInWindow(anchor: Date, d: Date)
    requires d in GridDates(anchor)
    ensures CountTrue(SelectionFlags(anchor, Some(d))) == 1
  {
    var g := GridDates(anchor);
    var f := SelectionFlags(anchor, Some(d));
    var k :| 0 <= k < CellCount && g[k] == d;
    forall i | 0 <= i < CellCount
      ensures f[i] <==> k <= i < k + 1
    {
      assert f[i] == (g[i] == d);
    }
    CountTrueOfRange(f, k, k + 1);
  }

  lemma SelectionOutsideWindow(anchor: Date, sd: Option<Date>)
    requires !(sd.Some? && sd.value in GridDates(anchor))
    ensures CountTrue(SelectionFlags(anchor, sd)) == 0
  {
    var g := GridDates(anchor);
    var f := SelectionFlags(anchor, sd);
    forall i | 0 <= i < CellCount
      ensures !f[i]
    {
      assert f[i] == (sd == Some(g[i]));
    }
    CountTrueOfRange(f, 0, 0);
  }

  /** Selecting a day of the shown month highlights exactly its cell. */
  lemma SelectionOfMonthDay(anchor: Date, d: Date)
    requires SameMonth(d, anchor)
    ensures 0 <= CellIndex(anchor, d) < CellCount
    ensures forall i :: 0 <= i < CellCount ==> (SelectionFlags(anchor, Some(d))[i] <==> i == CellIndex(anchor, d))
  {
    GridCoversMonth(anchor, d);
  }

  /** February 2024 starts on a Thursday: its grid opens on Sunday 2024-01-28,
      the 29th sits in cell 32, March 1st in cell 33, and 29 cells are in the month. */
  lemma February2024(a: Date)
    requires Components(a).year == 2024 && Components(a).month == 2
    ensures Offset(a) == 4
    ensures GridDates(a)[0] == DateOf(Civil(2024, 1, 28))
    ensures GridDates(a)[32] == DateOf(Civil(2024, 2, 29))
    ensures GridDates(a)[33] == DateOf(Civil(2024, 3, 1))
    ensures CountTrue(InMonthFlags(a)) == 29
  {
    Serials2024();
    assert FirstDayOfMonth(a) == Date(8797);
    InMonthCount(a);
  }

  /** June 1st 2025 is a Sunday, so the grid of June 2025 opens on it. */
  lemma June2025(a: Date)
    requires Components(a).year == 2025 && Components(a).month == 6
    ensures Offset(a) == 0
    ensures GridDates(a)[0] == DateOf(Civil(2025, 6, 1))
    ensures CountTrue(InMonthFlags(a)) == 30
  {
    Serials2025();
    assert FirstDayOfMonth(a) == Date(9283);
    InMonthCount(a);
  }
}
