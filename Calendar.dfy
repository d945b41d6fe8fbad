/** The calendar view's selection and paging state.

    `CalendarView` keeps, like the view it models, one date and three flags
    per cell (the cell's date, whether it is highlighted as selected, whether
    it belongs to the shown month, whether it carries a dot) and the weekday
    of each column header.  The observers of `currentDate` and `selectedDate`
    rewrite the selected flags in place; `Layout` rewrites the rest.
 */
module Calendar {
  import opened Wrappers
  import opened CivilDate
  import Grid

  /** The host's data source: whether a date gets a dot. */
  datatype DataSource = DataSource(showDotForDate: Date -> bool)

  /** The host's delegate: its veto on selecting a date.  Its other callback,
      `didSelectDate`, is recorded as the view's `delivered` log. */
  datatype Delegate = Delegate(canSelectDate: Date -> bool)

  /** A date gets a dot only when a data source is present and asks for one. */
  function ShowsDot(source: Option<DataSource>, d: Date): (dot: bool)
    ensures source.None? ==> !dot
  {
    match source
    case Some(s) => s.showDotForDate(d)
    case None => false
  }

  /** A tapped date may be selected unless a delegate is present and refuses it. */
  function MaySelect(delegate: Option<Delegate>, d: Date): (may: bool)
    ensures delegate.None? ==> may
  {
    match delegate
    case Some(g) => g.canSelectDate(d)
    case None => true
  }

  /** The `didSelectDate` notifications that setting the selected date to sd
      delivers: one, carrying sd, when sd is a date and a delegate is present. */
  function Notified(delegate: Option<Delegate>, sd: Option<Date>): (n: seq<Date>)
    ensures |n| <= 1
    ensures n != [] <==> sd.Some? && delegate.Some?
    ensures n != [] ==> n[0] == sd.value
  {
    if sd.Some? && delegate.Some? then [sd.value] else []
  }

  /** Dot flag of each of the given cell dates. */
  function DotFlags(source: Option<DataSource>, dates: seq<Date>): (f: seq<bool>)
    ensures |f| == |dates|
  {
    seq(|dates|, i requires 0 <= i < |dates| => ShowsDot(source, dates[i]))
  }

  class CalendarView {
    var dataSource: Option<DataSource>
    var delegate: Option<Delegate>
    var currentDate: Date
    var selectedDate: Option<Date>
    /** Every date passed to the delegate's `didSelectDate`, oldest first. */
    var delivered: seq<Date>

    const cellDates: array<Date>
    const cellSelected: array<bool>
    const cellInMonth: array<bool>
    const cellDot: array<bool>
    /** Weekday (Sunday = 1) whose name labels each column. */
    const weekdayLabels: array<int>

    /** 42 cells and 7 header labels, with the three per-cell flag arrays distinct. */
    ghost predicate Ready() {
      cellDates.Length == Grid.CellCount && cellSelected.Length == Grid.CellCount &&
      cellInMonth.Length == Grid.CellCount && cellDot.Length == Grid.CellCount &&
      weekdayLabels.Length == Grid.Columns &&
      cellSelected != cellInMonth && cellSelected != cellDot && cellInMonth != cellDot
    }

    ghost predicate NothingSelected()
      reads cellSelected
    {
      forall i :: 0 <= i < cellSelected.Length ==> !cellSelected[i]
    }

    /** The highlighted cells are those showing the selected date, or none at all. */
    ghost predicate SelectionShown()
      reads this`currentDate, this`selectedDate, cellSelected
      requires Ready()
    {
      cellSelected[..] == Grid.SelectionFlags(currentDate, selectedDate) || NothingSelected()
    }

    /** The cells show the grid of the current month. */
    ghost predicate LaidOut()
      reads this`currentDate, cellDates, cellInMonth, weekdayLabels
      requires Ready()
    {
      cellDates[..] == Grid.GridDates(currentDate) &&
      cellInMonth[..] == Grid.InMonthFlags(currentDate) &&
      weekdayLabels[..] == Grid.WeekdayHeader(currentDate)
    }

    ghost predicate Valid()
      reads this`currentDate, this`selectedDate, cellDates, cellSelected, cellInMonth, weekdayLabels
    {
      Ready() && SelectionShown() && LaidOut()
    }

    /** Waking up: show today's month and select today.  No delegate is
        attached yet, so the selection notifies nobody. */
    constructor (today: Date)
      ensures Valid()
      ensures fresh(cellDates) && fresh(cellSelected) && fresh(cellInMonth) && fresh(cellDot) && fresh(weekdayLabels)
      ensures dataSource == None && delegate == None && delivered == []
      ensures currentDate == today && selectedDate == Some(today)
      ensures cellSelected[..] == Grid.SelectionFlags(today, Some(today))
      ensures cellDot[..] == DotFlags(None, cellDates[..])
    {
      cellDates := new Date[Grid.CellCount](_ => today);
      cellSelected := new bool[Grid.CellCount](_ => false);
      cellInMonth := new bool[Grid.CellCount](_ => false);
      cellDot := new bool[Grid.CellCount](_ => false);
      weekdayLabels := new int[Grid.Columns](_ => 0);
      dataSource, delegate := None, None;
      currentDate, selectedDate, delivered := today, None, [];
      new;
      SetCurrentDate(today);
      Layout();
      SetSelectedDate(Some(today));
    }

    /** Assigning `currentDate`: its observer clears every selected flag.
        The grid is not recomputed until the next layout pass. */
    method SetCurrentDate(d: Date)
      requires Ready()
      modifies this`currentDate, cellSelected
      ensures Ready() && NothingSelected()
      ensures currentDate == d
    {
      currentDate := d;
      for i := 0 to Grid.CellCount
        invariant currentDate == d
        invariant forall k :: 0 <= k < i ==> !cellSelected[k]
      {
        cellSelected[i] := false;
      }
    }

    /** Assigning `selectedDate`: its observer highlights exactly the cells
        whose date equals the new value (none for nil) against the dates the
        cells hold now, and, for a date, notifies the delegate.  When the
        cells hold the grid of the current month, the view is Valid after. */
    method SetSelectedDate(sd: Option<Date>)
      requires Ready()
      modifies this`selectedDate, this`delivered, cellSelected
      ensures Ready()
      ensures selectedDate == sd
      ensures forall i :: 0 <= i < Grid.CellCount ==> (cellSelected[i] <==> sd == Some(cellDates[i]))
      ensures old(LaidOut()) ==> Valid() && cellSelected[..] == Grid.SelectionFlags(currentDate, sd)
      ensures delivered == old(delivered) + Notified(delegate, sd)
    {
      selectedDate := sd;
      Highlight(sd);
      if LaidOut() {
        assert cellSelected[..] == Grid.SelectionFlags(currentDate, sd);
      }
      if sd.Some? && delegate.Some? {
        delivered := delivered + [sd.value];
      }
    }

    /** The loops of the `selectedDate` observer: a cell is highlighted iff
        it shows sd. */
    method Highlight(sd: Option<Date>)
      requires Ready()
      modifies cellSelected
      ensures forall i :: 0 <= i < Grid.CellCount ==> (cellSelected[i] <==> sd == Some(cellDates[i]))
    {
      if sd.None? {
        for i := 0 to Grid.CellCount
          invariant forall k :: 0 <= k < i ==> !cellSelected[k]
        {
          cellSelected[i] := false;
        }
        return;
      }
      var d := sd.value;
      for i := 0 to Grid.CellCount
        invariant forall k :: 0 <= k < i ==> cellSelected[k] == (d == cellDates[k])
      {
        cellSelected[i] := SameDay(d, cellDates[i]);
      }
    }

    /** The layout pass: the weekday header from the first seven dates, then
        row by row the date, in-month flag and dot of each cell, starting at
        the Sunday on or before the 1st of the current month. */
    method Layout()
      requires Ready() && SelectionShown()
      modifies cellDates, cellInMonth, cellDot, weekdayLabels
      ensures Valid()
      ensures cellDot[..] == DotFlags(dataSource, cellDates[..])
    {
      var first := FirstDayOfMonth(currentDate);
      var firstWeekday := Weekday(first);
      var cellDate := AddDays(first, -firstWeekday + 1);
      assert cellDate == Grid.GridStart(currentDate);
      LayOutHeader(cellDate);
      LayOutCells(cellDate);
      assert weekdayLabels[..] == Grid.WeekdayHeader(currentDate);
      assert cellDates[..] == Grid.GridDates(currentDate);
      assert cellInMonth[..] == Grid.InMonthFlags(currentDate);
    }

    /** The first loop of the layout pass: column i is labelled with the
        weekday of the date i days after the first cell. */
    method LayOutHeader(cellDate: Date)
      requires Ready()
      modifies weekdayLabels
      ensures forall i :: 0 <= i < Grid.Columns ==> weekdayLabels[i] == Weekday(AddDays(cellDate, i))
    {
      for i := 0 to Grid.Columns
        invariant forall k :: 0 <= k < i ==> weekdayLabels[k] == Weekday(AddDays(cellDate, k))
      {
        var weekdayDate := AddDays(cellDate, i);
        weekdayLabels[i] := Weekday(weekdayDate);
      }
    }

    /** The nested row and column loops of the layout pass: each cell gets
        its date, its in-month flag and its dot, and the date advances by one
        day per cell. */
    method LayOutCells(start: Date)
      requires Ready()
      modifies cellDates, cellInMonth, cellDot
      ensures forall i :: 0 <= i < Grid.CellCount ==> cellDates[i] == AddDays(start, i)
      ensures forall i :: 0 <= i < Grid.CellCount ==> cellInMonth[i] == SameMonth(cellDates[i], currentDate)
      ensures cellDot[..] == DotFlags(dataSource, cellDates[..])
    {
      var cellDate := start;
      var index := 0;
      for row := 0 to Grid.Rows
        invariant index == 7 * row
        invariant cellDate == AddDays(start, index)
        invariant forall k :: 0 <= k < index ==> cellDates[k] == AddDays(start, k)
        invariant forall k :: 0 <= k < index ==> cellInMonth[k] == SameMonth(cellDates[k], currentDate)
        invariant forall k :: 0 <= k < index ==> cellDot[k] == ShowsDot(dataSource, cellDates[k])
      {
        for column := 0 to Grid.Columns
          invariant index == 7 * row + column
          invariant cellDate == AddDays(start, index)
          invariant forall k :: 0 <= k < index ==> cellDates[k] == AddDays(start, k)
          invariant forall k :: 0 <= k < index ==> cellInMonth[k] == SameMonth(cellDates[k], currentDate)
          invariant forall k :: 0 <= k < index ==> cellDot[k] == ShowsDot(dataSource, cellDates[k])
        {
          LayOutCell(index, cellDate);
          index := index + 1;
          cellDate := AddDays(cellDate, 1);
        }
      }
    }

    /** The body of the cell loop: cell `index` shows `cellDate`, in bold when
        it is in the current month, with a dot when the data source asks. */
    method LayOutCell(index: int, cellDate: Date)
      requires Ready() && 0 <= index < Grid.CellCount
      modifies cellDates, cellInMonth, cellDot
      ensures cellDates[index] == cellDate
      ensures cellInMonth[index] == SameMonth(cellDate, currentDate)
      ensures cellDot[index] == ShowsDot(dataSource, cellDate)
      ensures forall k :: 0 <= k < Grid.CellCount && k != index ==>
                cellDates[k] == old(cellDates[k]) && cellInMonth[k] == old(cellInMonth[k]) && cellDot[k] == old(cellDot[k])
    {
      cellDates[index] := cellDate;
      cellInMonth[index] := SameMonth(cellDate, currentDate);
      cellDot[index] := ShowsDot(dataSource, cellDate);
    }

    /** Jump to today's month and select today, laying out first so that the
        highlight is computed against the new grid. */
    method GotoToday(today: Date)
      requires Valid()
      modifies this`currentDate, this`selectedDate, this`delivered
      modifies cellDates, cellSelected, cellInMonth, cellDot, weekdayLabels
      ensures Valid()
      ensures currentDate == today && selectedDate == Some(today)
      ensures Grid.CellIndex(today, today) < Grid.CellCount
      ensures forall i :: 0 <= i < Grid.CellCount ==> (cellSelected[i] <==> i == Grid.CellIndex(today, today))
      ensures cellDates[Grid.CellIndex(today, today)] == today
      ensures delivered == old(delivered) + Notified(delegate, Some(today))
      ensures cellDot[..] == DotFlags(dataSource, cellDates[..])
    {
      SetCurrentDate(today);
      Layout();
      SetSelectedDate(Some(today));
      Grid.SelectionOfMonthDay(today, today);
      Grid.GridCoversMonth(today, today);
    }

    /** Page forward one calendar month.  The selected date is kept, but no
        cell stays highlighted. */
    method AdvanceOneMonth()
      requires Valid()
      modifies this`currentDate, cellDates, cellSelected, cellInMonth, cellDot, weekdayLabels
      ensures Valid() && NothingSelected()
      ensures currentDate == AddMonths(old(currentDate), 1)
      ensures selectedDate == old(selectedDate) && delivered == old(delivered)
      ensures cellDot[..] == DotFlags(dataSource, cellDates[..])
    {
      SetCurrentDate(AddMonths(currentDate, 1));
      Layout();
    }

    /** Page back one calendar month.  The selected date is kept, but no cell
        stays highlighted. */
    method RewindOneMonth()
      requires Valid()
      modifies this`currentDate, cellDates, cellSelected, cellInMonth, cellDot, weekdayLabels
      ensures Valid() && NothingSelected()
      ensures currentDate == AddMonths(old(currentDate), -1)
      ensures selectedDate == old(selectedDate) && delivered == old(delivered)
      ensures cellDot[..] == DotFlags(dataSource, cellDates[..])
    {
      SetCurrentDate(AddMonths(currentDate, -1));
      Layout();
    }

    /** A tap on a cell selects its date unless the delegate vetoes it; a
        vetoed tap, or one that does not land on a cell, changes nothing. */
    method DidTap(cell: int)
      requires Valid()
      modifies this`selectedDate, this`delivered, cellSelected
      ensures Valid()
      ensures 0 <= cell < Grid.CellCount && MaySelect(delegate, cellDates[cell]) ==>
                selectedDate == Some(cellDates[cell]) &&
                (forall i :: 0 <= i < Grid.CellCount ==> (cellSelected[i] <==> i == cell)) &&
                delivered == old(delivered) + Notified(delegate, Some(cellDates[cell]))
      ensures !(0 <= cell < Grid.CellCount && MaySelect(delegate, cellDates[cell])) ==>
                selectedDate == old(selectedDate) && cellSelected[..] == old(cellSelected[..]) &&
                delivered == old(delivered)
    {
      if !(0 <= cell < Grid.CellCount) {
        return;
      }
      var date := cellDates[cell];
      if MaySelect(delegate, date) {
        SetSelectedDate(Some(date));
        forall i | 0 <= i < Grid.CellCount
          ensures cellSelected[i] <==> i == cell
        {
          Grid.GridIsDistinct(currentDate, i, cell);
        }
      }
    }

    /** Whatever happened before, at most one cell is highlighted, and a
        highlighted cell shows the selected date. */
    lemma SelectionInvariant()
      requires Valid()
      ensures Grid.CountTrue(cellSelected[..]) <= 1
      ensures forall i :: 0 <= i < Grid.CellCount && cellSelected[i] ==> selectedDate == Some(cellDates[i])
    {
      Grid.SelectionAtMostOne(currentDate, selectedDate);
      Grid.SelectionAtMostOne(currentDate, None);
      if NothingSelected() {
        assert cellSelected[..] == Grid.SelectionFlags(currentDate, None);
      }
    }
  }
}
