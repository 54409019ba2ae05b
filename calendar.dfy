/**
 * The month grid of components/Calendar.tsx: 42 cells (six weeks, Sunday
 * first) holding the tail of the previous month, the whole current month and
 * the head of the next, and the per-cell rules for selection and icons.
 */
module CalendarGrid {
  import opened Wrappers
  import opened Civil
  import opened IsoDate
  import opened Reminders

  datatype Cell = Cell(date: Date, isCurrentMonth: bool)

  /** Day 0 of `d`'s month, which the `Date` constructor normalises to the
      last day of the previous month (components/Calendar.tsx:27-28). */
  function PrevMonthEnd(d: Date): (p: Date)
    requires ValidDate(d)
    ensures ValidDate(p) && NextDay(p) == FirstOfMonth(d)
  {
    var q := MonthBefore(d);
    Date(q.year, q.month, DaysIn(q.year, q.month))
  }

  /** The cell at position `i` of the grid for `d`'s month: the three runs
      the builder pushes, in closed form. */
  function GridCell(d: Date, i: int): Cell
    requires ValidDate(d) && 0 <= i < 42
  {
    var lead, n := FirstDayOfMonth(d), DaysIn(d.year, d.month);
    if i < lead then
      var p := PrevMonthEnd(d);
      Cell(Date(p.year, p.month, p.day - lead + 1 + i), false)
    else if i < lead + n then
      Cell(Date(d.year, d.month, i - lead + 1), true)
    else
      var q := MonthAfter(d);
      Cell(Date(q.year, q.month, i - lead - n + 1), false)
  }

  predicate IsMonthGrid(d: Date, grid: seq<Cell>)
    requires ValidDate(d)
  {
    |grid| == 42 && forall i :: 0 <= i < 42 ==> grid[i] == GridCell(d, i)
  }

  /**
   * `calendarGrid` (components/Calendar.tsx:23-51). The grid is fixed by the
   * year and month of `currentDate` alone.
   */
  method BuildGrid(currentDate: Date) returns (grid: seq<Cell>)
    requires ValidDate(currentDate)
    ensures IsMonthGrid(FirstOfMonth(currentDate), grid)
    ensures IsMonthGrid(currentDate, grid)
  {
    var daysInMonth := DaysOfMonth(currentDate);
    var firstDay := FirstDayOfMonth(currentDate);
    var prevMonth := PrevMonthEnd(currentDate);
    var daysInPrevMonth := prevMonth.day;

    grid := [];
    // Previous month's padding days
    for i := 0 to firstDay
      invariant |grid| == i
      invariant forall k :: 0 <= k < i ==> grid[k] == GridCell(currentDate, k)
    {
      var day := daysInPrevMonth - firstDay + 1 + i;
      grid := grid + [Cell(Date(prevMonth.year, prevMonth.month, day), false)];
    }
    // Current month's days
    for j := 0 to |daysInMonth|
      invariant |grid| == firstDay + j
      invariant forall k :: 0 <= k < firstDay + j ==> grid[k] == GridCell(currentDate, k)
    {
      grid := grid + [Cell(daysInMonth[j], true)];
    }
    // Next month's padding days
    var nextMonth := MonthAfter(currentDate);
    var remainingSlots := 42 - |grid|;
    for i := 1 to remainingSlots + 1
      invariant |grid| == 42 - remainingSlots + i - 1
      invariant forall k :: 0 <= k < |grid| ==> grid[k] == GridCell(currentDate, k)
    {
      grid := grid + [Cell(Date(nextMonth.year, nextMonth.month, i), false)];
    }
    GridIgnoresDay(currentDate);
  }

  /** Only the year and month of the reference date matter. */
  lemma GridIgnoresDay(d: Date)
    requires ValidDate(d)
    ensures forall i :: 0 <= i < 42 ==> GridCell(d, i) == GridCell(FirstOfMonth(d), i)
  {
    FirstDayIgnoresDay(d, FirstOfMonth(d));
  }

  /** There are `FirstDayOfMonth` leading cells and at least five trailing ones. */
  lemma PaddingBounds(d: Date)
    requires ValidDate(d)
    ensures 0 <= FirstDayOfMonth(d) <= 6
    ensures 42 - FirstDayOfMonth(d) - DaysIn(d.year, d.month) >= 5
  {
  }

  /** Every cell holds a real date; a cell is flagged exactly when its date is
      in the reference month. */
  lemma GridCellValid(d: Date, i: int)
    requires ValidDate(d) && 0 <= i < 42
    ensures ValidDate(GridCell(d, i).date)
    ensures GridCell(d, i).isCurrentMonth <==>
      GridCell(d, i).date.year == d.year && GridCell(d, i).date.month == d.month
  {
    var q := MonthAfter(d);
    var p := PrevMonthEnd(d);
    assert MonthIndex(q) == MonthIndex(d) + 1;
    assert MonthIndex(p) == MonthIndex(d) - 1 by {
      assert MonthIndex(MonthBefore(d)) == MonthIndex(d) - 1;
    }
  }

  /** Consecutive cells are consecutive days, across month and year ends. */
  lemma GridContiguous(d: Date, i: int)
    requires ValidDate(d) && 0 <= i < 41
    ensures GridCell(d, i + 1).date == NextDay(GridCell(d, i).date)
  {
    GridCellValid(d, i);
  }

  /** The grid starts `FirstDayOfMonth` days before day 1 and runs day by day. */
  lemma {:induction false} GridDayNumber(d: Date, i: int)
    requires ValidDate(d) && 0 <= i < 42
    ensures ValidDate(GridCell(d, i).date)
    ensures DayNumber(GridCell(d, i).date) == DayNumber(FirstOfMonth(d)) - FirstDayOfMonth(d) + i
  {
    GridCellValid(d, i);
    if i == 0 {
      var lead := FirstDayOfMonth(d);
      if lead > 0 {
        var p := PrevMonthEnd(d);
        assert DayNumber(p) == DayNumber(FirstOfMonth(d)) - 1;
      }
    } else {
      GridDayNumber(d, i - 1);
      GridContiguous(d, i - 1);
    }
  }

  /** Column `i % 7` sits under the weekday header `i % 7` ('Dom' first). */
  lemma GridColumnIsWeekday(d: Date, i: int)
    requires ValidDate(d) && 0 <= i < 42
    ensures Weekday(GridCell(d, i).date) == i % 7
  {
    GridDayNumber(d, i);
    var lead := FirstDayOfMonth(d);
    WeekdayShift(FirstOfMonth(d), GridCell(d, i).date, i - lead);
    assert (lead + (i - lead)) % 7 == i % 7;
  }

  /** No date appears in two cells. */
  lemma GridDistinct(d: Date, i: int, j: int)
    requires ValidDate(d) && 0 <= i < j < 42
    ensures Precedes(GridCell(d, i).date, GridCell(d, j).date)
  {
    GridDayNumber(d, i);
    GridDayNumber(d, j);
    PrecedesIsEarlier(GridCell(d, i).date, GridCell(d, j).date);
  }

  /** Every date of the reference month has its cell. */
  lemma GridCoversMonth(d: Date, x: Date)
    requires ValidDate(d) && ValidDate(x) && x.year == d.year && x.month == d.month
    ensures GridCell(d, FirstDayOfMonth(d) + x.day - 1) == Cell(x, true)
  {
  }

  function CountCurrent(cells: seq<Cell>): nat
  {
    if cells == [] then 0
    else CountCurrent(cells[..|cells| - 1]) + (if cells[|cells| - 1].isCurrentMonth then 1 else 0)
  }

  lemma {:induction false} CountRun(cells: seq<Cell>, lo: int, hi: int)
    requires 0 <= lo <= hi <= |cells|
    requires forall i :: 0 <= i < |cells| ==> (cells[i].isCurrentMonth <==> lo <= i < hi)
    ensures CountCurrent(cells) == hi - lo
  {
    if cells != [] {
      var prefix := cells[..|cells| - 1];
      if hi == |cells| && lo < hi {
        CountRun(prefix, lo, hi - 1);
      } else {
        CountRun(prefix, if lo == |cells| then lo - 1 else lo, if hi == |cells| then hi - 1 else hi);
      }
    }
  }

  /** The flagged cells are as many as the days of the month. */
  lemma CurrentMonthCount(d: Date, grid: seq<Cell>)
    requires ValidDate(d) && IsMonthGrid(d, grid)
    ensures CountCurrent(grid) == DaysIn(d.year, d.month)
  {
    var lead := FirstDayOfMonth(d);
    CountRun(grid, lead, lead + DaysIn(d.year, d.month));
  }

  /** February 2024 (leap year) starts on a Thursday and has 29 flagged cells. */
  lemma LeapFebruary(grid: seq<Cell>)
    requires IsMonthGrid(Date(2024, 2, 1), grid)
    ensures FirstDayOfMonth(Date(2024, 2, 1)) == 4
    ensures CountCurrent(grid) == 29
  {
    CurrentMonthCount(Date(2024, 2, 1), grid);
  }

  /** The click handler of grid cell `i` (components/Calendar.tsx:72, 94):
      it selects the cell's date exactly when that date is in the shown month. */
  function Click(d: Date, i: int): (selected: Option<Date>)
    requires ValidDate(d) && 0 <= i < 42
    ensures selected.Some? <==>
      GridCell(d, i).date.year == d.year && GridCell(d, i).date.month == d.month
    ensures selected.Some? ==> selected.value == GridCell(d, i).date
  {
    var cell := GridCell(d, i);
    GridCellValid(d, i);
    if cell.isCurrentMonth then Some(cell.date) else None
  }

  /** The dates a click on the grid can select are exactly the dates of the
      shown month. */
  lemma ClickSelectsShownMonth(d: Date, x: Date)
    requires ValidDate(d) && ValidDate(x)
    ensures (exists i :: 0 <= i < 42 && Click(d, i) == Some(x)) <==>
      x.year == d.year && x.month == d.month
  {
    if x.year == d.year && x.month == d.month {
      var i := FirstDayOfMonth(d) + x.day - 1;
      PaddingBounds(d);
      GridCoversMonth(d, x);
      assert 0 <= i < 42 && Click(d, i) == Some(x);
    }
  }

  /** The reminder cell `cell` shows (components/Calendar.tsx:73-74, 95): the
      lookup of its key in the index built from `rs`. */
  function CellReminder(rs: seq<Reminder>, cell: Cell): (r: Option<Reminder>)
    requires ValidDate(cell.date)
    ensures r.Some? <==> HasKey(rs, Key(cell.date))
    ensures r.Some? ==> r.value in rs && r.value.date == Key(cell.date)
  {
    Find(IndexByDate(rs), Key(cell.date))
  }

  /** Over a valid collection a cell shows an icon exactly when a reminder
      has that cell's key, and then it is that reminder's icon. */
  lemma CellShowsItsReminder(rs: seq<Reminder>, cell: Cell, r: Reminder)
    requires SortedByKey(rs) && ValidDate(cell.date)
    ensures CellReminder(rs, cell).Some? <==> HasKey(rs, Key(cell.date))
    ensures CellReminder(rs, cell) == Some(r) <==> r in rs && r.date == Key(cell.date)
  {
    FindExactly(rs, Key(cell.date), r);
  }
}
