/**
 * The month grid the datepicker shows: six weeks of seven cells, the previous month's
 * last days, every day of the displayed month, then the next month's first days. This
 * module says what cell k (counted row by row from 0 to 41) is; the component's
 * `GenerateCalendar` builds the grid with the source's loops and is proved to produce it.
 */
module CalendarGrid {
  import opened Wrappers
  import opened CivilDate
  import opened DateRange

  /** Which month a cell belongs to (the source's `_prevMonth`, `_currMonth` and `_nextMonth`). */
  datatype CalMonth = Prev | Curr | Next

  /** A grid cell: its day (at midnight), its month tag, whether it is today and whether it is disabled. */
  datatype Cell = Cell(date: DateTime, calMonth: CalMonth, today: bool, disabled: bool)

  const WeeksPerGrid: nat := 6
  const DaysPerWeek: nat := 7
  const CellsPerGrid: nat := 42

  /**
   * The figures `generateCalendar` computes before its loops: the displayed month, the
   * weekday of its first day, its length and the length of the month before it.
   */
  datatype Layout = Layout(year: int, month: int, firstDay: int, days: int, prevDays: int)

  /** A layout whose lengths are those of its month and of the month before, with any first weekday. */
  predicate Shaped(L: Layout)
  {
    && 0 <= L.month < 12
    && 0 <= L.firstDay < DaysPerWeek
    && L.days == DaysInMonth(L.year, L.month)
    && L.prevDays == DaysInMonth(PrevMonthOf(L.year, L.month).0, PrevMonthOf(L.year, L.month).1)
  }

  /** The layout of month (y, m). */
  function LayoutOf(y: int, m: int): (L: Layout)
    requires 0 <= m < 12
    ensures Shaped(L) && L.year == y && L.month == m
    ensures L.firstDay == Weekday(y, m, 1)
  {
    var (py, pm) := PrevMonthOf(y, m);
    Layout(y, m, Weekday(y, m, 1), DaysInMonth(y, m), DaysInMonth(py, pm))
  }

  /** `isSameDay`: the same calendar day, whatever the time. */
  predicate SameDay(a: DateTime, b: DateTime)
  {
    a.year == b.year && a.month == b.month && a.day == b.day
  }

  /** The cell the component pushes for a date in a given month tag. */
  function NewCell(d: DateTime, tag: CalMonth, today: DateTime, bounds: Bounds): Cell
    requires ValidDate(d) && ValidBounds(bounds)
  {
    Cell(d, tag, SameDay(today, d), IsDisabled(bounds, d))
  }

  /** The tag of cell k. */
  function CellTag(L: Layout, k: int): CalMonth
  {
    if k < L.firstDay then Prev
    else if k < L.firstDay + L.days then Curr
    else Next
  }

  /** The day shown in cell k. */
  function CellDate(L: Layout, k: int): (d: DateTime)
    requires Shaped(L) && 0 <= k < CellsPerGrid
    ensures ValidDate(d) && d.hour == 0 && d.minute == 0 && d.second == 0
    ensures CellTag(L, k) == Prev ==> (d.year, d.month) == PrevMonthOf(L.year, L.month)
    ensures CellTag(L, k) == Curr ==> d.year == L.year && d.month == L.month
    ensures CellTag(L, k) == Next ==> (d.year, d.month) == NextMonthOf(L.year, L.month)
  {
    match CellTag(L, k)
    case Prev =>
      var (py, pm) := PrevMonthOf(L.year, L.month);
      DateTime(py, pm, L.prevDays - L.firstDay + 1 + k, 0, 0, 0)
    case Curr =>
      DateTime(L.year, L.month, k - L.firstDay + 1, 0, 0, 0)
    case Next =>
      var (ny, nm) := NextMonthOf(L.year, L.month);
      DateTime(ny, nm, k - L.firstDay - L.days + 1, 0, 0, 0)
  }

  function CellAt(L: Layout, today: DateTime, bounds: Bounds, k: int): Cell
    requires Shaped(L) && 0 <= k < CellsPerGrid && ValidBounds(bounds)
  {
    NewCell(CellDate(L, k), CellTag(L, k), today, bounds)
  }

  /** `grid` is the six-by-seven grid of layout L, row w holding cells 7w .. 7w + 6. */
  ghost predicate IsGridOf(grid: seq<seq<Cell>>, L: Layout, today: DateTime, bounds: Bounds)
    requires Shaped(L) && ValidBounds(bounds)
  {
    && |grid| == WeeksPerGrid
    && (forall w :: 0 <= w < WeeksPerGrid ==> |grid[w]| == DaysPerWeek)
    && (forall w, j :: 0 <= w < WeeksPerGrid && 0 <= j < DaysPerWeek ==>
          grid[w][j] == CellAt(L, today, bounds, DaysPerWeek * w + j))
  }

  /** The 42 cells of the grid of layout L, in reading order. */
  function GridCells(L: Layout, today: DateTime, bounds: Bounds): (cells: seq<Cell>)
    requires Shaped(L) && ValidBounds(bounds)
    ensures |cells| == CellsPerGrid
    ensures forall k :: 0 <= k < CellsPerGrid ==> cells[k] == CellAt(L, today, bounds, k)
  {
    seq(CellsPerGrid, k requires 0 <= k < CellsPerGrid => CellAt(L, today, bounds, k))
  }

  /** The rows of a grid, read one after the other. */
  function Flatten(grid: seq<seq<Cell>>): seq<Cell>
  {
    if grid == [] then [] else grid[0] + Flatten(grid[1..])
  }

  lemma {:induction false} FlattenRows(grid: seq<seq<Cell>>, L: Layout, today: DateTime, bounds: Bounds, w: nat)
    requires Shaped(L) && ValidBounds(bounds) && IsGridOf(grid, L, today, bounds)
    requires w <= WeeksPerGrid
    ensures Flatten(grid[w..]) == GridCells(L, today, bounds)[DaysPerWeek * w..]
    decreases WeeksPerGrid - w
  {
    var cells := GridCells(L, today, bounds);
    if w < WeeksPerGrid {
      FlattenRows(grid, L, today, bounds, w + 1);
      assert grid[w..] == [grid[w]] + grid[w + 1..];
      assert grid[w] == cells[DaysPerWeek * w..DaysPerWeek * (w + 1)];
      assert cells[DaysPerWeek * w..] == cells[DaysPerWeek * w..DaysPerWeek * (w + 1)] + cells[DaysPerWeek * (w + 1)..];
    } else {
      assert grid[w..] == [];
    }
  }

  /** Reading the grid row by row gives the 42 cells in order. */
  lemma FlattenGrid(grid: seq<seq<Cell>>, L: Layout, today: DateTime, bounds: Bounds)
    requires Shaped(L) && ValidBounds(bounds) && IsGridOf(grid, L, today, bounds)
    ensures Flatten(grid) == GridCells(L, today, bounds)
  {
    FlattenRows(grid, L, today, bounds, 0);
    assert grid[0..] == grid;
  }

  function TagRank(t: CalMonth): int
  {
    match t
    case Prev => 0
    case Curr => 1
    case Next => 2
  }

  /**
   * The tags never go backwards along the grid, previous-month cells occur only in the
   * first week, and the first week holds `L.firstDay` of them followed by current-month cells.
   */
  lemma TagsInOrder(L: Layout, k1: int, k2: int)
    requires Shaped(L) && 0 <= k1 <= k2 < CellsPerGrid
    ensures TagRank(CellTag(L, k1)) <= TagRank(CellTag(L, k2))
    ensures CellTag(L, k1) == Prev ==> k1 < DaysPerWeek
    ensures k1 < DaysPerWeek ==> (CellTag(L, k1) == Prev <==> k1 < L.firstDay)
    ensures k1 < DaysPerWeek ==> CellTag(L, k1) != Next
  {
  }

  /** The days of the cells tagged `Curr`, in grid order. */
  function CurrDays(cells: seq<Cell>): seq<int>
  {
    if cells == [] then []
    else
      var last := cells[|cells| - 1];
      CurrDays(cells[..|cells| - 1]) + (if last.calMonth == Curr then [last.date.day] else [])
  }

  /** The number of cells with tag `t`. */
  function CountTag(cells: seq<Cell>, t: CalMonth): nat
  {
    if cells == [] then 0
    else CountTag(cells[..|cells| - 1], t) + (if cells[|cells| - 1].calMonth == t then 1 else 0)
  }

  function Between(lo: int, x: int, hi: int): int
  {
    if x < lo then lo else if x > hi then hi else x
  }

  /** The days 1 .. n in ascending order. */
  function DaysUpTo(n: nat): (s: seq<int>)
    ensures |s| == n && forall i :: 0 <= i < n ==> s[i] == i + 1
  {
    seq(n, i => i + 1)
  }

  /** `cells` carry the tags of the first |cells| cells of layout L, and the current-month days. */
  ghost predicate TaggedLike(cells: seq<Cell>, L: Layout)
  {
    forall k :: 0 <= k < |cells| ==>
      && cells[k].calMonth == CellTag(L, k)
      && (cells[k].calMonth == Curr ==> cells[k].date.day == k - L.firstDay + 1)
  }

  lemma {:induction false} GridPrefixDays(L: Layout, cells: seq<Cell>)
    requires 0 <= L.firstDay && 0 <= L.days && TaggedLike(cells, L)
    ensures CurrDays(cells) == DaysUpTo(Between(0, |cells| - L.firstDay, L.days))
    decreases |cells|
  {
    var n := |cells|;
    var dow, dim := L.firstDay, L.days;
    if n > 0 {
      var before := cells[..n - 1];
      GridPrefixDays(L, before);
      var c := cells[n - 1];
      assert CurrDays(cells) == CurrDays(before) + (if c.calMonth == Curr then [c.date.day] else []);
      if c.calMonth == Curr {
        assert c.date.day == n - dow;
        assert DaysUpTo(n - dow) == DaysUpTo(n - 1 - dow) + [n - dow];
      }
    }
  }

  lemma {:induction false} GridPrefixCounts(L: Layout, cells: seq<Cell>)
    requires 0 <= L.firstDay && 0 <= L.days && TaggedLike(cells, L)
    ensures && CountTag(cells, Prev) == Between(0, |cells|, L.firstDay)
            && CountTag(cells, Curr) == Between(0, |cells| - L.firstDay, L.days)
            && CountTag(cells, Next) == Between(0, |cells| - L.firstDay - L.days, |cells|)
    decreases |cells|
  {
    var n := |cells|;
    if n > 0 {
      var before := cells[..n - 1];
      GridPrefixCounts(L, before);
      var t := cells[n - 1].calMonth;
      assert t == CellTag(L, n - 1);
    }
  }

  /**
   * The grid holds `L.firstDay` previous-month cells, every day of the month once, and the
   * remaining `42 - L.firstDay - L.days` cells from the next month; the current-month cells,
   * read in grid order, are the days 1, 2, .., L.days.
   */
  lemma MonthDaysInOrder(L: Layout, today: DateTime, bounds: Bounds)
    requires Shaped(L) && ValidBounds(bounds)
    ensures var cells := GridCells(L, today, bounds);
            && CurrDays(cells) == DaysUpTo(L.days)
            && CountTag(cells, Prev) == L.firstDay
            && CountTag(cells, Curr) == L.days
            && CountTag(cells, Next) == CellsPerGrid - L.firstDay - L.days
  {
    var cells := GridCells(L, today, bounds);
    forall k | 0 <= k < |cells|
      ensures cells[k].calMonth == CellTag(L, k)
      ensures cells[k].calMonth == Curr ==> cells[k].date.day == k - L.firstDay + 1
    {
      assert cells[k] == CellAt(L, today, bounds, k);
    }
    GridPrefixDays(L, cells);
    GridPrefixCounts(L, cells);
  }

  /**
   * The grid shows 42 consecutive days: cell k is k days after the day `L.firstDay` days
   * before the first of the month.
   */
  lemma CellsAreConsecutive(L: Layout, k: int)
    requires Shaped(L) && 0 <= k < CellsPerGrid
    ensures var d := CellDate(L, k);
            DayNumber(d.year, d.month, d.day) == DayNumber(L.year, L.month, 1) - L.firstDay + k
  {
    match CellTag(L, k)
    case Prev =>
      var (py, pm) := PrevMonthOf(L.year, L.month);
      MonthStep(py, pm);
    case Curr =>
    case Next =>
      MonthStep(L.year, L.month);
  }

  /** In the grid of a real month, column j is weekday j: the first column is Sunday. */
  lemma CellWeekday(y: int, m: int, k: int)
    requires 0 <= m < 12 && 0 <= k < CellsPerGrid
    ensures var d := CellDate(LayoutOf(y, m), k);
            Weekday(d.year, d.month, d.day) == k % DaysPerWeek
  {
    CellsAreConsecutive(LayoutOf(y, m), k);
    ShiftMod7(DayNumber(y, m, 1) + 1, k - Weekday(y, m, 1));
  }

  /**
   * The leading cells are the previous month's last `L.firstDay` days, ending on its last
   * day; the trailing cells restart at day 1 of the next month and count up.
   */
  lemma OverflowDays(L: Layout, k: int)
    requires Shaped(L) && 0 <= k < CellsPerGrid
    ensures var (py, pm) := PrevMonthOf(L.year, L.month);
            && (CellTag(L, k) == Prev ==> CellDate(L, k).day == DaysInMonth(py, pm) - (L.firstDay - 1 - k))
            && (CellTag(L, k) == Next ==> CellDate(L, k).day == k - (L.firstDay + L.days) + 1)
  {
  }
}
