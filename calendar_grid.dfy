/**
 * The month grid of the calendar pane: six rows of seven cells, Sunday
 * first, holding blanks before the first of the month, then every day of
 * the month at midnight, then blanks up to 42 cells.
 */
module CalendarGrid {
  import opened Wrappers
  import opened DateUtils

  /** Six weeks of seven days. */
  const GridSize := 42

  /**
   * What cell `i` of the grid for year `y`, month `m` holds, stated without
   * the grid builder's helpers: blank before the weekday of the first of
   * the month, then day `i - first + 1` of the month, blank after its last
   * day. The year goes through the two-digit-year rule of `new Date(y, m, d)`.
   */
  function GridCell(y: int, m: int, i: int): Option<Date>
    requires 0 <= m < 12
  {
    var fy := FullYear(y);
    var first := Weekday(CalendarDay(fy, m, 1));
    if first <= i < first + MonthLength(fy, m) then Some(Midnight(CalendarDay(fy, m, i - first + 1)))
    else None
  }

  /** The grid builder's two helpers agree with the reference definition's offsets. */
  lemma GridOffsets(y: int, m: int)
    requires 0 <= m < 12
    ensures FirstWeekday(y, m) == Weekday(CalendarDay(FullYear(y), m, 1))
    ensures DaysInMonth(y, m) == MonthLength(FullYear(y), m)
    ensures FirstWeekday(y, m) + DaysInMonth(y, m) <= GridSize
  {
    DivMod12Small(m);
  }

  /** Day `d` of month `m` as `new Date(y, m, d)` builds it. */
  lemma NewDateInMonth(y: int, m: int, d: int)
    requires 0 <= m < 12 && 1 <= d <= MonthLength(FullYear(y), m)
    ensures NewDate(y, m, d) == Midnight(CalendarDay(FullYear(y), m, d))
  {
    var r := NewDate(y, m, d);
    assert r.date == CalendarDay(FullYear(y), m, d);
    assert r.hours == 0 && r.minutes == 0 && r.seconds == 0 && r.millis == 0;
  }

  /** The grid builder's `firstWeekday(y, m)` and `daysInMonth(y, m)`. */
  method MonthBounds(y: int, m: int) returns (first: int, dim: int)
    requires 0 <= m < 12
    ensures first == Weekday(CalendarDay(FullYear(y), m, 1))
    ensures dim == MonthLength(FullYear(y), m)
    ensures 0 <= first && first + dim <= GridSize
  {
    first, dim := FirstWeekday(y, m), DaysInMonth(y, m);
    GridOffsets(y, m);
  }

  /** The grid builder's `new Date(y, m, d)` for a day `d` of the month. */
  method DayOfMonth(y: int, m: int, d: int) returns (x: Date)
    requires 0 <= m < 12 && 1 <= d <= MonthLength(FullYear(y), m)
    ensures x == Midnight(CalendarDay(FullYear(y), m, d))
  {
    x := NewDate(y, m, d);
    NewDateInMonth(y, m, d);
  }

  /**
   * The `CalendarGrid` grid builder: `first` blanks, then `new Date(y, m, d)`
   * for every day `d` of the month, then blanks while fewer than 42 cells.
   */
  method BuildMonthGrid(viewRef: Date) returns (cells: seq<Option<Date>>)
    ensures |cells| == GridSize
    ensures forall i :: 0 <= i < GridSize ==> cells[i] == GridCell(viewRef.date.year, viewRef.date.month, i)
  {
    var y, m := viewRef.date.year, viewRef.date.month;
    var first, dim := MonthBounds(y, m);
    cells := [];
    var i := 0;
    while i < first
      invariant 0 <= i <= first && |cells| == i
      invariant forall k :: 0 <= k < |cells| ==> cells[k] == GridCell(y, m, k)
    {
      cells := cells + [None];
      i := i + 1;
    }
    var d := 1;
    while d <= dim
      invariant 1 <= d <= dim + 1 && |cells| == first + d - 1
      invariant forall k :: 0 <= k < |cells| ==> cells[k] == GridCell(y, m, k)
    {
      var x := DayOfMonth(y, m, d);
      cells := cells + [Some(x)];
      d := d + 1;
    }
    while |cells| < GridSize
      invariant first + dim <= |cells| <= GridSize
      invariant forall k :: 0 <= k < |cells| ==> cells[k] == GridCell(y, m, k)
      decreases GridSize - |cells|
    {
      cells := cells + [None];
    }
  }

  /** How many cells hold a date. */
  function DayCount(cells: seq<Option<Date>>): nat
    decreases |cells|
  {
    if |cells| == 0 then 0
    else DayCount(cells[..|cells| - 1]) + if cells[|cells| - 1].Some? then 1 else 0
  }

  /** The first `n` cells hold the days of the month that fall before index `n`. */
  lemma {:induction false} GridPrefixCount(cells: seq<Option<Date>>, y: int, m: int, n: nat)
    requires 0 <= m < 12 && n <= |cells|
    requires forall i :: 0 <= i < |cells| ==> cells[i] == GridCell(y, m, i)
    ensures var first, dim := Weekday(CalendarDay(FullYear(y), m, 1)), MonthLength(FullYear(y), m);
            DayCount(cells[..n]) == if n <= first then 0 else if n <= first + dim then n - first else dim
  {
    if n > 0 {
      GridPrefixCount(cells, y, m, n - 1);
      assert cells[..n][..n - 1] == cells[..n - 1];
    }
  }

  /** The grid holds exactly `daysInMonth(y, m)` dates. */
  lemma GridHoldsWholeMonth(cells: seq<Option<Date>>, y: int, m: int)
    requires 0 <= m < 12 && |cells| == GridSize
    requires forall i :: 0 <= i < GridSize ==> cells[i] == GridCell(y, m, i)
    ensures DayCount(cells) == DaysInMonth(y, m)
  {
    GridOffsets(y, m);
    GridPrefixCount(cells, y, m, GridSize);
    assert cells[..GridSize] == cells;
  }

  /** Every day of the month sits in exactly one cell, at index `first + d - 1`. */
  lemma GridPlacesEachDayOnce(y: int, m: int, d: int, i: int)
    requires 0 <= m < 12 && 1 <= d <= MonthLength(FullYear(y), m)
    ensures GridCell(y, m, i) == Some(Midnight(CalendarDay(FullYear(y), m, d))) <==>
            i == FirstWeekday(y, m) + d - 1
  {
    GridOffsets(y, m);
  }

  /** Dates stand in increasing order, one day apart. */
  lemma GridDaysConsecutive(y: int, m: int, i: int)
    requires 0 <= m < 12 && GridCell(y, m, i).Some? && GridCell(y, m, i + 1).Some?
    ensures var a, b := GridCell(y, m, i).value.date, GridCell(y, m, i + 1).value.date;
            DayNumber(b.year, b.month, b.day) == DayNumber(a.year, a.month, a.day) + 1
  {
  }

  /** The column of a date is its weekday: cell `i` falls on weekday `i % 7` (0 = Sunday). */
  lemma GridColumnIsWeekday(y: int, m: int, i: int)
    requires 0 <= m < 12 && GridCell(y, m, i).Some?
    ensures Weekday(GridCell(y, m, i).value.date) == i % 7
  {
    var fy := FullYear(y);
    var first := Weekday(CalendarDay(fy, m, 1));
    var start := MonthStartNumber(fy, m);
    var d := i - first + 1;
    assert first == (start + 4) % 7;
    assert Weekday(CalendarDay(fy, m, d)) == (start + 4 + (d - 1)) % 7;
    ModAddLeft(start + 4, d - 1);
  }

  /**
   * The day button holding the selected date is marked: for a selection at
   * midnight, `sameDay(cell, selected)` holds in exactly one cell when the
   * selection lies in the shown month, and in none otherwise.
   */
  lemma SelectedCellMarked(y: int, m: int, i: int, selected: Date)
    requires 0 <= m < 12 && IsMidnight(selected)
    ensures SameDay(GridCell(y, m, i), Some(selected)) <==>
            selected.date.year == FullYear(y) && selected.date.month == m &&
            i == FirstWeekday(y, m) + selected.date.day - 1
  {
    GridOffsets(y, m);
    if selected.date.year == FullYear(y) && selected.date.month == m {
      assert selected == Midnight(CalendarDay(FullYear(y), m, selected.date.day));
    }
  }

  /** Example: March 2025 starts on a Saturday, so its grid opens with six blanks. */
  lemma GridExample()
    ensures GridCell(2025, 2, 5).None?
    ensures GridCell(2025, 2, 6) == Some(Midnight(CalendarDay(2025, 2, 1)))
    ensures GridCell(2025, 2, 36) == Some(Midnight(CalendarDay(2025, 2, 31)))
    ensures GridCell(2025, 2, 37).None?
  {
    WeekdayAnchors();
    GridOffsets(2025, 2);
  }
}
