/**
 * The live picker view of one mounted widget (the `Patched` component):
 * whether the pane is open, the selected day and the month on show, and the
 * transitions its input field, navigation buttons, day buttons and
 * document listeners make.
 */
module PickerView {
  import opened Wrappers
  import opened DateUtils
  import opened DateText
  import opened CalendarGrid

  /** The display pattern used when none is given. */
  const DefaultPattern := "yyyy-MM-dd"

  /** `inputFormat || "yyyy-MM-dd"`: an empty pattern falls back to the default. */
  function EffectivePattern(inputFormat: string): (p: string)
    ensures |p| > 0
    ensures inputFormat != "" ==> p == inputFormat
    ensures inputFormat == "" ==> p == DefaultPattern
  {
    if inputFormat == "" then DefaultPattern else inputFormat
  }

  /**
   * `new Date(d.getFullYear(), d.getMonth(), 1)`: the first of `d`'s month at
   * midnight (through the two-digit-year rule of the constructor).
   */
  function MonthStart(d: Date): (r: Date)
    ensures IsFirstOfMonth(r)
    ensures r.date.year == FullYear(d.date.year) && r.date.month == d.date.month
  {
    NewDate(d.date.year, d.date.month, 1)
  }

  /** For a year outside 0..99 the month shown is the selected day's own month. */
  lemma MonthStartHoldsDay(d: Date)
    requires !(0 <= d.date.year <= 99)
    ensures MonthIndex(MonthStart(d).date) == MonthIndex(d.date)
    ensures MonthStart(d) == Midnight(CalendarDay(d.date.year, d.date.month, 1))
  {
    var r := MonthStart(d);
    assert r.date == CalendarDay(d.date.year, d.date.month, 1);
  }

  /** The state a picker exposes: pane open, selected day, month on show. */
  datatype PickerState = PickerState(open: bool, selected: Date, viewRef: Date)

  /** What every picker keeps: a selection at midnight and a view on the first of a month. */
  predicate Consistent(s: PickerState) {
    IsMidnight(s.selected) && IsFirstOfMonth(s.viewRef)
  }

  /** A selection: always a day at midnight. */
  type Selection = t: Date | IsMidnight(t) witness DateTime(CalendarDay(1970, 0, 1), 0, 0, 0, 0)

  /** The navigation cursor: always the first of a month at midnight. */
  type ViewMonth = t: Date | IsFirstOfMonth(t) witness DateTime(CalendarDay(1970, 0, 1), 0, 0, 0, 0)

  class Picker {
    var open: bool
    var selected: Selection
    var viewRef: ViewMonth
    /** The display pattern of the input field. */
    const pattern: string

    function State(): (s: PickerState)
      reads this
      ensures Consistent(s)
    {
      PickerState(open, selected, viewRef)
    }

    /**
     * First render: closed, the initial date (or else the current time)
     * clamped to midnight, and the first of its month on show. `now` is the
     * clock reading the component takes.
     */
    constructor (initialDate: Option<Date>, now: Date, inputFormat: string)
      ensures !open
      ensures selected == ClampMid(if initialDate.Some? then initialDate.value else now)
      ensures viewRef == MonthStart(selected)
      ensures pattern == EffectivePattern(inputFormat)
    {
      open := false;
      selected := ClampMid(if initialDate.Some? then initialDate.value else now);
      viewRef := MonthStart(ClampMid(if initialDate.Some? then initialDate.value else now));
      pattern := EffectivePattern(inputFormat);
    }

    /** The text of the read-only input field: the selection in the display pattern. */
    function Display(): (text: string)
      reads this
      ensures Avoids(text, "yyyy") && Avoids(text, "MM") && Avoids(text, "dd")
      ensures pattern == DefaultPattern ==> text == ToISO(selected)
    {
      FormatDisplayReplacesEveryToken(selected, pattern);
      FormatDefaultIsISO(selected);
      FormatDisplay(selected, pattern)
    }

    /** A click on the input field toggles the pane. */
    method ToggleOpen()
      modifies this
      ensures State() == old(State()).(open := !old(open))
    {
      open := !open;
    }

    /** The captured open setter: opens or closes the pane and touches nothing else. */
    method SetOpen(o: bool)
      modifies this
      ensures State() == old(State()).(open := o)
    {
      open := o;
    }

    /**
     * `selectDay(d)`: select `d`, report `toISO(d)` with `d` to the change
     * callback, and close the pane; the month on show stays.
     */
    method SelectDay(d: Date) returns (iso: string)
      requires IsMidnight(d)
      modifies this
      ensures State() == PickerState(false, d, old(viewRef))
      ensures iso == ToISO(d)
    {
      selected := d;
      iso := ToISO(d);
      open := false;
    }

    /**
     * A click on cell `i` of the grid: a day button selects its date clamped
     * to midnight and reports the change; a blank cell has no handler.
     */
    method ClickCell(i: int) returns (change: Option<(string, Date)>)
      requires 0 <= i < GridSize
      modifies this
      ensures var cell := GridCell(old(viewRef).date.year, old(viewRef).date.month, i);
              if cell.Some? then
                State() == PickerState(false, cell.value, old(viewRef)) &&
                change == Some((ToISO(cell.value), cell.value))
              else
                State() == old(State()) && change == None
    {
      var cells := BuildMonthGrid(viewRef);
      if cells[i].Some? {
        var d := ClampMid(cells[i].value);
        var iso := SelectDay(d);
        change := Some((iso, d));
      } else {
        change := None;
      }
    }

    /** The previous-month button: the view moves back one month; nothing else changes. */
    method ShowPreviousMonth()
      modifies this
      ensures State() == old(State()).(viewRef := AddMonths(old(viewRef), -1))
      ensures MonthIndex(viewRef.date) == MonthIndex(old(viewRef).date) - 1
    {
      AddMonthsFirstOfMonth(viewRef, -1);
      viewRef := AddMonths(viewRef, -1);
    }

    /** The next-month button: the view moves on one month; nothing else changes. */
    method ShowNextMonth()
      modifies this
      ensures State() == old(State()).(viewRef := AddMonths(old(viewRef), 1))
      ensures MonthIndex(viewRef.date) == MonthIndex(old(viewRef).date) + 1
    {
      AddMonthsFirstOfMonth(viewRef, 1);
      viewRef := AddMonths(viewRef, 1);
    }

    /** The document `keydown` listener: Escape closes the pane, other keys do nothing. */
    method KeyDown(key: string)
      modifies this
      ensures State() == old(State()).(open := old(open) && key != "Escape")
    {
      if key == "Escape" {
        open := false;
      }
    }

    /**
     * The document `mousedown` listener: a press outside the widget closes the
     * pane, a press inside leaves it as it is.
     */
    method MouseDown(inside: bool)
      modifies this
      ensures State() == old(State()).(open := old(open) && inside)
    {
      if !inside {
        open := false;
      }
    }

    /**
     * An external date for the picker (the `initialDate` effect, and the
     * captured date setter, which does the same): select it at midnight and
     * show the first of its month; the pane stays as it is.
     */
    method ResetTo(d: Date)
      modifies this
      ensures State() == PickerState(old(open), ClampMid(d), MonthStart(ClampMid(d)))
    {
      selected := ClampMid(d);
      viewRef := MonthStart(selected);
    }
  }

  /** Next month then previous month shows the same month again, and so does the reverse. */
  lemma NavigationRoundTrip(s: PickerState)
    requires Consistent(s)
    ensures AddMonths(AddMonths(s.viewRef, 1), -1) == s.viewRef
    ensures AddMonths(AddMonths(s.viewRef, -1), 1) == s.viewRef
  {
    NextThenPrevious(s.viewRef);
  }

  /**
   * After a reset to a day of a year outside 0..99, the grid on show marks
   * the new selection in exactly one cell.
   */
  lemma ResetShowsSelection(d: Date, i: int)
    requires !(0 <= d.date.year <= 99) && 0 <= i < GridSize
    ensures var v, s := MonthStart(ClampMid(d)), ClampMid(d);
            SameDay(GridCell(v.date.year, v.date.month, i), Some(s)) <==>
            i == FirstWeekday(v.date.year, v.date.month) + d.date.day - 1
  {
    var s := ClampMid(d);
    var v := MonthStart(s);
    MonthStartHoldsDay(s);
    SelectedCellMarked(v.date.year, v.date.month, i, s);
  }

  /**
   * After a reset to a day of a year in 0..99, the pane shows that month of
   * the year 1900 later, and no cell of its grid is marked as selected.
   */
  lemma ResetTwoDigitYearMarksNothing(d: Date, i: int)
    requires 0 <= d.date.year <= 99
    ensures var v, s := MonthStart(ClampMid(d)), ClampMid(d);
            v.date.year == d.date.year + 1900 && !SameDay(GridCell(v.date.year, v.date.month, i), Some(s))
  {
  }

  /**
   * After a click on day button `i` of the grid of `v`, the picker (closed,
   * selecting that day, showing `v`) marks cell `j` as selected exactly when
   * `j` is `i`.
   */
  lemma PickedDayIsMarked(v: Date, i: int, j: int)
    requires GridCell(v.date.year, v.date.month, i).Some?
    ensures var after := PickerState(false, GridCell(v.date.year, v.date.month, i).value, v);
            SameDay(GridCell(after.viewRef.date.year, after.viewRef.date.month, j), Some(after.selected)) <==> j == i
  {
    var y, m := v.date.year, v.date.month;
    var d := GridCell(y, m, i).value;
    GridOffsets(y, m);
    SelectedCellMarked(y, m, j, d);
  }
}
