/**
 * The mount registry behind `window.CalendarWidget`: a map from host element
 * to the slot of the widget mounted there, the operations `mount`,
 * `unmount`, `setDate`, `getDate`, `open` and `close`, the user's clicks
 * and keys, and the log of `calendar:change` events dispatched on hosts.
 */
module MountApi {
  import opened Wrappers
  import opened DateUtils
  import opened DateText
  import opened CalendarGrid
  import opened PickerView

  /** A host element, compared by identity. */
  type Host(==)

  /** A `calendar:change` event dispatched on `target`: its `detail.dateISO` and `detail.date`. */
  datatype ChangeEvent = ChangeEvent(target: Host, dateISO: Option<string>, date: Option<Date>)

  /** What `setDate` throws on a host without a widget. */
  datatype ApiError = NotMounted

  /**
   * One mounted widget: the slot's `lastISO`, the wrapper's `dateISO` state
   * (what it passes down as `initialDate`), whether the first render has
   * been committed (the effects that capture the open and date setters have
   * run), and the live picker view.
   */
  datatype Slot = Slot(lastISO: Option<string>, dateISO: Option<string>, committed: bool, view: Picker)

  /** A slot as a value: its fields with the picker's state in place of the picker. */
  datatype Instance = Instance(lastISO: Option<string>, dateISO: Option<string>, committed: bool, view: PickerState)

  /** `dateISO || undefined`: the `initialDate` prop the wrapper renders the picker with. */
  function InitialProp(dateISO: Option<string>): (p: Option<string>)
    ensures p.Some? <==> dateISO.Some? && dateISO.value != ""
    ensures p.Some? ==> p == dateISO
  {
    if dateISO.Some? && dateISO.value != "" then dateISO else None
  }

  /** The `initialDate` effect's update of the picker: the new date at midnight and its month on show. */
  function ResetView(v: PickerState, d: Date): (r: PickerState)
    ensures r.open == v.open && r.selected == ClampMid(d) && IsMidnight(r.selected)
    ensures IsFirstOfMonth(r.viewRef) && r.viewRef.date.month == d.date.month
    ensures r.viewRef.date.year == FullYear(d.date.year)
  {
    PickerState(v.open, ClampMid(d), MonthStart(ClampMid(d)))
  }

  /**
   * What `setDate(host, iso)` does to a mounted widget, `parsed` being
   * `new Date(iso)`: the slot caches `iso`; once the setters are captured
   * the wrapper stores `iso`, and when that changes a non-empty `initialDate`
   * prop, the picker selects the parsed date and shows its month.
   */
  function SetDateEffect(i: Instance, iso: Option<string>, parsed: Date): (r: Instance)
    ensures r.lastISO == iso && r.committed == i.committed
    ensures r.dateISO == if i.committed then iso else i.dateISO
    ensures r.view.open == i.view.open
    ensures r.view == i.view || (i.committed && InitialProp(iso).Some? && InitialProp(iso) != InitialProp(i.dateISO))
    ensures r.view != i.view ==> r.view == ResetView(i.view, parsed)
    ensures i.committed && InitialProp(iso).Some? && InitialProp(iso) != InitialProp(i.dateISO) ==> r.view == ResetView(i.view, parsed)
  {
    if !i.committed then i.(lastISO := iso)
    else if InitialProp(iso).Some? && InitialProp(iso) != InitialProp(i.dateISO) then
      Instance(iso, iso, true, ResetView(i.view, parsed))
    else
      i.(lastISO := iso, dateISO := iso)
  }

  /** The date of cell `i` of the grid a picker shows, if that cell holds one. */
  function DayCell(v: PickerState, i: int): (cell: Option<Date>)
    ensures cell.Some? ==> IsMidnight(cell.value)
  {
    GridCell(v.viewRef.date.year, v.viewRef.date.month, i)
  }

  /**
   * A click on a day button: the picker selects the day and closes, keeping
   * the month on show, and the slot caches the day's ISO string; a blank
   * cell changes nothing.
   */
  function DayClicked(before: Instance, cell: Option<Date>): (r: Instance)
    ensures cell.None? ==> r == before
    ensures cell.Some? ==> r.lastISO == Some(ToISO(cell.value)) && r.view == PickerState(false, cell.value, before.view.viewRef)
    ensures r.dateISO == before.dateISO && r.committed == before.committed
  {
    if cell.Some? then before.(lastISO := Some(ToISO(cell.value)), view := PickerState(false, cell.value, before.view.viewRef))
    else before
  }

  /** The `calendar:change` events a click dispatches: one for a day button, none for a blank. */
  function ChangeEvents(host: Host, cell: Option<Date>): (es: seq<ChangeEvent>)
    ensures |es| == if cell.Some? then 1 else 0
    ensures cell.Some? ==> es[0] == ChangeEvent(host, Some(ToISO(cell.value)), cell)
  {
    if cell.Some? then [ChangeEvent(host, Some(ToISO(cell.value)), cell)] else []
  }

  /** The ISO string a new slot caches: `toISO(new Date(initialDate))`, or null without one. */
  function InitialISO(initialDate: Option<Date>): (iso: Option<string>)
    ensures iso.Some? <==> initialDate.Some?
    ensures iso.Some? ==> iso.value == ToISO(initialDate.value)
  {
    if initialDate.Some? then Some(ToISO(initialDate.value)) else None
  }

  /**
   * A widget as `mount` leaves it: the slot and the wrapper hold the initial
   * ISO string, the render is not committed yet, and the closed picker
   * selects, at midnight, its own parse `reparsed` of that string (or else
   * `now`) and shows its month.
   */
  function FirstRender(initialDate: Option<Date>, reparsed: Date, now: Date): (r: Instance)
    ensures r.lastISO == r.dateISO == InitialISO(initialDate) && !r.committed && !r.view.open
    ensures r.view.selected.date == (if initialDate.Some? then reparsed else now).date
    ensures IsMidnight(r.view.selected) && r.view.viewRef == MonthStart(r.view.selected)
    ensures IsFirstOfMonth(r.view.viewRef)
  {
    var selected := ClampMid(if initialDate.Some? then reparsed else now);
    Instance(InitialISO(initialDate), InitialISO(initialDate), false, PickerState(false, selected, MonthStart(selected)))
  }

  /** The pane after a document listener ran: closed when `closes`, else as it was. */
  function AfterListener(i: Instance, closes: bool): (r: Instance)
    ensures r.view.open == (i.view.open && !closes)
    ensures r.(view := r.view.(open := i.view.open)) == i
  {
    if closes then i.(view := i.view.(open := false)) else i
  }

  class Registry {
    var mounts: map<Host, Slot>
    /** Every `calendar:change` event dispatched so far, oldest first. */
    var events: seq<ChangeEvent>
    ghost var Repr: set<object>

    ghost predicate Valid()
      reads this, Repr
    {
      this in Repr &&
      (forall h :: h in mounts ==> mounts[h].view in Repr) &&
      (forall h :: h in mounts && !mounts[h].committed ==> !mounts[h].view.open) &&
      (forall h, k :: h in mounts && k in mounts && h != k ==> mounts[h].view != mounts[k].view)
    }

    /** The picker of `host`'s widget, as a frame. */
    ghost function ViewOf(host: Host): set<object>
      reads this
    {
      if host in mounts then {mounts[host].view} else {}
    }

    /** The widget mounted on `host`, as a value. */
    ghost function Snapshot(host: Host): Instance
      reads this, ViewOf(host)
      requires host in mounts
    {
      var s := mounts[host];
      Instance(s.lastISO, s.dateISO, s.committed, s.view.State())
    }

    constructor ()
      ensures Valid() && fresh(Repr)
      ensures mounts == map[] && events == []
    {
      mounts := map[];
      events := [];
      Repr := {this};
    }

    /**
     * `mount(host, {initialDate, inputFormat})`: nothing happens on a host
     * that already has a widget; otherwise a new slot caches
     * `toISO(initialDate)` (or null) and a new closed picker selects, at
     * midnight, `reparsed` (or else `now`) and shows it in
     * `inputFormat || "yyyy-MM-dd"`. `initialDate` is the parsed
     * option; `reparsed` is the picker's own `new Date(...)` of the cached
     * ISO string, which need not be the same day.
     */
    method Mount(host: Host, initialDate: Option<Date>, reparsed: Date, now: Date, inputFormat: string)
      requires Valid()
      modifies this
      ensures Valid() && fresh(Repr - old(Repr)) && events == old(events)
      ensures host in old(mounts) ==> mounts == old(mounts)
      ensures host !in old(mounts) ==>
                && mounts.Keys == old(mounts).Keys + {host}
                && (forall k :: k in old(mounts) ==> mounts[k] == old(mounts)[k])
                && fresh(mounts[host].view)
                && mounts[host].view.pattern == EffectivePattern(inputFormat)
                && Snapshot(host) == FirstRender(initialDate, reparsed, now)
    {
      if host in mounts {
        return;
      }
      var iso := InitialISO(initialDate);
      var view := new Picker(if initialDate.Some? then Some(reparsed) else None, now, inputFormat);
      mounts := mounts[host := Slot(iso, iso, false, view)];
      Repr := Repr + {view};
    }

    /** React commits the first render of `host`'s widget: its effects capture the setters. */
    method Commit(host: Host)
      requires Valid()
      modifies this
      ensures Valid() && Repr == old(Repr) && events == old(events)
      ensures mounts == if host in old(mounts) then old(mounts)[host := old(mounts)[host].(committed := true)] else old(mounts)
    {
      if host in mounts {
        mounts := mounts[host := mounts[host].(committed := true)];
      }
    }

    /** `unmount(host)`: removes that host's entry only; nothing happens on a host without a widget. */
    method Unmount(host: Host)
      requires Valid()
      modifies this
      ensures Valid() && Repr == old(Repr) && events == old(events)
      ensures mounts == old(mounts) - {host}
    {
      mounts := mounts - {host};
    }

    /** `getDate(host)`: the slot's cached `lastISO`, or null when the host has no widget. */
    function GetDate(host: Host): (iso: Option<string>)
      reads this, ViewOf(host)
      ensures host in mounts ==> iso == Snapshot(host).lastISO
      ensures host !in mounts ==> iso == None
    {
      if host in mounts then mounts[host].lastISO else None
    }

    /**
     * `setDate(host, iso)`: throws on a host without a widget and changes
     * nothing; otherwise applies `SetDateEffect` to that widget alone and
     * dispatches one `calendar:change` event carrying `iso` and no date.
     */
    method SetDate(host: Host, iso: Option<string>, parsed: Date) returns (r: Outcome<ApiError>)
      requires Valid()
      modifies this, ViewOf(host)
      ensures Valid() && Repr == old(Repr)
      ensures host !in old(mounts) ==> r == Fail(NotMounted) && mounts == old(mounts) && events == old(events)
      ensures host in old(mounts) ==>
                && r == Pass
                && mounts.Keys == old(mounts).Keys
                && (forall k :: k in mounts && k != host ==> mounts[k] == old(mounts)[k])
                && mounts[host].view == old(mounts)[host].view
                && Snapshot(host) == SetDateEffect(old(Snapshot(host)), iso, parsed)
                && events == old(events) + [ChangeEvent(host, iso, None)]
    {
      if host !in mounts {
        return Fail(NotMounted);
      }
      var slot := mounts[host];
      if slot.committed && InitialProp(iso).Some? && InitialProp(iso) != InitialProp(slot.dateISO) {
        ResetPicker(host, parsed);
      }
      Record(host, iso, if slot.committed then iso else slot.dateISO);
      r := Pass;
    }

    /** The slot caches `iso`, the wrapper stores `dateISO`, and one event is dispatched. */
    method Record(host: Host, iso: Option<string>, dateISO: Option<string>)
      requires Valid() && host in mounts
      modifies this
      ensures Valid() && Repr == old(Repr)
      ensures mounts == old(mounts)[host := old(mounts)[host].(lastISO := iso, dateISO := dateISO)]
      ensures events == old(events) + [ChangeEvent(host, iso, None)]
    {
      mounts := mounts[host := mounts[host].(lastISO := iso, dateISO := dateISO)];
      events := events + [ChangeEvent(host, iso, None)];
    }

    /** The `initialDate` effect on `host`'s picker. */
    method ResetPicker(host: Host, parsed: Date)
      requires Valid() && host in mounts
      modifies ViewOf(host)
      ensures Valid()
      ensures mounts[host].view.State() == ResetView(old(mounts[host].view.State()), parsed)
    {
      mounts[host].view.ResetTo(parsed);
    }

    /** `open(host)` and `close(host)`: set the pane once the setters are captured, else do nothing. */
    method SetOpen(host: Host, o: bool)
      requires Valid()
      modifies ViewOf(host)
      ensures Valid()
      ensures host in mounts && mounts[host].committed ==> Snapshot(host) == old(Snapshot(host)).(view := old(Snapshot(host)).view.(open := o))
      ensures host in mounts && !mounts[host].committed ==> Snapshot(host) == old(Snapshot(host))
    {
      if host in mounts && mounts[host].committed {
        mounts[host].view.SetOpen(o);
      }
    }

    /** A click on the input field of a rendered widget toggles its pane. */
    method ClickField(host: Host)
      requires Valid() && host in mounts && mounts[host].committed
      modifies ViewOf(host)
      ensures Valid()
      ensures Snapshot(host) == old(Snapshot(host)).(view := old(Snapshot(host)).view.(open := !old(Snapshot(host)).view.open))
    {
      mounts[host].view.ToggleOpen();
    }

    /** The previous-month button of an open pane: its view moves back one month. */
    method ClickPreviousMonth(host: Host)
      requires Valid() && host in mounts && mounts[host].view.open
      modifies ViewOf(host)
      ensures Valid()
      ensures Snapshot(host) == old(Snapshot(host)).(view := old(Snapshot(host)).view.(viewRef := AddMonths(old(Snapshot(host)).view.viewRef, -1)))
    {
      mounts[host].view.ShowPreviousMonth();
    }

    /** The next-month button of an open pane: its view moves on one month. */
    method ClickNextMonth(host: Host)
      requires Valid() && host in mounts && mounts[host].view.open
      modifies ViewOf(host)
      ensures Valid()
      ensures Snapshot(host) == old(Snapshot(host)).(view := old(Snapshot(host)).view.(viewRef := AddMonths(old(Snapshot(host)).view.viewRef, 1)))
    {
      mounts[host].view.ShowNextMonth();
    }

    /**
     * A click on cell `i` of an open pane's grid. On a day button the picker
     * selects it and closes, and the change callback caches its ISO string
     * as `lastISO` and dispatches `calendar:change` with the string and the
     * date; a blank cell does nothing.
     */
    method ClickDay(host: Host, i: int)
      requires Valid() && host in mounts && mounts[host].view.open && 0 <= i < GridSize
      modifies this, ViewOf(host)
      ensures Valid() && Repr == old(Repr)
      ensures mounts.Keys == old(mounts).Keys
      ensures forall k :: k in mounts && k != host ==> mounts[k] == old(mounts)[k]
      ensures mounts[host].view == old(mounts)[host].view
      ensures var cell := DayCell(old(Snapshot(host)).view, i);
              && Snapshot(host) == DayClicked(old(Snapshot(host)), cell)
              && events == old(events) + ChangeEvents(host, cell)
    {
      var change := mounts[host].view.ClickCell(i);
      if change.Some? {
        var (iso, d) := change.value;
        mounts := mounts[host := mounts[host].(lastISO := Some(iso))];
        events := events + [ChangeEvent(host, Some(iso), Some(d))];
      }
    }

    /** A `keydown` on the document: Escape closes every rendered pane, other keys do nothing. */
    method KeyDown(key: string)
      requires Valid()
      modifies Repr - {this}
      ensures Valid()
      ensures forall h :: h in mounts ==>
                Snapshot(h) == AfterListener(old(Snapshot(h)), key == "Escape" && mounts[h].committed)
      ensures key == "Escape" ==> forall h :: h in mounts ==> !mounts[h].view.open
    {
      if key == "Escape" {
        forall h | h in mounts && mounts[h].committed {
          mounts[h].view.open := false;
        }
      }
    }

    /**
     * A `mousedown` on the document whose target lies inside the widgets of
     * `inside`: every other rendered pane closes, those of `inside` stay.
     */
    method MouseDown(inside: set<Host>)
      requires Valid()
      modifies Repr - {this}
      ensures Valid()
      ensures forall h :: h in mounts ==>
                Snapshot(h) == AfterListener(old(Snapshot(h)), h !in inside && mounts[h].committed)
    {
      forall h | h in mounts && mounts[h].committed && h !in inside {
        mounts[h].view.open := false;
      }
    }
  }

  /**
   * `getDate(host)` right after `setDate(host, iso)` returns exactly `iso`,
   * null included, on a mounted host; on a host without a widget `setDate`
   * throws and `getDate` returns null.
   */
  method SetDateThenGetDate(reg: Registry, host: Host, iso: Option<string>, parsed: Date) returns (r: Outcome<ApiError>, got: Option<string>)
    requires reg.Valid()
    modifies reg, reg.ViewOf(host)
    ensures host in old(reg.mounts) ==> r == Pass && got == iso
    ensures host !in old(reg.mounts) ==> r == Fail(NotMounted) && got == None
  {
    r := reg.SetDate(host, iso, parsed);
    got := reg.GetDate(host);
  }

  /** `setDate(host, null)` (or an empty string) leaves the picker's selection as it was. */
  lemma SetDateNullKeepsPicker(i: Instance, parsed: Date)
    ensures SetDateEffect(i, None, parsed).view == i.view
    ensures SetDateEffect(i, Some(""), parsed).view == i.view
  {
  }

  /** Before the setters are captured, `setDate` only updates the cache. */
  lemma SetDateBeforeCommit(i: Instance, iso: Option<string>, parsed: Date)
    requires !i.committed
    ensures SetDateEffect(i, iso, parsed) == i.(lastISO := iso)
  {
  }

  /**
   * A new ISO string for a rendered widget selects its date in the picker,
   * so the picker and `getDate` agree on the day.
   */
  lemma SetDateSelects(i: Instance, x: Date)
    requires i.committed && InitialProp(i.dateISO) != Some(ToISO(x))
    ensures var r := SetDateEffect(i, Some(ToISO(x)), x);
            r.view.selected == ClampMid(x) && r.lastISO == Some(ToISO(r.view.selected))
  {
    assert ToISO(x) != "";
    assert ToISO(ClampMid(x)) == ToISO(x);
  }

  /**
   * When `setDate` repeats the wrapper's stored string after the user picked
   * another day, the picker keeps the user's pick although `getDate` now
   * names the other day.
   */
  lemma SetDateSameStringKeepsPick(i: Instance, x: Date)
    requires i.committed && i.dateISO == Some(ToISO(x))
    ensures SetDateEffect(i, Some(ToISO(x)), x).view == i.view
  {
    assert ToISO(x) != "";
  }

  /**
   * At mount the cached ISO string and the picker's selection name the same
   * day exactly when the picker's re-parse of that string falls on the day
   * of the initial date.
   */
  lemma MountAgrees(x: Date, reparsed: Date, now: Date)
    ensures var r := FirstRender(Some(x), reparsed, now);
            r.lastISO.Some? &&
            (ParseISODate(r.lastISO.value) == Some(r.view.selected.date) <==> reparsed.date == x.date)
  {
    ToISORoundTrip(x);
  }

  /** After a day is picked, `getDate` names the day the picker selects. */
  lemma PickedDayCached(before: Instance, cell: Option<Date>)
    requires cell.Some?
    ensures var r := DayClicked(before, cell);
            r.lastISO.Some? && ParseISODate(r.lastISO.value) == Some(r.view.selected.date)
  {
    ToISORoundTrip(cell.value);
  }
}
