# Calendar widget: a Dafny model

This project models the core of `calendar-widget.iife.js`, an embeddable date
picker published as `window.CalendarWidget`. The model has three parts.

- **The date utilities.** `clampMid`, `toISO`, `addMonths`, `daysInMonth`,
  `firstWeekday` and `sameDay`, plus the 42-cell month grid that `CalendarGrid`
  builds and the token-replacing `formatDisplay` of the input field.
- **The live picker view.** This is the `Patched` component. Its state is
  whether the pane is open, the selected day and the month on show. It changes
  on input-field clicks, month navigation, day clicks, the document's Escape and
  outside-mousedown listeners, and the `initialDate` effect.
- **The mount registry.** `_mounts` maps each host element to its slot. Over it
  run `mount`, `unmount`, `setDate`, `getDate`, `open` and `close`. The
  `calendar:change` events dispatched on hosts are kept as a log.

A JavaScript `Date` is a calendar day plus a time of day in local time
(`DateUtils.Date`). The calendar is the proleptic Gregorian one. Weekdays come
from a day count that starts at 1970-01-01, a Thursday.

`new Date(y, m, d)` is modelled as `DateUtils.NewDate`, with its calendar
behaviour for every year the model admits (see "Left out" for the time-value
range):
- it reads years 0..99 as 1900..1999;
- it carries months outside 0..11 into other years;
- it carries days outside the month into neighbouring months (`DateUtils.Normalize`).

`setMonth`, which `addMonths` uses, keeps the day number and lets it overflow.
It does not reread two-digit years.

## Files

| file | module | what it holds |
|---|---|---|
| `wrappers.dfy` | `Wrappers` | `Option` and `Outcome` |
| `date_utils.dfy` | `DateUtils` | calendar, `new Date(y, m, d)`, `clampMid`, `addMonths`, `daysInMonth`, `firstWeekday`, `sameDay` |
| `date_text.dfy` | `DateText` | `String(n)`, `padStart`, `toISO`, a reference ISO decoder, `replace(/token/g, …)`, `formatDisplay` |
| `calendar_grid.dfy` | `CalendarGrid` | the grid builder (a method with three loops) and its reference cell function |
| `picker.dfy` | `PickerView` | class `Picker`, the live view |
| `mount_api.dfy` | `MountApi` | class `Registry`, the mount registry and its event log |

## Behaviour worth knowing

- `setDate(host, null)` does not clear the picker's selection. The wrapper
  passes `dateISO || undefined` down as `initialDate`. The effect at line 295
  only acts on a truthy value (`MountApi.SetDateNullKeepsPicker`).
- `setDate` with the same string the wrapper last stored leaves the picker
  alone. This holds even when the user has since picked another day: the
  effect's dependency did not change (`MountApi.SetDateSameStringKeepsPick`).
  `getDate` and the field can then name different days.
- The `dateSetter` captured at lines 286-290 is never called. The `initialDate`
  effect at line 295 does the same work, so `Picker.ResetTo` models both.
- Before React commits the first render, `open`, `close` and `setDate`'s route
  to the picker do nothing. `setDate` still updates `lastISO` and dispatches its
  event.
- `setDate` always dispatches an event, even when nothing changes. Its `detail`
  carries no `date`.
- The live view always has a selected date: the initial date, or else the
  current day. Invalid dates are not turned into "no selection".
- A reset to a date in years 0..99 shows the wrong month. `new Date(y, m, 1)`
  at line 295 reads such a year as 19yy, so the pane shows that month of
  19yy and marks no cell (`PickerView.ResetTwoDigitYearMarksNothing`).
- The Escape and mousedown listeners stay registered while the pane is closed.
- There is no placement or flip logic. The pane has a static CSS position.

## Model

| member | source | states |
|---|---|---|
| DateUtils.FullYear | calendar-widget.iife.js:18-19 | the date constructor's year rule: a year in 0..99 becomes that year plus 1900, any other year stays as it is, and the result is never in 0..99 |
| DateUtils.Weekday | calendar-widget.iife.js:19 | `getDay` of a calendar day lies in 0..6, counted from the 1970 epoch day (a Thursday, see `WeekdayAnchors`) |
| DateUtils.MonthLength | calendar-widget.iife.js:18 | a month has 28 to 31 days, and February has 29 exactly in Gregorian leap years |
| DateUtils.Normalize | calendar-widget.iife.js:18 | the date constructor's day overflow: the resulting valid day has the same day number, and a day already inside its month stays as it is |
| DateUtils.NewDate | calendar-widget.iife.js:18-19 | `new Date(y, m, d)` is local midnight with the day number of day `d` of month `m % 12` of year `FullYear(y) + m / 12`; an in-range month and day give exactly that calendar day |
| DateUtils.ClampMid | calendar-widget.iife.js:15 | `clampMid` keeps the calendar day and zeroes the time; it leaves a midnight value unchanged, so it is idempotent |
| DateUtils.DayZero | calendar-widget.iife.js:18 | day 0 of a month is the last day of the month before, across a year boundary too |
| DateUtils.LastDayOfMonth | calendar-widget.iife.js:18 | day 0 of the following month, with months counted past December, is the last day of month `m` |
| DateUtils.NewDateDayZero | calendar-widget.iife.js:18 | `new Date(y, m + 1, 0)` is the last day of month `m % 12` of year `FullYear(y) + m / 12` |
| DateUtils.DaysInMonth | calendar-widget.iife.js:18 | `daysInMonth(y, m)` is the length of month `m % 12` of year `FullYear(y) + m / 12`, so it lies in 28..31 |
| DateUtils.FirstWeekday | calendar-widget.iife.js:19 | `firstWeekday(y, m)` lies in 0..6 (0 = Sunday) and is the weekday of the first of that month |
| DateUtils.AddMonths | calendar-widget.iife.js:17 | `addMonths` keeps the time of day and the day number in the month `delta` away; a day the target month lacks overflows into the following month |
| DateUtils.NextMonthWeekday | calendar-widget.iife.js:18-19 | the first of the next month falls on the weekday of the first of this month plus the month's length, mod 7 |
| DateUtils.AddMonthsFirstOfMonth | calendar-widget.iife.js:17 | on the first of a month, `addMonths(v, delta)` is the first of the month `delta` months away, with the year carried |
| DateUtils.AddMonthsCompose | calendar-widget.iife.js:17 | from a month start, moving `a` months and then `b` months is moving `a + b` months |
| DateUtils.NextThenPrevious | calendar-widget.iife.js:17 | from a month start, next then previous, and previous then next, both return the same value |
| DateUtils.SameDay | calendar-widget.iife.js:20 | `sameDay(a, b)` holds only when both are present, and then exactly when they are the same instant |
| DateUtils.SameDayOfClamped | calendar-widget.iife.js:20 | on values passed through `clampMid`, `sameDay` holds exactly when the calendar days are equal |
| DateUtils.SameDayComparesInstants | calendar-widget.iife.js:20 | `sameDay` is false when either side is null, and it tells apart two times of the same day |
| DateUtils.WeekdayAnchors | calendar-widget.iife.js:19 | 1970-01-01 is a Thursday (4) and 2025-03-01 a Saturday (6) |
| DateUtils.FebruaryExamples | calendar-widget.iife.js:18 | February has 29 days in 2000 and 2024 and 28 days in 1900 and 2025 |
| DateUtils.AddMonthsOverflow | calendar-widget.iife.js:17 | 31 January 2025 plus one month is 3 March 2025 |
| DateUtils.TwoDigitYears | calendar-widget.iife.js:17-19 | the constructor reads year 99 as 1999, while `setMonth` steps from January of year 100 to December of year 99 |
| DateText.NatToString | calendar-widget.iife.js:16 | `String(n)` is one or more decimal digits; it is a single digit exactly below 10 and has no leading zero above that |
| DateText.IntToString | calendar-widget.iife.js:16 | `String(n)` of any integer is a non-empty run of digits and minus signs |
| DateText.NatToStringRoundTrip | calendar-widget.iife.js:16 | the digits of `String(n)` denote `n` |
| DateText.PadStart | calendar-widget.iife.js:16 | `padStart` gives a result of the target width, or the input when that is longer; the input is its suffix and every character before it is the fill |
| DateText.TwoDigits | calendar-widget.iife.js:16 | a month or day field is exactly two decimal digits |
| DateText.TwoDigitsValue | calendar-widget.iife.js:16 | the two digits of a field denote its number |
| DateText.TwoDigitsIsPadded | calendar-widget.iife.js:16 | the field equals `String(n).padStart(2, "0")` for every `n` below 100 |
| DateText.IsoText | calendar-widget.iife.js:16 | the text starts with `String(year)` and has `-` three characters apart after it, six characters more than the year |
| DateText.ToISO | calendar-widget.iife.js:16 | `toISO` lays out `String(year)`, `-`, two characters, `-`, two characters |
| DateText.ToISOFields | calendar-widget.iife.js:16 | the month field of `toISO` is two digits denoting 01..12, and the day field two digits denoting the day of the month |
| DateText.ToISORoundTrip | calendar-widget.iife.js:16 | decoding `toISO(x)` gives back the calendar day of `x`: only the time of day is lost |
| DateText.ToISOInjective | calendar-widget.iife.js:16 | two dates have the same ISO string exactly when they fall on the same calendar day |
| DateText.ReplaceAll | calendar-widget.iife.js:299 | `s.replace(/token/g, repl)` writes no character that is neither in `s` nor in `repl` |
| DateText.ReplaceAllSkips | calendar-widget.iife.js:299 | a prefix that does not contain the token's first character is copied unchanged |
| DateText.ReplaceAllIdentity | calendar-widget.iife.js:299 | a string without the token's first character is not changed by the replacement |
| DateText.ReplaceAllPrefix | calendar-widget.iife.js:299 | when the first `j` output characters all lie outside the replacement's alphabet, they are the input's first `j` characters |
| DateText.ReplaceAllRemovesToken | calendar-widget.iife.js:299 | after a global replace with a replacement sharing no character with the token, no token is left |
| DateText.ReplaceAllKeepsAbsent | calendar-widget.iife.js:299 | a global replace never creates an occurrence of a string whose characters the replacement does not use |
| DateText.ReplaceOneToken | calendar-widget.iife.js:299 | a single token between text free of its first character becomes the replacement, and that text is kept |
| DateText.FormatFields | calendar-widget.iife.js:299 | the three-replace chain writes only characters of the pattern or of the year, month and day fields |
| DateText.FormatDisplay | calendar-widget.iife.js:297-299 | `formatDisplay(date)` writes only pattern characters, digits and `-` |
| DateText.FormatFieldsReplacesEveryToken | calendar-widget.iife.js:297-299 | with numeral fields, the replace chain leaves no `yyyy`, `MM` or `dd` |
| DateText.FormatDisplayReplacesEveryToken | calendar-widget.iife.js:297-299 | whatever the pattern, the displayed text contains no `yyyy`, `MM` or `dd` |
| DateText.FormatDisplayKeepsLiterals | calendar-widget.iife.js:297-299 | a pattern without `y`, `M` or `d` is displayed as it is |
| DateText.FormatFieldsDefault | calendar-widget.iife.js:299 | the default pattern lays the three fields out as year, `-`, month, `-`, day |
| DateText.FormatDefaultIsISO | calendar-widget.iife.js:297-299 | with the default pattern `yyyy-MM-dd` the field shows exactly `toISO` of the date, for every year |
| DateText.ExampleNumerals | calendar-widget.iife.js:16 | `String(2025)` is `2025`, and months 3 and 7 pad to `03` and `07` |
| DateText.ToISOExample | calendar-widget.iife.js:16 | `toISO` of 7 March 2025 is `2025-03-07` |
| DateText.ExampleFields | calendar-widget.iife.js:297-298 | 7 March 2025 gives the fields `2025`, `03`, `07` whatever the pattern |
| DateText.FormatDefaultExample | calendar-widget.iife.js:297-299 | 7 March 2025 is displayed as `2025-03-07` under the default pattern |
| DateText.FormatFieldsSlashed | calendar-widget.iife.js:297-298 | the pattern `dd/MM/yyyy` lays the three fields out as day, `/`, month, `/`, year |
| DateText.FormatSlashed | calendar-widget.iife.js:297-298 | under `dd/MM/yyyy` the field shows the two-digit day, the two-digit month and `String(year)`, slash-separated, for every date |
| CalendarGrid.GridOffsets | calendar-widget.iife.js:46-47 | the builder's offsets agree with the reference cell function, and blanks plus days never exceed 42, so the padding loop never truncates |
| CalendarGrid.NewDateInMonth | calendar-widget.iife.js:50 | each day the builder creates is midnight of that day of the shown month |
| CalendarGrid.MonthBounds | calendar-widget.iife.js:46 | the builder's `firstWeekday(y, m)` and `daysInMonth(y, m)` are the reference weekday and month length, and their sum is at most 42 |
| CalendarGrid.DayOfMonth | calendar-widget.iife.js:49 | the builder's `new Date(y, m, d)` for a day of the month is midnight of that day |
| CalendarGrid.BuildMonthGrid | calendar-widget.iife.js:45-53 | the grid has 42 cells, and cell `i` is blank or the date the reference cell function gives |
| CalendarGrid.GridPrefixCount | calendar-widget.iife.js:48-51 | the first `n` cells hold as many dates as days of the month fall before index `n` |
| CalendarGrid.GridHoldsWholeMonth | calendar-widget.iife.js:45-53 | the grid holds exactly `daysInMonth(y, m)` dates |
| CalendarGrid.GridPlacesEachDayOnce | calendar-widget.iife.js:45-53 | day `d` of the month is in cell `i` exactly when `i = firstWeekday(y, m) + d - 1` |
| CalendarGrid.GridDaysConsecutive | calendar-widget.iife.js:50 | adjacent dates of the grid are one day apart, in increasing order |
| CalendarGrid.GridColumnIsWeekday | calendar-widget.iife.js:45-53 | the date in cell `i` falls on weekday `i mod 7`, so the columns run Sunday to Saturday |
| CalendarGrid.SelectedCellMarked | calendar-widget.iife.js:69 | a selection at midnight is marked in cell `i` exactly when it lies in the shown month and `i = firstWeekday + day - 1` |
| CalendarGrid.GridExample | calendar-widget.iife.js:45-53 | March 2025 has six leading blanks, 1 March in cell 6, 31 March in cell 36 and a blank in cell 37 |
| PickerView.EffectivePattern | calendar-widget.iife.js:299 | an empty pattern falls back to `yyyy-MM-dd`, and any other pattern is used as given |
| PickerView.MonthStart | calendar-widget.iife.js:278 | the month on show is the first of the selected day's month at midnight, with the constructor's year rule |
| PickerView.MonthStartHoldsDay | calendar-widget.iife.js:278 | for a year outside 0..99, the month on show is the selected day's own month |
| PickerView.Picker.constructor | calendar-widget.iife.js:276-278 | the first render is closed, selects the initial date (or the current time) at midnight, and shows the first of its month |
| PickerView.Picker.Display | calendar-widget.iife.js:297-299 | the field text contains no unreplaced token, and under the default pattern it is `toISO` of the selection |
| PickerView.Picker.ToggleOpen | calendar-widget.iife.js:339 | an input click flips `open` and changes nothing else |
| PickerView.Picker.SetOpen | calendar-widget.iife.js:286 | the captured open setter sets `open` and changes nothing else |
| PickerView.Picker.SelectDay | calendar-widget.iife.js:302 | `selectDay(d)` selects `d`, reports `toISO(d)`, closes the pane and keeps the month on show |
| PickerView.Picker.ClickCell | calendar-widget.iife.js:68-76 | a day button selects its date, closes the pane and reports the date with its ISO string; a blank cell changes nothing |
| PickerView.Picker.ShowPreviousMonth | calendar-widget.iife.js:342 | the view moves back exactly one month and the selection and `open` are kept |
| PickerView.Picker.ShowNextMonth | calendar-widget.iife.js:344 | the view moves on exactly one month and the selection and `open` are kept |
| PickerView.Picker.KeyDown | calendar-widget.iife.js:307 | Escape closes the pane, other keys change nothing |
| PickerView.Picker.MouseDown | calendar-widget.iife.js:306 | a press outside the widget closes the pane, a press inside changes nothing |
| PickerView.Picker.ResetTo | calendar-widget.iife.js:295 | an external date becomes the selection at midnight and its month is shown; `open` is kept |
| PickerView.NavigationRoundTrip | calendar-widget.iife.js:342-344 | next then previous month, or previous then next, shows the same month again |
| PickerView.ResetShowsSelection | calendar-widget.iife.js:295 | after a reset to a date whose year is outside 0..99, the grid on show marks the new selection in exactly one cell |
| PickerView.ResetTwoDigitYearMarksNothing | calendar-widget.iife.js:295 | after a reset to a date in years 0..99, the pane shows the same month 1900 years later and no cell is marked as selected |
| PickerView.PickedDayIsMarked | calendar-widget.iife.js:69-76 | after a click on day button `i`, the picker marks cell `j` of the grid on show as selected exactly when `j = i` |
| MountApi.InitialProp | calendar-widget.iife.js:262 | the prop is the wrapper's string when that is non-empty, and absent otherwise |
| MountApi.ResetView | calendar-widget.iife.js:295 | the effect keeps `open`, selects the date at midnight and shows the first of its month, in the constructor's reading of its year |
| MountApi.SetDateEffect | calendar-widget.iife.js:373-378 | `setDate` caches the string; after commit the wrapper stores it; the picker changes only when the non-empty prop changes, and then becomes `ResetView` of the parsed date; `open` never changes |
| MountApi.DayCell | calendar-widget.iife.js:50 | a grid date is at midnight |
| MountApi.DayClicked | calendar-widget.iife.js:247-251 | a day click caches the day's ISO string and selects the day with the pane closed; a blank changes nothing |
| MountApi.ChangeEvents | calendar-widget.iife.js:241-243 | a day click dispatches exactly one event with the ISO string and the date; a blank dispatches none |
| MountApi.InitialISO | calendar-widget.iife.js:355 | a fresh slot caches `toISO` of the initial date exactly when one is given |
| MountApi.FirstRender | calendar-widget.iife.js:255-278 | a new widget caches the initial string, is not yet committed, and has a closed pane selecting the picker's re-parse of that string (or `now`) at midnight, with the first of the selection's month on show |
| MountApi.AfterListener | calendar-widget.iife.js:306-307 | a document listener closes the pane or leaves it, and changes nothing else |
| MountApi.Registry.constructor | calendar-widget.iife.js:220 | the registry starts with no widgets and no events |
| MountApi.Registry.Mount | calendar-widget.iife.js:231-362 | mounting an already-mounted host changes nothing; otherwise only that host is added, with a new picker in the first-render state built from the parsed initial date and the picker's own re-parse of its ISO string, showing the field in `inputFormat || "yyyy-MM-dd"` |
| MountApi.Registry.Commit | calendar-widget.iife.js:259 | the effects capture the setters of that host's widget only |
| MountApi.Registry.Unmount | calendar-widget.iife.js:364-371 | only that host's entry is removed, and an absent host changes nothing |
| MountApi.Registry.GetDate | calendar-widget.iife.js:382-386 | the cached `lastISO`, or null for a host without a widget |
| MountApi.Registry.SetDate | calendar-widget.iife.js:373-380 | an unmounted host gives `NotMounted` and changes nothing; otherwise only that widget changes, as `SetDateEffect` says, and exactly one event with the string and no date is appended |
| MountApi.Registry.SetOpen | calendar-widget.iife.js:388-389 | `open`/`close` set the pane of a committed widget, leave a mounted but uncommitted widget exactly as it was, and change nothing for an unmounted host |
| MountApi.Registry.ClickField | calendar-widget.iife.js:339 | the field click flips that widget's pane only |
| MountApi.Registry.ClickPreviousMonth | calendar-widget.iife.js:342 | that widget's view moves back one month |
| MountApi.Registry.ClickNextMonth | calendar-widget.iife.js:344 | that widget's view moves on one month |
| MountApi.Registry.ClickDay | calendar-widget.iife.js:247-251 | a day click changes that widget as `DayClicked` says and appends the events `ChangeEvents` gives; other widgets are untouched |
| MountApi.Registry.KeyDown | calendar-widget.iife.js:307 | Escape closes every rendered pane, so none is open afterwards; other keys change nothing |
| MountApi.Registry.MouseDown | calendar-widget.iife.js:306 | a press closes every rendered pane except those of the widgets containing the target |
| MountApi.SetDateThenGetDate | calendar-widget.iife.js:373-386 | on the registry, `getDate(host)` right after `setDate(host, iso)` returns exactly `iso`, null included; on a host without a widget `setDate` throws and `getDate` gives null |
| MountApi.SetDateNullKeepsPicker | calendar-widget.iife.js:295 | `setDate` with null or an empty string leaves the picker as it was |
| MountApi.SetDateBeforeCommit | calendar-widget.iife.js:359 | before the setters are captured, `setDate` only updates the cached string |
| MountApi.SetDateSelects | calendar-widget.iife.js:295 | a new ISO string whose parse is `x` selects `x`'s day in the picker, so `getDate` and the selection agree; this holds only when `new Date(iso)` gives back `x` |
| MountApi.SetDateSameStringKeepsPick | calendar-widget.iife.js:295 | repeating the wrapper's stored string leaves the picker, and any later pick, as it is |
| MountApi.MountAgrees | calendar-widget.iife.js:255-277 | at mount the cached string and the picker's selection name the same day exactly when the picker's re-parse of the string falls on the initial date's day |
| MountApi.PickedDayCached | calendar-widget.iife.js:249 | after a pick, the cached string names exactly the selected day |

## Left out

- React is not modelled: rendering, `createRoot`, `root.render`, `root.unmount`,
  hooks and effect scheduling. State setters are direct updates, and
  `Registry.Commit` stands for the first commit. Once it has run, the
  open and date setters are captured.
- The monkey-patching of `CalendarWidgetView` and the `theme.__internal`
  channel are not modelled. Each `mount` installs a new `Patched` function, so
  a later re-render of an earlier widget meets a new component type and React
  remounts its picker: closed, with the selection taken from the prop or the
  current day. `Registry.SetDate` assumes the widget re-renders the same
  picker.
- DOM work is not modelled. This covers `_resolve` and its "target not found"
  error, creating and removing host `div`s, `wrapRef.contains` (a parameter
  `inside` stands for it) and adding or removing listeners. `CustomEvent`
  dispatch is an append to `Registry.events`.
- `Intl.DateTimeFormat` weekday and month labels, and `toDateString` in
  `aria-label`, are not modelled: they are locale-dependent calls.
- `new Date(string)` parsing is not modelled. `Mount` takes the initial date
  already parsed, and `SetDate` takes the string and its parse. Strings that
  do not parse (Invalid Date) are outside the model. So is the UTC reading of
  date-only strings.
- Time zones and daylight saving are not modelled. Local time is the only time.
- The range of a JavaScript time value (plus or minus 8.64e15 ms, about
  years -271821 to 275760) is not modelled. `DateUtils.Date` admits every
  integer year. Beyond that range the constructor and `setMonth` give an
  Invalid Date, the grid would be 42 blanks and `toISO` would give
  `NaN-NaN-NaN`. `String(n)` of such a year would also not switch to exponent
  notation in the model.
- MountApi.Registry.Mount: the picker's `new Date(...)` of the cached ISO
  string is a parameter (`reparsed`), because string parsing is not modelled.
  It need not give back the initial date's day: `toISO` writes the year
  unpadded, so years outside 1000..9999 give text that is not ECMAScript
  date-time text, and west of UTC a date-only string is read as the previous
  local day. `MountApi.MountAgrees` states exactly when the two agree.
- The clock is not modelled. `now` is a parameter, and the "today" ring uses
  the same `sameDay` test as the selection (`CalendarGrid.SelectedCellMarked`).
- Not modelled: the `setTimeout` focus return, inline styles, hover handlers and
  theming.
- `CalendarWidgetView` (lines 90-217) is not modelled. The registry always
  renders the `Patched` copy. The two differ: the original's `initialDate`
  effect (line 117) re-selects `initial`, which falls back to today for a
  falsy prop or an invalid date (lines 106-108), while `Patched` (line 295)
  acts only on a truthy prop and has no such fallback.
- PickerView.Picker.SelectDay: its contract does not say that the reported
  string decodes to `d`. `DateText.ToISORoundTrip` states that separately, and
  `MountApi.PickedDayCached` applies it to the registry.
