/**
 * The widget's date utilities (`clampMid`, `addMonths`, `daysInMonth`,
 * `firstWeekday`, `sameDay`) over JavaScript `Date` values in local time.
 *
 * A `Date` is a calendar day (year, month 0-11, day) with a time of day.
 * The proleptic Gregorian calendar is used for every integer year, as the
 * ECMAScript date algorithms do; time zones and daylight saving are not
 * modelled, so local time is the only time there is.
 */
module DateUtils {
  import opened Wrappers

  // ---------- the Gregorian calendar ----------

  predicate IsLeapYear(y: int) {
    y % 4 == 0 && (y % 100 != 0 || y % 400 == 0)
  }

  /** Number of days of month `m` (0 = January) of year `y`. */
  function MonthLength(y: int, m: int): (n: int)
    requires 0 <= m < 12
    ensures 28 <= n <= 31
    ensures m == 1 ==> (n == 29 <==> IsLeapYear(y))
  {
    if m == 1 then (if IsLeapYear(y) then 29 else 28)
    else if m == 3 || m == 5 || m == 8 || m == 10 then 30
    else 31
  }

  datatype CalendarDay = CalendarDay(year: int, month: int, day: int)

  predicate ValidDay(c: CalendarDay) {
    0 <= c.month < 12 && 1 <= c.day <= MonthLength(c.year, c.month)
  }

  /** A day that exists in the calendar. */
  type Day = c: CalendarDay | ValidDay(c) witness CalendarDay(1970, 0, 1)

  datatype DateTime = DateTime(date: Day, hours: int, minutes: int, seconds: int, millis: int)

  predicate ValidClock(t: DateTime) {
    0 <= t.hours < 24 && 0 <= t.minutes < 60 && 0 <= t.seconds < 60 && 0 <= t.millis < 1000
  }

  /** A valid JavaScript `Date`: a day of the calendar and a time of that day. */
  type Date = t: DateTime | ValidClock(t) witness DateTime(CalendarDay(1970, 0, 1), 0, 0, 0, 0)

  predicate IsMidnight(t: Date) {
    t.hours == 0 && t.minutes == 0 && t.seconds == 0 && t.millis == 0
  }

  /** The navigation cursor's shape: the first day of a month at midnight. */
  predicate IsFirstOfMonth(t: Date) {
    IsMidnight(t) && t.date.day == 1
  }

  function Midnight(c: Day): (t: Date)
    ensures IsMidnight(t) && t.date == c
  {
    DateTime(c, 0, 0, 0, 0)
  }

  /** The month after, and the month before, month `m` of year `y`. */
  function NextMonthOf(y: int, m: int): (int, int)
    requires 0 <= m < 12
  {
    if m == 11 then (y + 1, 0) else (y, m + 1)
  }

  function PrevMonthOf(y: int, m: int): (int, int)
    requires 0 <= m < 12
  {
    if m == 0 then (y - 1, 11) else (y, m - 1)
  }

  /** Months counted from January of year 0: consecutive months have consecutive indices. */
  function MonthIndex(c: CalendarDay): int {
    12 * c.year + c.month
  }

  // ---------- day numbers and weekdays ----------

  /** Days from the 1st of March to the 1st of month `m` (0 = January) in a year that starts in March. */
  function DaysSinceMarch(m: int): int
    requires 0 <= m < 12
  {
    match m
    case 2 => 0    case 3 => 31   case 4 => 61   case 5 => 92
    case 6 => 122  case 7 => 153  case 8 => 184  case 9 => 214
    case 10 => 245 case 11 => 275 case 0 => 306  case 1 => 337
  }

  /**
   * Days from 1970-01-01 to the first day of month `m` of year `y`: the
   * usual civil-to-days count with the year starting in March, so that the
   * leap day is the last day of the counted year (`/` is the floor
   * division for a positive divisor).
   */
  function MonthStartNumber(y: int, m: int): int
    requires 0 <= m < 12
  {
    var ys := if m < 2 then y - 1 else y;
    365 * ys + ys / 4 - ys / 100 + ys / 400 + DaysSinceMarch(m) - 719468
  }

  /** Days from 1970-01-01 to day `d` of month `m` of year `y`; `d` may lie outside the month. */
  function DayNumber(y: int, m: int, d: int): int
    requires 0 <= m < 12
  {
    MonthStartNumber(y, m) + d - 1
  }

  /** `Date.prototype.getDay`: 0 = Sunday ... 6 = Saturday (1970-01-01 was a Thursday). */
  function Weekday(c: Day): (w: int)
    ensures 0 <= w < 7
  {
    (DayNumber(c.year, c.month, c.day) + 4) % 7
  }

  /** Removing one year from a year crosses a multiple of `k` exactly when the year is one. */
  lemma MultipleStep(y: int, k: int)
    requires k == 4 || k == 100 || k == 400
    ensures y / k - (y - 1) / k == if y % k == 0 then 1 else 0
  {
    var q, r := (y - 1) / k, (y - 1) % k;
    assert y - 1 == k * q + r && 0 <= r < k;
    if r == k - 1 {
      assert y == k * (q + 1);
    } else {
      assert y == k * q + (r + 1) && 0 <= r + 1 < k;
    }
  }

  /** March 1 comes 28 days after February 1, plus one in a leap year. */
  lemma MarchStart(y: int)
    ensures MonthStartNumber(y, 2) == MonthStartNumber(y, 1) + MonthLength(y, 1)
  {
    MultipleStep(y, 4);
    MultipleStep(y, 100);
    MultipleStep(y, 400);
  }

  /** The first day of the next month comes exactly `MonthLength(y, m)` days after the first of this one. */
  lemma NextMonthStart(y: int, m: int)
    requires 0 <= m < 12
    ensures MonthStartNumber(NextMonthOf(y, m).0, NextMonthOf(y, m).1) == MonthStartNumber(y, m) + MonthLength(y, m)
  {
    if m == 1 {
      MarchStart(y);
    }
  }

  // ---------- the Date constructor ----------

  /** `new Date(y, m, d)` reads a year 0..99 as 1900..1999. */
  function FullYear(y: int): (r: int)
    ensures !(0 <= r <= 99)
    ensures 0 <= y <= 99 ==> r - y == 1900
    ensures !(0 <= y <= 99) ==> r == y
  {
    if 0 <= y <= 99 then 1900 + y else y
  }

  /**
   * Day `d` of month `m` of year `y` where `d` may fall outside the month:
   * it is carried into earlier or later months as the ECMAScript MakeDay
   * operation does, keeping the day number.
   */
  function Normalize(y: int, m: int, d: int): (r: Day)
    requires 0 <= m < 12
    ensures DayNumber(r.year, r.month, r.day) == DayNumber(y, m, d)
    ensures 1 <= d <= MonthLength(y, m) ==> r == CalendarDay(y, m, d)
    decreases if d < 1 then 1 else 0, if d < 1 then -d else d
  {
    if d < 1 then
      var (py, pm) := PrevMonthOf(y, m);
      NextMonthStart(py, pm);
      Normalize(py, pm, d + MonthLength(py, pm))
    else if d > MonthLength(y, m) then
      var (ny, nm) := NextMonthOf(y, m);
      NextMonthStart(y, m);
      Normalize(ny, nm, d - MonthLength(y, m))
    else
      CalendarDay(y, m, d)
  }

  /** Euclidean division by 12 is unique. */
  lemma DivMod12(a: int, q: int, r: int)
    requires a == 12 * q + r && 0 <= r < 12
    ensures a / 12 == q && a % 12 == r
  {
  }

  lemma DivMod12Small(m: int)
    ensures 0 <= m < 12 ==> m / 12 == 0 && m % 12 == m
  {
    if 0 <= m < 12 {
      DivMod12(m, 0, m);
    }
  }

  /** The month after month `m % 12` of the year shifted by `m / 12` is month `(m + 1) % 12` of the year shifted by `(m + 1) / 12`. */
  lemma NextMonthArith(y: int, m: int)
    ensures NextMonthOf(y + m / 12, m % 12) == (y + (m + 1) / 12, (m + 1) % 12)
  {
    var q, r := m / 12, m % 12;
    if r == 11 {
      DivMod12(m + 1, q + 1, 0);
    } else {
      DivMod12(m + 1, q, r + 1);
    }
  }

  /**
   * `new Date(y, m, d)`: local midnight of day `d` of month `m` of year `y`,
   * with the constructor's two-digit-year rule and month and day overflow.
   */
  function NewDate(y: int, m: int, d: int): (r: Date)
    ensures IsMidnight(r)
    ensures DayNumber(r.date.year, r.date.month, r.date.day) == DayNumber(FullYear(y) + m / 12, m % 12, d)
    ensures 0 <= m < 12 && 1 <= d <= MonthLength(FullYear(y), m) ==> r.date == CalendarDay(FullYear(y), m, d)
  {
    Midnight(Normalize(FullYear(y) + m / 12, m % 12, d))
  }

  // ---------- the utilities ----------

  /** `clampMid`: the same calendar day at 00:00:00.000. */
  function ClampMid(x: Date): (r: Date)
    ensures r.date == x.date && IsMidnight(r)
    ensures IsMidnight(x) ==> r == x
  {
    Midnight(x.date)
  }

  /** Day 0 of a month is the last day of the month before. */
  lemma DayZero(y: int, m: int)
    requires 0 <= m < 12
    ensures var (py, pm) := PrevMonthOf(y, m);
            Normalize(y, m, 0) == CalendarDay(py, pm, MonthLength(py, pm))
  {
  }

  /** Day 0 of the month after month `m` is the last day of month `m` (`m` counted from year `y`, any integer). */
  lemma LastDayOfMonth(y: int, m: int)
    ensures Normalize(y + (m + 1) / 12, (m + 1) % 12, 0) == CalendarDay(y + m / 12, m % 12, MonthLength(y + m / 12, m % 12))
  {
    NextMonthArith(y, m);
    var (a, b) := (y + m / 12, m % 12);
    assert PrevMonthOf(NextMonthOf(a, b).0, NextMonthOf(a, b).1) == (a, b);
    DayZero(NextMonthOf(a, b).0, NextMonthOf(a, b).1);
  }

  /** `daysInMonth(y, m)`, computed as the day of `new Date(y, m + 1, 0)`. */
  function DaysInMonth(y: int, m: int): (n: int)
    ensures n == MonthLength(FullYear(y) + m / 12, m % 12)
    ensures 0 <= m < 12 ==> n == MonthLength(FullYear(y), m)
    ensures 28 <= n <= 31
  {
    NewDateDayZero(y, m);
    DivMod12Small(m);
    NewDate(y, m + 1, 0).date.day
  }

  /** `new Date(y, m + 1, 0)` is the last day of month `m`. */
  lemma NewDateDayZero(y: int, m: int)
    ensures var a, b := FullYear(y) + m / 12, m % 12;
            NewDate(y, m + 1, 0).date == CalendarDay(a, b, MonthLength(a, b))
  {
    LastDayOfMonth(FullYear(y), m);
  }

  /** `firstWeekday(y, m)`: the weekday of `new Date(y, m, 1)`. */
  function FirstWeekday(y: int, m: int): (w: int)
    ensures 0 <= w < 7
    ensures w == Weekday(CalendarDay(FullYear(y) + m / 12, m % 12, 1))
  {
    Weekday(NewDate(y, m, 1).date)
  }

  /**
   * `addMonths(date, delta)` through `setMonth`: the same day number in the
   * month `delta` months away, carried into the following month when that
   * month is shorter; the time of day is kept. Unlike the constructor,
   * `setMonth` does not reinterpret years 0..99.
   */
  function AddMonths(x: Date, delta: int): (r: Date)
    ensures (r.hours, r.minutes, r.seconds, r.millis) == (x.hours, x.minutes, x.seconds, x.millis)
    ensures var ty, tm := x.date.year + (x.date.month + delta) / 12, (x.date.month + delta) % 12;
            if x.date.day <= MonthLength(ty, tm) then
              r.date == CalendarDay(ty, tm, x.date.day)
            else
              var (ny, nm) := NextMonthOf(ty, tm);
              r.date == CalendarDay(ny, nm, x.date.day - MonthLength(ty, tm))
  {
    var ty, tm := x.date.year + (x.date.month + delta) / 12, (x.date.month + delta) % 12;
    x.(date := Normalize(ty, tm, x.date.day))
  }

  /** `sameDay(a, b)`: both present and the same instant (`getTime()` equality). */
  function SameDay(a: Option<Date>, b: Option<Date>): (r: bool)
    ensures r ==> a.Some? && b.Some?
    ensures r <==> a.Some? && a == b
  {
    a.Some? && b.Some? && a.value == b.value
  }

  // ---------- properties ----------

  /** A month starts on the weekday that follows the previous month's last day. */
  lemma NextMonthWeekday(y: int, m: int)
    requires 0 <= m < 12
    ensures var (ny, nm) := NextMonthOf(y, m);
            Weekday(CalendarDay(ny, nm, 1)) == (Weekday(CalendarDay(y, m, 1)) + MonthLength(y, m)) % 7
  {
    var start := MonthStartNumber(y, m);
    NextMonthStart(y, m);
    WeekdayShift(Weekday(CalendarDay(y, m, 1)), (start + MonthLength(y, m) + 4) % 7, start, MonthLength(y, m));
  }

  lemma WeekdayShift(w0: int, w1: int, start: int, len: int)
    requires w0 == (start + 4) % 7 && w1 == (start + len + 4) % 7
    ensures w1 == (w0 + len) % 7
  {
    ModAddLeft(start + 4, len);
  }


  lemma ModAddLeft(x: int, k: int)
    ensures (x + k) % 7 == (x % 7 + k) % 7
  {
    var q := x / 7;
    assert x == 7 * q + x % 7;
    assert x + k == 7 * q + (x % 7 + k);
  }

  /** Equal month indices of valid days mean the same year and month. */
  lemma MonthIndexInjective(c: Day, e: Day)
    requires MonthIndex(c) == MonthIndex(e)
    ensures c.year == e.year && c.month == e.month
  {
    DivMod12(MonthIndex(c), c.year, c.month);
    DivMod12(MonthIndex(e), e.year, e.month);
  }

  /** On a first-of-month value `addMonths(v, delta)` is the first of the month `delta` months away. */
  lemma AddMonthsFirstOfMonth(v: Date, delta: int)
    requires IsFirstOfMonth(v)
    ensures IsFirstOfMonth(AddMonths(v, delta))
    ensures MonthIndex(AddMonths(v, delta).date) == MonthIndex(v.date) + delta
  {
    var a := v.date.month + delta;
    DivMod12(a, a / 12, a % 12);
  }

  /** Month navigation composes: moving `a` then `b` months from a month start moves `a + b` months. */
  lemma AddMonthsCompose(v: Date, a: int, b: int)
    requires IsFirstOfMonth(v)
    ensures AddMonths(AddMonths(v, a), b) == AddMonths(v, a + b)
  {
    AddMonthsFirstOfMonth(v, a);
    AddMonthsFirstOfMonth(AddMonths(v, a), b);
    AddMonthsFirstOfMonth(v, a + b);
    MonthIndexInjective(AddMonths(AddMonths(v, a), b).date, AddMonths(v, a + b).date);
  }

  /** "Next month" followed by "previous month", or the reverse, returns the same month start. */
  lemma NextThenPrevious(v: Date)
    requires IsFirstOfMonth(v)
    ensures AddMonths(AddMonths(v, 1), -1) == v
    ensures AddMonths(AddMonths(v, -1), 1) == v
  {
    AddMonthsCompose(v, 1, -1);
    AddMonthsCompose(v, -1, 1);
    AddMonthsFirstOfMonth(v, 0);
    MonthIndexInjective(AddMonths(v, 0).date, v.date);
  }

  /** On values normalised by `clampMid`, `sameDay` is exactly "same calendar day". */
  lemma SameDayOfClamped(a: Date, b: Date)
    ensures SameDay(Some(ClampMid(a)), Some(ClampMid(b))) <==> a.date == b.date
  {
  }

  /** `sameDay` is null-safe and compares instants: the same day at two times is not the same. */
  lemma SameDayComparesInstants(a: Date)
    ensures !SameDay(None, Some(a)) && !SameDay(Some(a), None)
    ensures !IsMidnight(a) ==> !SameDay(Some(a), Some(ClampMid(a)))
  {
  }

  /** 1970-01-01 was a Thursday and 2025-03-01 a Saturday (0 = Sunday). */
  lemma WeekdayAnchors()
    ensures Weekday(CalendarDay(1970, 0, 1)) == 4
    ensures Weekday(CalendarDay(2025, 2, 1)) == 6
  {
    assert MonthStartNumber(1970, 0) == 0;
    assert MonthStartNumber(2025, 2) == 20148;
  }

  /** The Gregorian leap rule in `daysInMonth`: February 2000 and 2024 have 29 days, 1900 and 2025 have 28. */
  lemma FebruaryExamples()
    ensures DaysInMonth(2000, 1) == 29 && DaysInMonth(2024, 1) == 29
    ensures DaysInMonth(1900, 1) == 28 && DaysInMonth(2025, 1) == 28
  {
    assert IsLeapYear(2000) && IsLeapYear(2024);
    assert !IsLeapYear(1900) && !IsLeapYear(2025);
  }

  /** `addMonths` keeps the day number and lets it overflow: January 31, 2025 plus one month is March 3. */
  lemma AddMonthsOverflow()
    ensures AddMonths(Midnight(CalendarDay(2025, 0, 31)), 1).date == CalendarDay(2025, 2, 3)
  {
    DivMod12Small(1);
    assert MonthLength(2025, 1) == 28;
    assert NextMonthOf(2025, 1) == (2025, 2);
  }

  /**
   * The constructor reads years 0..99 as 1900..1999 while `setMonth` does
   * not: the month start of a year-99 value is in 1999, and stepping back
   * from January of year 100 lands in December of year 99.
   */
  lemma TwoDigitYears()
    ensures NewDate(99, 11, 1).date == CalendarDay(1999, 11, 1)
    ensures AddMonths(Midnight(CalendarDay(100, 0, 1)), -1).date == CalendarDay(99, 11, 1)
  {
  }
}
