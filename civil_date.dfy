/**
 * Civil (proleptic Gregorian) date arithmetic used by the datepicker: month lengths,
 * day numbers, weekdays, moving by whole months and the day roll-over that
 * `new Date(year, month, day, ...)` performs. This stands in for the date utility
 * service the component calls.
 */
module CivilDate {

  /** A local civil timestamp. As in JavaScript's Date, `month` counts from 0 (January) to 11 (December). */
  datatype DateTime = DateTime(year: int, month: int, day: int, hour: int, minute: int, second: int)

  predicate IsLeapYear(y: int)
  {
    y % 4 == 0 && (y % 100 != 0 || y % 400 == 0)
  }

  function DaysInMonth(y: int, m: int): (n: int)
    requires 0 <= m < 12
    ensures 28 <= n <= 31
    ensures n == 29 <==> m == 1 && IsLeapYear(y)
    ensures n == 28 <==> m == 1 && !IsLeapYear(y)
  {
    if m == 1 then (if IsLeapYear(y) then 29 else 28)
    else if m == 3 || m == 5 || m == 8 || m == 10 then 30
    else 31
  }

  /** A date whose fields name an existing day and time of day (what JavaScript calls a valid Date). */
  predicate ValidDate(d: DateTime)
  {
    && 0 <= d.month < 12
    && 1 <= d.day <= DaysInMonth(d.year, d.month)
    && 0 <= d.hour < 24
    && 0 <= d.minute < 60
    && 0 <= d.second < 60
  }

  /** Number of days of year `y` that lie before month `m`; `m == 12` gives the length of the year. */
  function DaysBeforeMonth(y: int, m: int): int
    requires 0 <= m <= 12
  {
    if m == 0 then 0 else DaysBeforeMonth(y, m - 1) + DaysInMonth(y, m - 1)
  }

  lemma YearLength(y: int)
    ensures DaysBeforeMonth(y, 12) == if IsLeapYear(y) then 366 else 365
  {
    var feb := DaysInMonth(y, 1);
    assert DaysBeforeMonth(y, 1) == 31;
    assert DaysBeforeMonth(y, 2) == 31 + feb;
    assert DaysBeforeMonth(y, 3) == 62 + feb;
    assert DaysBeforeMonth(y, 4) == 92 + feb;
    assert DaysBeforeMonth(y, 5) == 123 + feb;
    assert DaysBeforeMonth(y, 6) == 153 + feb;
    assert DaysBeforeMonth(y, 7) == 184 + feb;
    assert DaysBeforeMonth(y, 8) == 215 + feb;
    assert DaysBeforeMonth(y, 9) == 245 + feb;
    assert DaysBeforeMonth(y, 10) == 276 + feb;
    assert DaysBeforeMonth(y, 11) == 306 + feb;
  }

  /** Days from 1 January of year 1 to 1 January of year `y` (negative before year 1). */
  function DaysBeforeYear(y: int): int
  {
    var p := y - 1;
    365 * p + p / 4 - p / 100 + p / 400
  }

  /** Dafny's `/` rounds down, so `x / n` grows by one exactly when `x` reaches a multiple of `n`. */
  lemma FloorDivStep(x: int, n: int)
    requires n == 4 || n == 100 || n == 400
    ensures x / n - (x - 1) / n == if x % n == 0 then 1 else 0
  {
    var q, r := (x - 1) / n, (x - 1) % n;
    if r == n - 1 {
      assert x == (q + 1) * n;
    } else {
      assert x == q * n + (r + 1);
    }
  }

  /** A multiple of 400 is a multiple of 100. */
  lemma QuadCenturyDivides(y: int)
    requires y % 400 == 0
    ensures y % 100 == 0
  {
    var k := y / 400;
    assert y == 100 * (4 * k) + 0;
  }

  /** A multiple of 100 is a multiple of 4. */
  lemma CenturyDivides(y: int)
    requires y % 100 == 0
    ensures y % 4 == 0
  {
    var k := y / 100;
    assert y == 4 * (25 * k) + 0;
  }

  lemma YearStep(y: int)
    ensures DaysBeforeYear(y + 1) == DaysBeforeYear(y) + DaysBeforeMonth(y, 12)
  {
    YearLength(y);
    FloorDivStep(y, 4);
    FloorDivStep(y, 100);
    FloorDivStep(y, 400);
    if y % 400 == 0 {
      QuadCenturyDivides(y);
    }
    if y % 100 == 0 {
      CenturyDivides(y);
    }
    var p := y - 1;
    var step4, step100, step400 := y / 4 - p / 4, y / 100 - p / 100, y / 400 - p / 400;
    assert DaysBeforeYear(y + 1) - DaysBeforeYear(y) == 365 + step4 - step100 + step400;
  }

  /** The day's index counted from 1 January of year 1 (that day is 0). */
  function DayNumber(y: int, m: int, d: int): int
    requires 0 <= m < 12
  {
    DaysBeforeYear(y) + DaysBeforeMonth(y, m) + d - 1
  }

  /** Day of the week as JavaScript's getDay reports it: 0 is Sunday. 1 January of year 1 was a Monday. */
  function Weekday(y: int, m: int, d: int): (w: int)
    requires 0 <= m < 12
    ensures 0 <= w < 7
    ensures (DayNumber(y, m, d) - w + 1) % 7 == 0
  {
    (DayNumber(y, m, d) + 1) % 7
  }

  lemma WeekdayExamples()
    ensures Weekday(1970, 0, 1) == 4   // Thursday, the Unix epoch
    ensures Weekday(2024, 1, 1) == 4   // Thursday, 1 February 2024
    ensures Weekday(2000, 0, 1) == 6   // Saturday
  {
    assert DaysBeforeYear(1970) == 719162;
    assert DaysBeforeYear(2024) == 738885 && DaysBeforeMonth(2024, 1) == 31;
    assert DaysBeforeYear(2000) == 730119;
  }

  /** The month after (y, m), wrapping December into January of the next year. */
  function NextMonthOf(y: int, m: int): (r: (int, int))
    requires 0 <= m < 12
    ensures 0 <= r.1 < 12
    ensures r.0 * 12 + r.1 == y * 12 + m + 1
  {
    if m == 11 then (y + 1, 0) else (y, m + 1)
  }

  /** The month before (y, m), wrapping January into December of the previous year. */
  function PrevMonthOf(y: int, m: int): (r: (int, int))
    requires 0 <= m < 12
    ensures 0 <= r.1 < 12
    ensures r.0 * 12 + r.1 == y * 12 + m - 1
    ensures NextMonthOf(r.0, r.1) == (y, m)
  {
    if m == 0 then (y - 1, 11) else (y, m - 1)
  }

  /** The first day of the next month comes exactly one month length after the first day of this one. */
  lemma MonthStep(y: int, m: int)
    requires 0 <= m < 12
    ensures var (ny, nm) := NextMonthOf(y, m);
            DayNumber(ny, nm, 1) == DayNumber(y, m, 1) + DaysInMonth(y, m)
  {
    if m == 11 {
      YearStep(y);
    }
  }

  /** Adding `k` to a number adds `k` to its remainder modulo 7, taken again modulo 7. */
  lemma ShiftMod7(x: int, k: int)
    ensures (x + k) % 7 == (x % 7 + k) % 7
  {
    var q, r := x / 7, x % 7;
    var u, t := (r + k) / 7, (r + k) % 7;
    assert x + k == 7 * (q + u) + t;
  }

  /** The weekday of the next month's first day follows from this month's first weekday and its length. */
  lemma FirstWeekdayStep(y: int, m: int)
    requires 0 <= m < 12
    ensures var (ny, nm) := NextMonthOf(y, m);
            Weekday(ny, nm, 1) == (Weekday(y, m, 1) + DaysInMonth(y, m)) % 7
  {
    MonthStep(y, m);
    ShiftMod7(DayNumber(y, m, 1) + 1, DaysInMonth(y, m));
  }

  /**
   * What `new Date(y, m, day, h, mi, s)` denotes for a day of month between 1 and 31:
   * a day past the end of month `m` rolls over into the following month.
   */
  function RollDate(y: int, m: int, day: int, h: int, mi: int, s: int): (r: DateTime)
    requires 0 <= m < 12 && 1 <= day <= 31
    requires 0 <= h < 24 && 0 <= mi < 60 && 0 <= s < 60
    ensures ValidDate(r)
    ensures DayNumber(r.year, r.month, r.day) == DayNumber(y, m, 1) + day - 1
    ensures r.hour == h && r.minute == mi && r.second == s
  {
    var dim := DaysInMonth(y, m);
    if day <= dim then
      DateTime(y, m, day, h, mi, s)
    else
      var (ny, nm) := NextMonthOf(y, m);
      MonthStep(y, m);
      DateTime(ny, nm, day - dim, h, mi, s)
  }

  /**
   * Replacing the year of a date, as `new Date(year, d.getMonth(), d.getDate(), d.getHours(),
   * d.getMinutes())` does: the other fields are kept (seconds become 0), except that 29 February
   * in a common year rolls over to 1 March.
   */
  lemma ChangeYear(d: DateTime, year: int)
    requires ValidDate(d)
    ensures var r := RollDate(year, d.month, d.day, d.hour, d.minute, 0);
            if d.month == 1 && d.day == 29 && !IsLeapYear(year)
            then r == DateTime(year, 2, 1, d.hour, d.minute, 0)
            else r == d.(year := year, second := 0)
  {
  }

  function MonthIndex(d: DateTime): int
  {
    d.year * 12 + d.month
  }

  /**
   * The date `n` months after `d` (before it for negative `n`), keeping the time of day;
   * a day that does not exist in the target month is pulled down to that month's last day.
   */
  function AddMonths(d: DateTime, n: int): (r: DateTime)
    requires ValidDate(d)
    ensures ValidDate(r)
    ensures MonthIndex(r) == MonthIndex(d) + n
    ensures r.day <= d.day
    ensures r.day == d.day || r.day == DaysInMonth(r.year, r.month)
    ensures r.hour == d.hour && r.minute == d.minute && r.second == d.second
  {
    var t := MonthIndex(d) + n;
    var y, m := t / 12, t % 12;
    var dim := DaysInMonth(y, m);
    DateTime(y, m, if d.day <= dim then d.day else dim, d.hour, d.minute, d.second)
  }

  /** Moving `n` months and back returns to the same date when its day exists in every month. */
  lemma AddMonthsRoundTrip(d: DateTime, n: int)
    requires ValidDate(d) && d.day <= 28
    ensures AddMonths(AddMonths(d, n), -n) == d
  {
    var r := AddMonths(d, n);
    var back := AddMonths(r, -n);
    assert MonthIndex(back) == MonthIndex(d);
  }
}
