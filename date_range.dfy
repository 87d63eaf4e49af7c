/**
 * The optional [min, max] window of the datepicker: the ordering of dates, the test that
 * disables a calendar cell, and the clamping the `displayDate` setter applies.
 */
module DateRange {
  import opened Wrappers
  import opened CivilDate

  /**
   * The instant a date denotes, in seconds from 0001-01-01T00:00:00 local time. JavaScript
   * compares two Date objects by their time value, which is this number (in milliseconds).
   */
  function Stamp(d: DateTime): int
    requires ValidDate(d)
  {
    ((DayNumber(d.year, d.month, d.day) * 24 + d.hour) * 60 + d.minute) * 60 + d.second
  }

  /**
   * `a < b` on Date objects: JavaScript compares their time values, which for valid dates is
   * the order of the fields from year down to second (`BeforeIsStampOrder`).
   */
  predicate Before(a: DateTime, b: DateTime)
  {
    || a.year < b.year
    || (a.year == b.year && a.month < b.month)
    || (a.year == b.year && a.month == b.month && a.day < b.day)
    || (a.year == b.year && a.month == b.month && a.day == b.day && a.hour < b.hour)
    || (a.year == b.year && a.month == b.month && a.day == b.day && a.hour == b.hour && a.minute < b.minute)
    || (a.year == b.year && a.month == b.month && a.day == b.day && a.hour == b.hour && a.minute == b.minute &&
        a.second < b.second)
  }

  /** The component's `_minDate` and `_maxDate`; `None` is a bound that is not set. */
  datatype Bounds = Bounds(min: Option<DateTime>, max: Option<DateTime>)

  predicate ValidBounds(b: Bounds)
  {
    (b.min.Some? ==> ValidDate(b.min.value)) && (b.max.Some? ==> ValidDate(b.max.value))
  }

  /** The bounds do not cross: when both are set, min is not after max. */
  predicate Ordered(b: Bounds)
    requires ValidBounds(b)
  {
    b.min.Some? && b.max.Some? ==> !Before(b.max.value, b.min.value)
  }

  /** `d` respects every bound that is set. */
  predicate InRange(b: Bounds, d: DateTime)
    requires ValidBounds(b) && ValidDate(d)
  {
    (b.min.Some? ==> !Before(d, b.min.value)) && (b.max.Some? ==> !Before(b.max.value, d))
  }

  /** `_isDisabledDate`: a date is disabled when it lies before a set min or after a set max. */
  function IsDisabled(b: Bounds, d: DateTime): (r: bool)
    requires ValidBounds(b) && ValidDate(d)
    ensures r <==> (b.min.Some? && Before(d, b.min.value)) || (b.max.Some? && Before(b.max.value, d))
    ensures r <==> !InRange(b, d)
    ensures b.min.None? && b.max.None? ==> !r
  {
    if b.min.Some? && b.max.Some? then
      Before(d, b.min.value) || Before(b.max.value, d)
    else if b.min.Some? then
      Before(d, b.min.value)
    else if b.max.Some? then
      Before(b.max.value, d)
    else
      false
  }

  /**
   * What the `displayDate` setter stores for a valid date: pulled up to min when it is
   * before min, then pulled down to max when it is after max.
   */
  function Clamp(b: Bounds, d: DateTime): (r: DateTime)
    requires ValidBounds(b) && ValidDate(d)
    ensures ValidDate(r)
    ensures r == d || (b.min.Some? && r == b.min.value) || (b.max.Some? && r == b.max.value)
    ensures Ordered(b) ==> InRange(b, r)
    ensures InRange(b, d) ==> r == d
    ensures Ordered(b) && b.min.Some? && Before(d, b.min.value) ==> r == b.min.value
    ensures b.max.Some? && Before(b.max.value, d) ==> r == b.max.value
  {
    var raised := if b.min.Some? && Before(d, b.min.value) then b.min.value else d;
    if b.max.Some? && Before(b.max.value, raised) then b.max.value else raised
  }

  /** Clamping twice is clamping once, whenever the bounds do not cross. */
  lemma ClampIdempotent(b: Bounds, d: DateTime)
    requires ValidBounds(b) && ValidDate(d) && Ordered(b)
    ensures Clamp(b, Clamp(b, d)) == Clamp(b, d)
  {
  }

  /** A clamped cursor never lands on a date the calendar would show as disabled. */
  lemma ClampNeverDisabled(b: Bounds, d: DateTime)
    requires ValidBounds(b) && ValidDate(d) && Ordered(b)
    ensures !IsDisabled(b, Clamp(b, d))
  {
  }

  /** With crossed bounds (max before min) every date is clamped to max. */
  lemma ClampCrossed(b: Bounds, d: DateTime)
    requires ValidBounds(b) && ValidDate(d) && !Ordered(b)
    ensures Clamp(b, d) == b.max.value
  {
  }

  /** On valid dates, the field order `Before` is the order of the instants the dates denote. */
  lemma BeforeIsStampOrder(a: DateTime, c: DateTime)
    requires ValidDate(a) && ValidDate(c)
    ensures Before(a, c) <==> Stamp(a) < Stamp(c)
  {
    DayNumberOrder(a.year, a.month, a.day, c.year, c.month, c.day);
    DayNumberOrder(c.year, c.month, c.day, a.year, a.month, a.day);
  }

  /** Day numbers increase with the (year, month, day) order. */
  lemma DayNumberOrder(y1: int, m1: int, d1: int, y2: int, m2: int, d2: int)
    requires 0 <= m1 < 12 && 1 <= d1 <= DaysInMonth(y1, m1)
    requires 0 <= m2 < 12 && 1 <= d2 <= DaysInMonth(y2, m2)
    ensures y1 < y2 || (y1 == y2 && (m1 < m2 || (m1 == m2 && d1 < d2)))
            ==> DayNumber(y1, m1, d1) < DayNumber(y2, m2, d2)
  {
    if y1 < y2 {
      DayInYear(y1, m1, d1);
      YearStep(y1);
      YearsIncrease(y1 + 1, y2);
      DaysBeforeMonthNonNegative(y2, m2);
    } else if y1 == y2 && m1 < m2 {
      DaysBeforeMonthGrows(y1, m1 + 1, m2);
    }
  }

  lemma {:induction false} DaysBeforeMonthNonNegative(y: int, m: int)
    requires 0 <= m <= 12
    ensures DaysBeforeMonth(y, m) >= 0
    decreases m
  {
    if m > 0 {
      DaysBeforeMonthNonNegative(y, m - 1);
    }
  }

  lemma {:induction false} DaysBeforeMonthGrows(y: int, m: int, n: int)
    requires 0 <= m <= n <= 12
    ensures DaysBeforeMonth(y, m) <= DaysBeforeMonth(y, n)
    decreases n - m
  {
    if m < n {
      DaysBeforeMonthGrows(y, m + 1, n);
    }
  }

  /** Every day of year `y` falls before the first day of year `y + 1`. */
  lemma DayInYear(y: int, m: int, d: int)
    requires 0 <= m < 12 && 1 <= d <= DaysInMonth(y, m)
    ensures DaysBeforeMonth(y, m) + d <= DaysBeforeMonth(y, 12)
  {
    DaysBeforeMonthGrows(y, m + 1, 12);
  }

  lemma {:induction false} YearsIncrease(y1: int, y2: int)
    requires y1 <= y2
    ensures DaysBeforeYear(y1) <= DaysBeforeYear(y2)
    decreases y2 - y1
  {
    if y1 < y2 {
      YearStep(y1);
      DaysBeforeMonthNonNegative(y1, 12);
      YearsIncrease(y1 + 1, y2);
    }
  }
}
