/**
 * Proleptic Gregorian calendar dates as Python's `datetime` module handles
 * them: years 1 to 9999, the Gregorian leap-year rule, and the ordinal day
 * number (day 1 is 0001-01-01) that `toordinal` computes and that date
 * subtraction is defined by.
 */
module Calendar {

  const MinYear: int := 1
  const MaxYear: int := 9999

  datatype Date = Date(year: int, month: int, day: int)

  predicate IsLeapYear(y: int) {
    y % 4 == 0 && (y % 100 != 0 || y % 400 == 0)
  }

  function DaysInYear(y: int): int {
    if IsLeapYear(y) then 366 else 365
  }

  function DaysInMonth(y: int, m: int): (n: int)
    requires 1 <= m <= 12
    ensures 28 <= n <= 31
    ensures n == 29 <==> m == 2 && IsLeapYear(y)
  {
    if m == 2 then (if IsLeapYear(y) then 29 else 28)
    else if m == 4 || m == 6 || m == 9 || m == 11 then 30
    else 31
  }

  /** A date `date(year, month, day)` accepts without raising ValueError. */
  predicate ValidDate(d: Date) {
    MinYear <= d.year <= MaxYear && 1 <= d.month <= 12 && 1 <= d.day <= DaysInMonth(d.year, d.month)
  }

  /** Days in the years before `y`, in closed form (CPython's `_days_before_year`). */
  function DaysBeforeYear(y: int): int
    requires y >= 1
  {
    var p := y - 1;
    365 * p + p / 4 - p / 100 + p / 400
  }

  /** Days in the months of year `y` before month `m` (CPython's `_days_before_month`). */
  function DaysBeforeMonth(y: int, m: int): int
    requires 1 <= m <= 12
  {
    [0, 31, 59, 90, 120, 151, 181, 212, 243, 273, 304, 334][m - 1]
      + (if m > 2 && IsLeapYear(y) then 1 else 0)
  }

  /** The ordinal day number of a date; 0001-01-01 is day 1. */
  function Ordinal(d: Date): int
    requires ValidDate(d)
  {
    DaysBeforeYear(d.year) + DaysBeforeMonth(d.year, d.month) + d.day
  }

  /** The whole number of days from `earlier` to `later`, as `(later - earlier).days`
    * gives it for two datetimes at the same time of day. */

  // ---------------------------------------------------------------------
  // Reference definitions: the day count obtained by adding up whole years
  // and whole months one at a time.

  function YearStart(y: int): int
    requires y >= 1
    decreases y
  {
    if y == 1 then 0 else YearStart(y - 1) + DaysInYear(y - 1)
  }

  function MonthStart(y: int, m: int): int
    requires 1 <= m <= 12
    decreases m
  {
    if m == 1 then 0 else MonthStart(y, m - 1) + DaysInMonth(y, m - 1)
  }

  /** Calendar order of dates: by year, then month, then day. */
  predicate Before(a: Date, b: Date) {
    a.year < b.year
    || (a.year == b.year && a.month < b.month)
    || (a.year == b.year && a.month == b.month && a.day < b.day)
  }

  predicate IsLastDate(d: Date) {
    d.year == MaxYear && d.month == 12 && d.day == 31
  }

  /** The calendar day after `d`. */
  function NextDay(d: Date): (r: Date)
    requires ValidDate(d) && !IsLastDate(d)
    ensures ValidDate(r) && Before(d, r)
  {
    if d.day < DaysInMonth(d.year, d.month) then Date(d.year, d.month, d.day + 1)
    else if d.month < 12 then Date(d.year, d.month + 1, 1)
    else Date(d.year + 1, 1, 1)
  }

  // ---------------------------------------------------------------------
  // The closed form agrees with the reference count.

  /** Stepping a count past a multiple of one of the leap-rule periods raises its quotient by one. */
  lemma DivStep(p: int, k: int)
    requires p >= 0 && (k == 4 || k == 100 || k == 400)
    ensures (p + 1) / k - p / k == if (p + 1) % k == 0 then 1 else 0
  {
    if k == 4 {
      assert (p + 1) / 4 - p / 4 == if (p + 1) % 4 == 0 then 1 else 0;
    } else if k == 100 {
      assert (p + 1) / 100 - p / 100 == if (p + 1) % 100 == 0 then 1 else 0;
    } else {
      assert (p + 1) / 400 - p / 400 == if (p + 1) % 400 == 0 then 1 else 0;
    }
  }

  lemma MultipleOf400(y: int)
    requires y % 400 == 0
    ensures y % 100 == 0 && y % 4 == 0
  {
    var q := y / 400;
    assert y == 100 * (4 * q);
    assert y == 4 * (100 * q);
  }

  lemma MultipleOf100(y: int)
    requires y % 100 == 0
    ensures y % 4 == 0
  {
    var q := y / 100;
    assert y == 4 * (25 * q);
  }

  /** One more year adds exactly that year's length to the closed form. */
  lemma DaysBeforeYearStep(y: int)
    requires y >= 1
    ensures DaysBeforeYear(y + 1) == DaysBeforeYear(y) + DaysInYear(y)
  {
    DivStep(y - 1, 4);
    DivStep(y - 1, 100);
    DivStep(y - 1, 400);
    if y % 400 == 0 {
      MultipleOf400(y);
    } else if y % 100 == 0 {
      MultipleOf100(y);
    }
  }

  lemma {:induction false} DaysBeforeYearIsYearStart(y: int)
    requires y >= 1
    ensures DaysBeforeYear(y) == YearStart(y)
    decreases y
  {
    if y > 1 {
      DaysBeforeYearIsYearStart(y - 1);
      DaysBeforeYearStep(y - 1);
    }
  }

  lemma DaysBeforeMonthIsMonthStart(y: int, m: int)
    requires 1 <= m <= 12
    ensures DaysBeforeMonth(y, m) == MonthStart(y, m)
  {
    assert MonthStart(y, 2) == 31;
    assert MonthStart(y, 3) == 31 + DaysInMonth(y, 2);
    assert MonthStart(y, 12) == DaysBeforeMonth(y, 12);
  }

  /** The ordinal number is the count of days in all earlier years, all earlier
    * months of the same year, and the day of the month. */
  lemma OrdinalCountsDays(d: Date)
    requires ValidDate(d)
    ensures Ordinal(d) == YearStart(d.year) + MonthStart(d.year, d.month) + d.day
  {
    DaysBeforeYearIsYearStart(d.year);
    DaysBeforeMonthIsMonthStart(d.year, d.month);
  }

  // ---------------------------------------------------------------------
  // Order and successor.

  lemma {:induction false} MonthStartGrows(y: int, m: int, n: int)
    requires 1 <= m < n <= 12
    ensures MonthStart(y, m) + DaysInMonth(y, m) <= MonthStart(y, n)
    decreases n
  {
    if m < n - 1 {
      MonthStartGrows(y, m, n - 1);
    }
  }

  lemma YearEndsAtDecember(y: int)
    ensures MonthStart(y, 12) + DaysInMonth(y, 12) == DaysInYear(y)
  {
    DaysBeforeMonthIsMonthStart(y, 12);
  }

  lemma {:induction false} YearStartGrows(a: int, b: int)
    requires 1 <= a < b
    ensures YearStart(a) + DaysInYear(a) <= YearStart(b)
    decreases b
  {
    if a < b - 1 {
      YearStartGrows(a, b - 1);
    }
  }

  /** Every valid date lies inside its own year's span of day numbers. */
  lemma OrdinalWithinYear(d: Date)
    requires ValidDate(d)
    ensures YearStart(d.year) < Ordinal(d) <= YearStart(d.year) + DaysInYear(d.year)
  {
    OrdinalCountsDays(d);
    if d.month < 12 {
      MonthStartGrows(d.year, d.month, 12);
    }
    YearEndsAtDecember(d.year);
  }

  /** The day number respects calendar order. */
  lemma OrdinalMonotone(a: Date, b: Date)
    requires ValidDate(a) && ValidDate(b)
    ensures Before(a, b) <==> Ordinal(a) < Ordinal(b)
  {
    OrdinalCountsDays(a);
    OrdinalCountsDays(b);
    OrdinalWithinYear(a);
    OrdinalWithinYear(b);
    if a.year < b.year {
      YearStartGrows(a.year, b.year);
    } else if b.year < a.year {
      YearStartGrows(b.year, a.year);
    } else if a.month < b.month {
      MonthStartGrows(a.year, a.month, b.month);
    } else if b.month < a.month {
      MonthStartGrows(a.year, b.month, a.month);
    }
  }

  /** Distinct valid dates have distinct day numbers. */
  lemma OrdinalInjective(a: Date, b: Date)
    requires ValidDate(a) && ValidDate(b)
    ensures Ordinal(a) == Ordinal(b) <==> a == b
  {
    OrdinalMonotone(a, b);
    OrdinalMonotone(b, a);
  }

  /** Consecutive calendar days have consecutive day numbers. */
  lemma OrdinalNextDay(d: Date)
    requires ValidDate(d) && !IsLastDate(d)
    ensures Ordinal(NextDay(d)) == Ordinal(d) + 1
  {
    var e := NextDay(d);
    OrdinalCountsDays(d);
    OrdinalCountsDays(e);
    if d.day == DaysInMonth(d.year, d.month) && d.month == 12 {
      YearEndsAtDecember(d.year);
      DaysBeforeYearIsYearStart(d.year);
      DaysBeforeYearIsYearStart(d.year + 1);
      DaysBeforeYearStep(d.year);
    }
  }

  /** The whole number of days from `earlier` to `later`, as `(later - earlier).days`
    * gives it for two datetimes at the same time of day: positive exactly when
    * `later` comes after `earlier` in the calendar, zero exactly on the same date. */
  function DaysBetween(earlier: Date, later: Date): (r: int)
    requires ValidDate(earlier) && ValidDate(later)
    ensures r > 0 <==> Before(earlier, later)
    ensures r < 0 <==> Before(later, earlier)
    ensures r == 0 <==> earlier == later
  {
    OrdinalMonotone(earlier, later);
    OrdinalMonotone(later, earlier);
    OrdinalInjective(earlier, later);
    Ordinal(later) - Ordinal(earlier)
  }
}
