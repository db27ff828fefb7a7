/**
 Calendar dates and timestamps as the dashboard compares them.

 A `Date` is the calendar date that `.dt.date` extracts from a pandas
 timestamp; two dates compare the way Python's `datetime.date` does, field
 by field (year, then month, then day). A `Timestamp` is a `Date` plus the
 time of day in nanoseconds, ordered first by date and then by time.

 The module also defines the proleptic Gregorian day ordinal (what
 `date.toordinal()` returns, 0001-01-01 being day 1) and proves that on
 valid dates the field-by-field order is exactly the chronological order.
 */
module Dates {

  datatype Date = Date(year: int, month: int, day: int)

  /** A pandas `datetime64[ns]` value: a calendar date and a time of day. */
  datatype Timestamp = Timestamp(date: Date, nanosOfDay: nat)

  /** `a <= b` on `datetime.date`: lexicographic on (year, month, day). */
  predicate DateLe(a: Date, b: Date) {
    || a.year < b.year
    || (a.year == b.year && a.month < b.month)
    || (a.year == b.year && a.month == b.month && a.day <= b.day)
  }

  predicate DateLt(a: Date, b: Date) {
    DateLe(a, b) && a != b
  }

  /** `a <= b` on timestamps: by date first, then by time of day. */
  predicate StampLe(a: Timestamp, b: Timestamp) {
    DateLt(a.date, b.date) || (a.date == b.date && a.nanosOfDay <= b.nanosOfDay)
  }

  /** Truncating a timestamp to its date (`.dt.date`) keeps the order. */
  lemma StampLeDate(a: Timestamp, b: Timestamp)
    requires StampLe(a, b)
    ensures DateLe(a.date, b.date)
  {
  }

  /** `DateLe` is a total order. */
  lemma DateLeTotalOrder(a: Date, b: Date, c: Date)
    ensures DateLe(a, a)
    ensures DateLe(a, b) || DateLe(b, a)
    ensures DateLe(a, b) && DateLe(b, a) ==> a == b
    ensures DateLe(a, b) && DateLe(b, c) ==> DateLe(a, c)
  {
  }

  // ---------------------------------------------------------------------
  // The proleptic Gregorian calendar and day ordinals
  // ---------------------------------------------------------------------

  const MinYear := 1
  const MaxYear := 9999

  predicate IsLeapYear(y: int) {
    y % 4 == 0 && (y % 100 != 0 || y % 400 == 0)
  }

  function DaysInYear(y: int): nat {
    if IsLeapYear(y) then 366 else 365
  }

  function DaysInMonth(y: int, m: int): nat
    requires 1 <= m <= 12
  {
    if m == 2 then (if IsLeapYear(y) then 29 else 28)
    else if m == 4 || m == 6 || m == 9 || m == 11 then 30
    else 31
  }

  /** The dates `datetime.date` can represent. */
  predicate ValidDate(d: Date) {
    && MinYear <= d.year <= MaxYear
    && 1 <= d.month <= 12
    && 1 <= d.day <= DaysInMonth(d.year, d.month)
  }

  /** Days in the years before year `y`, counted from 0001-01-01. */
  function DaysBeforeYear(y: int): nat
    requires MinYear <= y <= MaxYear + 1
    decreases y
  {
    if y == MinYear then 0 else DaysBeforeYear(y - 1) + DaysInYear(y - 1)
  }

  /** Days in the months of year `y` before month `m`. */
  function DaysBeforeMonth(y: int, m: int): nat
    requires 1 <= m <= 13
    decreases m
  {
    if m == 1 then 0 else DaysBeforeMonth(y, m - 1) + DaysInMonth(y, m - 1)
  }

  /** `date.toordinal()`: 0001-01-01 is day 1. */
  function Ordinal(d: Date): (n: nat)
    requires ValidDate(d)
  {
    DaysBeforeYear(d.year) + DaysBeforeMonth(d.year, d.month) + d.day
  }

  lemma {:induction false} MonthsFillYear(y: int, m: int)
    requires 1 <= m <= 13
    ensures DaysBeforeMonth(y, m) <= DaysInYear(y)
    ensures m == 13 ==> DaysBeforeMonth(y, m) == DaysInYear(y)
    decreases 13 - m
  {
    if m < 13 {
      MonthsFillYear(y, m + 1);
    }
  }

  lemma {:induction false} DaysBeforeMonthMonotone(y: int, m1: int, m2: int)
    requires 1 <= m1 <= m2 <= 13
    ensures DaysBeforeMonth(y, m1) <= DaysBeforeMonth(y, m2)
    decreases m2 - m1
  {
    if m1 < m2 {
      DaysBeforeMonthMonotone(y, m1, m2 - 1);
    }
  }

  lemma {:induction false} DaysBeforeYearMonotone(y1: int, y2: int)
    requires MinYear <= y1 <= y2 <= MaxYear + 1
    ensures DaysBeforeYear(y1) <= DaysBeforeYear(y2)
    decreases y2 - y1
  {
    if y1 < y2 {
      DaysBeforeYearMonotone(y1, y2 - 1);
    }
  }

  /** Every day of year `y` has an ordinal in `(DaysBeforeYear(y), DaysBeforeYear(y + 1)]`. */
  lemma OrdinalWithinYear(d: Date)
    requires ValidDate(d)
    ensures DaysBeforeYear(d.year) < Ordinal(d) <= DaysBeforeYear(d.year + 1)
  {
    DaysBeforeMonthMonotone(d.year, d.month + 1, 13);
    MonthsFillYear(d.year, 13);
  }

  /** Every day of month `m` has an ordinal offset in `(DaysBeforeMonth(y, m), DaysBeforeMonth(y, m + 1)]`. */
  lemma OrdinalWithinMonth(d: Date)
    requires ValidDate(d)
    ensures DaysBeforeMonth(d.year, d.month) < Ordinal(d) - DaysBeforeYear(d.year)
    ensures Ordinal(d) - DaysBeforeYear(d.year) <= DaysBeforeMonth(d.year, d.month + 1)
  {
  }

  /** Strictly earlier in field order means a strictly smaller ordinal. */
  lemma DateLtOrdinal(a: Date, b: Date)
    requires ValidDate(a) && ValidDate(b)
    requires DateLt(a, b)
    ensures Ordinal(a) < Ordinal(b)
  {
    OrdinalWithinYear(a);
    OrdinalWithinYear(b);
    if a.year < b.year {
      DaysBeforeYearMonotone(a.year + 1, b.year);
    } else if a.month < b.month {
      OrdinalWithinMonth(a);
      OrdinalWithinMonth(b);
      DaysBeforeMonthMonotone(a.year, a.month + 1, b.month);
    }
  }

  /**
   On valid dates, comparing `datetime.date` values field by field agrees
   with comparing their day ordinals: the filter's bounds are chronological.
   */
  lemma DateLeIffOrdinalLe(a: Date, b: Date)
    requires ValidDate(a) && ValidDate(b)
    ensures DateLe(a, b) <==> Ordinal(a) <= Ordinal(b)
  {
    if a == b {
    } else if DateLe(a, b) {
      DateLtOrdinal(a, b);
    } else {
      DateLeTotalOrder(a, b, b);
      DateLtOrdinal(b, a);
    }
  }
}
