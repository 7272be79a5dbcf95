/**
 * The day count behind the day pillar.  The source measures the distance
 * between two local `Date` values built as `new Date(year, month - 1, day)`;
 * this module gives the integer day number such a value stands for in the
 * proleptic Gregorian calendar, including `Date`'s rollover of overflowing
 * months and days and its mapping of the years 0..99 onto 1900..1999.
 */
module Calendar {

  import Cycles

  /** Divisible by 4, and not by 100 unless also by 400. */
  predicate IsLeapYear(y: int)
  {
    y % 4 == 0 && (y % 100 != 0 || y % 400 == 0)
  }

  function DaysInMonth(y: int, m: int): (n: int)
    requires 1 <= m <= 12
    ensures 28 <= n <= 31
    ensures n == 29 <==> m == 2 && IsLeapYear(y)
  {
    if m == 2 then (if IsLeapYear(y) then 29 else 28)
    else if m == 4 || m == 6 || m == 9 || m == 11 then 30
    else 31
  }

  function YearLength(y: int): int
  {
    if IsLeapYear(y) then 366 else 365
  }

  /** Days from 0001-01-01 to the first day of year `y` (negative before year 1). */
  function DaysBeforeYear(y: int): int
  {
    var p := y - 1;
    365 * p + p / 4 - p / 100 + p / 400
  }

  /** Days from the first day of year `y` to the first day of month `m`. */
  function DaysBeforeMonth(y: int, m: int): (n: int)
    requires 1 <= m <= 12
    ensures 0 <= n <= 31 * (m - 1)
  {
    if m == 1 then 0 else DaysBeforeMonth(y, m - 1) + DaysInMonth(y, m - 1)
  }

  /** The year argument as `new Date(year, ...)` reads it: 0..99 mean 1900..1999. */
  function DateYear(y: int): int
  {
    if 0 <= y <= 99 then 1900 + y else y
  }

  /**
   * The day number of (y, m, d) in the proleptic Gregorian calendar; a month
   * outside 1..12 moves into neighbouring years and a day outside the month
   * moves into neighbouring months, as `Date` does.
   */
  function DayNumber(y: int, m: int, d: int): int
  {
    var yy := y + (m - 1) / 12;
    var mm := (m - 1) % 12 + 1;
    DaysBeforeYear(yy) + DaysBeforeMonth(yy, mm) + (d - 1)
  }

  /**
   * The day number of `new Date(year, month - 1, day)`.  A valid date from
   * year 100 on needs no rollover: its number is the start of its year plus
   * the start of its month plus the days before it in the month.  A year in
   * 0..99 is counted as the same year of the 1900s.
   */
  function DateDayNumber(year: int, month: int, day: int): (n: int)
    ensures year >= 100 && ValidDate(year, month, day) ==>
      n == DaysBeforeYear(year) + DaysBeforeMonth(year, month) + (day - 1)
    ensures 0 <= year <= 99 && ValidDate(year + 1900, month, day) ==>
      n == DaysBeforeYear(year + 1900) + DaysBeforeMonth(year + 1900, month) + (day - 1)
  {
    if 1 <= month <= 12 then
      DayNumberInYear(DateYear(year), month, day);
      DayNumber(DateYear(year), month, day)
    else DayNumber(DateYear(year), month, day)
  }

  predicate ValidDate(y: int, m: int, d: int)
  {
    1 <= m <= 12 && 1 <= d <= DaysInMonth(y, m)
  }

  /** The calendar date that follows a valid date. */
  function NextDay(y: int, m: int, d: int): (r: (int, int, int))
    requires ValidDate(y, m, d)
    ensures ValidDate(r.0, r.1, r.2)
  {
    if d < DaysInMonth(y, m) then (y, m, d + 1)
    else if m < 12 then (y, m + 1, 1)
    else (y + 1, 1, 1)
  }

  lemma DivStep(p: int, n: int)
    requires n > 0
    ensures (p + 1) / n - p / n == if (p + 1) % n == 0 then 1 else 0
  {
    var q, r := p / n, p % n;
    if r == n - 1 {
      Cycles.ModUnique(p + 1, n, q + 1, 0);
    } else {
      Cycles.ModUnique(p + 1, n, q, r + 1);
    }
  }

  /** Consecutive years start YearLength days apart. */
  lemma {:induction false} DaysBeforeNextYear(y: int)
    ensures DaysBeforeYear(y + 1) == DaysBeforeYear(y) + YearLength(y)
  {
    DivStep(y - 1, 4);
    DivStep(y - 1, 100);
    DivStep(y - 1, 400);
  }

  /** The twelve months add up to the length of the year. */
  lemma MonthsFillYear(y: int)
    ensures DaysBeforeMonth(y, 12) + DaysInMonth(y, 12) == YearLength(y)
  {
    var leap := if IsLeapYear(y) then 1 else 0;
    assert DaysBeforeMonth(y, 3) == 59 + leap;
    assert DaysBeforeMonth(y, 4) == 90 + leap;
    assert DaysBeforeMonth(y, 5) == 120 + leap;
    assert DaysBeforeMonth(y, 6) == 151 + leap;
    assert DaysBeforeMonth(y, 7) == 181 + leap;
    assert DaysBeforeMonth(y, 8) == 212 + leap;
    assert DaysBeforeMonth(y, 9) == 243 + leap;
    assert DaysBeforeMonth(y, 10) == 273 + leap;
    assert DaysBeforeMonth(y, 11) == 304 + leap;
    assert DaysBeforeMonth(y, 12) == 334 + leap;
  }

  /** Within one year, DayNumber counts months and days without normalising. */
  lemma DayNumberInYear(y: int, m: int, d: int)
    requires 1 <= m <= 12
    ensures DayNumber(y, m, d) == DaysBeforeYear(y) + DaysBeforeMonth(y, m) + (d - 1)
  {
    assert (m - 1) / 12 == 0 && (m - 1) % 12 == m - 1;
  }

  /** Day DaysInMonth + k of a month is day k of the month after it. */
  lemma DayOverflow(y: int, m: int, k: int)
    requires 1 <= m <= 12
    ensures DayNumber(y, m, DaysInMonth(y, m) + k) == DayNumber(y, m + 1, k)
  {
    DayNumberInYear(y, m, DaysInMonth(y, m) + k);
    if m < 12 {
      DayNumberInYear(y, m + 1, k);
    } else {
      assert 12 / 12 == 1 && 12 % 12 == 0;
      DayNumberInYear(y + 1, 1, k);
      DaysBeforeNextYear(y);
      MonthsFillYear(y);
    }
  }

  /** Each calendar day, leap days included, is one day number after the one before. */
  lemma NextDayNumber(y: int, m: int, d: int)
    requires ValidDate(y, m, d)
    ensures var n := NextDay(y, m, d); DayNumber(n.0, n.1, n.2) == DayNumber(y, m, d) + 1
  {
    if d < DaysInMonth(y, m) {
      DayNumberInYear(y, m, d);
      DayNumberInYear(y, m, d + 1);
    } else {
      MonthEnd(y, m);
      if m == 12 {
        YearWrap(y);
      }
    }
  }

  /** The last day of a month is one day number before the first day of the month after it. */
  lemma MonthEnd(y: int, m: int)
    requires 1 <= m <= 12
    ensures DayNumber(y, m, DaysInMonth(y, m)) + 1 == DayNumber(y, m + 1, 1)
  {
    DayNumberInYear(y, m, DaysInMonth(y, m));
    DayNumberInYear(y, m, DaysInMonth(y, m) + 1);
    DayOverflow(y, m, 1);
  }

  /** Month 13 of a year is January of the next. */
  lemma YearWrap(y: int)
    ensures DayNumber(y, 13, 1) == DayNumber(y + 1, 1, 1)
  {
    assert 12 / 12 == 1 && 12 % 12 == 0;
    DayNumberInYear(y + 1, 1, 1);
  }

  /** Later years start later. */
  lemma {:induction false} DaysBeforeYearMonotone(a: int, b: int)
    requires a <= b
    ensures DaysBeforeYear(a) <= DaysBeforeYear(b)
    decreases b - a
  {
    if a < b {
      DaysBeforeNextYear(a);
      DaysBeforeYearMonotone(a + 1, b);
    }
  }

  /** A valid date lies within its year. */
  lemma DayWithinYear(y: int, m: int, d: int)
    requires ValidDate(y, m, d)
    ensures 0 <= DaysBeforeMonth(y, m) + (d - 1) < YearLength(y)
  {
    MonthsFillYear(y);
    MonthStartsBelowDecember(y, m);
  }

  lemma {:induction false} MonthStartsBelowDecember(y: int, m: int)
    requires 1 <= m <= 12
    ensures DaysBeforeMonth(y, m) + DaysInMonth(y, m) <= DaysBeforeMonth(y, 12) + DaysInMonth(y, 12)
    decreases 12 - m
  {
    if m < 12 {
      MonthStartsBelowDecember(y, m + 1);
    }
  }
}
