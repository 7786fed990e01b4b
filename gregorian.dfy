/**
 * An independent reference for the proleptic Gregorian calendar, written from
 * the calendar's definition (a year-by-year and month-by-month day count) and
 * not from any closed-form formula. The date arithmetic of the program is
 * checked against it.
 */
module Gregorian {

  /** Divisible by 4, and not by 100 unless also by 400. */
  predicate Leap(y: int) {
    y % 4 == 0 && (y % 100 != 0 || y % 400 == 0)
  }

  /** Month lengths of a common year, January first. */
  const CommonMonthLengths: seq<int> := [31, 28, 31, 30, 31, 30, 31, 31, 30, 31, 30, 31]

  function MonthLength(m: int, y: int): (r: int)
    requires 1 <= m <= 12
  {
    if m == 2 && Leap(y) then 29 else CommonMonthLengths[m - 1]
  }

  function YearLength(y: int): (r: int) {
    if Leap(y) then 366 else 365
  }

  /** Days from 0001-01-01 to the first of January of year y. */
  function DaysBeforeYear(y: int): (r: nat)
    requires y >= 1
    decreases y
  {
    if y == 1 then 0 else DaysBeforeYear(y - 1) + YearLength(y - 1)
  }

  /** Days from the first of January of year y to the first of month m. */
  function DaysBeforeMonth(m: int, y: int): (r: nat)
    requires 1 <= m <= 12
  {
    if m == 1 then 0 else DaysBeforeMonth(m - 1, y) + MonthLength(m - 1, y)
  }

  /** Number of day d of month m of year y, counting 0001-01-01 as day 0. */
  function DayNumber(y: int, m: int, d: int): (r: int)
    requires y >= 1 && 1 <= m <= 12
  {
    DaysBeforeYear(y) + DaysBeforeMonth(m, y) + d - 1
  }

  /** Weekday, 0 = Sunday .. 6 = Saturday; 0001-01-01 (proleptic Gregorian) was a Monday. */
  function Weekday(y: int, m: int, d: int): (r: int)
    requires y >= 1 && 1 <= m <= 12
  {
    (DayNumber(y, m, d) + 1) % 7
  }

  /** Closed form of the year count, used to evaluate dates without unrolling thousands of years. */
  lemma {:induction false} DaysBeforeYearClosedForm(y: int)
    requires y >= 1
    ensures DaysBeforeYear(y) == 365 * (y - 1) + (y - 1) / 4 - (y - 1) / 100 + (y - 1) / 400
  {
    if y > 1 {
      DaysBeforeYearClosedForm(y - 1);
      ClosedFormStep(y - 1, DaysBeforeYear(y - 1));
    }
  }

  /** One year more in the closed form adds the length of that year. */
  lemma ClosedFormStep(x: int, prev: int)
    requires x >= 1
    requires prev == 365 * (x - 1) + (x - 1) / 4 - (x - 1) / 100 + (x - 1) / 400
    ensures prev + YearLength(x) == 365 * x + x / 4 - x / 100 + x / 400
  {
    StepDiv(x);
    LeapIndicator(x);
  }

  /** The leap day counted by the closed form: one for each of 4, minus one for 100, plus one for 400 dividing y. */
  lemma LeapIndicator(y: nat)
    ensures YearLength(y) - 365
         == (if y % 4 == 0 then 1 else 0) - (if y % 100 == 0 then 1 else 0) + (if y % 400 == 0 then 1 else 0)
  {
    if y % 400 == 0 {
      Divides400(y);
    }
    if y % 100 == 0 {
      Divides100(y);
    }
  }

  lemma Divides100(y: nat)
    requires y % 100 == 0
    ensures y % 4 == 0
  {
    var q := y / 100;
    assert y == 4 * (25 * q);
    MultipleOf4(25 * q);
  }

  lemma Divides400(y: nat)
    requires y % 400 == 0
    ensures y % 100 == 0
  {
    var q := y / 400;
    assert y == 100 * (4 * q);
    MultipleOf100(4 * q);
  }

  lemma MultipleOf4(k: int)
    ensures (4 * k) % 4 == 0
  {
  }

  lemma MultipleOf100(k: int)
    ensures (100 * k) % 100 == 0
  {
  }

  /** Going from x - 1 to x raises the quotient by k by one exactly when k divides x (k = 4, 100, 400). */
  lemma StepDiv(x: int)
    requires x >= 1
    ensures x / 4 == (x - 1) / 4 + (if x % 4 == 0 then 1 else 0)
    ensures x / 100 == (x - 1) / 100 + (if x % 100 == 0 then 1 else 0)
    ensures x / 400 == (x - 1) / 400 + (if x % 400 == 0 then 1 else 0)
  {
  }

  /** Days before the first of each month, as a table with the leap day after February. */
  lemma {:induction false} DaysBeforeMonthTable(m: int, y: int)
    requires 1 <= m <= 12
    ensures DaysBeforeMonth(m, y)
         == [0, 31, 59, 90, 120, 151, 181, 212, 243, 273, 304, 334][m - 1] + (if m >= 3 && Leap(y) then 1 else 0)
  {
    if m > 1 {
      DaysBeforeMonthTable(m - 1, y);
    }
  }

  /** Two dates everybody knows: 1 January 2023 was a Sunday, 1 July 2024 a Monday. */
  lemma KnownWeekdays()
    ensures Weekday(2023, 1, 1) == 0
    ensures Weekday(2024, 7, 1) == 1
  {
    DaysBeforeYearClosedForm(2023);
    DaysBeforeYearClosedForm(2024);
    DaysBeforeMonthTable(1, 2023);
    DaysBeforeMonthTable(7, 2024);
  }
}

