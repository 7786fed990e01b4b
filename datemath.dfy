/**
 * The date arithmetic of src/main.c: leap years, month lengths (with the bit
 * trick of days_in_month) and the closed-form first-weekday congruence. C's
 * `/` and `%` on `int` truncate toward zero; CDiv and CMod model them.
 */
module DateMath {
  import Gregorian

  /** C's `a / b` on int for b > 0: truncates toward zero. */
  function CDiv(a: int, b: int): (r: int)
    requires b > 0
  {
    if a >= 0 then a / b else -((-a) / b)
  }

  /** C's `a % b` on int for b > 0: takes the sign of a. */
  function CMod(a: int, b: int): (r: int)
    requires b > 0
  {
    a - b * CDiv(a, b)
  }

  /**
   * `year % 4 == 0 && (year % 100 != 0 || year % 400 == 0)`. A remainder is
   * zero under C's truncating `%` exactly when it is zero under Dafny's, so
   * Dafny's operator is used.
   */
  predicate IsLeapYear(year: int): (b: bool)
    ensures year % 4 != 0 ==> !b
    ensures year % 4 == 0 && year % 100 != 0 ==> b
    ensures year % 100 == 0 && year % 400 != 0 ==> !b
    ensures year % 400 == 0 ==> b
  {
    assert year % 400 == 0 ==> year % 4 == 0 && year % 100 == 0 by {
      if year % 400 == 0 {
        var q := year / 400;
        assert year == 4 * (100 * q) == 100 * (4 * q);
      }
    }
    year % 4 == 0 && (year % 100 != 0 || year % 400 == 0)
  }

  /**
   * Number of days of month (1..12) in year; 0 for any other month. Months
   * other than February use `30 | ((month & 1) ^ (month >> 3))`.
   */
  function DaysInMonth(month: int, year: int): (r: int)
    ensures !(1 <= month <= 12) ==> r == 0
    ensures month == 2 ==> (r == 29 <==> IsLeapYear(year)) && (r == 28 <==> !IsLeapYear(year))
    ensures 1 <= month <= 12 ==> r == Gregorian.MonthLength(month, year)
    ensures month in {1, 3, 5, 7, 8, 10, 12} ==> r == 31
    ensures month in {4, 6, 9, 11} ==> r == 30
  {
    if month < 1 || month > 12 then 0
    else if month == 2 then (if IsLeapYear(year) then 29 else 28)
    else
      var m := month as bv8;
      BitTrickTable(m);
      (30 | ((m & 1) ^ (m >> 3))) as int
  }

  /** The bit trick reproduces the Gregorian month lengths, month by month. */
  lemma BitTrickTable(m: bv8)
    requires 1 <= m <= 12 && m != 2
    ensures (30 | ((m & 1) ^ (m >> 3))) as int == Gregorian.CommonMonthLengths[m as int - 1]
  {
    if m == 1 {} else if m == 3 {} else if m == 4 {} else if m == 5 {} else if m == 6 {}
    else if m == 7 {} else if m == 8 {} else if m == 9 {} else if m == 10 {} else if m == 11 {}
    else {}
  }

  /**
   * first_dow_zeller, exactly as written: January and February count as
   * months 13 and 14 of the previous year, and Zeller's day-of-month term q
   * is absent. The final `(h + 6) % 7` maps Zeller's 0 = Saturday to
   * 0 = Sunday.
   */
  function FirstDowZeller(month: int, year: int): (r: int)
    ensures year >= 0 ==> 0 <= r < 7
  {
    var m := if month <= 2 then month + 12 else month;
    var y := if month <= 2 then year - 1 else year;
    var k := CMod(y, 100);
    var j := CDiv(y, 100);
    var h := CMod(CDiv(13 * (m + 1), 5) + k + CDiv(k, 4) + CDiv(j, 4) + 5 * j, 7);
    CMod(h + 6, 7)
  }

  /**
   * Because q is missing, the formula gives the weekday of the day BEFORE the
   * first of the month: one less (mod 7) than the Gregorian weekday of day 1.
   */
  lemma ZellerIsDayBeforeFirst(month: int, year: int)
    requires 1 <= month <= 12 && year >= 1
    ensures FirstDowZeller(month, year) == (Gregorian.Weekday(year, month, 1) + 6) % 7
    ensures FirstDowZeller(month, year) == Gregorian.DayNumber(year, month, 1) % 7
  {
    ZellerDayNumber(month, year);
    WeekdayBefore(year, month);
  }

  lemma ZellerDayNumber(month: int, year: int)
    requires 1 <= month <= 12 && year >= 1
    ensures FirstDowZeller(month, year) == Gregorian.DayNumber(year, month, 1) % 7
  {
    var m := if month <= 2 then month + 12 else month;
    var y := if month <= 2 then year - 1 else year;
    var k, j := y % 100, y / 100;
    var t := 13 * (m + 1) / 5;
    var s := t + k + k / 4 + j / 4 + 5 * j;
    var c := 365 * y + y / 4 - y / 100 + y / 400;
    var d := Gregorian.DayNumber(year, month, 1);
    ZellerNonNegative(month, year, m, y, s);
    MonthTerm(m);
    CenturyTerms(y, k, j);
    DayNumberShifted(month, year, m, y);
    Combine(s, t, FromMarch(m), c, 5217 * j + 52 * k, d);
    ModShift(s, d);
  }

  /** The day before a day of weekday w has weekday (w + 6) % 7. */
  lemma WeekdayBefore(year: int, month: int)
    requires 1 <= month <= 12 && year >= 1
    ensures (Gregorian.Weekday(year, month, 1) + 6) % 7 == Gregorian.DayNumber(year, month, 1) % 7
  {
    var d := Gregorian.DayNumber(year, month, 1);
    assert Gregorian.Weekday(year, month, 1) == (d + 1) % 7;
    ModShift(d + 1, d);
  }

  /** January 2023 yields 6 (Saturday 31 December 2022), July 2024 yields 0 (Sunday 30 June 2024). */
  lemma ZellerExamples()
    ensures FirstDowZeller(1, 2023) == 6 && Gregorian.Weekday(2023, 1, 1) == 0
    ensures FirstDowZeller(7, 2024) == 0 && Gregorian.Weekday(2024, 7, 1) == 1
  {
    Gregorian.KnownWeekdays();
    ZellerIsDayBeforeFirst(1, 2023);
    ZellerIsDayBeforeFirst(7, 2024);
  }

  /** Days from 1 March to the first of month m, with m = 13, 14 for January and February of the next year. */
  function FromMarch(m: int): (r: int)
    requires 3 <= m <= 14
  {
    [0, 31, 61, 92, 122, 153, 184, 214, 245, 275, 306, 337][m - 3]
  }

  /** For a year that is not negative after the shift, C's operators agree with Dafny's. */
  lemma ZellerNonNegative(month: int, year: int, m: int, y: int, s: int)
    requires 1 <= month <= 12 && year >= 1
    requires m == (if month <= 2 then month + 12 else month) && y == (if month <= 2 then year - 1 else year)
    requires s == 13 * (m + 1) / 5 + y % 100 + (y % 100) / 4 + (y / 100) / 4 + 5 * (y / 100)
    ensures FirstDowZeller(month, year) == ((s % 7) + 6) % 7
  {
  }

  lemma Combine(s: int, t: int, f: int, c: int, z: int, d: int)
    requires (t - f - 3) % 7 == 0
    requires c - (s - t) == 7 * z
    requires d == c + f - 306
    ensures (s - (d + 1)) % 7 == 0
  {
    assert s - (d + 1) == (t - f - 3) - 7 * z + 7 * 44;
  }

  lemma ModShift(s: int, d: int)
    requires (s - (d + 1)) % 7 == 0
    ensures ((s % 7) + 6) % 7 == d % 7
    ensures ((s % 7) + 6) % 7 == (((d + 1) % 7) + 6) % 7
  {
  }

  lemma MonthTerm(m: int)
    requires 3 <= m <= 14
    ensures (13 * (m + 1) / 5 - FromMarch(m) - 3) % 7 == 0
  {
    if m == 3 {} else if m == 4 {} else if m == 5 {} else if m == 6 {} else if m == 7 {} else if m == 8 {}
    else if m == 9 {} else if m == 10 {} else if m == 11 {} else if m == 12 {} else if m == 13 {} else {}
  }

  /**
   * With y = 100 j + k: y / 4 = 25 j + k / 4, y / 100 = j and y / 400 = j / 4,
   * so the year terms of the day count and of Zeller's sum differ by a multiple of 7.
   */
  lemma CenturyTerms(y: int, k: int, j: int)
    requires y >= 0 && k == y % 100 && j == y / 100
    ensures 365 * y + y / 4 - y / 100 + y / 400 - (k + k / 4 + j / 4 + 5 * j) == 7 * (5217 * j + 52 * k)
  {
    assert y == 100 * j + k;
    assert y / 4 == 25 * j + k / 4;
    assert y / 400 == j / 4;
  }

  /** The first of month m of year y is 306 days before 1 March of the shifted year, plus the offset from March. */
  lemma DayNumberShifted(month: int, year: int, m: int, y: int)
    requires 1 <= month <= 12 && year >= 1
    requires m == (if month <= 2 then month + 12 else month) && y == (if month <= 2 then year - 1 else year)
    ensures Gregorian.DayNumber(year, month, 1) == 365 * y + y / 4 - y / 100 + y / 400 + FromMarch(m) - 306
  {
    var dby := Gregorian.DaysBeforeYear(year);
    var dbm := Gregorian.DaysBeforeMonth(month, year);
    assert Gregorian.DayNumber(year, month, 1) == dby + dbm;
    Gregorian.DaysBeforeYearClosedForm(year);
    Gregorian.DaysBeforeMonthTable(month, year);
    if month <= 2 {
      assert dbm == (if month == 2 then 31 else 0);
      assert FromMarch(month + 12) == 306 + dbm;
    } else {
      Gregorian.ClosedFormStep(year, dby);
      assert dbm == FromMarch(month) + 59 + (if Gregorian.Leap(year) then 1 else 0);
      assert 365 * year + year / 4 - year / 100 + year / 400 == dby + 365 + (if Gregorian.Leap(year) then 1 else 0);
    }
  }
}
