/**
 * The part of the JavaScript `Date` object that the calendar relies on,
 * reduced to whole days: a date is a proleptic Gregorian (year, month0, day)
 * triple, where `month0` is the zero-based month index that `getMonth()`
 * returns and `day` is what `getDate()` returns. Time of day, time zones and
 * daylight saving are not modelled.
 *
 * Dates are counted from day 0 = 0000-01-01, which was a Saturday. Every
 * constructor call that may overflow (`new Date(y, m, d)`, `setMonth`) is
 * modelled by `Normalize`, which walks month by month until the day fits and
 * is proved to keep the absolute day count unchanged.
 */
module Dates {

  datatype Date = Date(year: int, month0: int, day: int)

  /** Gregorian leap-year rule. */
  predicate IsLeapYear(year: int) {
    year % 4 == 0 && (year % 100 != 0 || year % 400 == 0)
  }

  /** Reference table of month lengths. */
  function MonthLength(year: int, month0: int): int
    requires 0 <= month0 < 12
  {
    if month0 == 1 then (if IsLeapYear(year) then 29 else 28)
    else if month0 == 3 || month0 == 5 || month0 == 8 || month0 == 10 then 30
    else 31
  }

  function YearLength(year: int): int {
    if IsLeapYear(year) then 366 else 365
  }

  /** A date that a JavaScript `Date` can hold: month in 0..11, day within the month. */
  predicate Valid(d: Date) {
    0 <= d.month0 < 12 && 1 <= d.day <= MonthLength(d.year, d.month0)
  }

  /** Days from 0000-01-01 to January 1st of `year` (negative before year 0). */
  function DaysBeforeYear(year: int): int {
    365 * year + (year + 3) / 4 - (year + 99) / 100 + (year + 399) / 400
  }

  /** Days from January 1st to the first of `month0` in `year`. */
  function DaysBeforeMonth(year: int, month0: int): int
    requires 0 <= month0 < 12
  {
    var common :=
      if month0 == 0 then 0 else if month0 == 1 then 31 else if month0 == 2 then 59
      else if month0 == 3 then 90 else if month0 == 4 then 120 else if month0 == 5 then 151
      else if month0 == 6 then 181 else if month0 == 7 then 212 else if month0 == 8 then 243
      else if month0 == 9 then 273 else if month0 == 10 then 304 else 334;
    if month0 >= 2 && IsLeapYear(year) then common + 1 else common
  }

  /**
   * Absolute day count of a (year, month0, day) triple; `day` may lie outside
   * the month, in which case it counts on from (or back before) the first of
   * the month, as `new Date(y, m, d)` does.
   */
  function DayNumber(d: Date): int
    requires 0 <= d.month0 < 12
  {
    DaysBeforeYear(d.year) + DaysBeforeMonth(d.year, d.month0) + d.day - 1
  }

  /** Day of the week of an absolute day count, 0 = Sunday .. 6 = Saturday, as `getDay()`. */
  function Weekday(n: int): (w: int)
    ensures 0 <= w < 7
  {
    (n + 6) % 7
  }

  /** Weekday of the first day of a month. */
  function FirstWeekday(year: int, month0: int): (w: int)
    requires 0 <= month0 < 12
    ensures 0 <= w < 7
  {
    Weekday(DayNumber(Date(year, month0, 1)))
  }

  /** The month after (year, month0), carried into the next year after December. */
  function NextMonth(year: int, month0: int): (r: (int, int))
    requires 0 <= month0 < 12
    ensures 0 <= r.1 < 12
    ensures r.1 == (month0 + 1) % 12
    ensures r.0 == if month0 == 11 then year + 1 else year
  {
    if month0 == 11 then (year + 1, 0) else (year, month0 + 1)
  }

  /** The month before (year, month0), carried into the previous year before January. */
  function PrevMonth(year: int, month0: int): (r: (int, int))
    requires 0 <= month0 < 12
    ensures 0 <= r.1 < 12
    ensures NextMonth(r.0, r.1) == (year, month0)
  {
    if month0 == 0 then (year - 1, 11) else (year, month0 - 1)
  }

  lemma YearLengthStep(year: int)
    ensures DaysBeforeYear(year + 1) == DaysBeforeYear(year) + YearLength(year)
  {
    DivStep4(year);
    DivStep100(year);
    DivStep400(year);
    DivisibilityChain(year);
    assert 365 * (year + 1) == 365 * year + 365;
  }

  /** Every multiple of 400 is one of 100, and every multiple of 100 one of 4. */
  lemma DivisibilityChain(y: int)
    ensures y % 400 == 0 ==> y % 100 == 0
    ensures y % 100 == 0 ==> y % 4 == 0
  {
    if y % 400 == 0 {
      MultipleMod(y / 400 * 4, 100);
    }
    if y % 100 == 0 {
      MultipleMod(y / 100 * 25, 4);
    }
  }

  lemma MultipleMod(k: int, m: int)
    requires m == 4 || m == 100
    ensures (m * k) % m == 0
  {
  }

  lemma DivStep4(y: int)
    ensures (y + 4) / 4 == (y + 3) / 4 + (if y % 4 == 0 then 1 else 0)
  {
    var q, r := (y + 3) / 4, (y + 3) % 4;
    assert y + 3 == 4 * q + r;
    assert y % 4 == 0 <==> r == 3;
  }

  lemma DivStep100(y: int)
    ensures (y + 100) / 100 == (y + 99) / 100 + (if y % 100 == 0 then 1 else 0)
  {
    var q, r := (y + 99) / 100, (y + 99) % 100;
    assert y + 99 == 100 * q + r;
    assert y % 100 == 0 <==> r == 99;
  }

  lemma DivStep400(y: int)
    ensures (y + 400) / 400 == (y + 399) / 400 + (if y % 400 == 0 then 1 else 0)
  {
    var q, r := (y + 399) / 400, (y + 399) % 400;
    assert y + 399 == 400 * q + r;
    assert y % 400 == 0 <==> r == 399;
  }

  /** The first of the next month lies exactly one month length after the first of this one. */
  lemma MonthStep(year: int, month0: int)
    requires 0 <= month0 < 12
    ensures DayNumber(Date(NextMonth(year, month0).0, NextMonth(year, month0).1, 1))
         == DayNumber(Date(year, month0, 1)) + MonthLength(year, month0)
  {
    if month0 == 11 {
      YearLengthStep(year);
    }
  }

  /**
   * The date a JavaScript `Date` settles on for a possibly overflowing day:
   * step back or forward a month at a time until the day fits.
   */
  function Normalize(year: int, month0: int, day: int): Date
    requires 0 <= month0 < 12
    decreases if day < 1 then 1 else 0, if day < 1 then -day else day
  {
    if day < 1 then
      var p := PrevMonth(year, month0);
      Normalize(p.0, p.1, day + MonthLength(p.0, p.1))
    else if day > MonthLength(year, month0) then
      var n := NextMonth(year, month0);
      Normalize(n.0, n.1, day - MonthLength(year, month0))
    else
      Date(year, month0, day)
  }

  /** Normalising yields a valid date with the same day count: the unique one, by `DayNumberInjective`. */
  lemma {:induction false} NormalizeCorrect(year: int, month0: int, day: int)
    requires 0 <= month0 < 12
    ensures Valid(Normalize(year, month0, day))
    ensures DayNumber(Normalize(year, month0, day)) == DayNumber(Date(year, month0, day))
    decreases if day < 1 then 1 else 0, if day < 1 then -day else day
  {
    if day < 1 {
      var p := PrevMonth(year, month0);
      MonthStep(p.0, p.1);
      NormalizeCorrect(p.0, p.1, day + MonthLength(p.0, p.1));
    } else if day > MonthLength(year, month0) {
      var n := NextMonth(year, month0);
      MonthStep(year, month0);
      NormalizeCorrect(n.0, n.1, day - MonthLength(year, month0));
    }
  }

  /** The year `new Date(year, ...)` uses: two-digit years 0..99 mean 1900..1999. */
  function ConstructorYear(year: int): (y: int)
    ensures 0 <= year <= 99 ==> y == 1900 + year
    ensures !(0 <= year <= 99) ==> y == year
    ensures !(0 <= y <= 99)
  {
    if 0 <= year <= 99 then 1900 + year else year
  }

  /** A year the constructor has already read is read back unchanged. */
  lemma ConstructorYearSettled(year: int)
    ensures ConstructorYear(ConstructorYear(year)) == ConstructorYear(year)
  {
  }

  /**
   * `new Date(year, month, day)`: the month may be any integer (it carries
   * into the year by floor division) and the day may overflow either way.
   */
  function NewDate(year: int, month: int, day: int): Date
  {
    Normalize(ConstructorYear(year) + month / 12, month % 12, day)
  }

  /** `date.setMonth(month)`: keeps the year and day-of-month of `date`, then normalises. */
  function SetMonth(date: Date, month: int): Date
  {
    Normalize(date.year + month / 12, month % 12, date.day)
  }

  /** Day 0 of the following month, as `new Date(year, month0 + 1, 0)`, is the last day of this month. */
  lemma NewDateDayZero(year: int, month0: int)
    requires 0 <= month0 < 12
    ensures NewDate(year, month0 + 1, 0)
         == Date(ConstructorYear(year), month0, MonthLength(ConstructorYear(year), month0))
  {
    var y := ConstructorYear(year);
    if month0 == 11 {
      assert (month0 + 1) / 12 == 1 && (month0 + 1) % 12 == 0;
      assert Normalize(y, 11, 31) == Date(y, 11, 31);
    } else {
      assert (month0 + 1) / 12 == 0 && (month0 + 1) % 12 == month0 + 1;
      assert Normalize(y, month0, MonthLength(y, month0)) == Date(y, month0, MonthLength(y, month0));
    }
  }

  /** `new Date(year, month0, day)` for a day within the month is that day (in the constructor's year). */
  lemma NewDateInMonth(year: int, month0: int, day: int)
    requires 0 <= month0 < 12 && 1 <= day <= MonthLength(ConstructorYear(year), month0)
    ensures NewDate(year, month0, day) == Date(ConstructorYear(year), month0, day)
  {
    assert month0 / 12 == 0 && month0 % 12 == month0;
  }

  // ---------------------------------------------------------------------------
  // Properties of the day count

  lemma {:induction false} DaysBeforeYearMonotone(a: int, b: int)
    requires a < b
    ensures DaysBeforeYear(a) + YearLength(a) <= DaysBeforeYear(b)
    decreases b - a
  {
    YearLengthStep(a);
    if a + 1 < b {
      DaysBeforeYearMonotone(a + 1, b);
    }
  }

  /** A valid date's day count lies within its year. */
  lemma DayNumberWithinYear(d: Date)
    requires Valid(d)
    ensures DaysBeforeYear(d.year) <= DayNumber(d) < DaysBeforeYear(d.year) + YearLength(d.year)
  {
  }

  lemma DaysBeforeMonthMonotone(year: int, m1: int, m2: int)
    requires 0 <= m1 < m2 < 12
    ensures DaysBeforeMonth(year, m1) + MonthLength(year, m1) <= DaysBeforeMonth(year, m2)
  {
  }

  /** Distinct valid dates have distinct day counts: the day count identifies the date. */
  lemma DayNumberInjective(a: Date, b: Date)
    requires Valid(a) && Valid(b)
    requires DayNumber(a) == DayNumber(b)
    ensures a == b
  {
    DayNumberWithinYear(a);
    DayNumberWithinYear(b);
    if a.year < b.year {
      DaysBeforeYearMonotone(a.year, b.year);
    } else if b.year < a.year {
      DaysBeforeYearMonotone(b.year, a.year);
    }
    assert a.year == b.year;
    if a.month0 < b.month0 {
      DaysBeforeMonthMonotone(a.year, a.month0, b.month0);
    } else if b.month0 < a.month0 {
      DaysBeforeMonthMonotone(a.year, b.month0, a.month0);
    }
  }

  /** The first weekday of the next month follows from this month's first weekday and length. */
  lemma {:induction false} NextMonthFirstWeekday(year: int, month0: int)
    requires 0 <= month0 < 12
    ensures FirstWeekday(NextMonth(year, month0).0, NextMonth(year, month0).1)
         == (FirstWeekday(year, month0) + MonthLength(year, month0)) % 7
  {
    MonthStep(year, month0);
    var n := DayNumber(Date(year, month0, 1));
    WeekdayAdd(n, MonthLength(year, month0));
  }

  lemma WeekdayAdd(n: int, k: int)
    ensures Weekday(n + k) == (Weekday(n) + k) % 7
  {
    var q := (n + 6) / 7;
    assert n + 6 == 7 * q + Weekday(n);
    assert n + k + 6 == 7 * q + (Weekday(n) + k);
  }

  // ---------------------------------------------------------------------------
  // Anchors: a few dates whose weekday is well known

  /** 1970-01-01, the JavaScript epoch, was a Thursday. */
  lemma EpochIsThursday()
    ensures DayNumber(Date(1970, 0, 1)) == 719528
    ensures Weekday(DayNumber(Date(1970, 0, 1))) == 4
  {
  }

  /** 2000-01-01 was a Saturday. */
  lemma Y2KIsSaturday()
    ensures FirstWeekday(2000, 0) == 6
  {
  }
}
