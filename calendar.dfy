/** Proleptic Gregorian calendar arithmetic, computed the way Python's
    `datetime.date.toordinal`, `datetime.date.weekday` and
    `calendar.monthrange` compute it. Dates are handed to the rest of the
    model as day ordinals: 0001-01-01 is day 1. */
module Calendar {

  datatype Date = Date(year: int, month: int, day: int)

  /** Leap year: divisible by 4, except centuries not divisible by 400. */
  predicate IsLeap(year: int) {
    year % 4 == 0 && (year % 100 != 0 || year % 400 == 0)
  }

  /** Days of each month in a common year, indexed by month (index 0 unused). */
  const MONTH_DAYS: seq<int> := [0, 31, 28, 31, 30, 31, 30, 31, 31, 30, 31, 30, 31]

  /** Days in the months before a month, in a common year (index 0 unused). */
  const DAYS_BEFORE_MONTH: seq<int> := [0, 0, 31, 59, 90, 120, 151, 181, 212, 243, 273, 304, 334]

  function DaysInMonth(year: int, month: int): (n: int)
    requires 1 <= month <= 12
    ensures 28 <= n <= 31
    ensures month == 2 ==> (n == 29 <==> IsLeap(year))
    ensures month != 2 ==> (n == 30 <==> month in {4, 6, 9, 11})
    ensures n == if month == 2 then (if IsLeap(year) then 29 else 28)
                 else if month == 4 || month == 6 || month == 9 || month == 11 then 30
                 else 31
  {
    MONTH_DAYS[month] + (if month == 2 && IsLeap(year) then 1 else 0)
  }

  predicate ValidDate(d: Date) {
    1 <= d.year <= 9999 && 1 <= d.month <= 12 && 1 <= d.day <= DaysInMonth(d.year, d.month)
  }

  /** Days in all the years before `year`. */
  function DaysBeforeYear(year: int): int
    requires 1 <= year
  {
    var y := year - 1;
    y * 365 + y / 4 - y / 100 + y / 400
  }

  /** Days in the months of `year` before `month`. */
  function DaysBeforeMonth(year: int, month: int): int
    requires 1 <= month <= 12
  {
    DAYS_BEFORE_MONTH[month] + (if month > 2 && IsLeap(year) then 1 else 0)
  }

  /** The ordinal of a calendar date (Python's `date(y, m, d).toordinal()`). */
  function DayOrdinal(year: int, month: int, day: int): int
    requires 1 <= year && 1 <= month <= 12
  {
    DaysBeforeYear(year) + DaysBeforeMonth(year, month) + day
  }

  function Ordinal(d: Date): int
    requires ValidDate(d)
  {
    DayOrdinal(d.year, d.month, d.day)
  }

  /** Day of the week of an ordinal, Monday = 0 … Sunday = 6 (day 1 was a Monday). */
  function Weekday(ordinal: int): (w: int)
    ensures 0 <= w <= 6
  {
    (ordinal + 6) % 7
  }

  /** Day 1, 1 January of year 1, was a Monday. */
  lemma FirstDayIsMonday(o: int)
    requires o == DayOrdinal(1, 1, 1)
    ensures o == 1 && Weekday(o) == 0
  {
    assert DaysBeforeYear(1) == 0;
    assert DaysBeforeMonth(1, 1) == 0;
  }

  /** Each next day is the next weekday, Sunday (6) being followed by
      Monday (0). */
  lemma WeekdayStep(ordinal: int)
    ensures Weekday(ordinal + 1) == (Weekday(ordinal) + 1) % 7
  {
    var q := (ordinal + 6) / 7;
    assert ordinal + 6 == 7 * q + Weekday(ordinal);
    if Weekday(ordinal) == 6 {
      assert ordinal + 7 == 7 * (q + 1);
    } else {
      assert ordinal + 7 == 7 * q + (Weekday(ordinal) + 1);
    }
  }

  /** `calendar.monthrange(year, month)`: the weekday of the month's first
      day (Monday = 0) and the number of days in the month. */
  function MonthRange(year: int, month: int): (r: (int, int))
    requires 1 <= year && 1 <= month <= 12
    ensures 0 <= r.0 <= 6 && 28 <= r.1 <= 31
    ensures r.1 == DaysInMonth(year, month)
    ensures r.0 == Weekday(DayOrdinal(year, month, 1))
  {
    (Weekday(DayOrdinal(year, month, 1)), DaysInMonth(year, month))
  }

  /** The days of a month have consecutive ordinals starting at its first day. */
  lemma DaysOfMonthConsecutive(year: int, month: int, day: int)
    requires 1 <= year && 1 <= month <= 12
    ensures DayOrdinal(year, month, day) == DayOrdinal(year, month, 1) + day - 1
  {
  }

  lemma DivStep4(y: int)
    requires 1 <= y
    ensures y / 4 - (y - 1) / 4 == (if y % 4 == 0 then 1 else 0)
  {
  }

  lemma DivStep100(y: int)
    requires 1 <= y
    ensures y / 100 - (y - 1) / 100 == (if y % 100 == 0 then 1 else 0)
  {
  }

  lemma DivStep400(y: int)
    requires 1 <= y
    ensures y / 400 - (y - 1) / 400 == (if y % 400 == 0 then 1 else 0)
  {
  }

  /** A year has 365 days, 366 if it is a leap year. */
  lemma YearLength(year: int)
    requires 1 <= year
    ensures DaysBeforeYear(year + 1) - DaysBeforeYear(year) == if IsLeap(year) then 366 else 365
  {
    var y := year - 1;
    assert year * 365 == y * 365 + 365;
    DivStep4(year);
    DivStep100(year);
    DivStep400(year);
    if year % 400 == 0 {
      Divides400(year);
    }
    if year % 100 == 0 {
      Divides100(year);
    }
  }

  /** A year divisible by 400 is divisible by 100. */
  lemma Divides400(year: int)
    requires year % 400 == 0
    ensures year % 100 == 0
  {
    var q := year / 400;
    assert year == 100 * (4 * q);
  }

  /** A year divisible by 100 is divisible by 4. */
  lemma Divides100(year: int)
    requires year % 100 == 0
    ensures year % 4 == 0
  {
    var q := year / 100;
    assert year == 4 * (25 * q);
  }

  /** The day after the last day of a month is the first day of the next
      month: a window of `DaysInMonth` days from day 1 covers the month
      exactly. */
  lemma NextMonthStart(year: int, month: int)
    requires 1 <= year && 1 <= month <= 12
    ensures DayOrdinal(year, month, 1) + DaysInMonth(year, month) ==
            if month < 12 then DayOrdinal(year, month + 1, 1) else DayOrdinal(year + 1, 1, 1)
  {
    if month == 12 {
      YearLength(year);
    }
  }

  /** February 2024 starts on a Thursday and has 29 days. */
  lemma February2024()
    ensures MonthRange(2024, 2) == (3, 29)
  {
    assert DaysBeforeYear(2024) == 738885;
  }

  /** February 2023 starts on a Wednesday and has 28 days. */
  lemma February2023()
    ensures MonthRange(2023, 2) == (2, 28)
  {
    assert DaysBeforeYear(2023) == 738520;
  }

  /** June 2025 starts on a Sunday, weekday 6 when Monday is 0. */
  lemma June2025()
    ensures MonthRange(2025, 6) == (6, 30)
  {
    assert DaysBeforeYear(2025) == 739251;
  }
}
