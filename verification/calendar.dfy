/** Proleptic Gregorian calendar arithmetic on integer day ordinals.
    Stands in for `calendar.monthrange` and for the date arithmetic of
    `pd.Timestamp` (difference in days, Monday-first weekday). */
module Calendar {

  predicate IsLeapYear(year: int) {
    year % 4 == 0 && (year % 100 != 0 || year % 400 == 0)
  }

  predicate IsMonth(month: int) {
    1 <= month <= 12
  }

  /** Number of days in the month, as the second component of `monthrange`. */
  function DaysInMonth(year: int, month: int): (n: int)
    requires IsMonth(month)
    ensures 28 <= n <= 31
    ensures month == 2 ==> (n == 29 <==> IsLeapYear(year))
  {
    if month == 2 then (if IsLeapYear(year) then 29 else 28)
    else if month == 4 || month == 6 || month == 9 || month == 11 then 30
    else 31
  }

  /** Days since 1970-01-01 of the given date. The year is shifted so that it
      starts on 1 March; a 400-year era has 146097 days. Dafny's `/` and `%`
      with a positive divisor round towards minus infinity, as needed here. */
  function DaysFromCivil(year: int, month: int, day: int): int
    requires IsMonth(month)
  {
    var y := if month <= 2 then year - 1 else year;
    var era := y / 400;
    var yoe := y % 400;
    var mp := if month > 2 then month - 3 else month + 9;
    var doy := (153 * mp + 2) / 5 + day - 1;
    var doe := yoe * 365 + yoe / 4 - yoe / 100 + doy;
    era * 146097 + doe - 719468
  }

  /** Monday-first weekday of a day ordinal: 0 is Monday, 6 is Sunday
      (1970-01-01 was a Thursday). */
  function Weekday(ordinal: int): (w: int)
    ensures 0 <= w < 7
  {
    (ordinal + 3) % 7
  }

  function DayOfWeek(year: int, month: int, day: int): (w: int)
    requires IsMonth(month)
    ensures 0 <= w < 7
  {
    Weekday(DaysFromCivil(year, month, day))
  }

  /** Weekdays advance by one, modulo 7, from one day to the next. */
  lemma WeekdaySuccessor(ordinal: int)
    ensures Weekday(ordinal + 1) == (Weekday(ordinal) + 1) % 7
  {
  }

  /** Known dates: the epoch was a Thursday, 2024-01-01 a Monday and
      2024-01-06 a Saturday; February has 29 days in 2024 and 28 in 2023. */
  lemma KnownDates()
    ensures DaysFromCivil(1970, 1, 1) == 0
    ensures DayOfWeek(1970, 1, 1) == 3
    ensures DayOfWeek(2024, 1, 1) == 0
    ensures DayOfWeek(2024, 1, 6) == 5
    ensures DaysInMonth(2024, 2) == 29 && DaysInMonth(2023, 2) == 28
    ensures DaysInMonth(1900, 2) == 28 && DaysInMonth(2000, 2) == 29
  {
  }

  /** The month that follows (year, month). */
  function NextMonth(year: int, month: int): (r: (int, int))
    requires IsMonth(month)
    ensures IsMonth(r.1)
    ensures r.0 * 12 + r.1 == year * 12 + month + 1
  {
    if month == 12 then (year + 1, 1) else (year, month + 1)
  }

  /** Inside a month, day d lies d - 1 days after the first. */
  lemma DayOffset(year: int, month: int, day: int)
    requires IsMonth(month)
    ensures DaysFromCivil(year, month, day) == DaysFromCivil(year, month, 1) + day - 1
  {
  }

  /** Adding whole 400-year eras does not change the remainders that decide
      leap years. */
  lemma EraRemainders(q: int, x: int)
    ensures (400 * q + x) % 4 == x % 4
    ensures (400 * q + x) % 100 == x % 100
  {
    var t4, t100 := 100 * q, 4 * q;
    assert 400 * q + x == 4 * t4 + x;
    assert 400 * q + x == 100 * t100 + x;
  }

  /** Length of one shifted year, from 1 March of year y to the end of
      February of year y + 1: the days-from-civil offset of 1 March grows by
      366 when y + 1 is a leap year and by 365 otherwise. */
  lemma ShiftedYearLength(y: int)
    ensures var yoe := y % 400; var yoe' := (y + 1) % 400;
      (y + 1) / 400 * 146097 + yoe' * 365 + yoe' / 4 - yoe' / 100
      == y / 400 * 146097 + yoe * 365 + yoe / 4 - yoe / 100
         + (if IsLeapYear(y + 1) then 366 else 365)
  {
    var q, yoe := y / 400, y % 400;
    assert y == 400 * q + yoe;
    if yoe == 399 {
      assert y + 1 == 400 * (q + 1) + 0;
      assert (y + 1) % 400 == 0 && (y + 1) / 400 == q + 1;
      EraRemainders(q + 1, 0);
      assert IsLeapYear(y + 1);
    } else {
      assert y + 1 == 400 * q + (yoe + 1);
      assert (y + 1) % 400 == yoe + 1 && (y + 1) / 400 == q;
      EraRemainders(q, yoe + 1);
      assert (y + 1) % 400 != 0;
      assert (yoe + 1) / 4 - yoe / 4 == (if (yoe + 1) % 4 == 0 then 1 else 0);
      assert (yoe + 1) / 100 - yoe / 100 == (if (yoe + 1) % 100 == 0 then 1 else 0);
    }
  }

  /** The day after the last day of a month is the first day of the next
      month: the ordinals of consecutive calendar dates are consecutive
      integers, across month and year boundaries. */
  lemma {:induction false} NextDayAcrossMonth(year: int, month: int)
    requires IsMonth(month)
    ensures var (y', m') := NextMonth(year, month);
      DaysFromCivil(y', m', 1) == DaysFromCivil(year, month, DaysInMonth(year, month)) + 1
  {
    if month == 2 {
      ShiftedYearLength(year - 1);
    }
  }
}
