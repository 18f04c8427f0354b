/**
 * Gregorian calendar arithmetic used by the month generator and the export:
 * what PHP obtains from `date('t', mktime(...))` (days in a month),
 * `date('N', strtotime(...))` (ISO weekday, Monday = 1) and the roll-over of a
 * time past midnight into the next calendar day.
 */
module Calendar {

  /** A calendar date as stored in the sessions table's `date` column. */
  datatype Date = Date(year: nat, month: nat, day: nat)

  predicate IsLeapYear(y: int)
  {
    y % 4 == 0 && (y % 100 != 0 || y % 400 == 0)
  }

  function DaysInMonth(y: int, m: int): (n: nat)
    requires 1 <= m <= 12
    ensures 28 <= n <= 31
    ensures n == 29 <==> m == 2 && IsLeapYear(y)
    ensures n == 28 <==> m == 2 && !IsLeapYear(y)
  {
    if m == 2 then (if IsLeapYear(y) then 29 else 28)
    else if m == 4 || m == 6 || m == 9 || m == 11 then 30
    else 31
  }

  predicate ValidDate(d: Date)
  {
    1 <= d.month <= 12 && 1 <= d.day <= DaysInMonth(d.year, d.month)
  }

  /** Months April to September are the summer season of the training plan. */
  predicate IsSummer(month: int)
  {
    4 <= month <= 9
  }

  /** Days from 1 January of year 1 (proleptic Gregorian) to 1 January of year y. */
  function DaysBeforeYear(y: int): int
  {
    365 * (y - 1) + (y - 1) / 4 - (y - 1) / 100 + (y - 1) / 400
  }

  /** Days from 1 January to the first of month m of year y. */
  function DaysBeforeMonth(y: int, m: int): nat
    requires 1 <= m <= 12
  {
    var cumulative := [0, 31, 59, 90, 120, 151, 181, 212, 243, 273, 304, 334];
    cumulative[m - 1] + (if m > 2 && IsLeapYear(y) then 1 else 0)
  }

  /** Consecutive day count; day 0 is Monday 1 January of year 1. */
  function DayNumber(d: Date): int
    requires 1 <= d.month <= 12
  {
    DaysBeforeYear(d.year) + DaysBeforeMonth(d.year, d.month) + d.day - 1
  }

  /** ISO-8601 day of the week, Monday = 1 ... Sunday = 7 (PHP `date('N')`). */
  function Weekday(d: Date): (w: int)
    requires 1 <= d.month <= 12
    ensures 1 <= w <= 7
    ensures (DayNumber(d) - w + 1) % 7 == 0
  {
    DayNumber(d) % 7 + 1
  }

  /** Stepping from y - 1 to y adds one multiple of k exactly when k divides y. */
  lemma MultipleStep(y: int, k: int)
    requires k == 4 || k == 100 || k == 400
    ensures y / k - (y - 1) / k == if y % k == 0 then 1 else 0
  {
    if k == 4 {
    } else if k == 100 {
    } else {
    }
  }

  /** A year has 366 days exactly when it is a leap year. */
  lemma YearLength(y: int)
    ensures DaysBeforeYear(y + 1) - DaysBeforeYear(y) == if IsLeapYear(y) then 366 else 365
  {
    MultipleStep(y, 4);
    MultipleStep(y, 100);
    MultipleStep(y, 400);
  }

  /** The first of a month follows the last day of the month before it. */
  lemma MonthLength(y: int, m: int)
    requires 1 <= m < 12
    ensures DaysBeforeMonth(y, m + 1) == DaysBeforeMonth(y, m) + DaysInMonth(y, m)
  {
  }

  /** Shifting a day count shifts its remainder modulo 7 the same way. */
  lemma ModSevenShift(n: int, k: int)
    ensures (n + k) % 7 == (n % 7 + k) % 7
  {
    var q := n / 7;
    assert n == 7 * q + n % 7;
    assert n + k == 7 * q + (n % 7 + k);
  }

  /** The calendar day after d (31 December rolls into the next year). */
  function NextDay(d: Date): (e: Date)
    requires ValidDate(d)
    ensures ValidDate(e)
    ensures DayNumber(e) == DayNumber(d) + 1
  {
    if d.day < DaysInMonth(d.year, d.month) then Date(d.year, d.month, d.day + 1)
    else if d.month < 12 then (MonthLength(d.year, d.month); Date(d.year, d.month + 1, 1))
    else (LastDayOfYear(d); Date(d.year + 1, 1, 1))
  }

  lemma LastDayOfYear(d: Date)
    requires ValidDate(d) && d.month == 12 && d.day == DaysInMonth(d.year, 12)
    ensures DayNumber(Date(d.year + 1, 1, 1)) == DayNumber(d) + 1
  {
    YearLength(d.year);
    assert DaysBeforeMonth(d.year + 1, 1) == 0;
    assert DaysBeforeMonth(d.year, 12) + 31 == if IsLeapYear(d.year) then 366 else 365;
  }

  /** The weekday of the next day is the following weekday, Sunday wrapping to Monday. */
  lemma NextDayWeekday(d: Date)
    requires ValidDate(d)
    ensures Weekday(NextDay(d)) == Weekday(d) % 7 + 1
  {
    var n := DayNumber(d);
    ModSevenShift(n, 1);
    assert (n % 7 + 1) % 7 == Weekday(d) % 7;
  }

  /** Within one month the weekday advances by one per day, wrapping from Sunday to Monday. */
  lemma WeekdayOfLaterDay(y: nat, m: nat, d: nat, k: nat)
    requires 1 <= m <= 12
    ensures Weekday(Date(y, m, d + k)) == (Weekday(Date(y, m, d)) - 1 + k) % 7 + 1
  {
    var n := DayNumber(Date(y, m, d));
    assert DayNumber(Date(y, m, d + k)) == n + k;
    ModSevenShift(n, k);
  }

  /** Every month's first week contains a Saturday (weekday 6). */
  lemma SaturdayInFirstWeek(y: nat, m: nat)
    requires 1 <= m <= 12
    ensures exists d :: 1 <= d <= 7 && Weekday(Date(y, m, d)) == 6
  {
    var w := Weekday(Date(y, m, 1));
    var k: nat := if w <= 6 then 6 - w else 6;
    WeekdayOfLaterDay(y, m, 1, k);
    assert w - 1 + k == if w <= 6 then 5 else 12;
    assert Weekday(Date(y, m, 1 + k)) == 6;
  }

  /** 3 April 2024 was a Wednesday; 29 February 2024 a Thursday. */
  lemma KnownWeekdays()
    ensures Weekday(Date(2024, 4, 3)) == 3
    ensures Weekday(Date(2024, 2, 29)) == 4
    ensures Weekday(Date(1, 1, 1)) == 1
  {
  }
}
