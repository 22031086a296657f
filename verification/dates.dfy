/** Proleptic Gregorian calendar dates as (year, month, day) with a 1-based month,
    standing in for the local-midnight JavaScript `Date` values the calendar and the
    due-date check build. `DayNumber` counts days from 1 January of year 1, so comparing
    two day numbers is comparing the two midnights' timestamps. */
module Dates {

  datatype Date = Date(year: int, month: int, day: int)

  predicate IsLeapYear(y: int) {
    y % 4 == 0 && (y % 100 != 0 || y % 400 == 0)
  }

  function YearLength(y: int): int {
    if IsLeapYear(y) then 366 else 365
  }

  function DaysInMonth(y: int, m: int): (n: int)
    requires 1 <= m <= 12
    ensures 28 <= n <= 31
    ensures n == 29 <==> m == 2 && IsLeapYear(y)
  {
    if m == 2 then (if IsLeapYear(y) then 29 else 28)
    else if m == 4 || m == 6 || m == 9 || m == 11 then 30
    else 31
  }

  predicate Valid(d: Date) {
    1 <= d.month <= 12 && 1 <= d.day <= DaysInMonth(d.year, d.month)
  }

  /** The month before (y, m), wrapping from January to December of the previous year
      (what `new Date(year, month - 1, n)` resolves to). */
  function PrevMonth(y: int, m: int): (r: (int, int))
    requires 1 <= m <= 12
    ensures 1 <= r.1 <= 12
    ensures r.0 * 12 + r.1 == y * 12 + m - 1
  {
    if m == 1 then (y - 1, 12) else (y, m - 1)
  }

  /** The month after (y, m), wrapping from December to January of the next year. */
  function NextMonth(y: int, m: int): (r: (int, int))
    requires 1 <= m <= 12
    ensures 1 <= r.1 <= 12
    ensures r.0 * 12 + r.1 == y * 12 + m + 1
  {
    if m == 12 then (y + 1, 1) else (y, m + 1)
  }

  /** The calendar day after `d`. */
  function NextDay(d: Date): (e: Date)
    requires Valid(d)
    ensures Valid(e)
  {
    if d.day < DaysInMonth(d.year, d.month) then Date(d.year, d.month, d.day + 1)
    else if d.month < 12 then Date(d.year, d.month + 1, 1)
    else Date(d.year + 1, 1, 1)
  }

  /** The calendar day before `d`; `NextDay` undoes it. */
  function PrevDay(d: Date): (e: Date)
    requires Valid(d)
    ensures Valid(e) && NextDay(e) == d
  {
    if d.day > 1 then Date(d.year, d.month, d.day - 1)
    else
      var (py, pm) := PrevMonth(d.year, d.month);
      Date(py, pm, DaysInMonth(py, pm))
  }

  /** `PrevDay` undoes `NextDay`. */
  lemma PrevNextDay(d: Date)
    requires Valid(d)
    ensures PrevDay(NextDay(d)) == d
  {
    NextDayNumber(d);
    NextDayNumber(PrevDay(NextDay(d)));
    DayNumberOrder(PrevDay(NextDay(d)), d);
  }

  /** Days in the years before `y`, counted from year 1 (negative for earlier years). */
  function DaysBeforeYear(y: int): int {
    365 * (y - 1) + (y - 1) / 4 - (y - 1) / 100 + (y - 1) / 400
  }

  function CumulativeDays(m: int): int
    requires 1 <= m <= 12
  {
    [0, 31, 59, 90, 120, 151, 181, 212, 243, 273, 304, 334][m - 1]
  }

  /** Days in the months of year `y` before month `m`. */
  function DaysBeforeMonth(y: int, m: int): int
    requires 1 <= m <= 12
  {
    CumulativeDays(m) + (if IsLeapYear(y) && m > 2 then 1 else 0)
  }

  /** Days from 1 January of year 1 to `d`. */
  function DayNumber(d: Date): int
    requires Valid(d)
  {
    DaysBeforeYear(d.year) + DaysBeforeMonth(d.year, d.month) + d.day - 1
  }

  /** Day of the week with 0 = Sunday, the convention of `Date.prototype.getDay`
      (1 January of year 1 was a Monday). */
  function Weekday(d: Date): (w: int)
    requires Valid(d)
    ensures 0 <= w < 7
  {
    (DayNumber(d) + 1) % 7
  }

  /** Strict calendar order: earlier year, or same year and earlier month, or same month and earlier day. */
  predicate Before(a: Date, b: Date) {
    a.year < b.year
    || (a.year == b.year && (a.month < b.month || (a.month == b.month && a.day < b.day)))
  }

  lemma DivStep(y: int, k: int)
    requires k == 4 || k == 100 || k == 400
    ensures y / k - (y - 1) / k == if y % k == 0 then 1 else 0
  {
  }

  /** Consecutive years are `YearLength` days apart. */
  lemma YearStep(y: int)
    ensures DaysBeforeYear(y + 1) == DaysBeforeYear(y) + YearLength(y)
  {
    DivStep(y, 4);
    DivStep(y, 100);
    DivStep(y, 400);
    LeapDivisibility(y);
  }

  lemma LeapDivisibility(y: int)
    ensures y % 100 == 0 ==> y % 4 == 0
    ensures y % 400 == 0 ==> y % 100 == 0
  {
    if y % 100 == 0 {
      var q := y / 100;
      assert y == 4 * (25 * q);
    }
    if y % 400 == 0 {
      var q := y / 400;
      assert y == 100 * (4 * q);
    }
  }

  /** The months of a year follow each other without gaps and fill the year exactly. */
  lemma MonthStep(y: int, m: int)
    requires 1 <= m <= 12
    ensures m < 12 ==> DaysBeforeMonth(y, m + 1) == DaysBeforeMonth(y, m) + DaysInMonth(y, m)
    ensures m == 12 ==> DaysBeforeMonth(y, m) + DaysInMonth(y, m) == YearLength(y)
  {
  }

  /** `NextDay` advances the day number by exactly one. */
  lemma NextDayNumber(d: Date)
    requires Valid(d)
    ensures DayNumber(NextDay(d)) == DayNumber(d) + 1
    ensures Weekday(NextDay(d)) == (Weekday(d) + 1) % 7
  {
    NextDayNumberOnly(d);
    ModSucc(DayNumber(d) + 1);
  }

  lemma ModSucc(x: int)
    ensures (x + 1) % 7 == (x % 7 + 1) % 7
  {
  }

  lemma NextDayNumberOnly(d: Date)
    requires Valid(d)
    ensures DayNumber(NextDay(d)) == DayNumber(d) + 1
  {
    var e := NextDay(d);
    if d.day < DaysInMonth(d.year, d.month) {
      assert e == Date(d.year, d.month, d.day + 1);
    } else if d.month < 12 {
      MonthStep(d.year, d.month);
      assert e == Date(d.year, d.month + 1, 1);
    } else {
      MonthStep(d.year, 12);
      YearStep(d.year);
      assert e == Date(d.year + 1, 1, 1);
      assert DaysBeforeMonth(e.year, 1) == 0;
    }
  }

  /** A day of month `m` lies inside the month's share of the year. */
  lemma DayInYear(d: Date)
    requires Valid(d)
    ensures DaysBeforeMonth(d.year, d.month) + d.day <= YearLength(d.year)
  {
    if d.month < 12 {
      MonthLater(d.year, d.month, 12);
    }
    MonthStep(d.year, 12);
  }

  /** Months later in the year start no earlier than the end of an earlier month. */
  lemma {:induction false} MonthLater(y: int, m: int, n: int)
    requires 1 <= m < n <= 12
    ensures DaysBeforeMonth(y, m) + DaysInMonth(y, m) <= DaysBeforeMonth(y, n)
    decreases n - m
  {
    MonthStep(y, m);
    if m + 1 < n {
      MonthLater(y, m + 1, n);
    }
  }

  /** Later years start no earlier than the end of an earlier year. */
  lemma {:induction false} YearLater(y: int, z: int)
    requires y < z
    ensures DaysBeforeYear(y) + YearLength(y) <= DaysBeforeYear(z)
    decreases z - y
  {
    YearStep(y);
    if y + 1 < z {
      YearLater(y + 1, z);
      YearStep(y + 1);
    }
  }

  /** Calendar order and timestamp order agree: an earlier date has a smaller day number. */
  lemma DayNumberMonotone(a: Date, b: Date)
    requires Valid(a) && Valid(b)
    requires Before(a, b)
    ensures DayNumber(a) < DayNumber(b)
  {
    if a.year < b.year {
      DayInYear(a);
      YearLater(a.year, b.year);
    } else if a.month < b.month {
      MonthLater(a.year, a.month, b.month);
    }
  }

  /** Distinct valid dates have distinct day numbers, and the order of day numbers is the
      calendar order, in both directions. */
  lemma DayNumberOrder(a: Date, b: Date)
    requires Valid(a) && Valid(b)
    ensures DayNumber(a) == DayNumber(b) <==> a == b
    ensures DayNumber(a) < DayNumber(b) <==> Before(a, b)
  {
    if Before(a, b) {
      DayNumberMonotone(a, b);
    } else if Before(b, a) {
      DayNumberMonotone(b, a);
    }
  }

  /** 1 January 2024 was a Monday: a fixed point tying `Weekday` to `getDay`. */
  lemma WeekdayAnchor()
    ensures Weekday(Date(2024, 1, 1)) == 1
    ensures Weekday(Date(1970, 1, 1)) == 4
  {
  }
}
