/**
 * The proleptic Gregorian calendar behind the day keys of `utils/date.ts`: day numbers, the
 * civil date of a day number, month lengths (`getDaysInMonth`) and the trailing window of
 * days (`getLastNDays`).
 */
module Calendar {

  /**
   * A calendar day, numbered from 1970-01-01 (day 0). The day of an instant is its millisecond
   * time value divided by 86,400,000 and rounded down, which is the UTC date `toISOString` shows.
   */
  type Day = int

  /** A civil date; `month` is 1-based here (January is 1), as it is in a day key. */
  datatype Date = Date(year: int, month: int, day: int)

  /** Gregorian leap years: divisible by 4, and by 400 when divisible by 100. */
  predicate IsLeapYear(y: int) {
    y % 4 == 0 && (y % 100 != 0 || y % 400 == 0)
  }

  /** The number of days of a 1-based month. */
  function MonthLength(year: int, month: int): (r: int)
    requires 1 <= month <= 12
    ensures 28 <= r <= 31
  {
    if month == 2 then (if IsLeapYear(year) then 29 else 28)
    else if month == 4 || month == 6 || month == 9 || month == 11 then 30
    else 31
  }

  /** A date that exists in the calendar. */
  predicate Valid(d: Date) {
    1 <= d.month <= 12 && 1 <= d.day <= MonthLength(d.year, d.month)
  }

  /** Chronological order of civil dates: by year, then month, then day. */
  predicate Before(a: Date, b: Date) {
    a.year < b.year
    || (a.year == b.year && (a.month < b.month || (a.month == b.month && a.day < b.day)))
  }

  /** The following calendar date. */
  function Next(d: Date): (r: Date)
    requires Valid(d)
    ensures Valid(r) && Before(d, r)
  {
    if d.day < MonthLength(d.year, d.month) then Date(d.year, d.month, d.day + 1)
    else if d.month < 12 then Date(d.year, d.month + 1, 1)
    else Date(d.year + 1, 1, 1)
  }

  /** The preceding calendar date; `Next` undoes it. */
  function Prev(d: Date): (r: Date)
    requires Valid(d)
    ensures Valid(r) && Next(r) == d
  {
    if d.day > 1 then Date(d.year, d.month, d.day - 1)
    else if d.month > 1 then Date(d.year, d.month - 1, MonthLength(d.year, d.month - 1))
    else Date(d.year - 1, 12, 31)
  }

  /** Day 0, the Unix epoch. */
  const Epoch := Date(1970, 1, 1)

  /** The civil date of a day number: `Next` applied n times to the epoch, or `Prev` -n times. */
  function DateOfDay(n: Day): (d: Date)
    ensures Valid(d)
    decreases if n < 0 then -n else n
  {
    if n == 0 then Epoch
    else if n > 0 then Next(DateOfDay(n - 1))
    else Prev(DateOfDay(n + 1))
  }

  /** Adding one to a day number moves to the following calendar date, on both sides of the epoch. */
  lemma DateOfNextDay(n: Day)
    ensures DateOfDay(n + 1) == Next(DateOfDay(n))
  {
    if n < 0 {
      assert DateOfDay(n) == Prev(DateOfDay(n + 1));
    }
  }

  /** Later day numbers have later dates. */
  lemma {:induction false} DateOfDayMonotone(n: Day, m: Day)
    requires n < m
    ensures Before(DateOfDay(n), DateOfDay(m))
    decreases m - n
  {
    DateOfNextDay(n);
    if n + 1 < m {
      DateOfDayMonotone(n + 1, m);
    }
  }

  /** Distinct day numbers name distinct dates. */
  lemma DateOfDayInjective(n: Day, m: Day)
    ensures DateOfDay(n) == DateOfDay(m) <==> n == m
  {
    if n < m {
      DateOfDayMonotone(n, m);
    } else if m < n {
      DateOfDayMonotone(m, n);
    }
  }

  /** The year a JavaScript `Date` constructor reads from its first argument: 0 to 99 mean 1900 to 1999. */
  function FullYear(year: int): (full: int) {
    if 0 <= year <= 99 then 1900 + year else year
  }

  /**
   * `getDaysInMonth(year, month)` with a 0-based month: the date of `new Date(year, month + 1, 0)`,
   * day 0 of the following month, which is the last day of `month`. The constructor carries a month
   * outside 0..11 into the year (rounding down), so any integer month is accepted.
   */
  function DaysInMonth(year: int, month: int): (r: int)
    ensures 28 <= r <= 31
  {
    MonthLength(FullYear(year) + month / 12, month % 12 + 1)
  }

  /** The month length is that of the date `new Date(year, month + 1, 0)` names: the next day is a first of a month. */
  lemma DaysInMonthIsLastDay(year: int, month: int)
    requires 0 <= month <= 11
    ensures var last := Date(FullYear(year), month + 1, DaysInMonth(year, month));
      Valid(last) && Next(last).day == 1
      && Next(last) == (if month == 11 then Date(FullYear(year) + 1, 1, 1) else Date(FullYear(year), month + 2, 1))
  {
  }

  /** Within a year, only February can have 29 days, and it has them exactly in leap years. */
  lemma DaysInMonthIs29(year: int, month: int)
    requires 0 <= month <= 11
    ensures DaysInMonth(year, month) == 29 <==> month == 1 && IsLeapYear(FullYear(year))
  {
  }

  /** The twelve month lengths of a year add up to 365, or 366 in a leap year. */
  lemma DaysInYear(year: int)
    ensures DaysInMonth(year, 0) + DaysInMonth(year, 1) + DaysInMonth(year, 2) + DaysInMonth(year, 3)
      + DaysInMonth(year, 4) + DaysInMonth(year, 5) + DaysInMonth(year, 6) + DaysInMonth(year, 7)
      + DaysInMonth(year, 8) + DaysInMonth(year, 9) + DaysInMonth(year, 10) + DaysInMonth(year, 11)
      == if IsLeapYear(FullYear(year)) then 366 else 365
  {
  }

  /** Year 0 is a Gregorian leap year, but `getDaysInMonth(0, 1)` builds a date in 1900 and answers 28. */
  lemma DaysInMonthYearZero()
    ensures IsLeapYear(0) && DaysInMonth(0, 1) == 28
    ensures DaysInMonth(2000, 1) == 29 && DaysInMonth(1900, 1) == 28 && DaysInMonth(2024, 1) == 29
  {
  }

  /**
   * `getLastNDays(n)`: the countdown loop pushes today - (n - 1), ..., today - 1, today, so the
   * result has max(n, 0) days, oldest first, each one day after the previous, ending today.
   */
  method LastNDays(n: int, today: Day) returns (result: seq<Day>)
    ensures |result| == if n > 0 then n else 0
    ensures forall k :: 0 <= k < |result| ==> result[k] == today - (|result| - 1 - k)
    ensures forall k :: 0 < k < |result| ==> result[k] == result[k - 1] + 1
    ensures |result| > 0 ==> result[|result| - 1] == today
  {
    result := [];
    var i := n - 1;
    while i >= 0
      invariant n > 0 ==> -1 <= i <= n - 1
      invariant n <= 0 ==> i == n - 1
      invariant |result| == n - 1 - i
      invariant forall k :: 0 <= k < |result| ==> result[k] == today - (n - 1 - k)
    {
      result := result + [today - i];
      i := i - 1;
    }
  }
}
