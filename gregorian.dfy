/** Proleptic Gregorian calendar arithmetic on day numbers.
    Day 0 is 1970-01-01 (the epoch of JavaScript time values, a Thursday);
    a date of any year maps to the number of days since that day. */
module Gregorian {

  const EpochYear := 1970

  /** A calendar date: year, month 1..12, day of month 1..DaysInMonth. */
  datatype Date = Date(year: int, month: int, day: int)

  predicate IsLeapYear(y: int) {
    y % 4 == 0 && (y % 100 != 0 || y % 400 == 0)
  }

  function DaysInMonth(y: int, m: int): (n: int)
    requires 1 <= m <= 12
    ensures 28 <= n <= 31
    ensures m == 2 ==> (n == 29 <==> IsLeapYear(y))
  {
    if m == 2 then (if IsLeapYear(y) then 29 else 28)
    else if m == 4 || m == 6 || m == 9 || m == 11 then 30
    else 31
  }

  function DaysInYear(y: int): int {
    if IsLeapYear(y) then 366 else 365
  }

  predicate ValidDate(d: Date) {
    1 <= d.month <= 12 && 1 <= d.day <= DaysInMonth(d.year, d.month)
  }

  /** Number of days in the months of year y that precede month m. */
  function DaysBeforeMonth(y: int, m: int): int
    requires 1 <= m <= 12
  {
    if m == 1 then 0 else DaysBeforeMonth(y, m - 1) + DaysInMonth(y, m - 1)
  }

  /** Number of leap years from year 1 up to and including year y (negative
      below year 1); `/` rounds down, as the proleptic calendar needs. */
  function LeapYearsThrough(y: int): int {
    y / 4 - y / 100 + y / 400
  }

  /** Day number of January 1st of year y: 365 days a year from the epoch,
      plus one for each leap year in between. */
  function DaysBeforeYear(y: int): int {
    365 * (y - EpochYear) + LeapYearsThrough(y - 1) - LeapYearsThrough(EpochYear - 1)
  }

  /** Day number of day `dayOfMonth` counted from the 1st of month m of year y.
      A day of month outside 1..DaysInMonth(y, m) runs on into the following
      or preceding months, as JavaScript's MakeDay (and so Date.setDate) does. */
  function MakeDay(y: int, m: int, dayOfMonth: int): int
    requires 1 <= m <= 12
  {
    DaysBeforeYear(y) + DaysBeforeMonth(y, m) + dayOfMonth - 1
  }

  function ToDays(d: Date): int
    requires 1 <= d.month <= 12
  {
    MakeDay(d.year, d.month, d.day)
  }

  /** Months counted on one line: month m of year y is 12 * y + m - 1. */
  function MonthIndex(y: int, m: int): int {
    12 * y + m - 1
  }

  function MonthOf(d: Date): int {
    MonthIndex(d.year, d.month)
  }

  /** Day number of the first day of month number i. */
  function MonthStart(i: int): int {
    MakeDay(i / 12, i % 12 + 1, 1)
  }

  function MonthLength(i: int): int {
    DaysInMonth(i / 12, i % 12 + 1)
  }

  /** The month of year y holding day `dayOfYear` (0 is January 1st),
      searched from month m onwards. */
  function MonthFrom(y: int, dayOfYear: int, m: int): (r: int)
    requires 1 <= m <= 12
    requires DaysBeforeMonth(y, m) <= dayOfYear < DaysInYear(y)
    ensures m <= r <= 12
    ensures DaysBeforeMonth(y, r) <= dayOfYear < DaysBeforeMonth(y, r) + DaysInMonth(y, r)
    decreases 12 - m
  {
    if m == 12 then
      DaysBeforeDecember(y);
      12
    else if dayOfYear < DaysBeforeMonth(y, m + 1) then m
    else MonthFrom(y, dayOfYear, m + 1)
  }

  /** The calendar date of day number n, found by moving year by year from
      year y until the year holds n, then locating its month and day. */
  function DateNear(n: int, y: int): (d: Date)
    ensures ValidDate(d) && ToDays(d) == n
    decreases if n < DaysBeforeYear(y) then DaysBeforeYear(y) - n else 0,
              if n < DaysBeforeYear(y + 1) then 0 else n - DaysBeforeYear(y + 1) + 1
  {
    if n < DaysBeforeYear(y) then
      DaysBeforeYearStep(y - 1);
      DateNear(n, y - 1)
    else if DaysBeforeYear(y + 1) <= n then
      DaysBeforeYearStep(y + 1);
      DateNear(n, y + 1)
    else
      DaysBeforeYearStep(y);
      var m := MonthFrom(y, n - DaysBeforeYear(y), 1);
      Date(y, m, n - DaysBeforeYear(y) - DaysBeforeMonth(y, m) + 1)
  }

  /** The calendar date of day number n, searched for from the year it
      would fall in if every year had 365 days. */
  function FromDays(n: int): (d: Date)
    ensures ValidDate(d) && ToDays(d) == n
  {
    DateNear(n, EpochYear)
  }

  /** Day of the week of day number n: 0 is Sunday, 6 is Saturday. */
  function Weekday(n: int): (w: int)
    ensures 0 <= w < 7
  {
    (n + 4) % 7
  }

  // ---------------------------------------------------------------------------
  // Lemmas

  /** Moving k days moves the weekday k places round the week. */
  lemma WeekdayShift(n: int, k: int)
    ensures Weekday(n + k) == (Weekday(n) + k) % 7
  {
    var q := (n + 4) / 7;
    assert n + 4 == 7 * q + Weekday(n);
    assert (n + k + 4) == 7 * q + (Weekday(n) + k);
  }

  lemma DaysBeforeYearStep(y: int)
    ensures DaysBeforeYear(y + 1) == DaysBeforeYear(y) + DaysInYear(y)
  {
    LeapYearStep(y);
    assert DaysBeforeYear(y + 1) - DaysBeforeYear(y) == 365 + (LeapYearsThrough(y) - LeapYearsThrough(y - 1));
  }

  /** Year y adds one to the count of leap years exactly when it is a leap year. */
  lemma LeapYearStep(y: int)
    ensures LeapYearsThrough(y) - LeapYearsThrough(y - 1) == if IsLeapYear(y) then 1 else 0
  {
    DivStep4(y);
    DivStep100(y);
    DivStep400(y);
    assert y % 400 == 0 ==> y % 100 == 0 && y % 4 == 0;
    assert y % 100 == 0 ==> y % 4 == 0;
  }

  lemma DivStep4(y: int)
    ensures y / 4 - (y - 1) / 4 == if y % 4 == 0 then 1 else 0
  {
    var q, r := y / 4, y % 4;
    if r == 0 {
      assert y - 1 == 4 * (q - 1) + 3;
    } else {
      assert y - 1 == 4 * q + (r - 1);
    }
  }

  lemma DivStep100(y: int)
    ensures y / 100 - (y - 1) / 100 == if y % 100 == 0 then 1 else 0
  {
    var q, r := y / 100, y % 100;
    if r == 0 {
      assert y - 1 == 100 * (q - 1) + 99;
    } else {
      assert y - 1 == 100 * q + (r - 1);
    }
  }

  lemma DivStep400(y: int)
    ensures y / 400 - (y - 1) / 400 == if y % 400 == 0 then 1 else 0
  {
    var q, r := y / 400, y % 400;
    if r == 0 {
      assert y - 1 == 400 * (q - 1) + 399;
    } else {
      assert y - 1 == 400 * q + (r - 1);
    }
  }

  lemma DaysBeforeDecember(y: int)
    ensures DaysBeforeMonth(y, 12) + DaysInMonth(y, 12) == DaysInYear(y)
  {
    var leap := if IsLeapYear(y) then 1 else 0;
    assert DaysBeforeMonth(y, 2) == 31;
    assert DaysBeforeMonth(y, 3) == 59 + leap;
    assert DaysBeforeMonth(y, 4) == 90 + leap;
    assert DaysBeforeMonth(y, 5) == 120 + leap;
    assert DaysBeforeMonth(y, 6) == 151 + leap;
    assert DaysBeforeMonth(y, 7) == 181 + leap;
    assert DaysBeforeMonth(y, 8) == 212 + leap;
    assert DaysBeforeMonth(y, 9) == 243 + leap;
    assert DaysBeforeMonth(y, 10) == 273 + leap;
    assert DaysBeforeMonth(y, 11) == 304 + leap;
    assert DaysBeforeMonth(y, 12) == 334 + leap;
  }

  lemma MonthIndexSplit(y: int, m: int)
    requires 1 <= m <= 12
    ensures MonthIndex(y, m) / 12 == y && MonthIndex(y, m) % 12 == m - 1
  {
  }

  lemma ToDaysMonthStart(d: Date)
    requires ValidDate(d)
    ensures ToDays(d) == MonthStart(MonthOf(d)) + d.day - 1
    ensures MonthLength(MonthOf(d)) == DaysInMonth(d.year, d.month)
  {
    MonthIndexSplit(d.year, d.month);
  }

  /** The first day of the next month follows the last day of this one. */
  lemma MonthStartStep(i: int)
    ensures MonthStart(i + 1) == MonthStart(i) + MonthLength(i)
  {
    var y, m := i / 12, i % 12 + 1;
    if m < 12 {
      assert (i + 1) / 12 == y && (i + 1) % 12 + 1 == m + 1;
    } else {
      assert (i + 1) / 12 == y + 1 && (i + 1) % 12 + 1 == 1;
      DaysBeforeYearStep(y);
      DaysBeforeDecember(y);
    }
  }

  /** Every day of an earlier month comes before the first day of a later month. */
  lemma {:induction false} MonthStartMonotone(i: int, j: int)
    requires i < j
    ensures MonthStart(i) + MonthLength(i) <= MonthStart(j)
    decreases j - i
  {
    MonthStartStep(i);
    if i + 1 < j {
      MonthStartMonotone(i + 1, j);
    }
  }

  /** Day numbers follow the calendar order of months. */
  lemma ToDaysMonthOrder(a: Date, b: Date)
    requires ValidDate(a) && ValidDate(b)
    requires MonthOf(a) < MonthOf(b)
    ensures ToDays(a) < ToDays(b)
  {
    ToDaysMonthStart(a);
    ToDaysMonthStart(b);
    MonthStartMonotone(MonthOf(a), MonthOf(b));
  }

  /** Distinct valid dates have distinct day numbers. */
  lemma ToDaysInjective(a: Date, b: Date)
    requires ValidDate(a) && ValidDate(b)
    requires ToDays(a) == ToDays(b)
    ensures a == b
  {
    if MonthOf(a) < MonthOf(b) {
      ToDaysMonthOrder(a, b);
    } else if MonthOf(b) < MonthOf(a) {
      ToDaysMonthOrder(b, a);
    } else {
      MonthIndexSplit(a.year, a.month);
      MonthIndexSplit(b.year, b.month);
    }
  }

  /** Converting a valid date to its day number and back gives the date again. */
  lemma FromDaysToDays(d: Date)
    requires ValidDate(d)
    ensures FromDays(ToDays(d)) == d
  {
    ToDaysInjective(FromDays(ToDays(d)), d);
  }

  /** The days of month i are exactly the day numbers from MonthStart(i) to
      MonthStart(i) + MonthLength(i) - 1. */
  lemma InMonthIff(n: int, i: int)
    ensures MonthOf(FromDays(n)) == i <==> MonthStart(i) <= n < MonthStart(i) + MonthLength(i)
  {
    var d := FromDays(n);
    ToDaysMonthStart(d);
    if MonthOf(d) < i {
      MonthStartMonotone(MonthOf(d), i);
    } else if i < MonthOf(d) {
      MonthStartMonotone(i, MonthOf(d));
    }
  }

  /** A day comes before the first day of month i exactly when its month is earlier than i. */
  lemma BeforeMonthIff(n: int, i: int)
    ensures MonthOf(FromDays(n)) < i <==> n < MonthStart(i)
  {
    var j := MonthOf(FromDays(n));
    InMonthIff(n, j);
    if j < i {
      MonthStartMonotone(j, i);
    } else if i < j {
      MonthStartMonotone(i, j);
    }
  }
}
