/** The part of the moment.js date library that the date-selection component
    uses, over UTC time values: a moment is a day number and the milliseconds
    elapsed since that day's midnight. */
module Moments {
  import opened Gregorian

  const MsPerDay := 86400000

  type TimeOfDay = ms: int | 0 <= ms < 86400000

  datatype Moment = Moment(days: int, ms: TimeOfDay)

  /** valueOf(): milliseconds since 1970-01-01T00:00:00.000. */
  function ValueOf(t: Moment): int {
    t.days * MsPerDay + t.ms
  }

  /** year(), month() + 1 and date() of t. */
  function DateOf(t: Moment): (d: Date)
    ensures ValidDate(d)
  {
    FromDays(t.days)
  }

  /** The month of t, counted on one line (see MonthIndex). */
  function MonthNumber(t: Moment): int {
    MonthOf(DateOf(t))
  }

  /** format('DD/MM/YYYY'), kept as the (day, month, year) it spells out. */
  function FormatDayMonthYear(t: Moment): (d: Date)
    ensures ValidDate(d) && ToDays(d) == t.days
  {
    DateOf(t)
  }

  /** day(): 0 for Sunday up to 6 for Saturday. */
  function Day(t: Moment): (w: int)
    ensures 0 <= w < 7
  {
    Weekday(t.days)
  }

  /** date(): the day of the month. */
  function DateOfMonth(t: Moment): (n: int)
    ensures 1 <= n <= DaysInMonth(DateOf(t).year, DateOf(t).month)
  {
    DateOf(t).day
  }

  /** date(n): day n counted from the 1st of t's month, running on into the
      following months when n exceeds the month's length; time of day kept. */
  function SetDate(t: Moment, n: int): (r: Moment)
    ensures r.days == t.days + n - DateOfMonth(t) && r.ms == t.ms
  {
    var d := DateOf(t);
    Moment(MakeDay(d.year, d.month, n), t.ms)
  }

  /** add(k, 'days') */
  function AddDays(t: Moment, k: int): (r: Moment)
    ensures ValueOf(r) == ValueOf(t) + k * MsPerDay
  {
    Moment(t.days + k, t.ms)
  }

  /** subtract(k, 'days') */
  function SubtractDays(t: Moment, k: int): (r: Moment)
    ensures ValueOf(r) == ValueOf(t) - k * MsPerDay
  {
    Moment(t.days - k, t.ms)
  }

  /** startOf('day'): midnight of t's day, at most t and less than a day before it. */
  function StartOfDay(t: Moment): (s: Moment)
    ensures s.days == t.days && ValueOf(s) <= ValueOf(t) < ValueOf(s) + MsPerDay
  {
    Moment(t.days, 0)
  }

  /** endOf('day'): the last millisecond of t's day, at least t and less than a day after it. */
  function EndOfDay(t: Moment): (e: Moment)
    ensures e.days == t.days && ValueOf(e) - MsPerDay < ValueOf(t) <= ValueOf(e)
  {
    Moment(t.days, MsPerDay - 1)
  }

  /** startOf('month'): midnight of the 1st of t's month. */
  function StartOfMonth(t: Moment): (s: Moment)
    ensures s.ms == 0
    ensures s.days == MonthStart(MonthNumber(t))
  {
    var d := DateOf(t);
    ToDaysMonthStart(Date(d.year, d.month, 1));
    Moment(MakeDay(d.year, d.month, 1), 0)
  }

  /** startOf('month') is the 1st of the same month and year. */
  lemma StartOfMonthDate(t: Moment)
    ensures DateOf(StartOfMonth(t)) == Date(DateOf(t).year, DateOf(t).month, 1)
  {
    FromDaysToDays(Date(DateOf(t).year, DateOf(t).month, 1));
  }

  /** endOf('month'): the last millisecond of the last day of t's month,
      one millisecond before the start of the next month. */
  function EndOfMonth(t: Moment): (e: Moment)
    ensures e.days + 1 == MonthStart(MonthNumber(t) + 1) && e.ms == MsPerDay - 1
  {
    var d := DateOf(t);
    var last := Date(d.year, d.month, DaysInMonth(d.year, d.month));
    EndOfMonthValue(last);
    Moment(ToDays(last), MsPerDay - 1)
  }

  /** endOf('month') falls on the last day of the same month and year. */
  lemma EndOfMonthDate(t: Moment)
    ensures DateOf(EndOfMonth(t)) == Date(DateOf(t).year, DateOf(t).month, DaysInMonth(DateOf(t).year, DateOf(t).month))
  {
    FromDaysToDays(Date(DateOf(t).year, DateOf(t).month, DaysInMonth(DateOf(t).year, DateOf(t).month)));
  }

  /** add(k, 'months') (subtract with k negative): the same day of the month k
      months away, clamped to that month's length; time of day kept. */
  function AddMonths(t: Moment, k: int): (r: Moment)
    ensures MonthNumber(r) == MonthNumber(t) + k
    ensures DateOfMonth(r) == Min(DateOfMonth(t), MonthLength(MonthNumber(t) + k))
    ensures r.ms == t.ms
  {
    var d := DateOf(t);
    var i := MonthOf(d) + k;
    var y, m := i / 12, i % 12 + 1;
    var target := Date(y, m, Min(d.day, DaysInMonth(y, m)));
    FromDaysToDays(target);
    MonthIndexSplit(y, m);
    Moment(MakeDay(y, m, Min(d.day, DaysInMonth(y, m))), t.ms)
  }

  lemma EndOfMonthValue(last: Date)
    requires ValidDate(last) && last.day == DaysInMonth(last.year, last.month)
    ensures ToDays(last) + 1 == MonthStart(MonthOf(last) + 1)
  {
    ToDaysMonthStart(last);
    MonthStartStep(MonthOf(last));
  }

  function Min(a: int, b: int): int {
    if a <= b then a else b
  }

  /** diff(b, 'days'): whole days from b to a. moment divides the difference
      in milliseconds by a day's length and truncates toward zero, so a part
      day is dropped on either side of zero (see DiffDaysTruncates). */
  function DiffDays(a: Moment, b: Moment): (r: int)
    ensures a.days >= b.days && a.ms >= b.ms ==> r == a.days - b.days
    ensures a.days <= b.days && a.ms <= b.ms ==> r == a.days - b.days
  {
    if a.days > b.days && a.ms < b.ms then a.days - b.days - 1
    else if a.days < b.days && a.ms > b.ms then a.days - b.days + 1
    else a.days - b.days
  }

  /** DiffDays is the millisecond difference divided by a day's length,
      truncated toward zero. */
  lemma DiffDaysTruncates(a: Moment, b: Moment)
    ensures var delta := ValueOf(a) - ValueOf(b);
      DiffDays(a, b) == if delta >= 0 then delta / MsPerDay else -((-delta) / MsPerDay)
  {
    var delta := ValueOf(a) - ValueOf(b);
    var d := a.days - b.days;
    assert delta == d * MsPerDay + (a.ms - b.ms);
    if delta >= 0 {
      var r := DiffDays(a, b);
      assert r * MsPerDay <= delta < r * MsPerDay + MsPerDay;
    } else {
      var r := -DiffDays(a, b);
      assert r * MsPerDay <= -delta < r * MsPerDay + MsPerDay;
    }
  }

  /** a.isSame(b, 'day') */
  function IsSameDay(a: Moment, b: Moment): (r: bool)
    ensures r <==> a.days == b.days
  {
    ValueOf(StartOfDay(a)) <= ValueOf(b) <= ValueOf(EndOfDay(a))
  }

  /** a.isSame(b, 'month') */
  function IsSameMonth(a: Moment, b: Moment): (r: bool)
    ensures r <==> DateOf(a).year == DateOf(b).year && DateOf(a).month == DateOf(b).month
  {
    var s := StartOfMonth(a);
    var e := EndOfMonth(a);
    InMonthIff(b.days, MonthNumber(a));
    MonthIndexSplit(DateOf(a).year, DateOf(a).month);
    MonthIndexSplit(DateOf(b).year, DateOf(b).month);
    ValueOf(s) <= ValueOf(b) <= ValueOf(e)
  }

  /** a.isAfter(b, 'months') */
  function IsAfterMonth(a: Moment, b: Moment): (r: bool)
    ensures r <==> MonthNumber(a) > MonthNumber(b)
  {
    var s := StartOfMonth(a);
    BeforeMonthIff(b.days, MonthNumber(a));
    ValueOf(b) < ValueOf(s)
  }

  /** a.isSameOrAfter(b), to the millisecond. */
  function IsSameOrAfter(a: Moment, b: Moment): (r: bool)
    ensures r <==> a.days > b.days || (a.days == b.days && a.ms >= b.ms)
  {
    ValueOf(a) == ValueOf(b) || ValueOf(a) > ValueOf(b)
  }
}

/** lodash.range(start, end) as the standalone lodash.range 3.x package
    defines it: the integers from start up to end, end excluded, with step
    1; when end is not above start there are none. */
module Lodash {

  function Range(start: int, end: int): (r: seq<int>)
    ensures start <= end ==> |r| == end - start
    ensures end <= start ==> r == []
    decreases end - start
  {
    if start >= end then []
    else [start] + Range(start + 1, end)
  }

  /** Element i of range(start, end) is start + i. */
  lemma {:induction false} RangeAt(start: int, end: int, i: int)
    requires 0 <= i < |Range(start, end)|
    ensures Range(start, end)[i] == start + i
    decreases end - start
  {
    if i > 0 {
      RangeAt(start + 1, end, i - 1);
    }
  }
}
