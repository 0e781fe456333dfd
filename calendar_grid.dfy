/** The calendar grid of the date-selection component: every day from the
    Sunday on or before the 1st of the displayed month to the Saturday on or
    after its last day, each cell flagged as today and as selected. */
module CalendarGrid {
  import opened Gregorian
  import opened Moments
  import opened Lodash

  /** One cell of the grid. */
  datatype CalendarDate = CalendarDate(mDate: Moment, selected: bool, today: bool)

  /** isToday: the cell falls on the calendar day of `now`. */
  function IsToday(date: Moment, now: Moment): (r: bool)
    ensures r <==> date.days == now.days
  {
    IsSameDay(now, date)
  }

  /** isSelected: the cell's DD/MM/YYYY equals the selected date's. */
  function IsSelected(date: Moment, selectedDate: Date): (r: bool)
    ensures r <==> ValidDate(selectedDate) && date.days == ToDays(selectedDate)
  {
    var same := FormatDayMonthYear(date) == selectedDate;
    if ValidDate(selectedDate) then FromDaysToDays(selectedDate); same else same
  }

  /** The object built for each day of the grid: the moment, selected when
      it falls on the selected date, today when it falls on now's day. */
  function Cell(newDate: Moment, selectedDate: Date, now: Moment): (c: CalendarDate)
    ensures c.mDate == newDate
    ensures c.selected <==> ValidDate(selectedDate) && newDate.days == ToDays(selectedDate)
    ensures c.today <==> newDate.days == now.days
  {
    CalendarDate(newDate, IsSelected(newDate, selectedDate), IsToday(newDate, now))
  }

  /** fillDates: the cells of the grid for the month of currentMoment. */
  function FillDates(currentMoment: Moment, selectedDate: Date, now: Moment): seq<CalendarDate> {
    var firstOfMonth := Day(StartOfMonth(currentMoment));
    var lastOfMonth := Day(EndOfMonth(currentMoment));
    var firstDayOfGrid := SubtractDays(StartOfMonth(currentMoment), firstOfMonth);
    var lastDayOfGrid := AddDays(SubtractDays(EndOfMonth(currentMoment), lastOfMonth), 7);
    FillGrid(firstDayOfGrid, lastDayOfGrid, selectedDate, now)
  }

  /** The rest of fillDates once the grid bounds are known: the date() values
      from that of firstDayOfGrid onwards, one per whole day up to
      lastDayOfGrid, each turned into a cell. */
  function FillGrid(firstDayOfGrid: Moment, lastDayOfGrid: Moment, selectedDate: Date, now: Moment): seq<CalendarDate> {
    var startCalendar := DateOfMonth(firstDayOfGrid);
    var dates := Range(startCalendar, startCalendar + DiffDays(lastDayOfGrid, firstDayOfGrid));
    MapCells(firstDayOfGrid, dates, selectedDate, now)
  }

  /** The map step of fillDates: the cell for firstDayOfGrid.date(n), for each n in turn. */
  function MapCells(firstDayOfGrid: Moment, dates: seq<int>, selectedDate: Date, now: Moment): seq<CalendarDate> {
    seq(|dates|, k requires 0 <= k < |dates| => Cell(SetDate(firstDayOfGrid, dates[k]), selectedDate, now))
  }

  /** Concatenation of the weeks, in order. */
  function Flatten<T>(weeks: seq<seq<T>>): seq<T> {
    if weeks == [] then [] else weeks[0] + Flatten(weeks[1..])
  }

  /** The weeks that generateCalendar cuts off the front of the list, seven
      cells at a time (the last piece shorter if the length is not a multiple of 7). */
  function SplitWeeks<T>(dates: seq<T>): seq<seq<T>>
    decreases |dates|
  {
    if |dates| == 0 then []
    else
      var n := Min(7, |dates|);
      [dates[..n]] + SplitWeeks(dates[n..])
  }

  /** Reading the weeks in order gives back the list that was cut. */
  lemma {:induction false} SplitWeeksFlatten<T>(dates: seq<T>)
    ensures Flatten(SplitWeeks(dates)) == dates
    decreases |dates|
  {
    if |dates| > 0 {
      var n := Min(7, |dates|);
      var weeks := SplitWeeks(dates);
      SplitWeeksFlatten(dates[n..]);
      assert weeks[0] == dates[..n] && weeks[1..] == SplitWeeks(dates[n..]);
      assert dates == dates[..n] + dates[n..];
    }
  }

  /** Every week has one to seven cells; when the length is a multiple of 7
      there are length / 7 weeks of exactly seven. */
  lemma {:induction false} SplitWeeksSizes<T>(dates: seq<T>)
    ensures forall k :: 0 <= k < |SplitWeeks(dates)| ==> 0 < |SplitWeeks(dates)[k]| <= 7
    ensures |dates| % 7 == 0 ==>
              |SplitWeeks(dates)| == |dates| / 7 && forall k :: 0 <= k < |SplitWeeks(dates)| ==> |SplitWeeks(dates)[k]| == 7
    decreases |dates|
  {
    if |dates| > 0 {
      var n := Min(7, |dates|);
      SplitWeeksSizes(dates[n..]);
      var weeks := SplitWeeks(dates);
      assert forall k :: 1 <= k < |weeks| ==> weeks[k] == SplitWeeks(dates[n..])[k - 1];
    }
  }

  // ---------------------------------------------------------------------------
  // The grid in calendar terms

  /** Day number of the Sunday on or before the 1st of month i (firstDayOfGrid). */
  function GridStart(i: int): int {
    var first := MonthStart(i);
    first - Weekday(first)
  }

  /** Day number of the Sunday after the week holding the last day of month i
      (lastDayOfGrid): the first day past the grid. */
  function GridEnd(i: int): int {
    var last := MonthStart(i + 1) - 1;
    last - Weekday(last) + 7
  }

  /** The list fillDates builds has one cell per day from GridStart to
      GridEnd - 1: 28, 35 or 42 cells. */
  lemma FillDatesLength(t: Moment, selectedDate: Date, now: Moment)
    ensures var i := MonthNumber(t);
      |FillDates(t, selectedDate, now)| == GridEnd(i) - GridStart(i)
    ensures |FillDates(t, selectedDate, now)| in {28, 35, 42}
  {
    var i := MonthNumber(t);
    FillDatesBounds(t, selectedDate, now);
    GridShape(i);
    FillGridCells(GridStart(i), GridEnd(i), selectedDate, now);
  }

  /** Cell k of the list fillDates builds is midnight of day GridStart + k,
      flagged today on now's day and selected on the selected date's day. */
  lemma FillDatesCells(t: Moment, selectedDate: Date, now: Moment)
    ensures IsGrid(FillDates(t, selectedDate, now), GridStart(MonthNumber(t)), selectedDate, now)
  {
    var i := MonthNumber(t);
    FillDatesBounds(t, selectedDate, now);
    GridShape(i);
    FillGridCells(GridStart(i), GridEnd(i), selectedDate, now);
  }

  /** fillDates of t is the grid from midnight of GridStart to the last
      millisecond of GridEnd. */
  lemma FillDatesBounds(t: Moment, selectedDate: Date, now: Moment)
    ensures var i := MonthNumber(t);
      FillDates(t, selectedDate, now) == FillGrid(Moment(GridStart(i), 0), Moment(GridEnd(i), MsPerDay - 1), selectedDate, now)
  {
    FirstDayOfGrid(t);
    LastDayOfGrid(t);
  }

  /** From midnight of day start to the last millisecond of day end, the
      grid has a cell for each day from start to end - 1: midnight of that
      day, with its two flags. */
  lemma FillGridCells(start: int, end: int, selectedDate: Date, now: Moment)
    requires start <= end
    ensures var cells := FillGrid(Moment(start, 0), Moment(end, MsPerDay - 1), selectedDate, now);
      |cells| == end - start && IsGrid(cells, start, selectedDate, now)
  {
    var firstDayOfGrid := Moment(start, 0);
    var startCalendar := DateOfMonth(firstDayOfGrid);
    var dates := Range(startCalendar, startCalendar + (end - start));
    var cells := MapCells(firstDayOfGrid, dates, selectedDate, now);
    assert FillGrid(firstDayOfGrid, Moment(end, MsPerDay - 1), selectedDate, now) == cells;
    forall k | 0 <= k < |cells|
      ensures cells[k].mDate == Moment(start + k, 0) &&
        (cells[k].today <==> start + k == now.days) &&
        (cells[k].selected <==> ValidDate(selectedDate) && start + k == ToDays(selectedDate))
    {
      RangeAt(startCalendar, startCalendar + (end - start), k);
      GridCellAt(firstDayOfGrid, dates, selectedDate, now, k);
    }
  }

  /** Cell k of a map over date() values counted up from the date() of a
      midnight moment is the midnight k days later, with its two flags. */
  lemma GridCellAt(firstDayOfGrid: Moment, dates: seq<int>, selectedDate: Date, now: Moment, k: int)
    requires firstDayOfGrid.ms == 0
    requires 0 <= k < |dates| && dates[k] == DateOfMonth(firstDayOfGrid) + k
    ensures var cell := MapCells(firstDayOfGrid, dates, selectedDate, now)[k];
      cell.mDate == Moment(firstDayOfGrid.days + k, 0) &&
      (cell.today <==> firstDayOfGrid.days + k == now.days) &&
      (cell.selected <==> ValidDate(selectedDate) && firstDayOfGrid.days + k == ToDays(selectedDate))
  {
  }

  /** firstDayOfGrid as fillDates computes it: midnight of GridStart. */
  lemma FirstDayOfGrid(t: Moment)
    ensures SubtractDays(StartOfMonth(t), Day(StartOfMonth(t))) == Moment(GridStart(MonthNumber(t)), 0)
  {
  }

  /** lastDayOfGrid as fillDates computes it: the last millisecond of GridEnd. */
  lemma LastDayOfGrid(t: Moment)
    ensures AddDays(SubtractDays(EndOfMonth(t), Day(EndOfMonth(t))), 7) == Moment(GridEnd(MonthNumber(t)), MsPerDay - 1)
  {
  }

  /** Week alignment of a month of len days starting on day number first:
      from the Sunday on or before its first day up to, not including, the
      Sunday after the week of its last day. */
  lemma WeekAlign(first: int, len: int)
    requires 28 <= len <= 31
    ensures var start := first - Weekday(first);
      var last := first + len - 1;
      var end := last - Weekday(last) + 7;
      end - start in {28, 35, 42} &&
      Weekday(start) == 0 && Weekday(end - 1) == 6 && Weekday(end) == 0 &&
      first - 6 <= start <= first && last <= end - 1 <= last + 6
  {
    var wf := Weekday(first);
    var last := first + len - 1;
    WeekdayShift(first, len - 1);
    var x := wf + len - 1;
    var q, r := x / 7, x % 7;
    assert x == 7 * q + r && 3 <= q <= 5;
    assert Weekday(last) == r;
    WeekdayShift(first, -wf);
    WeekdayShift(last, 6 - r);
    WeekdayShift(last, 7 - r);
  }

  /** The grid spans 4, 5 or 6 whole weeks, from a Sunday to a Saturday, and
      covers the month with fewer than a week to spare on either side. */
  lemma GridShape(i: int)
    ensures GridEnd(i) - GridStart(i) in {28, 35, 42}
    ensures Weekday(GridStart(i)) == 0 && Weekday(GridEnd(i) - 1) == 6 && Weekday(GridEnd(i)) == 0
    ensures MonthStart(i) - 6 <= GridStart(i) <= MonthStart(i)
    ensures MonthStart(i + 1) - 1 <= GridEnd(i) - 1 <= MonthStart(i + 1) + 5
  {
    var first, len := MonthStart(i), MonthLength(i);
    MonthStartStep(i);
    WeekAlign(first, len);
    assert GridEnd(i) == (first + len - 1) - Weekday(first + len - 1) + 7;
  }

  // ---------------------------------------------------------------------------
  // Lists of consecutive midnight cells

  /** cells holds midnight of day start + k at place k, flagged today on
      now's day and selected on the selected date's day. */
  predicate IsGrid(cells: seq<CalendarDate>, start: int, selectedDate: Date, now: Moment) {
    forall k :: 0 <= k < |cells| ==>
      cells[k].mDate == Moment(start + k, 0) &&
      (cells[k].today <==> start + k == now.days) &&
      (cells[k].selected <==> ValidDate(selectedDate) && start + k == ToDays(selectedDate))
  }

  /** Consecutive cells are consecutive days at midnight, with distinct dates. */
  lemma GridConsecutive(cells: seq<CalendarDate>, start: int, selectedDate: Date, now: Moment)
    requires IsGrid(cells, start, selectedDate, now)
    ensures forall k :: 0 <= k < |cells| ==> cells[k].mDate.ms == 0
    ensures forall k :: 0 <= k < |cells| - 1 ==> cells[k + 1].mDate.days == cells[k].mDate.days + 1
    ensures forall j, k :: 0 <= j < k < |cells| ==> DateOf(cells[j].mDate) != DateOf(cells[k].mDate)
  {
    forall j, k | 0 <= j < k < |cells|
      ensures DateOf(cells[j].mDate) != DateOf(cells[k].mDate)
    {
      assert ToDays(DateOf(cells[j].mDate)) == cells[j].mDate.days;
    }
  }

  /** A non-empty list runs from day start to day start + |cells| - 1. */
  lemma GridSpan(cells: seq<CalendarDate>, start: int, selectedDate: Date, now: Moment)
    requires IsGrid(cells, start, selectedDate, now) && |cells| > 0
    ensures cells[0].mDate.days == start && cells[|cells| - 1].mDate.days == start + |cells| - 1
    ensures forall k :: 0 <= k < |cells| ==> start <= cells[k].mDate.days < start + |cells|
  {
  }

  /** A valid date whose day number is in the range of the list has exactly
      one cell, at place ToDays(day) - start. */
  lemma GridFindsDate(cells: seq<CalendarDate>, start: int, selectedDate: Date, now: Moment, day: Date)
    requires IsGrid(cells, start, selectedDate, now)
    requires ValidDate(day) && start <= ToDays(day) < start + |cells|
    ensures var k := ToDays(day) - start;
      0 <= k < |cells| && DateOf(cells[k].mDate) == day &&
      forall j :: 0 <= j < |cells| && DateOf(cells[j].mDate) == day ==> j == k
  {
    FromDaysToDays(day);
    forall j | 0 <= j < |cells| && DateOf(cells[j].mDate) == day
      ensures j == ToDays(day) - start
    {
      assert ToDays(DateOf(cells[j].mDate)) == cells[j].mDate.days;
    }
  }

  /** The today flag is set on now's day only: on one cell when that day is
      in range, on none otherwise. */
  lemma GridToday(cells: seq<CalendarDate>, start: int, selectedDate: Date, now: Moment)
    requires IsGrid(cells, start, selectedDate, now)
    ensures forall k :: 0 <= k < |cells| ==> (cells[k].today <==> cells[k].mDate.days == now.days)
    ensures forall j, k :: 0 <= j < k < |cells| ==> !(cells[j].today && cells[k].today)
    ensures (exists k :: 0 <= k < |cells| && cells[k].today) <==> start <= now.days < start + |cells|
  {
    if start <= now.days < start + |cells| {
      assert cells[now.days - start].today;
    }
  }

  /** The selected flag is set on the cell whose DD/MM/YYYY is the selected
      date only: on one cell when that date is in range, on none otherwise. */
  lemma GridSelected(cells: seq<CalendarDate>, start: int, selectedDate: Date, now: Moment)
    requires IsGrid(cells, start, selectedDate, now)
    ensures forall k :: 0 <= k < |cells| ==> (cells[k].selected <==> FormatDayMonthYear(cells[k].mDate) == selectedDate)
    ensures forall j, k :: 0 <= j < k < |cells| ==> !(cells[j].selected && cells[k].selected)
    ensures (exists k :: 0 <= k < |cells| && cells[k].selected) <==>
              ValidDate(selectedDate) && start <= ToDays(selectedDate) < start + |cells|
  {
    forall k | 0 <= k < |cells|
      ensures cells[k].selected <==> FormatDayMonthYear(cells[k].mDate) == selectedDate
    {
      assert cells[k].selected == IsSelected(cells[k].mDate, selectedDate);
    }
    if ValidDate(selectedDate) && start <= ToDays(selectedDate) < start + |cells| {
      assert cells[ToDays(selectedDate) - start].selected;
    }
  }

  /** Two such lists of the same length from the same day are equal. */
  lemma GridUnique(c1: seq<CalendarDate>, c2: seq<CalendarDate>, start: int, selectedDate: Date, now: Moment)
    requires IsGrid(c1, start, selectedDate, now) && IsGrid(c2, start, selectedDate, now)
    requires |c1| == |c2|
    ensures c1 == c2
  {
    forall k | 0 <= k < |c1| ensures c1[k] == c2[k] {
      assert c1[k].mDate == c2[k].mDate && c1[k].today == c2[k].today && c1[k].selected == c2[k].selected;
    }
  }

  // ---------------------------------------------------------------------------
  // Properties of fillDates

  /** The first cell is a Sunday at midnight, on or before the 1st of the
      month and at most six days earlier. */
  lemma FillDatesFirstCell(t: Moment, selectedDate: Date, now: Moment)
    ensures |FillDates(t, selectedDate, now)| > 0
    ensures Day(FillDates(t, selectedDate, now)[0].mDate) == 0
    ensures FillDates(t, selectedDate, now)[0].mDate.ms == 0
    ensures StartOfMonth(t).days - 6 <= FillDates(t, selectedDate, now)[0].mDate.days <= StartOfMonth(t).days
  {
    FillDatesLength(t, selectedDate, now);
    FillDatesCells(t, selectedDate, now);
    GridShape(MonthNumber(t));
  }

  /** The last cell is a Saturday on or after the last day of the month and
      at most six days later; the Sunday that follows it (lastDayOfGrid) is
      not a cell. */
  lemma FillDatesLastCell(t: Moment, selectedDate: Date, now: Moment)
    ensures |FillDates(t, selectedDate, now)| > 0
    ensures var c := FillDates(t, selectedDate, now)[|FillDates(t, selectedDate, now)| - 1].mDate;
      Day(c) == 6 &&
      EndOfMonth(t).days <= c.days <= EndOfMonth(t).days + 6 &&
      c.days + 1 == GridEnd(MonthNumber(t)) && Weekday(GridEnd(MonthNumber(t))) == 0
    ensures forall k :: 0 <= k < |FillDates(t, selectedDate, now)| ==>
              FillDates(t, selectedDate, now)[k].mDate.days < GridEnd(MonthNumber(t))
  {
    var i := MonthNumber(t);
    FillDatesLength(t, selectedDate, now);
    FillDatesCells(t, selectedDate, now);
    GridShape(i);
    GridLastCell(FillDates(t, selectedDate, now), GridStart(i), GridEnd(i), EndOfMonth(t).days, selectedDate, now);
  }

  /** The last of a list of consecutive midnight cells from day start up to,
      not including, a Sunday end is the Saturday before end; when that
      Saturday is at most six days after a day d, so is the last cell. */
  lemma GridLastCell(cells: seq<CalendarDate>, start: int, end: int, d: int, selectedDate: Date, now: Moment)
    requires IsGrid(cells, start, selectedDate, now) && |cells| == end - start > 0
    requires Weekday(end - 1) == 6 && d <= end - 1 <= d + 6
    ensures var c := cells[|cells| - 1].mDate;
      Day(c) == 6 && d <= c.days <= d + 6 && c.days + 1 == end
    ensures forall k :: 0 <= k < |cells| ==> cells[k].mDate.days < end
  {
  }

  /** Consecutive cells are consecutive days at midnight: no gaps, no repeats. */
  lemma FillDatesConsecutive(t: Moment, selectedDate: Date, now: Moment)
    ensures var cells := FillDates(t, selectedDate, now);
      forall k :: 0 <= k < |cells| ==> cells[k].mDate.ms == 0
    ensures var cells := FillDates(t, selectedDate, now);
      forall k :: 0 <= k < |cells| - 1 ==> cells[k + 1].mDate.days == cells[k].mDate.days + 1
    ensures var cells := FillDates(t, selectedDate, now);
      forall j, k :: 0 <= j < k < |cells| ==> DateOf(cells[j].mDate) != DateOf(cells[k].mDate)
  {
    FillDatesCells(t, selectedDate, now);
    GridConsecutive(FillDates(t, selectedDate, now), GridStart(MonthNumber(t)), selectedDate, now);
  }

  /** Every day of the displayed month is in exactly one cell. */
  lemma FillDatesCoversMonth(t: Moment, selectedDate: Date, now: Moment, d: int)
    requires 1 <= d <= DaysInMonth(DateOf(t).year, DateOf(t).month)
    ensures var cells := FillDates(t, selectedDate, now);
      var day := Date(DateOf(t).year, DateOf(t).month, d);
      var k := ToDays(day) - GridStart(MonthNumber(t));
      0 <= k < |cells| && DateOf(cells[k].mDate) == day &&
      forall j :: 0 <= j < |cells| && DateOf(cells[j].mDate) == day ==> j == k
  {
    var i := MonthNumber(t);
    var day := Date(DateOf(t).year, DateOf(t).month, d);
    FillDatesLength(t, selectedDate, now);
    FillDatesCells(t, selectedDate, now);
    GridShape(i);
    ToDaysMonthStart(day);
    MonthStartStep(i);
    GridFindsDate(FillDates(t, selectedDate, now), GridStart(i), selectedDate, now, day);
  }

  /** The today flag marks the cell on now's calendar day, and no other:
      one cell when that day is in the grid, none otherwise. */
  lemma FillDatesToday(t: Moment, selectedDate: Date, now: Moment)
    ensures var cells := FillDates(t, selectedDate, now);
      forall k :: 0 <= k < |cells| ==> (cells[k].today <==> cells[k].mDate.days == now.days)
    ensures var cells := FillDates(t, selectedDate, now);
      forall j, k :: 0 <= j < k < |cells| ==> !(cells[j].today && cells[k].today)
    ensures var cells := FillDates(t, selectedDate, now);
      (exists k :: 0 <= k < |cells| && cells[k].today) <==> GridStart(MonthNumber(t)) <= now.days < GridEnd(MonthNumber(t))
  {
    FillDatesLength(t, selectedDate, now);
    FillDatesCells(t, selectedDate, now);
    GridToday(FillDates(t, selectedDate, now), GridStart(MonthNumber(t)), selectedDate, now);
  }

  /** The selected flag marks the cell whose DD/MM/YYYY is the selected date,
      and no other: one cell when that date is in the grid, none otherwise. */
  lemma FillDatesSelected(t: Moment, selectedDate: Date, now: Moment)
    ensures var cells := FillDates(t, selectedDate, now);
      forall k :: 0 <= k < |cells| ==> (cells[k].selected <==> FormatDayMonthYear(cells[k].mDate) == selectedDate)
    ensures var cells := FillDates(t, selectedDate, now);
      forall j, k :: 0 <= j < k < |cells| ==> !(cells[j].selected && cells[k].selected)
    ensures var cells := FillDates(t, selectedDate, now);
      (exists k :: 0 <= k < |cells| && cells[k].selected) <==>
      ValidDate(selectedDate) && GridStart(MonthNumber(t)) <= ToDays(selectedDate) < GridEnd(MonthNumber(t))
  {
    FillDatesLength(t, selectedDate, now);
    FillDatesCells(t, selectedDate, now);
    GridSelected(FillDates(t, selectedDate, now), GridStart(MonthNumber(t)), selectedDate, now);
  }

  /** The grid depends on the displayed month only, not on the day within it. */
  lemma FillDatesSameMonth(t1: Moment, t2: Moment, selectedDate: Date, now: Moment)
    requires MonthNumber(t1) == MonthNumber(t2)
    ensures FillDates(t1, selectedDate, now) == FillDates(t2, selectedDate, now)
  {
    FillDatesLength(t1, selectedDate, now);
    FillDatesLength(t2, selectedDate, now);
    FillDatesCells(t1, selectedDate, now);
    FillDatesCells(t2, selectedDate, now);
    GridUnique(FillDates(t1, selectedDate, now), FillDates(t2, selectedDate, now), GridStart(MonthNumber(t1)), selectedDate, now);
  }

  // ---------------------------------------------------------------------------
  // Properties of the weeks

  /** Splitting a list whose length is a multiple of 7 puts element 7 * w + j
      at place j of week w. */
  lemma {:induction false} SplitWeeksAt<T>(dates: seq<T>, w: int, j: int)
    requires |dates| % 7 == 0 && 0 <= w < |dates| / 7 && 0 <= j < 7
    ensures |SplitWeeks(dates)| == |dates| / 7 && |SplitWeeks(dates)[w]| == 7
    ensures SplitWeeks(dates)[w][j] == dates[7 * w + j]
    decreases |dates|
  {
    SplitWeeksSizes(dates);
    if w > 0 {
      SplitWeeksAt(dates[7..], w - 1, j);
      assert SplitWeeks(dates)[w] == SplitWeeks(dates[7..])[w - 1];
    }
  }

  /** Splitting a list of 7 * n elements gives n weeks of seven, week w
      holding elements 7 * w to 7 * w + 6 in order. */
  lemma SplitWeeksIndex<T>(dates: seq<T>, n: nat)
    requires |dates| == 7 * n
    ensures |SplitWeeks(dates)| == n
    ensures forall w :: 0 <= w < n ==> |SplitWeeks(dates)[w]| == 7
    ensures forall w, j :: 0 <= w < n && 0 <= j < 7 ==> SplitWeeks(dates)[w][j] == dates[7 * w + j]
  {
    SplitWeeksSizes(dates);
    forall w, j | 0 <= w < n && 0 <= j < 7
      ensures SplitWeeks(dates)[w][j] == dates[7 * w + j]
    {
      SplitWeeksAt(dates, w, j);
    }
  }

  /** Cut into weeks, a list of 4, 5 or 6 weeks of consecutive midnight
      cells that starts on a Sunday gives rows of seven whose cell j falls on
      weekday j, and reading the rows in order gives the list back. */
  lemma WeeksOfGrid(cells: seq<CalendarDate>, start: int, selectedDate: Date, now: Moment)
    requires IsGrid(cells, start, selectedDate, now)
    requires |cells| in {28, 35, 42} && Weekday(start) == 0
    ensures var weeks := SplitWeeks(cells);
      |weeks| in {4, 5, 6} && |cells| == 7 * |weeks| && Flatten(weeks) == cells
    ensures var weeks := SplitWeeks(cells);
      forall w :: 0 <= w < |weeks| ==> |weeks[w]| == 7
    ensures var weeks := SplitWeeks(cells);
      forall w, j :: 0 <= w < |weeks| && 0 <= j < |weeks[w]| ==>
        weeks[w][j] == cells[7 * w + j] && Day(weeks[w][j].mDate) == j
  {
    SplitWeeksFlatten(cells);
    SplitWeeksIndex(cells, if |cells| == 28 then 4 else if |cells| == 35 then 5 else 6);
    var weeks: seq<seq<CalendarDate>> := SplitWeeks(cells);
    forall w, j | 0 <= w < |weeks| && 0 <= j < |weeks[w]|
      ensures Day(weeks[w][j].mDate) == j
    {
      GridCellWeekday(cells, start, selectedDate, now, w, j);
    }
  }

  /** In a list of consecutive midnight cells from a Sunday, place j of week
      w falls on weekday j. */
  lemma GridCellWeekday(cells: seq<CalendarDate>, start: int, selectedDate: Date, now: Moment, w: int, j: int)
    requires IsGrid(cells, start, selectedDate, now) && Weekday(start) == 0
    requires 0 <= j < 7 && 0 <= 7 * w + j < |cells|
    ensures Day(cells[7 * w + j].mDate) == j
  {
    var q := (start + 4) / 7;
    assert start + 4 == 7 * q;
    assert cells[7 * w + j].mDate.days + 4 == 7 * (q + w) + j;
  }

  /** The weeks of the grid: 4, 5 or 6 rows of 7 cells that read in order
      give back the list fillDates built; row w, column j is cell 7 * w + j,
      which falls on weekday j (Sunday first). */
  lemma GridWeeks(t: Moment, selectedDate: Date, now: Moment)
    ensures var cells := FillDates(t, selectedDate, now);
      var weeks := SplitWeeks(cells);
      |weeks| in {4, 5, 6} && |cells| == 7 * |weeks| && Flatten(weeks) == cells
    ensures var weeks := SplitWeeks(FillDates(t, selectedDate, now));
      forall w :: 0 <= w < |weeks| ==> |weeks[w]| == 7
    ensures var cells := FillDates(t, selectedDate, now);
      var weeks := SplitWeeks(cells);
      forall w, j :: 0 <= w < |weeks| && 0 <= j < |weeks[w]| ==>
        weeks[w][j] == cells[7 * w + j] && Day(weeks[w][j].mDate) == j
  {
    var i := MonthNumber(t);
    FillDatesLength(t, selectedDate, now);
    FillDatesCells(t, selectedDate, now);
    GridShape(i);
    WeeksOfGrid(FillDates(t, selectedDate, now), GridStart(i), selectedDate, now);
  }
}
