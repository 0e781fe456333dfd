/** Two months worked through: the grid of February 2024 and that of
    September 2024. Day 19723 is 1 January 2024. */
module MonthScenarios {
  import opened Gregorian
  import opened Moments
  import opened CalendarGrid

  /** February 2024 (month number 24289) starts on a Thursday and has 29
      days; its grid runs from Sunday 28 January to Saturday 2 March. */
  lemma February2024Bounds()
    ensures GridStart(24289) == ToDays(Date(2024, 1, 28))
    ensures GridEnd(24289) - 1 == ToDays(Date(2024, 3, 2))
    ensures GridEnd(24289) - GridStart(24289) == 35
  {
    MonthIndexSplit(2024, 2);
    MonthIndexSplit(2024, 3);
    assert DaysBeforeYear(2024) == 19723;
    assert MonthStart(24289) == 19754;
    assert MonthStart(24290) == 19783;
  }

  /** Shown any day of February 2024, the grid has 35 cells (5 weeks) from
      Sunday 28 January to Saturday 2 March. */
  lemma February2024(t: Moment, selectedDate: Date, now: Moment)
    requires DateOf(t).year == 2024 && DateOf(t).month == 2
    ensures var cells := FillDates(t, selectedDate, now);
      |cells| == 35 &&
      DateOf(cells[0].mDate) == Date(2024, 1, 28) &&
      DateOf(cells[34].mDate) == Date(2024, 3, 2)
  {
    February2024Bounds();
    GridOfMonth(t, selectedDate, now, 24289, Date(2024, 1, 28), Date(2024, 3, 2), 35);
  }

  /** September 2024 (month number 24296) starts on a Sunday and has 30
      days; its grid runs from Sunday 1 September to Saturday 5 October. */
  lemma September2024Bounds()
    ensures GridStart(24296) == ToDays(Date(2024, 9, 1))
    ensures GridEnd(24296) - 1 == ToDays(Date(2024, 10, 5))
    ensures GridEnd(24296) - GridStart(24296) == 35
  {
    MonthIndexSplit(2024, 9);
    MonthIndexSplit(2024, 10);
    assert DaysBeforeYear(2024) == 19723;
    assert MonthStart(24296) == 19967;
    assert MonthStart(24297) == 19997;
  }

  /** Shown any day of September 2024, the grid has 35 cells from Sunday
      1 September, the 1st itself, to Saturday 5 October. */
  lemma September2024(t: Moment, selectedDate: Date, now: Moment)
    requires DateOf(t).year == 2024 && DateOf(t).month == 9
    ensures var cells := FillDates(t, selectedDate, now);
      |cells| == 35 &&
      DateOf(cells[0].mDate) == Date(2024, 9, 1) &&
      DateOf(cells[34].mDate) == Date(2024, 10, 5)
  {
    September2024Bounds();
    GridOfMonth(t, selectedDate, now, 24296, Date(2024, 9, 1), Date(2024, 10, 5), 35);
  }

  /** The grid of month i, n cells long, runs from the cell of date `first`
      to that of date `last` when those are the first and last days of its grid. */
  lemma GridOfMonth(t: Moment, selectedDate: Date, now: Moment, i: int, first: Date, last: Date, n: int)
    requires MonthNumber(t) == i
    requires ValidDate(first) && ToDays(first) == GridStart(i)
    requires ValidDate(last) && ToDays(last) == GridEnd(i) - 1
    requires n == GridEnd(i) - GridStart(i)
    ensures var cells := FillDates(t, selectedDate, now);
      |cells| == n &&
      DateOf(cells[0].mDate) == first &&
      DateOf(cells[n - 1].mDate) == last
  {
    FillDatesLength(t, selectedDate, now);
    FillDatesCells(t, selectedDate, now);
    GridEnds(FillDates(t, selectedDate, now), GridStart(i), selectedDate, now, first, last);
  }

  /** A list of consecutive midnight cells from the day of `first` to the
      day of `last` starts on `first` and ends on `last`. */
  lemma GridEnds(cells: seq<CalendarDate>, start: int, selectedDate: Date, now: Moment, first: Date, last: Date)
    requires IsGrid(cells, start, selectedDate, now) && |cells| > 0
    requires ValidDate(first) && ToDays(first) == start
    requires ValidDate(last) && ToDays(last) == start + |cells| - 1
    ensures DateOf(cells[0].mDate) == first && DateOf(cells[|cells| - 1].mDate) == last
  {
    GridSpan(cells, start, selectedDate, now);
    FromDaysToDays(first);
    FromDaysToDays(last);
  }
}
