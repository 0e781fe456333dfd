/** The date-selection component: the month on display, the selected day,
    the weeks of the grid and whether the calendar pop-up is shown. The
    clock is read by the caller and passed in as `now`. */
module DailySelection {
  import opened Gregorian
  import opened Moments
  import opened CalendarGrid

  class DailySelectionComponent {
    /** Any moment in the month on display. */
    var currentDate: Moment
    /** The selected day, as the day, month and year of its 'DD/MM/YYYY' text. */
    var selectedDate: Date
    var weeks: seq<seq<CalendarDate>>
    var show: bool

    /** Construction followed by ngOnInit: display the month of `now` and select today. */
    constructor (now: Moment)
      ensures currentDate == now
      ensures selectedDate == FormatDayMonthYear(now)
      ensures weeks == SplitWeeks(FillDates(currentDate, selectedDate, now))
      ensures forall w, j :: 0 <= w < |weeks| && 0 <= j < |weeks[w]| ==>
                (weeks[w][j].selected <==> weeks[w][j].today)
      ensures !show
    {
      currentDate := now;
      selectedDate := FormatDayMonthYear(now);
      var rows := SpliceWeeks(FillDates(now, FormatDayMonthYear(now), now));
      weeks := rows;
      show := false;
      SelectedWeeks(now, FormatDayMonthYear(now), now, now);
    }

    /** generateCalendar: cut the list of cells into weeks, seven at a time
        from the front, and store them. */
    method GenerateCalendar(now: Moment)
      modifies this`weeks
      ensures weeks == SplitWeeks(FillDates(currentDate, selectedDate, now))
      ensures |weeks| in {4, 5, 6} && Flatten(weeks) == FillDates(currentDate, selectedDate, now)
      ensures forall w :: 0 <= w < |weeks| ==> |weeks[w]| == 7
    {
      var dates := FillDates(currentDate, selectedDate, now);
      var rows := SpliceWeeks(dates);
      GridWeeks(currentDate, selectedDate, now);
      weeks := rows;
    }

    /** prevMonth: show the previous month (December of the year before after January). */
    method PrevMonth(now: Moment)
      modifies this`currentDate, this`weeks
      ensures currentDate == AddMonths(old(currentDate), -1)
      ensures DateOf(old(currentDate)).month == 1 ==>
                DateOf(currentDate).year == DateOf(old(currentDate)).year - 1 && DateOf(currentDate).month == 12
      ensures DateOf(old(currentDate)).month != 1 ==>
                DateOf(currentDate).year == DateOf(old(currentDate)).year &&
                DateOf(currentDate).month == DateOf(old(currentDate)).month - 1
      ensures weeks == SplitWeeks(FillDates(currentDate, selectedDate, now))
    {
      currentDate := AddMonths(currentDate, -1);
      MonthRollover(DateOf(currentDate), DateOf(old(currentDate)));
      GenerateCalendar(now);
    }

    /** nextMonth: show the next month (January of the year after after December). */
    method NextMonth(now: Moment)
      modifies this`currentDate, this`weeks
      ensures currentDate == AddMonths(old(currentDate), 1)
      ensures DateOf(old(currentDate)).month == 12 ==>
                DateOf(currentDate).year == DateOf(old(currentDate)).year + 1 && DateOf(currentDate).month == 1
      ensures DateOf(old(currentDate)).month != 12 ==>
                DateOf(currentDate).year == DateOf(old(currentDate)).year &&
                DateOf(currentDate).month == DateOf(old(currentDate)).month + 1
      ensures weeks == SplitWeeks(FillDates(currentDate, selectedDate, now))
    {
      currentDate := AddMonths(currentDate, 1);
      MonthRollover(DateOf(old(currentDate)), DateOf(currentDate));
      GenerateCalendar(now);
    }

    /** isSelectedMonth: the date is in the month on display and not earlier
        than now, to the millisecond. */
    function IsSelectedMonth(date: Moment, now: Moment): (r: bool)
      reads this
      ensures r <==> DateOf(date).year == DateOf(currentDate).year &&
                     DateOf(date).month == DateOf(currentDate).month &&
                     (date.days > now.days || (date.days == now.days && date.ms >= now.ms))
    {
      IsSameMonth(date, currentDate) && IsSameOrAfter(date, now)
    }

    /** selectDate: select the day of the chosen cell, rebuild the grid and
        toggle the pop-up. */
    method SelectDate(date: CalendarDate, now: Moment)
      modifies this`selectedDate, this`weeks, this`show
      ensures selectedDate == FormatDayMonthYear(date.mDate)
      ensures show == !old(show)
      ensures weeks == SplitWeeks(FillDates(currentDate, selectedDate, now))
      ensures forall w, j :: 0 <= w < |weeks| && 0 <= j < |weeks[w]| ==>
                (weeks[w][j].selected <==> weeks[w][j].mDate.days == date.mDate.days)
    {
      selectedDate := FormatDayMonthYear(date.mDate);
      GenerateCalendar(now);
      SelectedWeeks(currentDate, selectedDate, now, date.mDate);
      show := !show;
    }
  }

  /** In the weeks of the grid, the cells flagged selected are those on the
      day of the moment whose DD/MM/YYYY was stored, and the cells flagged
      today are those on now's day. */
  lemma SelectedWeeks(t: Moment, selectedDate: Date, now: Moment, day: Moment)
    requires selectedDate == FormatDayMonthYear(day)
    ensures var weeks := SplitWeeks(FillDates(t, selectedDate, now));
      forall w, j :: 0 <= w < |weeks| && 0 <= j < |weeks[w]| ==>
        (weeks[w][j].selected <==> weeks[w][j].mDate.days == day.days) &&
        (weeks[w][j].today <==> weeks[w][j].mDate.days == now.days)
  {
    GridWeeks(t, selectedDate, now);
    FillDatesCells(t, selectedDate, now);
  }

  /** The loop of generateCalendar: while cells remain, splice off the first
      seven (or all, when fewer remain) and append them as a week. */
  method SpliceWeeks(dates: seq<CalendarDate>) returns (weeks: seq<seq<CalendarDate>>)
    ensures weeks == SplitWeeks(dates)
  {
    var rest := dates;
    var result: seq<seq<CalendarDate>> := [];
    while |rest| > 0
      invariant result + SplitWeeks(rest) == SplitWeeks(dates)
      decreases |rest|
    {
      var n := Min(7, |rest|);
      assert SplitWeeks(rest) == [rest[..n]] + SplitWeeks(rest[n..]);
      result := result + [rest[..n]];
      rest := rest[n..];
    }
    weeks := result;
  }

  /** isDisabledMonth: the month of `currentDate` lies after the month of `now`. */
  function IsDisabledMonth(currentDate: Moment, now: Moment): (r: bool)
    ensures r <==> DateOf(currentDate).year > DateOf(now).year ||
                   (DateOf(currentDate).year == DateOf(now).year && DateOf(currentDate).month > DateOf(now).month)
  {
    IsAfterMonth(currentDate, now)
  }

  /** Consecutive months: the month after December is January of the next year. */
  lemma MonthRollover(a: Date, b: Date)
    requires ValidDate(a) && ValidDate(b) && MonthOf(b) == MonthOf(a) + 1
    ensures a.month == 12 ==> b.year == a.year + 1 && b.month == 1
    ensures a.month != 12 ==> b.year == a.year && b.month == a.month + 1
  {
  }

  /** Going back a month and then forward again shows the original month:
      the same grid, on a day of the month no later than the original one. */
  lemma PrevThenNextMonth(t: Moment, selectedDate: Date, now: Moment)
    ensures MonthNumber(AddMonths(AddMonths(t, -1), 1)) == MonthNumber(t)
    ensures DateOfMonth(AddMonths(AddMonths(t, -1), 1)) <= DateOfMonth(t)
    ensures FillDates(AddMonths(AddMonths(t, -1), 1), selectedDate, now) == FillDates(t, selectedDate, now)
  {
    FillDatesSameMonth(AddMonths(AddMonths(t, -1), 1), t, selectedDate, now);
  }

  /** A grid cell sits at midnight, so the cell of today's date counts as
      part of the selectable month only when now is exactly midnight. */
  lemma SelectableCells(c: DailySelectionComponent, now: Moment)
    ensures var cells := FillDates(c.currentDate, c.selectedDate, now);
      forall k :: 0 <= k < |cells| ==>
        (c.IsSelectedMonth(cells[k].mDate, now) <==>
           MonthNumber(cells[k].mDate) == MonthNumber(c.currentDate) &&
           (cells[k].mDate.days > now.days || (cells[k].mDate.days == now.days && now.ms == 0)))
  {
    var cells := FillDates(c.currentDate, c.selectedDate, now);
    FillDatesConsecutive(c.currentDate, c.selectedDate, now);
    forall k | 0 <= k < |cells|
      ensures c.IsSelectedMonth(cells[k].mDate, now) <==>
        MonthNumber(cells[k].mDate) == MonthNumber(c.currentDate) &&
        (cells[k].mDate.days > now.days || (cells[k].mDate.days == now.days && now.ms == 0))
    {
      SelectableMidnight(c, cells[k].mDate, now);
    }
  }

  /** isSelectedMonth of a midnight: in the displayed month, and on a later
      day than now or on now's day when now is itself midnight. */
  lemma SelectableMidnight(c: DailySelectionComponent, m: Moment, now: Moment)
    requires m.ms == 0
    ensures c.IsSelectedMonth(m, now) <==>
      MonthNumber(m) == MonthNumber(c.currentDate) && (m.days > now.days || (m.days == now.days && now.ms == 0))
  {
    MonthIndexSplit(DateOf(m).year, DateOf(m).month);
    MonthIndexSplit(DateOf(c.currentDate).year, DateOf(c.currentDate).month);
  }
}
