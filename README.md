# Daily selection calendar grid, in Dafny

This project models the date picker `DailySelectionComponent` of
`src/app/daily-selection/daily-selection.component.ts`. The component keeps
four pieces of state:

- the month on display (`currentDate`);
- the selected day (`selectedDate`);
- the grid of weeks shown (`weeks`);
- whether the pop-up calendar is open (`show`).

`fillDates` lists every day from the Sunday on or before the 1st of the
displayed month up to the Saturday on or after its last day. Each cell is
flagged `today` and `selected`. `generateCalendar` splices that list into
weeks of seven. `prevMonth` and `nextMonth` move the display by a month and
rebuild the grid. `selectDate` selects a cell's day, rebuilds the grid and
toggles the pop-up. `isDisabledMonth` and `isSelectedMonth` are the two
month predicates the template uses.

The files:

- `gregorian.dfy` (module `Gregorian`): the proleptic Gregorian calendar on
  day numbers. Day 0 is 1970-01-01. It proves that converting a date to its
  day number and back is the identity, and that a day lies in a month
  exactly when it lies between that month's first and last day numbers.
- `moments.dfy` (modules `Moments` and `Lodash`): the moment.js operations
  the component calls, and lodash's `range`. A moment is a day number plus
  the milliseconds since that day's midnight, in UTC. moment.js and lodash
  are not part of this model's source. Each operation follows the library's
  documented behaviour for the calls the component makes. `lodash.range` is
  taken as the standalone 3.x package, where `range(start, end)` with
  end below start is empty; lodash 4 would count down instead. fillDates
  never reaches that case. Examples: `diff(…, 'days')` truncates toward zero;
  `date(n)` runs on into the next months; `isSame`/`isAfter` with a unit
  compare against `startOf`/`endOf` of that unit.
- `calendar_grid.dfy` (module `CalendarGrid`): `fillDates`, `isToday`,
  `isSelected`, the cut into weeks as a function, and everything proved
  about them.
- `daily_selection.dfy` (module `DailySelection`): the component as a
  class with its four fields. The methods are the constructor (running
  `ngOnInit`), `GenerateCalendar`, `PrevMonth`, `NextMonth` and `SelectDate`.
  The splice loop of `generateCalendar` is the method `SpliceWeeks`. The
  file also holds the two month predicates.
- `month_scenarios.dfy` (module `MonthScenarios`): the grids of February
  and September 2024, worked out.

The clock (`moment()`) is read by the caller and passed in as `now`. The
`'DD/MM/YYYY'` text kept in `selectedDate` is modelled as the (year, month,
day) it spells out, so comparing two such strings is comparing dates.

One comment in the source disagrees with its code. The comment at
`daily-selection.component.ts:69` calls `lastDayOfGrid` the Saturday that
closes the grid. The code at :70
actually goes back to the Sunday on or before the month's last day, then
seven days forward, so `lastDayOfGrid` is the Sunday after the grid. It is
also the end of that day, because it comes from `endOf('month')`. The model
follows the code. `range` leaves out its upper end and the day `diff`
truncates, so that Sunday is not a cell, and the last cell is indeed a
Saturday (`FillDatesLastCell`).

## Model

| member | source | states |
|---|---|---|
| CalendarGrid.IsToday | src/app/daily-selection/daily-selection.component.ts:86-89 | a moment is "today" exactly when it falls on the calendar day of `now` |
| CalendarGrid.IsSelected | src/app/daily-selection/daily-selection.component.ts:93-95 | a moment is selected exactly when the selected date is a real date and the moment falls on that date's day |
| CalendarGrid.FillDatesLength | src/app/daily-selection/daily-selection.component.ts:61-76 | fillDates returns one cell per day from the grid's first Sunday up to, not including, lastDayOfGrid: 28, 35 or 42 cells |
| CalendarGrid.FillDatesBounds | src/app/daily-selection/daily-selection.component.ts:61-70 | firstDayOfGrid is midnight of the Sunday on or before the 1st; lastDayOfGrid is the last millisecond of the Sunday after the week of the month's last day |
| CalendarGrid.FillGridCells | src/app/daily-selection/daily-selection.component.ts:72-83 | mapping `date(n)` over range(startCalendar, startCalendar + diff) gives cell k at midnight of the k-th day after firstDayOfGrid, with its two flags; the `date(n)` overflow into later months leaves no gap |
| CalendarGrid.FillDatesCells | src/app/daily-selection/daily-selection.component.ts:59-84 | cell k of fillDates is midnight of day GridStart + k, flagged today exactly on now's day and selected exactly on the selected date's day |
| CalendarGrid.FillDates | src/app/daily-selection/daily-selection.component.ts:59-84 | fillDates itself; it has no contract of its own, because stating one on it would be checked wherever a grid is used. Its properties are the lemmas FillDatesLength, FillDatesCells, FillDatesBounds, FillDatesFirstCell, FillDatesLastCell, FillDatesConsecutive, FillDatesCoversMonth, FillDatesToday, FillDatesSelected and FillDatesSameMonth |
| CalendarGrid.FillGrid | src/app/daily-selection/daily-selection.component.ts:72-83 | the range-and-map half of fillDates once firstDayOfGrid and lastDayOfGrid are known; no contract of its own. FillGridCells states what it builds |
| CalendarGrid.MapCells | src/app/daily-selection/daily-selection.component.ts:76-83 | the `.map` over the range, one cell per element; no contract of its own. GridCellAt states cell k of it |
| CalendarGrid.Cell | src/app/daily-selection/daily-selection.component.ts:77-82 | the object built per day holds the moment, is selected exactly when the moment falls on a real selected date, and is today exactly when it falls on now's day |
| CalendarGrid.SplitWeeks | src/app/daily-selection/daily-selection.component.ts:49-52 | the weeks the splice loop cuts off, as a function; no contract of its own. SplitWeeksFlatten, SplitWeeksSizes, SplitWeeksAt, WeeksOfGrid and GridWeeks state its properties |
| CalendarGrid.GridShape | src/app/daily-selection/daily-selection.component.ts:65-70 | the grid spans 4, 5 or 6 whole weeks from a Sunday to a Saturday, starting at most 6 days before the 1st and ending at most 6 days after the month's last day |
| CalendarGrid.FillDatesFirstCell | src/app/daily-selection/daily-selection.component.ts:61-68 | the first cell is a Sunday at midnight, on or before the 1st of the month and at most six days earlier |
| CalendarGrid.FillDatesLastCell | src/app/daily-selection/daily-selection.component.ts:69-76 | the last cell is a Saturday on or after the month's last day and at most six days later; the Sunday in lastDayOfGrid and every later day are not cells |
| CalendarGrid.FillDatesConsecutive | src/app/daily-selection/daily-selection.component.ts:74-77 | all cells are at midnight, each cell is the day after the previous one, and no two cells share a date |
| CalendarGrid.FillDatesCoversMonth | src/app/daily-selection/daily-selection.component.ts:74-77 | every day of the displayed month is in exactly one cell, at a place fixed by its day number |
| CalendarGrid.FillDatesToday | src/app/daily-selection/daily-selection.component.ts:79-89 | the today flag marks the cells on now's day only, at most one cell, and there is one exactly when now's day is inside the grid |
| CalendarGrid.FillDatesSelected | src/app/daily-selection/daily-selection.component.ts:80-95 | the selected flag marks exactly the cells whose DD/MM/YYYY is the selected date, at most one cell, and there is one exactly when that date is inside the grid |
| CalendarGrid.FillDatesSameMonth | src/app/daily-selection/daily-selection.component.ts:59-84 | the grid depends only on the month of the moment passed in, not on the day within it |
| CalendarGrid.SplitWeeksFlatten | src/app/daily-selection/daily-selection.component.ts:50-52 | concatenating the spliced weeks in order gives back the list |
| CalendarGrid.SplitWeeksSizes | src/app/daily-selection/daily-selection.component.ts:50-52 | each spliced week has 1 to 7 cells; a list of 7n cells gives n weeks of exactly 7 |
| CalendarGrid.SplitWeeksAt | src/app/daily-selection/daily-selection.component.ts:50-52 | for a list of 7n cells, place j of week w is element 7w + j |
| CalendarGrid.SplitWeeksIndex | src/app/daily-selection/daily-selection.component.ts:50-52 | a list of 7n cells splits into n weeks of seven, week w holding elements 7w to 7w + 6 in order |
| CalendarGrid.WeeksOfGrid | src/app/daily-selection/daily-selection.component.ts:47-53 | cutting 28, 35 or 42 consecutive midnight cells that start on a Sunday gives 4 to 6 rows of seven that concatenate back to the list, and column j falls on weekday j |
| CalendarGrid.GridWeeks | src/app/daily-selection/daily-selection.component.ts:47-53 | the weeks of the grid are 4, 5 or 6 rows of exactly 7 cells; they read back the fillDates list in order, and column j is weekday j (Sunday first) |
| DailySelection.SpliceWeeks | src/app/daily-selection/daily-selection.component.ts:49-52 | the splice loop (take up to seven from the front while cells remain) produces exactly the week split of the list |
| DailySelection.DailySelectionComponent.constructor | src/app/daily-selection/daily-selection.component.ts:39-44 | after ngOnInit: the displayed month is now's, the selected date is today's, the weeks are the grid of that month, and in it the selected cell is the today cell |
| DailySelection.DailySelectionComponent.GenerateCalendar | src/app/daily-selection/daily-selection.component.ts:47-54 | stores the weeks of the grid of the displayed month: 4 to 6 rows of 7 whose concatenation is the fillDates list; only `weeks` changes |
| DailySelection.DailySelectionComponent.PrevMonth | src/app/daily-selection/daily-selection.component.ts:100-103 | the display moves back one month, rolling from January to December of the previous year, and the weeks are rebuilt for it |
| DailySelection.DailySelectionComponent.NextMonth | src/app/daily-selection/daily-selection.component.ts:105-108 | the display moves forward one month, rolling from December to January of the next year, and the weeks are rebuilt for it |
| DailySelection.DailySelectionComponent.IsSelectedMonth | src/app/daily-selection/daily-selection.component.ts:115-118 | holds exactly when the moment is in the displayed year and month and not earlier than now, to the millisecond |
| DailySelection.DailySelectionComponent.SelectDate | src/app/daily-selection/daily-selection.component.ts:121-126 | the cell's date becomes the selected date, the pop-up flag flips, and the rebuilt weeks flag exactly the cells on the chosen day as selected |
| DailySelection.SelectedWeeks | src/app/daily-selection/daily-selection.component.ts:79-95 | in the weeks on display, a cell is selected exactly on the day whose DD/MM/YYYY was stored, and today exactly on now's day |
| DailySelection.IsDisabledMonth | src/app/daily-selection/daily-selection.component.ts:110-113 | holds exactly when the moment's (year, month) is strictly later than now's |
| DailySelection.MonthRollover | src/app/daily-selection/daily-selection.component.ts:100-108 | the month after December is January of the next year; any other month is followed by the next month of the same year |
| DailySelection.PrevThenNextMonth | src/app/daily-selection/daily-selection.component.ts:100-108 | going back a month and then forward again shows the original month and the same grid, on a day of the month no later than the original |
| DailySelection.SelectableMidnight | src/app/daily-selection/daily-selection.component.ts:115-118 | for a midnight moment, isSelectedMonth holds exactly when it is in the displayed month and on a later day than now, or on now's day with now at midnight |
| DailySelection.SelectableCells | src/app/daily-selection/daily-selection.component.ts:115-118 | a grid cell counts as selectable exactly when it is in the displayed month and on a later day than now; today's cell counts only when now is exactly midnight |
| Moments.FormatDayMonthYear | src/app/daily-selection/daily-selection.component.ts:94 | format('DD/MM/YYYY') gives a real date whose day number is the moment's day |
| Moments.Day | src/app/daily-selection/daily-selection.component.ts:61-62 | day() is a weekday number from 0 (Sunday) to 6 (Saturday) |
| Moments.DateOfMonth | src/app/daily-selection/daily-selection.component.ts:72 | date() is a day of the moment's own month, from 1 to that month's length |
| Moments.StartOfDay | src/app/daily-selection/daily-selection.component.ts:88 | startOf('day') is on the same day, at or before the moment and less than a day before it |
| Moments.EndOfDay | src/app/daily-selection/daily-selection.component.ts:88 | endOf('day') is on the same day, at or after the moment and less than a day after it |
| Moments.SetDate | src/app/daily-selection/daily-selection.component.ts:77 | date(n) moves to day n counted from the 1st of the moment's month, running into later months for large n, and keeps the time of day |
| Moments.AddDays | src/app/daily-selection/daily-selection.component.ts:70 | add(k, 'days') moves the time value forward by k whole days |
| Moments.SubtractDays | src/app/daily-selection/daily-selection.component.ts:68 | subtract(k, 'days') moves the time value back by k whole days |
| Moments.StartOfMonth | src/app/daily-selection/daily-selection.component.ts:61 | startOf('month') is midnight of the first day of the moment's month |
| Moments.StartOfMonthDate | src/app/daily-selection/daily-selection.component.ts:61 | startOf('month') falls on the 1st of the same year and month |
| Moments.EndOfMonth | src/app/daily-selection/daily-selection.component.ts:62 | endOf('month') is the last millisecond before the first day of the next month |
| Moments.EndOfMonthDate | src/app/daily-selection/daily-selection.component.ts:62 | endOf('month') falls on the last day of the same year and month |
| Moments.DiffDays | src/app/daily-selection/daily-selection.component.ts:76 | diff(b, 'days') is the difference of day numbers whenever the time-of-day difference does not cross zero against it |
| Moments.DiffDaysTruncates | src/app/daily-selection/daily-selection.component.ts:76 | diff(b, 'days') is the millisecond difference divided by a day's length, truncated toward zero |
| Moments.AddMonths | src/app/daily-selection/daily-selection.component.ts:101-106 | add or subtract k months lands in the month k away, on the same day of the month clamped to that month's length, at the same time of day |
| Moments.IsSameDay | src/app/daily-selection/daily-selection.component.ts:88 | isSame(…, 'day') holds exactly for the same day number |
| Moments.IsSameMonth | src/app/daily-selection/daily-selection.component.ts:117 | isSame(…, 'month') holds exactly for the same year and month |
| Moments.IsAfterMonth | src/app/daily-selection/daily-selection.component.ts:112 | isAfter(…, 'months') holds exactly when the first moment's month is later than the second's |
| Moments.IsSameOrAfter | src/app/daily-selection/daily-selection.component.ts:117 | isSameOrAfter holds exactly when the first moment is not earlier, to the millisecond |
| Lodash.Range | src/app/daily-selection/daily-selection.component.ts:76 | range(start, end) from the `lodash.range` package (3.x, default step 1) has one element per integer from start up to, not including, end, and is empty when end is not above start |
| Lodash.RangeAt | src/app/daily-selection/daily-selection.component.ts:76 | element i of range(start, end) is start + i |
| Gregorian.FromDaysToDays | src/app/daily-selection/daily-selection.component.ts:94 | turning a real date into its day number and back gives the same date, so DD/MM/YYYY texts are equal exactly when the days are |
| Gregorian.InMonthIff | src/app/daily-selection/daily-selection.component.ts:117 | a day is in month i exactly when it lies between that month's first and last day numbers |
| Gregorian.BeforeMonthIff | src/app/daily-selection/daily-selection.component.ts:112 | a day's month is earlier than month i exactly when the day comes before the 1st of month i |
| MonthScenarios.February2024 | src/app/daily-selection/daily-selection.component.ts:59-84 | shown any day of February 2024, the grid has 35 cells, from Sunday 28 January to Saturday 2 March |
| MonthScenarios.September2024 | src/app/daily-selection/daily-selection.component.ts:59-84 | shown any day of September 2024, the grid has 35 cells, from Sunday 1 September, the 1st itself, to Saturday 5 October |

## Left out

- `clickOut`, `@HostListener`, `ElementRef` and `@ViewChild` (daily-selection.component.ts:25-37) are left out. They are DOM event handling with no state beyond `show := false` on an outside click.
- Reading the clock is left out: `moment()` at :41, :88, :111 and :116. Each caller passes one `now` instead. The model assumes the clock does not move while one grid is built.
- Time zones and daylight-saving time are left out. Every moment is in UTC, so a day is always 86 400 000 ms long.
- Moments outside the JavaScript time range are not excluded. That range is ±8.64e15 ms from the epoch, years −271 821 to 275 760. Years are unbounded integers here.
- String formatting is left out. `format('DD/MM/YYYY')` is kept as the (year, month, day) it spells out. The model does not cover the text itself, such as zero padding.
- The constructor does not call `GenerateCalendar`. It runs the same splice (`SpliceWeeks`) on the grid while the object is being built. The result stored in `weeks` is the same.
- `SpliceWeeks` does not model `splice` mutating the `dates` array in place. The array becomes a sequence whose first seven elements are dropped on each pass. No other code sees that array.
- `show` is `undefined` in the source until the first toggle. The model starts it at `false`, which `!show` treats the same way.
- `namesOfDays`, the template, the styles, `app.module.ts` and `app.component.ts` are left out. They are presentation and Angular wiring.
- moment.js and lodash.range are not part of this model. Only the operations the component calls are modelled, from their documented behaviour.
