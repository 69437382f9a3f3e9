# Salad intake dashboard — verified model

A Dafny model of the record-keeping and aggregation logic of a small salad
intake tracker. Employees log in with an employee id, record how many grams
of salad they ate today, and are shown three things:

- a cumulative intake curve built from their day-by-day totals;
- a 6 × 7 "days eaten" calendar of the current month, with a mark on every
  day on which they ate a positive amount;
- a company ranking of employees by total grams, with their own rank.

The model works on a table of `(employee id, day, grams)` records. Days are
day ordinals as Python's `date.toordinal` numbers them, and the current date
is a parameter. Grams are natural numbers, because the number input has a
minimum of 0.

Modules:

- `Calendar` computes ordinals, weekdays and `calendar.monthrange` with the
  proleptic Gregorian formulas Python uses.
- `Records` holds the table and the append; it is a class whose `rows`
  field is replaced by the concatenated table.
- `Daily` holds the daily resampling, the cumulative sum and the
  current-month window.
- `Grid` holds the nested-loop calendar builder; it is a method with loop
  invariants.
- `Ranking` holds the two `groupby` sums, the descending sort and the rank
  lookup.
- `Dashboard` holds what one page shows and how a submission shows up on
  it.

Where the intended behaviour and the code disagree, this model follows the
code:

- The daily series runs from the employee's first record day to their last.
  It is not a fixed reporting period.
- The cumulative sum runs over the whole series. It is not reset each month.
- The ranking is titled "monthly", but it sums all months, so it ranks
  all-time totals. `EmployeeTotals` proves the month grouping restricts
  nothing, whatever the month function is.
- The grid offset is `monthrange`'s weekday, with Monday = 0, while the
  column labels start with "Sun". As a result every day is drawn under the
  label of the weekday before its own (`Dashboard.AsWrittenLabelIsDayBefore`).
  The model keeps that arithmetic as written.

## Model

| member | source | states |
|---|---|---|
| Calendar.DaysInMonth | salad_app.py:78 | February has 29 days in a leap year and 28 otherwise; April, June, September and November have 30; every other month has 31 |
| Calendar.Weekday | salad_app.py:78 | the weekday of an ordinal lies in 0 .. 6 |
| Calendar.FirstDayIsMonday | salad_app.py:78 | the ordinal of 1 January of year 1 is 1, and its weekday is 0, Monday |
| Calendar.WeekdayStep | salad_app.py:78 | each next day is the next weekday, Sunday (6) followed by Monday (0); with `FirstDayIsMonday` this numbers every day Monday = 0 |
| Calendar.MonthRange | salad_app.py:78 | the first result is the weekday of day 1 of the month, in 0 .. 6; the second is the number of days in the month |
| Calendar.DaysOfMonthConsecutive | salad_app.py:79 | day `d` of a month is `d - 1` days after its day 1, so a daily range from day 1 lists the month's days in order |
| Calendar.YearLength | salad_app.py:78 | the ordinal formula gives every year 365 days, or 366 when it is a leap year |
| Calendar.Divides400 | salad_app.py:78 | a year divisible by 400 is divisible by 100 (so the leap rule's cases nest) |
| Calendar.Divides100 | salad_app.py:78 | a year divisible by 100 is divisible by 4 |
| Calendar.NextMonthStart | salad_app.py:79 | `last_day` days from day 1 end exactly where the next month (or the next year) begins |
| Calendar.February2024 | salad_app.py:78 | `monthrange(2024, 2)` is (3, 29) |
| Calendar.February2023 | salad_app.py:78 | `monthrange(2023, 2)` is (2, 28) |
| Calendar.June2025 | salad_app.py:78 | `monthrange(2025, 6)` is (6, 30) |
| Records.UserRows | salad_app.py:60 | the filtered rows all belong to the employee, there are no more of them than rows, and there is one exactly when the employee has a record |
| Records.RangeSumStep | salad_app.py:62 | grams over days `[lo, hi + 1)` are those over `[lo, hi)` plus day `hi`'s |
| Records.TotalAppend | salad_app.py:46 | one more row adds its grams to the total |
| Records.DaySumOfAppended | salad_app.py:46-62 | one more row on a day adds its grams to that day's sum |
| Records.RangeSumCoversAll | salad_app.py:62 | when all rows lie in `[lo, hi)` the range holds every gram of the table |
| Records.DaySumOfAbsentDay | salad_app.py:62 | a day without rows sums to 0 (the filled gap of a resample) |
| Records.IntakeLog.constructor | salad_app.py:15 | the table starts empty |
| Records.IntakeLog.Submit | salad_app.py:37-46 | nothing is stored without an employee id; otherwise exactly one row `(id, today, grams)` is appended and all earlier rows keep their place |
| Daily.SumCons | salad_app.py:63 | a sum splits into its first entry plus the sum of the rest |
| Daily.FirstDate | salad_app.py:62 | the earliest day is a day of some row and no row is earlier |
| Daily.LastDate | salad_app.py:62 | the latest day is a day of some row and no row is later |
| Daily.Resample | salad_app.py:62 | `n` buckets for days `lo ..`, bucket `k` holding the grams of day `lo + k` |
| Daily.DailySeries | salad_app.py:60-62 | no series exactly when the employee has no record; otherwise it starts on their first record day and ends on their last, covers every one of their rows without gaps, and entry `k` is their grams on day `start + k`, 0 when none |
| Daily.ResampledSeries | salad_app.py:60-62 | resampling the days from the first row's to the last row's gives the daily series of those rows |
| Daily.SumOfDaySums | salad_app.py:62 | adding up consecutive day sums gives the sum over that day range |
| Daily.SeriesSum | salad_app.py:62 | a daily series holds all the grams of the rows it was built from |
| Daily.DailySeriesSum | salad_app.py:60-62 | an employee's daily values add up to all the grams they recorded |
| Daily.RunningSum | salad_app.py:63 | same length as its input, entry `k` is the offset plus the sum of entries `0 .. k`, and the entries never decrease |
| Daily.Cumulative | salad_app.py:63 | same length as the daily series, entry `k` is the sum of daily entries `0 .. k`, non-decreasing, and the last entry is the sum of all daily entries |
| Daily.CumulativeEndsAtTotal | salad_app.py:63 | the cumulative series of an employee ends at their total grams |
| Daily.MonthWindow | salad_app.py:79-83 | the window has exactly `last_day` entries |
| Daily.WindowIsDaySum | salad_app.py:79-83 | window entry `k` is the employee's grams on day `k + 1` of the month: the series value inside the series, 0 outside it |
| Grid.BuildCalendar | salad_app.py:89-100 | the table has 6 weeks of 7 cells; cell `(i, j)` holds day `7i + j - first_day + 1` exactly when that lies in `1 .. last_day`, marked exactly when the window value of that day is positive, and is blank otherwise |
| Grid.EachDayOnce | salad_app.py:89-100 | with `first_day` in 0 .. 6 and at most 31 days, each day sits in week `(d + first_day - 1) / 7`, column `(d + first_day - 1) % 7`, and in no other cell |
| Grid.GridCellOfDay | salad_app.py:92-97 | in a built grid, day `d`'s cell is inside the 6 × 7 table and holds `d` with the mark exactly when its grams are positive |
| Grid.DivModUnique | salad_app.py:92 | a cell position `7i + j` with `j` in 0 .. 6 determines both `i` and `j` |
| Grid.FlatCountValue | salad_app.py:93 | counts how many of the first `n` cell positions hold a day |
| Grid.RowCount | salad_app.py:91-99 | the day cells of a week add to the count of the positions before it |
| Grid.GridCount | salad_app.py:89-100 | the day cells of the first `i` weeks equal the day positions among the first `7i` cells |
| Grid.DayCellCount | salad_app.py:89-100 | a month's grid holds exactly `last_day` non-blank cells |
| Grid.FirstDayColumn | salad_app.py:92-93 | day 1 is drawn in week 0, column `first_day` |
| Ranking.KeysOf | salad_app.py:113 | every key of the table once and nothing else |
| Ranking.GroupSum | salad_app.py:113 | one row per key of the input, each holding the grams of all rows with that key |
| Ranking.Project | salad_app.py:114 | one row per input row, under the renamed key with its grams, so the grand total is unchanged |
| Ranking.RenamedTotal | salad_app.py:114 | any table of the same rows under renamed keys has the total of the original |
| Ranking.SumOverKeysStep | salad_app.py:113-114 | one more row adds its grams once to a sum over distinct keys |
| Ranking.SumOverKeysIsProjectedSum | salad_app.py:113-114 | summing the groups sent to one coarse key equals summing the rows sent to it |
| Ranking.SumOverKeysOfEmpty | salad_app.py:113 | an empty table contributes nothing |
| Ranking.ProjectedGroups | salad_app.py:113-114 | regrouping the grouped table sums its groups |
| Ranking.Regroup | salad_app.py:113-114 | grouping by (employee, month) and then by employee gives the same sums as grouping by employee directly |
| Ranking.KeySumOfOneKey | salad_app.py:113 | under a single key every row is summed |
| Ranking.GroupSumTotal | salad_app.py:113 | grouping loses no grams and counts none twice |
| Ranking.ProjectKeys | salad_app.py:113-114 | projecting two tables with the same keys gives the same keys |
| Ranking.ByEmployeeMonth | salad_app.py:113 | one row per record under (employee, month); dropping the month gives the records keyed by employee, and the grand total is kept |
| Ranking.ByEmployee | salad_app.py:114 | one row per record under its employee: an employee's key sum is all the grams of their filtered rows, the keys are exactly the employees with records, and the grand total is kept |
| Ranking.EmployeeKeyedSum | salad_app.py:113-114 | in a table of the records keyed by employee, an employee's key sum is the total of their filtered rows |
| Ranking.EmployeeKeyedTotal | salad_app.py:113-114 | keying the records by employee keeps the grand total |
| Ranking.GroupedTotalsKeys | salad_app.py:113-114 | after both sums the keys are exactly the employees with records |
| Ranking.GroupedTotalsGrams | salad_app.py:113-114 | after the first sum, an employee's monthly subtotals add up to all their grams |
| Ranking.GroupedTotalsTotal | salad_app.py:113-114 | both sums together keep the grand total |
| Ranking.EmployeeTotals | salad_app.py:113-114 | one row per employee with records, holding their all-time grams, together equal to the grand total |
| Ranking.TotalOfCons | salad_app.py:114 | the total of a table is its first row's grams plus the rest |
| Ranking.ConsNonIncreasing | salad_app.py:114 | a row with at least the first row's grams keeps a descending table descending |
| Ranking.TailNonIncreasing | salad_app.py:114 | the rest of a descending table is descending and no heavier than its first row |
| Ranking.Insert | salad_app.py:114 | inserting into a non-increasing table keeps it non-increasing, adds exactly that row and its grams |
| Ranking.MultisetBehind | salad_app.py:114 | the first row put back in front of the insertion into the rest holds the rows of the table plus the inserted one |
| Ranking.TotalBehind | salad_app.py:114 | the same reassembly adds exactly the inserted row's grams to the total |
| Ranking.SortDescending | salad_app.py:114 | the sorted table is non-increasing and a permutation of its input |
| Ranking.TwoCopies | salad_app.py:114 | a value counted twice sits at two positions |
| Ranking.DistinctKeysPermuted | salad_app.py:114 | sorting keeps the keys distinct |
| Ranking.PermutedKeys | salad_app.py:114 | sorting keeps the same rows and the same keys |
| Ranking.Ranking | salad_app.py:113-114 | a permutation of the per-employee totals, non-increasing, one row per employee with records, each with their all-time grams, together equal to the grand total |
| Ranking.RankOf | salad_app.py:117 | no rank exactly when the employee is absent; otherwise a rank in `1 .. N` at whose position (rank - 1) the employee stands, with no earlier row for them |
| Ranking.RankAt | salad_app.py:117 | with distinct keys, the key at position `k` has rank `k + 1` |
| Ranking.FirstOfSorted | salad_app.py:114 | in a descending table, a row strictly heavier than all others is the first |
| Ranking.LastOfSorted | salad_app.py:114 | in a descending table, a row strictly lighter than all others is the last |
| Ranking.OthersSmaller | salad_app.py:113-114 | when an employee's total is strictly the largest, every other row of the ranking has fewer grams |
| Ranking.OthersLarger | salad_app.py:113-114 | when an employee's total is strictly the smallest, every other row of the ranking has more grams |
| Ranking.PositionOf | salad_app.py:113-114 | an employee with records has a row in the ranking |
| Ranking.FirstRank | salad_app.py:114-117 | in a sorted table with distinct keys, the strictly heaviest row has rank 1 |
| Ranking.LastRank | salad_app.py:114-117 | in a sorted table with distinct keys, the strictly lightest row has the last rank |
| Ranking.TopOfTable | salad_app.py:113-117 | in a table ranking all totals, the employee with strictly the largest total is ranked 1 |
| Ranking.BottomOfTable | salad_app.py:113-117 | in a table ranking all totals, the employee with strictly the smallest total is ranked last |
| Ranking.TopRank | salad_app.py:117 | an employee with strictly more grams than every other employee is ranked 1 |
| Ranking.BottomRank | salad_app.py:117 | an employee with strictly fewer grams than every other employee is ranked last (`N`) |
| Ranking.RankIsOnlyRow | salad_app.py:117 | with distinct keys, no row other than the one at the rank holds the key |
| Ranking.Standings | salad_app.py:110-117 | nothing for an empty table; the failing lookup exactly when the table is not empty and the employee has no record; otherwise the sorted table and the employee's rank, the only row holding them |
| Ranking.StandingIn | salad_app.py:116-117 | never "no data"; the failing lookup exactly when the key is absent; otherwise the table and a rank in `1 .. N` whose row, and no other, holds the employee |
| Ranking.ExampleTotals | salad_app.py:60 | in the two-employee example E1 has 150 g and E2 has 200 g, and no one else has records |
| Ranking.ExampleRowsOfE1 | salad_app.py:60 | E1's rows in the example are the first two, totalling 150 g |
| Ranking.ExampleRowsOfE2 | salad_app.py:60 | E2's row in the example is the third, totalling 200 g |
| Ranking.OrderOfTwo | salad_app.py:114 | a sorted table with exactly two distinct employees lists the larger total first |
| Ranking.RankingOfTwo | salad_app.py:113-114 | with exactly two employees, the one with more grams is ranked first |
| Ranking.TwoEmployeeExample | salad_app.py:113-117 | E1 with 100 g + 50 g and E2 with 200 g rank as E2 (200), E1 (150), with E1 2nd, for any days and any month mapping |
| Dashboard.LabelOfWeekday | salad_app.py:102 | column `w` of the Sunday-first labels names Monday-first weekday `w - 1`, never `w` |
| Dashboard.MondayFirstColumn | salad_app.py:78-92 | with `monthrange`'s offset, day `d` lands in the column numbered by its own Monday-first weekday |
| Dashboard.AsWrittenLabelIsDayBefore | salad_app.py:92-102 | every day of every month is drawn under the label of the weekday before its own |
| Dashboard.June2025FirstShownUnderSaturday | salad_app.py:78-102 | 1 June 2025 is a Sunday but is drawn in week 0, column 6, labelled "Sat" |
| Dashboard.UserPanel | salad_app.py:58-100 | nothing while the table is empty; "no data yet" exactly when the table is not empty and the employee has no record; otherwise their daily series, its cumulative sum, the month window over it and the grid built from the window with `monthrange`'s offset |
| Dashboard.ViewCumulativeEnd | salad_app.py:63 | the shown cumulative curve ends at the employee's total grams |
| Dashboard.ViewDayCount | salad_app.py:78-100 | the shown grid has exactly as many day cells as the month has days |
| Dashboard.ViewCells | salad_app.py:79-97 | each day of the month is in its own week and column of the shown grid, marked exactly when the employee recorded positive grams that day |
| Dashboard.ViewGrid | salad_app.py:77-100 | the shown grid is the grid of today's month, drawn from a window that holds the employee's grams day by day, one entry per day of the month |
| Dashboard.MonthOfSeries | salad_app.py:77-100 | the grid drawn from the month window of a daily series of the rows holds those rows' grams, one window entry per day of the month |
| Dashboard.MonthGridCells | salad_app.py:89-97 | in a month's grid, every day of the month is in its week and column, marked exactly when the grams that day are positive |
| Dashboard.MonthGridCell | salad_app.py:92-97 | in a month's grid, day `d` holds the mark exactly when the employee's grams that day are positive |
| Dashboard.Render | salad_app.py:37-117 | nothing without an employee id; otherwise the personal panel as above and the ranking part for that employee |
| Dashboard.TodayCounted | salad_app.py:45-62 | the row just recorded counts in its employee's grams for today |
| Dashboard.SubmissionMarksToday | salad_app.py:45-97 | after a positive intake is recorded, today's cell of the employee's calendar is marked |
| Dashboard.MarkedDay | salad_app.py:93-97 | a shown day with positive grams carries the mark |
| Dashboard.SubmissionIsRanked | salad_app.py:45-117 | after any intake is recorded, the ranking shows the employee's rank |

## Left out

- Streamlit page, widgets and messages (titles, text, success and error
  lines, the data frame displays and the highlighted rank column): these are
  presentation. The ranking part's `NotRanked` outcome stands for the
  exception `index[0]` raises.
- The six-character limit of the employee id widget: it is a widget limit,
  so ids are any non-empty string.
- The matplotlib line chart and table drawing: this is plotting. Calendar
  cells are the datatype `Blank | Day(day, marked)`, not the strings `""`,
  `"d"` and `"d\n〇"`.
- The generated encouraging comment and its error handling: it is a call to
  an external chat service.
- Secrets loading, the cached process-wide table and the CSV write: these
  are configuration, caching and file I/O. The log is an object the caller
  owns.
- Records.IntakeLog: the log keeps every row across `Submit` calls. In the
  source the append at line 46 only rebinds the name `data` for the current
  script run. The cached frame of lines 13-17 is never updated, so a later
  run starts from the empty table again. The model does not capture that
  loss: its log stands for a table that persists.
- The clock: `today` is a parameter of `Submit`, `UserPanel` and `Render`.
- pandas timestamps and index mechanics: days are integer ordinals. The
  month a day belongs to is a parameter `monthOf`, and the ranking is
  proved independent of it.
- Ranking.SortDescending: equal totals come out in an unspecified order.
  The contract states only non-increasing order and a permutation, since a
  pandas quicksort is not stable.
- Ranking.KeysOf: the groups come in first-appearance order rather than
  pandas' sorted key order. Only the tie order of the ranking could depend
  on it, and nothing stated depends on that.
- Records.UserRows: the contract does not state that the filtered rows are
  exactly the employee's rows of the table in order. It states their owner,
  their count bound and when they exist; the sums over them are stated
  through `Total` and `DaySum`.
- Calendar: `ValidDate` restricts `today` to years 1 .. 9999, the range
  Python's dates allow.
