/** One page of the app for a logged-in employee: the personal panel (daily
    and cumulative series, the current month's "days eaten" calendar) and
    the ranking, each built from the intake table and today's date. */
module Dashboard {
  import Calendar
  import opened Records
  import opened Daily
  import opened Grid
  import Ranking

  /** Weekday names indexed the way `calendar.monthrange` and
      `date.weekday` number them: Monday = 0 … Sunday = 6. */
  const WEEKDAY_NAMES: seq<string> := ["Mon", "Tue", "Wed", "Thu", "Fri", "Sat", "Sun"]

  lemma ModShift(a: int, b: int)
    ensures (a + b % 7) % 7 == (a + b) % 7
  {
    var q := b / 7;
    assert b == 7 * q + b % 7;
    assert a + b == (a + b % 7) + 7 * q;
  }

  /** Column `w` of the Sunday-first labels names Monday-first weekday
      `w - 1`, never weekday `w` itself. */
  lemma LabelOfWeekday(w: int)
    requires 0 <= w < 7
    ensures COLUMN_LABELS[w] == WEEKDAY_NAMES[(w + 6) % 7]
    ensures COLUMN_LABELS[w] != WEEKDAY_NAMES[w]
  {
  }

  /** Day `d` of the month goes in column `(d + offset - 1) % 7`; with the
      offset `monthrange` returns, that column is the day's Monday-first
      weekday number. */
  lemma MondayFirstColumn(year: int, month: int, d: int)
    requires 1 <= year && 1 <= month <= 12
    ensures (d + Calendar.MonthRange(year, month).0 - 1) % 7 == Calendar.Weekday(Calendar.DayOrdinal(year, month, d))
  {
    var o := Calendar.DayOrdinal(year, month, 1);
    Calendar.DaysOfMonthConsecutive(year, month, d);
    ModShift(d - 1, o + 6);
  }

  /** As written, the grid is offset by `monthrange`'s Monday-first weekday
      while its columns are labelled from Sunday: every day of every month is
      drawn under the label of the weekday before its own. */
  lemma AsWrittenLabelIsDayBefore(year: int, month: int, d: int)
    requires 1 <= year && 1 <= month <= 12
    ensures var w := Calendar.Weekday(Calendar.DayOrdinal(year, month, d));
            var column := (d + Calendar.MonthRange(year, month).0 - 1) % 7;
            COLUMN_LABELS[column] == WEEKDAY_NAMES[(w + 6) % 7] &&
            COLUMN_LABELS[column] != WEEKDAY_NAMES[w]
  {
    MondayFirstColumn(year, month, d);
    LabelOfWeekday(Calendar.Weekday(Calendar.DayOrdinal(year, month, d)));
  }

  /** 1 June 2025 is a Sunday, but the grid as written puts it in week 0,
      column 6, under "Sat". */
  lemma June2025FirstShownUnderSaturday(window: seq<nat>)
    requires |window| >= 30
    ensures Calendar.Weekday(Calendar.DayOrdinal(2025, 6, 1)) == 6
    ensures WEEKDAY_NAMES[6] == "Sun"
    ensures var f := Calendar.MonthRange(2025, 6).0;
            f == 6 && CellAt(window, f, 30, 0, 6) == Day(1, window[0] > 0) && COLUMN_LABELS[6] == "Sat"
  {
    Calendar.June2025();
  }

  /** What the personal panel shows. */
  datatype UserView = UserView(
    daily: Series,
    cumulative: seq<nat>,
    window: seq<nat>,
    firstDay: int,
    lastDay: int,
    grid: seq<seq<Cell>>)

  /** The personal panel: hidden while the table is empty, the "no data
      yet" line when the employee has no row, and the view otherwise. */
  datatype Panel = Hidden | NoDataYet | Shown(view: UserView)

  /** `v` is the view of `employee` in `rows` on `today`: their daily series,
      its cumulative sum, the window of today's month over it, and the grid
      of that month drawn from the window. */
  predicate IsUserView(v: UserView, rows: Table, employee: string, today: Calendar.Date)
    requires Calendar.ValidDate(today)
  {
    var s := DailySeries(rows, employee);
    var y, m := today.year, today.month;
    && s.Some?
    && v.daily == s.value
    && v.cumulative == Cumulative(v.daily.values)
    && v.firstDay == Calendar.MonthRange(y, m).0
    && v.lastDay == Calendar.MonthRange(y, m).1
    && v.window == MonthWindow(v.daily, Calendar.DayOrdinal(y, m, 1), v.lastDay)
    && IsGrid(v.grid, v.window, v.firstDay, v.lastDay)
  }

  /** Builds the personal panel of `employee` on `today`. */
  method UserPanel(rows: Table, employee: string, today: Calendar.Date) returns (p: Panel)
    requires Calendar.ValidDate(today)
    ensures p.Hidden? <==> |rows| == 0
    ensures p.NoDataYet? <==> |rows| > 0 && !HasRecords(rows, employee)
    ensures p.Shown? ==> IsUserView(p.view, rows, employee, today)
  {
    if |rows| == 0 {
      return Hidden;
    }
    var s := DailySeries(rows, employee);
    if s.None? {
      return NoDataYet;
    }
    var daily := s.value;
    var cumulative := Cumulative(daily.values);
    var monthStart := Calendar.DayOrdinal(today.year, today.month, 1);
    var range := Calendar.MonthRange(today.year, today.month);
    var lastDay := range.1;
    var firstDay := range.0;
    var window := MonthWindow(daily, monthStart, lastDay);
    var grid := BuildCalendar(window, firstDay, lastDay);
    p := Shown(UserView(daily, cumulative, window, firstDay, lastDay, grid));
  }

  /** Day `d` of the month is drawn in week `(d + firstDay - 1) / 7`, column
      `(d + firstDay - 1) % 7` of the grid, marked exactly when `u` holds
      positive grams on that day. */
  predicate DayShown(grid: seq<seq<Cell>>, u: Table, year: int, month: int, firstDay: int, d: int)
    requires 1 <= year && 1 <= month <= 12
  {
    var n := d + firstDay - 1;
    && 0 <= n / 7 < |grid|
    && 0 <= n % 7 < |grid[n / 7]|
    && grid[n / 7][n % 7] == Day(d, DaySum(u, Calendar.DayOrdinal(year, month, d)) > 0)
  }

  /** The cumulative curve of a shown panel ends at everything the employee
      recorded. */
  lemma ViewCumulativeEnd(v: UserView, rows: Table, employee: string, today: Calendar.Date)
    requires Calendar.ValidDate(today)
    requires IsUserView(v, rows, employee, today)
    ensures |v.cumulative| > 0 && v.cumulative[|v.cumulative| - 1] == Total(UserRows(rows, employee))
  {
    CumulativeEndsAtTotal(rows, employee);
  }

  /** The grid of a shown panel has one non-blank cell per day of the month. */
  lemma ViewDayCount(v: UserView, rows: Table, employee: string, today: Calendar.Date)
    requires Calendar.ValidDate(today)
    requires IsUserView(v, rows, employee, today)
    ensures v.lastDay == Calendar.DaysInMonth(today.year, today.month)
    ensures CountDays(v.grid) == v.lastDay
  {
    DayCellCount(v.grid, v.window, v.firstDay, v.lastDay);
  }

  /** `grid` is the calendar of month `month` of `year` drawn from a window
      that holds, day by day, the grams of `u`. */
  predicate IsMonthGrid(grid: seq<seq<Cell>>, window: seq<nat>, u: Table, year: int, month: int, firstDay: int, lastDay: int)
    requires 1 <= year && 1 <= month <= 12
  {
    && firstDay == Calendar.MonthRange(year, month).0
    && lastDay == |window| == Calendar.DaysInMonth(year, month)
    && (forall k :: 0 <= k < lastDay ==> window[k] == DaySum(u, Calendar.DayOrdinal(year, month, 1) + k))
    && IsGrid(grid, window, firstDay, lastDay)
  }

  /** The grid of a shown panel is the calendar of today's month drawn from
      the employee's grams, one window entry per day of the month. */
  lemma ViewGrid(v: UserView, rows: Table, employee: string, today: Calendar.Date)
    requires Calendar.ValidDate(today)
    requires IsUserView(v, rows, employee, today)
    ensures IsMonthGrid(v.grid, v.window, UserRows(rows, employee), today.year, today.month, v.firstDay, v.lastDay)
  {
    MonthOfSeries(v.grid, v.window, v.daily, UserRows(rows, employee), today.year, today.month, v.firstDay, v.lastDay);
  }

  /** The grid drawn from the month window of a daily series of `u` is a
      month grid of `u`. */
  lemma MonthOfSeries(grid: seq<seq<Cell>>, window: seq<nat>, daily: Series, u: Table,
                      year: int, month: int, firstDay: int, lastDay: int)
    requires 1 <= year && 1 <= month <= 12
    requires IsDailySeriesOf(daily, u)
    requires firstDay == Calendar.MonthRange(year, month).0
    requires lastDay == Calendar.MonthRange(year, month).1
    requires window == MonthWindow(daily, Calendar.DayOrdinal(year, month, 1), lastDay)
    requires IsGrid(grid, window, firstDay, lastDay)
    ensures IsMonthGrid(grid, window, u, year, month, firstDay, lastDay)
  {
    WindowIsDaySum(daily, u, Calendar.DayOrdinal(year, month, 1), lastDay);
  }

  /** In the grid of a shown panel each day of the month is in its week and
      column, marked exactly when the employee recorded positive grams that
      day (which label that column carries: `AsWrittenLabelIsDayBefore`). */
  lemma ViewCells(v: UserView, rows: Table, employee: string, today: Calendar.Date)
    requires Calendar.ValidDate(today)
    requires IsUserView(v, rows, employee, today)
    ensures forall d :: 1 <= d <= v.lastDay ==>
              DayShown(v.grid, UserRows(rows, employee), today.year, today.month, v.firstDay, d)
  {
    ViewGrid(v, rows, employee, today);
    MonthGridCells(v.grid, v.window, UserRows(rows, employee), today.year, today.month, v.firstDay, v.lastDay);
  }

  /** Every day of the month in a month grid. */
  lemma MonthGridCells(grid: seq<seq<Cell>>, window: seq<nat>, u: Table, year: int, month: int, firstDay: int, lastDay: int)
    requires 1 <= year && 1 <= month <= 12
    requires IsMonthGrid(grid, window, u, year, month, firstDay, lastDay)
    ensures forall d :: 1 <= d <= lastDay ==> DayShown(grid, u, year, month, firstDay, d)
  {
    forall d | 1 <= d <= lastDay ensures DayShown(grid, u, year, month, firstDay, d) {
      MonthGridCell(grid, window, u, year, month, firstDay, lastDay, d);
    }
  }

  /** The cell of day `d` in a month grid: in its week and column, marked
      exactly when `u` has positive grams that day. */
  lemma MonthGridCell(grid: seq<seq<Cell>>, window: seq<nat>, u: Table, year: int, month: int, firstDay: int, lastDay: int, d: int)
    requires 1 <= year && 1 <= month <= 12
    requires IsMonthGrid(grid, window, u, year, month, firstDay, lastDay)
    requires 1 <= d <= lastDay
    ensures DayShown(grid, u, year, month, firstDay, d)
  {
    GridCellOfDay(grid, window, firstDay, lastDay, d);
    Calendar.DaysOfMonthConsecutive(year, month, d);
  }

  /** Everything the page shows to a logged-in employee. */
  datatype Page = LoggedOut | Page(panel: Panel, standing: Ranking.Standing)

  /** Renders the page: nothing until an employee id is entered, then the
      personal panel and the ranking part. */
  method Render(rows: Table, employeeId: string, today: Calendar.Date, monthOf: int -> int) returns (page: Page)
    requires Calendar.ValidDate(today)
    ensures page.LoggedOut? <==> employeeId == ""
    ensures page.Page? ==>
      && (page.panel.Hidden? <==> |rows| == 0)
      && (page.panel.NoDataYet? <==> |rows| > 0 && !HasRecords(rows, employeeId))
      && (page.panel.Shown? ==> IsUserView(page.panel.view, rows, employeeId, today))
      && page.standing == Ranking.Standings(rows, employeeId, monthOf)
  {
    if employeeId == "" {
      return LoggedOut;
    }
    var panel := UserPanel(rows, employeeId, today);
    page := Page(panel, Ranking.Standings(rows, employeeId, monthOf));
  }

  /** Right after an employee records a positive intake, today's cell of
      their calendar is marked. */
  lemma SubmissionMarksToday(rows: Table, employee: string, today: Calendar.Date, intake: nat, v: UserView)
    requires Calendar.ValidDate(today) && intake > 0
    requires IsUserView(v, rows + [Record(employee, Calendar.Ordinal(today), intake)], employee, today)
    ensures DayMarked(v.grid, v.firstDay, today.day)
  {
    var r := Record(employee, Calendar.Ordinal(today), intake);
    var u := UserRows(rows + [r], employee);
    TodayCounted(rows, r);
    ViewGrid(v, rows + [r], employee, today);
    MonthGridCell(v.grid, v.window, u, today.year, today.month, v.firstDay, v.lastDay, today.day);
    MarkedDay(v.grid, u, today.year, today.month, v.firstDay, today.day);
  }

  /** A shown day with positive grams carries the mark. */
  lemma MarkedDay(grid: seq<seq<Cell>>, u: Table, year: int, month: int, firstDay: int, d: int)
    requires 1 <= year && 1 <= month <= 12
    requires DayShown(grid, u, year, month, firstDay, d)
    requires DaySum(u, Calendar.DayOrdinal(year, month, d)) > 0
    ensures DayMarked(grid, firstDay, d)
  {
  }

  /** Day `d` is drawn marked in week `(d + firstDay - 1) / 7`, column
      `(d + firstDay - 1) % 7` of the grid. */
  predicate DayMarked(grid: seq<seq<Cell>>, firstDay: int, d: int) {
    var n := d + firstDay - 1;
    && 0 <= n / 7 < |grid|
    && 0 <= n % 7 < |grid[n / 7]|
    && grid[n / 7][n % 7] == Day(d, true)
  }

  /** The appended row is counted in its employee's grams of its day. */
  lemma TodayCounted(rows: Table, r: Record)
    ensures DaySum(UserRows(rows + [r], r.employee), r.date) >= r.grams
  {
    var t := rows + [r];
    assert t[..|rows|] == rows;
    assert UserRows(t, r.employee) == UserRows(rows, r.employee) + [r];
    DaySumOfAppended(UserRows(rows, r.employee), r);
  }

  /** Right after an employee records, the ranking part shows their rank. */
  lemma SubmissionIsRanked(rows: Table, r: Record, monthOf: int -> int)
    ensures Ranking.Standings(rows + [r], r.employee, monthOf).Ranked?
  {
    var t := rows + [r];
    assert t[|t| - 1].employee == r.employee;
    assert HasRecords(t, r.employee);
  }
}
