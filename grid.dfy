/** The "days eaten" calendar: a fixed grid of 6 weeks by 7 columns filled
    from the month window, with a mark on each day whose grams are positive. */
module Grid {

  /** A grid cell: blank, or a day of the month with or without the mark. */
  datatype Cell = Blank | Day(day: int, marked: bool)

  const WEEKS := 6
  const WEEKDAYS := 7

  /** The column headers the grid is drawn with. */
  const COLUMN_LABELS: seq<string> := ["Sun", "Mon", "Tue", "Wed", "Thu", "Fri", "Sat"]

  /** The cell in week `i`, column `j`: day `7 * i + j - firstDay + 1` when
      that lies in `1 .. lastDay`, marked when the window's grams for that
      day are positive; blank otherwise. */
  function CellAt(window: seq<nat>, firstDay: int, lastDay: int, i: int, j: int): Cell
    requires lastDay <= |window|
  {
    var day := i * WEEKDAYS + j - firstDay + 1;
    if 0 < day <= lastDay then Day(day, window[day - 1] > 0) else Blank
  }

  predicate IsGrid(table: seq<seq<Cell>>, window: seq<nat>, firstDay: int, lastDay: int)
    requires lastDay <= |window|
  {
    && |table| == WEEKS
    && forall i :: 0 <= i < WEEKS ==>
         && |table[i]| == WEEKDAYS
         && forall j :: 0 <= j < WEEKDAYS ==> table[i][j] == CellAt(window, firstDay, lastDay, i, j)
  }

  /** Builds the grid week by week, cell by cell. */
  method BuildCalendar(window: seq<nat>, firstDay: int, lastDay: int) returns (table: seq<seq<Cell>>)
    requires lastDay <= |window|
    ensures IsGrid(table, window, firstDay, lastDay)
  {
    table := [];
    for i := 0 to WEEKS
      invariant |table| == i
      invariant forall a :: 0 <= a < i ==>
                  && |table[a]| == WEEKDAYS
                  && forall b :: 0 <= b < WEEKDAYS ==> table[a][b] == CellAt(window, firstDay, lastDay, a, b)
    {
      var week := [];
      for j := 0 to WEEKDAYS
        invariant |week| == j
        invariant forall b :: 0 <= b < j ==> week[b] == CellAt(window, firstDay, lastDay, i, b)
      {
        var day := i * WEEKDAYS + j - firstDay + 1;
        if day > 0 && day <= lastDay {
          if window[day - 1] > 0 {
            week := week + [Day(day, true)];
          } else {
            week := week + [Day(day, false)];
          }
        } else {
          week := week + [Blank];
        }
      }
      table := table + [week];
    }
  }

  /** When the first weekday is in `0 .. 6` and the month has at most 31
      days, each day `d` of the month sits in exactly one cell: week
      `(d + firstDay - 1) / 7`, column `(d + firstDay - 1) % 7`. */
  lemma EachDayOnce(window: seq<nat>, firstDay: int, lastDay: int, d: int)
    requires 0 <= firstDay < WEEKDAYS && lastDay <= 31 && lastDay <= |window|
    requires 1 <= d <= lastDay
    ensures var n := d + firstDay - 1;
            && n / WEEKDAYS < WEEKS
            && CellAt(window, firstDay, lastDay, n / WEEKDAYS, n % WEEKDAYS) == Day(d, window[d - 1] > 0)
    ensures forall i, j ::
              (0 <= i < WEEKS && 0 <= j < WEEKDAYS && CellAt(window, firstDay, lastDay, i, j).Day? &&
               CellAt(window, firstDay, lastDay, i, j).day == d) ==>
              i == (d + firstDay - 1) / WEEKDAYS && j == (d + firstDay - 1) % WEEKDAYS
  {
    var n := d + firstDay - 1;
    assert n == n / WEEKDAYS * WEEKDAYS + n % WEEKDAYS;
    forall i, j | 0 <= i < WEEKS && 0 <= j < WEEKDAYS && CellAt(window, firstDay, lastDay, i, j).Day? &&
                  CellAt(window, firstDay, lastDay, i, j).day == d
      ensures i == n / WEEKDAYS && j == n % WEEKDAYS
    {
      assert i * WEEKDAYS + j == n;
      DivModUnique(n, i, j);
    }
  }

  /** In a built grid, day `d` is found in its week and column. */
  lemma GridCellOfDay(table: seq<seq<Cell>>, window: seq<nat>, firstDay: int, lastDay: int, d: int)
    requires 0 <= firstDay < WEEKDAYS && lastDay <= 31 && lastDay <= |window|
    requires IsGrid(table, window, firstDay, lastDay)
    requires 1 <= d <= lastDay
    ensures var n := d + firstDay - 1;
            && 0 <= n / WEEKDAYS < WEEKS && 0 <= n % WEEKDAYS < WEEKDAYS
            && table[n / WEEKDAYS][n % WEEKDAYS] == Day(d, window[d - 1] > 0)
  {
    EachDayOnce(window, firstDay, lastDay, d);
  }

  lemma DivModUnique(n: int, i: int, j: int)
    requires 0 <= j < WEEKDAYS && n == i * WEEKDAYS + j
    ensures i == n / WEEKDAYS && j == n % WEEKDAYS
  {
  }

  function CountRow(row: seq<Cell>): nat {
    if |row| == 0 then 0 else CountRow(row[..|row| - 1]) + (if row[|row| - 1].Day? then 1 else 0)
  }

  /** The number of non-blank cells of a grid. */
  function CountDays(table: seq<seq<Cell>>): nat {
    if |table| == 0 then 0 else CountDays(table[..|table| - 1]) + CountRow(table[|table| - 1])
  }

  /** How many of the cell positions `0 .. n - 1` (read row by row) hold a day. */
  function FlatCount(firstDay: int, lastDay: int, n: nat): nat {
    if n == 0 then 0
    else FlatCount(firstDay, lastDay, n - 1) + (if 0 < n - 1 - firstDay + 1 <= lastDay then 1 else 0)
  }

  lemma {:induction false} FlatCountValue(firstDay: int, lastDay: int, n: nat)
    requires 0 <= firstDay && 0 <= lastDay
    ensures FlatCount(firstDay, lastDay, n) ==
            if n <= firstDay then 0 else if n <= firstDay + lastDay then n - firstDay else lastDay
  {
    if n > 0 {
      FlatCountValue(firstDay, lastDay, n - 1);
    }
  }

  lemma {:induction false} RowCount(window: seq<nat>, firstDay: int, lastDay: int, i: int, row: seq<Cell>, j: nat)
    requires lastDay <= |window| && 0 <= i && j <= |row|
    requires forall b :: 0 <= b < |row| ==> row[b] == CellAt(window, firstDay, lastDay, i, b)
    ensures CountRow(row[..j]) + FlatCount(firstDay, lastDay, i * WEEKDAYS) ==
            FlatCount(firstDay, lastDay, i * WEEKDAYS + j)
  {
    if j > 0 {
      RowCount(window, firstDay, lastDay, i, row, j - 1);
      assert row[..j][..j - 1] == row[..j - 1];
    }
  }

  lemma {:induction false} GridCount(table: seq<seq<Cell>>, window: seq<nat>, firstDay: int, lastDay: int, i: nat)
    requires lastDay <= |window| && IsGrid(table, window, firstDay, lastDay) && i <= WEEKS
    ensures CountDays(table[..i]) == FlatCount(firstDay, lastDay, i * WEEKDAYS)
  {
    if i > 0 {
      GridCount(table, window, firstDay, lastDay, i - 1);
      assert table[..i][..i - 1] == table[..i - 1];
      RowCount(window, firstDay, lastDay, i - 1, table[i - 1], WEEKDAYS);
      assert table[i - 1][..WEEKDAYS] == table[i - 1];
    }
  }

  /** A grid of a month of at most 31 days, starting on weekday `0 .. 6`,
      holds exactly `lastDay` non-blank cells out of 42. */
  lemma DayCellCount(table: seq<seq<Cell>>, window: seq<nat>, firstDay: int, lastDay: int)
    requires 0 <= firstDay < WEEKDAYS && 0 <= lastDay <= 31 && lastDay <= |window|
    requires IsGrid(table, window, firstDay, lastDay)
    ensures CountDays(table) == lastDay
  {
    GridCount(table, window, firstDay, lastDay, WEEKS);
    assert table[..WEEKS] == table;
    FlatCountValue(firstDay, lastDay, WEEKS * WEEKDAYS);
  }

  /** Day 1 is drawn in column `firstDay`, under the label `COLUMN_LABELS[firstDay]`. */
  lemma FirstDayColumn(window: seq<nat>, firstDay: int, lastDay: int)
    requires 0 <= firstDay < WEEKDAYS && 1 <= lastDay <= |window|
    ensures CellAt(window, firstDay, lastDay, 0, firstDay) == Day(1, window[0] > 0)
  {
  }
}
