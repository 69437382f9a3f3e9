/** The intake table: one row per submission, holding the employee id, the
    day (as an ordinal) and the grams eaten, and the sums over it that every
    view of the dashboard is built from. */
module Records {
  import Calendar

  datatype Record = Record(employee: string, date: int, grams: nat)

  type Table = seq<Record>

  datatype Option<T> = None | Some(value: T)

  predicate HasRecords(t: Table, employee: string) {
    exists i :: 0 <= i < |t| && t[i].employee == employee
  }

  /** All grams in the table. */
  function Total(t: Table): nat {
    if |t| == 0 then 0 else Total(t[..|t| - 1]) + t[|t| - 1].grams
  }

  /** Grams recorded on day `d`. */
  function DaySum(t: Table, d: int): nat {
    if |t| == 0 then 0
    else DaySum(t[..|t| - 1], d) + (if t[|t| - 1].date == d then t[|t| - 1].grams else 0)
  }

  /** Grams recorded on the days `lo <= date < hi`. */
  function RangeSum(t: Table, lo: int, hi: int): nat {
    if |t| == 0 then 0
    else RangeSum(t[..|t| - 1], lo, hi) + (if lo <= t[|t| - 1].date < hi then t[|t| - 1].grams else 0)
  }

  /** The rows whose employee id is `employee`, in table order. */
  function UserRows(t: Table, employee: string): (u: Table)
    ensures |u| <= |t|
    ensures forall i :: 0 <= i < |u| ==> u[i].employee == employee
    ensures |u| > 0 <==> HasRecords(t, employee)
  {
    if |t| == 0 then []
    else
      var u := UserRows(t[..|t| - 1], employee);
      var r := t[|t| - 1];
      assert HasRecords(t, employee) <==> HasRecords(t[..|t| - 1], employee) || r.employee == employee by {
        if HasRecords(t, employee) && r.employee != employee {
          var i :| 0 <= i < |t| && t[i].employee == employee;
          assert t[..|t| - 1][i].employee == employee;
        }
        if HasRecords(t[..|t| - 1], employee) {
          var i :| 0 <= i < |t| - 1 && t[..|t| - 1][i].employee == employee;
          assert t[i].employee == employee;
        }
      }
      if r.employee == employee then u + [r] else u
  }

  /** Summing day by day over `[lo, hi + 1)` adds day `hi` to the sum over `[lo, hi)`. */
  lemma {:induction false} RangeSumStep(t: Table, lo: int, hi: int)
    requires lo <= hi
    ensures RangeSum(t, lo, hi + 1) == RangeSum(t, lo, hi) + DaySum(t, hi)
  {
    if |t| > 0 {
      RangeSumStep(t[..|t| - 1], lo, hi);
    }
  }

  /** One more row adds its grams to the total. */
  lemma TotalAppend(u: Table, r: Record)
    ensures Total(u + [r]) == Total(u) + r.grams
  {
    assert (u + [r])[..|u|] == u;
  }

  /** The day sum of a table with one more row on day `d` counts that row. */
  lemma DaySumOfAppended(rows: Table, r: Record)
    ensures DaySum(rows + [r], r.date) == DaySum(rows, r.date) + r.grams
  {
    assert (rows + [r])[..|rows|] == rows;
  }

  /** When every row lies in `[lo, hi)`, the range sum is the whole table's sum. */
  lemma {:induction false} RangeSumCoversAll(t: Table, lo: int, hi: int)
    requires forall i :: 0 <= i < |t| ==> lo <= t[i].date < hi
    ensures RangeSum(t, lo, hi) == Total(t)
  {
    if |t| > 0 {
      var p := t[..|t| - 1];
      assert forall i :: 0 <= i < |p| ==> p[i] == t[i];
      RangeSumCoversAll(p, lo, hi);
    }
  }

  /** A day on which no row was recorded sums to zero. */
  lemma {:induction false} DaySumOfAbsentDay(t: Table, d: int)
    requires forall i :: 0 <= i < |t| ==> t[i].date != d
    ensures DaySum(t, d) == 0
  {
    if |t| > 0 {
      var p := t[..|t| - 1];
      assert forall i :: 0 <= i < |p| ==> p[i] == t[i];
      DaySumOfAbsentDay(p, d);
    }
  }

  /** The in-memory table that every interaction appends to. */
  class IntakeLog {
    var rows: Table

    /** An empty table with the three columns. */
    constructor ()
      ensures rows == []
    {
      rows := [];
    }

    /** Records today's intake for an employee. Nothing is stored while the
        employee id field is empty; otherwise exactly one row is appended. */
    method Submit(employeeId: string, today: Calendar.Date, intake: nat) returns (stored: bool)
      requires Calendar.ValidDate(today)
      modifies this
      ensures stored <==> employeeId != ""
      ensures !stored ==> rows == old(rows)
      ensures stored ==> rows == old(rows) + [Record(employeeId, Calendar.Ordinal(today), intake)]
      ensures stored ==> |rows| == |old(rows)| + 1 && rows[..|old(rows)|] == old(rows)
      ensures stored ==> rows[|rows| - 1] == Record(employeeId, Calendar.Ordinal(today), intake)
    {
      stored := employeeId != "";
      if stored {
        rows := rows + [Record(employeeId, Calendar.Ordinal(today), intake)];
      }
    }
  }
}
