/** The per-employee time series: the day-by-day sums (`resample("D").sum()`),
    their running total (`cumsum()`) and the window of the current month
    that the calendar reads (`days_df.update(user_data)`). */
module Daily {
  import opened Records

  /** A run of consecutive days: `values[k]` belongs to day `start + k`. */
  datatype Series = Series(start: int, values: seq<nat>)

  predicate Covers(s: Series, d: int) {
    s.start <= d < s.start + |s.values|
  }

  function Sum(s: seq<nat>): nat {
    if |s| == 0 then 0 else Sum(s[..|s| - 1]) + s[|s| - 1]
  }

  lemma {:induction false} SumCons(s: seq<nat>)
    requires |s| > 0
    ensures Sum(s) == s[0] + Sum(s[1..])
  {
    if |s| > 1 {
      SumCons(s[..|s| - 1]);
      assert s[..|s| - 1][1..] == s[1..][..|s| - 2];
    }
  }

  /** The earliest day in a non-empty table. */
  function FirstDate(t: Table): (d: int)
    requires |t| > 0
    ensures exists i :: 0 <= i < |t| && t[i].date == d
    ensures forall i :: 0 <= i < |t| ==> d <= t[i].date
  {
    if |t| == 1 then t[0].date
    else
      var d := FirstDate(t[..|t| - 1]);
      assert forall i :: 0 <= i < |t| - 1 ==> t[..|t| - 1][i] == t[i];
      if t[|t| - 1].date < d then t[|t| - 1].date else d
  }

  /** The latest day in a non-empty table. */
  function LastDate(t: Table): (d: int)
    requires |t| > 0
    ensures exists i :: 0 <= i < |t| && t[i].date == d
    ensures forall i :: 0 <= i < |t| ==> t[i].date <= d
  {
    if |t| == 1 then t[0].date
    else
      var d := LastDate(t[..|t| - 1]);
      assert forall i :: 0 <= i < |t| - 1 ==> t[..|t| - 1][i] == t[i];
      if t[|t| - 1].date > d then t[|t| - 1].date else d
  }

  /** Daily resampling: `n` zero buckets for the days `lo .. lo + n - 1`, and
      each row's grams added into the bucket of its day. */
  function Resample(t: Table, lo: int, n: nat): (b: seq<nat>)
    requires forall i :: 0 <= i < |t| ==> lo <= t[i].date < lo + n
    ensures |b| == n
    ensures forall k :: 0 <= k < n ==> b[k] == DaySum(t, lo + k)
  {
    if |t| == 0 then seq(n, _ => 0)
    else
      var p := t[..|t| - 1];
      assert forall i :: 0 <= i < |p| ==> p[i] == t[i];
      var b := Resample(p, lo, n);
      var r := t[|t| - 1];
      b[r.date - lo := b[r.date - lo] + r.grams]
  }

  /** `s` is the daily series of the rows `u`: it runs from the day of the
      first row to the day of the last, with no gaps, and each entry holds
      that day's grams (zero on days without a row). */
  predicate IsDailySeriesOf(s: Series, u: Table) {
    && |s.values| > 0
    && (exists i :: 0 <= i < |u| && u[i].date == s.start)
    && (exists i :: 0 <= i < |u| && u[i].date == s.start + |s.values| - 1)
    && (forall i :: 0 <= i < |u| ==> Covers(s, u[i].date))
    && (forall k :: 0 <= k < |s.values| ==> s.values[k] == DaySum(u, s.start + k))
  }

  /** The daily series of one employee; `None` when the employee has no
      records (the source then shows "no data yet" instead). */
  function DailySeries(t: Table, employee: string): (s: Option<Series>)
    ensures s.None? <==> !HasRecords(t, employee)
    ensures s.Some? ==> IsDailySeriesOf(s.value, UserRows(t, employee))
  {
    var u := UserRows(t, employee);
    if |u| == 0 then None
    else
      var lo, hi := FirstDate(u), LastDate(u);
      var s := Series(lo, Resample(u, lo, hi - lo + 1));
      ResampledSeries(u, lo, hi);
      Some(s)
  }

  /** Resampling the days from the first row's to the last row's gives the
      daily series of the rows. */
  lemma ResampledSeries(u: Table, lo: int, hi: int)
    requires (exists i :: 0 <= i < |u| && u[i].date == lo) && (exists i :: 0 <= i < |u| && u[i].date == hi)
    requires forall i :: 0 <= i < |u| ==> lo <= u[i].date <= hi
    ensures IsDailySeriesOf(Series(lo, Resample(u, lo, hi - lo + 1)), u)
  {
  }

  /** Adding up day sums over `[lo, lo + |v|)` gives the range sum. */
  lemma {:induction false} SumOfDaySums(t: Table, lo: int, v: seq<nat>)
    requires forall k :: 0 <= k < |v| ==> v[k] == DaySum(t, lo + k)
    ensures Sum(v) == RangeSum(t, lo, lo + |v|)
  {
    if |v| > 0 {
      var p := v[..|v| - 1];
      SumOfDaySums(t, lo, p);
      RangeSumStep(t, lo, lo + |p|);
    } else {
      RangeSumEmpty(t, lo);
    }
  }

  lemma {:induction false} RangeSumEmpty(t: Table, lo: int)
    ensures RangeSum(t, lo, lo) == 0
  {
    if |t| > 0 {
      RangeSumEmpty(t[..|t| - 1], lo);
    }
  }

  /** A daily series holds all the grams of the rows it was built from. */
  lemma SeriesSum(s: Series, u: Table)
    requires IsDailySeriesOf(s, u)
    ensures Sum(s.values) == Total(u)
  {
    SumOfDaySums(u, s.start, s.values);
    RangeSumCoversAll(u, s.start, s.start + |s.values|);
  }

  /** The daily values of an employee add up to all the grams they recorded. */
  lemma DailySeriesSum(t: Table, employee: string)
    requires HasRecords(t, employee)
    ensures Sum(DailySeries(t, employee).value.values) == Total(UserRows(t, employee))
  {
    SeriesSum(DailySeries(t, employee).value, UserRows(t, employee));
  }

  /** Running sums of `s`, each offset by `acc`. */
  function RunningSum(acc: nat, s: seq<nat>): (c: seq<nat>)
    ensures |c| == |s|
    ensures forall k :: 0 <= k < |s| ==> c[k] == acc + Sum(s[..k + 1])
    ensures forall i, j :: 0 <= i <= j < |c| ==> acc <= c[i] <= c[j]
    decreases |s|
  {
    if |s| == 0 then []
    else
      var rest := RunningSum(acc + s[0], s[1..]);
      assert forall k :: 0 < k < |s| ==> Sum(s[..k + 1]) == s[0] + Sum(s[1..][..k]) by {
        forall k | 0 < k < |s| ensures Sum(s[..k + 1]) == s[0] + Sum(s[1..][..k]) {
          SumCons(s[..k + 1]);
          assert s[..k + 1][1..] == s[1..][..k];
        }
      }
      assert Sum(s[..1]) == s[0] by {
        assert s[..1][..0] == [];
      }
      [acc + s[0]] + rest
  }

  /** The cumulative series (`cumsum()`): entry `k` is the sum of the daily
      entries `0 .. k`. */
  function Cumulative(daily: seq<nat>): (c: seq<nat>)
    ensures |c| == |daily|
    ensures forall k :: 0 <= k < |daily| ==> c[k] == Sum(daily[..k + 1])
    ensures forall i, j :: 0 <= i <= j < |c| ==> c[i] <= c[j]
    ensures |c| > 0 ==> c[|c| - 1] == Sum(daily)
  {
    var c := RunningSum(0, daily);
    assert |c| > 0 ==> daily[..|c|] == daily;
    c
  }

  /** The cumulative series of an employee ends at everything they recorded. */
  lemma CumulativeEndsAtTotal(t: Table, employee: string)
    requires HasRecords(t, employee)
    ensures var c := Cumulative(DailySeries(t, employee).value.values);
            |c| > 0 && c[|c| - 1] == Total(UserRows(t, employee))
  {
    DailySeriesSum(t, employee);
  }

  /** The month window: `lastDay` zero entries from `monthStart`, each
      overwritten by the series value of the same day where the series has one. */
  function MonthWindow(s: Series, monthStart: int, lastDay: nat): (w: seq<nat>)
    ensures |w| == lastDay
  {
    seq(lastDay, k requires 0 <= k < lastDay =>
      if Covers(s, monthStart + k) then s.values[monthStart + k - s.start] else 0)
  }

  /** Every entry of the month window of a daily series is the grams of
      that day, whether or not the day lies inside the series. */
  lemma WindowIsDaySum(s: Series, u: Table, monthStart: int, lastDay: nat)
    requires IsDailySeriesOf(s, u)
    ensures forall k :: 0 <= k < lastDay ==> MonthWindow(s, monthStart, lastDay)[k] == DaySum(u, monthStart + k)
  {
    forall k | 0 <= k < lastDay ensures MonthWindow(s, monthStart, lastDay)[k] == DaySum(u, monthStart + k) {
      if !Covers(s, monthStart + k) {
        DaySumOfAbsentDay(u, monthStart + k);
      }
    }
  }
}
