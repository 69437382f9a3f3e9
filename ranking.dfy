/** The company-wide ranking: grams summed per (employee, month), those
    subtotals summed again per employee, the totals sorted from largest to
    smallest, and an employee's rank looked up as position + 1. */
module Ranking {
  import opened Records

  /** A row of a grouped table: a key and the grams summed under it. */
  datatype Keyed<K> = Keyed(key: K, grams: nat)

  predicate HasKey<K(==)>(t: seq<Keyed<K>>, k: K) {
    exists i :: 0 <= i < |t| && t[i].key == k
  }

  predicate DistinctKeys<K(==)>(t: seq<Keyed<K>>) {
    forall i, j :: 0 <= i < j < |t| ==> t[i].key != t[j].key
  }

  /** Grams of the rows with key `k`. */
  function KeySum<K(==)>(t: seq<Keyed<K>>, k: K): nat {
    if |t| == 0 then 0
    else KeySum(t[..|t| - 1], k) + (if t[|t| - 1].key == k then t[|t| - 1].grams else 0)
  }

  function TotalOf<K>(t: seq<Keyed<K>>): nat {
    if |t| == 0 then 0 else TotalOf(t[..|t| - 1]) + t[|t| - 1].grams
  }

  /** The keys of `t`, each once, in order of first appearance. */
  function KeysOf<K(==,!new)>(t: seq<Keyed<K>>): (ks: seq<K>)
    ensures forall i, j :: 0 <= i < j < |ks| ==> ks[i] != ks[j]
    ensures forall k :: k in ks <==> HasKey(t, k)
  {
    if |t| == 0 then []
    else
      var p := t[..|t| - 1];
      var ks := KeysOf(p);
      var k := t[|t| - 1].key;
      assert forall x :: HasKey(t, x) <==> HasKey(p, x) || x == k by {
        forall x | HasKey(t, x) && x != k ensures HasKey(p, x) {
          var i :| 0 <= i < |t| && t[i].key == x;
          assert p[i].key == x;
        }
        forall x | HasKey(p, x) ensures HasKey(t, x) {
          var i :| 0 <= i < |p| && p[i].key == x;
          assert t[i].key == x;
        }
      }
      if k in ks then ks else ks + [k]
  }

  /** `groupby(key)["grams"].sum().reset_index()`: one row per key of `t`,
      holding the grams of all rows with that key. */
  function GroupSum<K(==,!new)>(t: seq<Keyed<K>>): (g: seq<Keyed<K>>)
    ensures DistinctKeys(g)
    ensures forall k :: HasKey(g, k) <==> HasKey(t, k)
    ensures forall i :: 0 <= i < |g| ==> g[i].grams == KeySum(t, g[i].key)
  {
    var ks := KeysOf(t);
    var g := seq(|ks|, i requires 0 <= i < |ks| => Keyed(ks[i], KeySum(t, ks[i])));
    assert forall k :: HasKey(g, k) <==> k in ks by {
      forall k | k in ks ensures HasKey(g, k) {
        var i :| 0 <= i < |ks| && ks[i] == k;
        assert g[i].key == k;
      }
    }
    g
  }

  /** Renames every key through `p`, keeping the grams: the same rows
      under the new keys, so the grand total is unchanged. */
  function Project<K, L>(t: seq<Keyed<K>>, p: K -> L): (r: seq<Keyed<L>>)
    ensures |r| == |t|
    ensures forall i :: 0 <= i < |t| ==> r[i] == Keyed(p(t[i].key), t[i].grams)
    ensures TotalOf(r) == TotalOf(t)
  {
    var r := seq(|t|, i requires 0 <= i < |t| => Keyed(p(t[i].key), t[i].grams));
    RenamedTotal(t, p, r);
    r
  }

  /** A table whose rows are those of `t` with renamed keys has the total
      of `t`. */
  lemma {:induction false} RenamedTotal<K, L>(t: seq<Keyed<K>>, p: K -> L, r: seq<Keyed<L>>)
    requires |r| == |t|
    requires forall i :: 0 <= i < |t| ==> r[i] == Keyed(p(t[i].key), t[i].grams)
    ensures TotalOf(r) == TotalOf(t)
  {
    if |t| > 0 {
      RenamedTotal(t[..|t| - 1], p, r[..|t| - 1]);
    }
  }

  /** The grams of the keys `ks` that `p` sends to `k2`, each taken from `t`. */
  function SumOverKeys<K(==), L(==)>(t: seq<Keyed<K>>, ks: seq<K>, p: K -> L, k2: L): nat {
    if |ks| == 0 then 0
    else SumOverKeys(t, ks[..|ks| - 1], p, k2) + (if p(ks[|ks| - 1]) == k2 then KeySum(t, ks[|ks| - 1]) else 0)
  }

  /** Adding one row to `t` adds its grams once to the sum over distinct keys. */
  lemma {:induction false} SumOverKeysStep<K, L>(t: seq<Keyed<K>>, ks: seq<K>, p: K -> L, k2: L)
    requires |t| > 0
    requires forall i, j :: 0 <= i < j < |ks| ==> ks[i] != ks[j]
    ensures var r := t[|t| - 1];
            SumOverKeys(t, ks, p, k2) ==
            SumOverKeys(t[..|t| - 1], ks, p, k2) + (if r.key in ks && p(r.key) == k2 then r.grams else 0)
  {
    if |ks| > 0 {
      var q := ks[..|ks| - 1];
      SumOverKeysStep(t, q, p, k2);
      assert t[|t| - 1].key in ks <==> t[|t| - 1].key in q || t[|t| - 1].key == ks[|ks| - 1];
      assert ks[|ks| - 1] !in q;
    }
  }

  /** Regrouping: summing the groups that `p` sends to `k2` over a complete,
      duplicate-free list of keys gives the grams of the rows sent to `k2`. */
  lemma {:induction false} SumOverKeysIsProjectedSum<K, L>(t: seq<Keyed<K>>, ks: seq<K>, p: K -> L, k2: L)
    requires forall i, j :: 0 <= i < j < |ks| ==> ks[i] != ks[j]
    requires forall i :: 0 <= i < |t| ==> t[i].key in ks
    ensures SumOverKeys(t, ks, p, k2) == KeySum(Project(t, p), k2)
  {
    if |t| == 0 {
      SumOverKeysOfEmpty(t, ks, p, k2);
    } else {
      var q := t[..|t| - 1];
      SumOverKeysStep(t, ks, p, k2);
      SumOverKeysIsProjectedSum(q, ks, p, k2);
      assert Project(t, p)[..|t| - 1] == Project(q, p);
    }
  }

  lemma {:induction false} SumOverKeysOfEmpty<K, L>(t: seq<Keyed<K>>, ks: seq<K>, p: K -> L, k2: L)
    requires |t| == 0
    ensures SumOverKeys(t, ks, p, k2) == 0
  {
    if |ks| > 0 {
      SumOverKeysOfEmpty(t, ks[..|ks| - 1], p, k2);
    }
  }

  /** The projected grouped table sums the groups that `p` sends to `k2`. */
  lemma {:induction false} ProjectedGroups<K, L>(t: seq<Keyed<K>>, ks: seq<K>, p: K -> L, k2: L)
    ensures var g := seq(|ks|, i requires 0 <= i < |ks| => Keyed(ks[i], KeySum(t, ks[i])));
            KeySum(Project(g, p), k2) == SumOverKeys(t, ks, p, k2)
  {
    var g := seq(|ks|, i requires 0 <= i < |ks| => Keyed(ks[i], KeySum(t, ks[i])));
    if |ks| > 0 {
      var q := ks[..|ks| - 1];
      ProjectedGroups(t, q, p, k2);
      var gq := seq(|q|, i requires 0 <= i < |q| => Keyed(q[i], KeySum(t, q[i])));
      assert Project(g, p)[..|ks| - 1] == Project(gq, p);
    }
  }

  /** Grouping by a finer key and then by a coarser one (`p` of the finer)
      gives the same sums as grouping by the coarser key directly. */
  lemma Regroup<K(!new), L>(t: seq<Keyed<K>>, p: K -> L, k2: L)
    ensures KeySum(Project(GroupSum(t), p), k2) == KeySum(Project(t, p), k2)
  {
    var ks := KeysOf(t);
    assert forall i :: 0 <= i < |t| ==> t[i].key in ks by {
      forall i | 0 <= i < |t| ensures t[i].key in ks {
        assert HasKey(t, t[i].key);
      }
    }
    ProjectedGroups(t, ks, p, k2);
    SumOverKeysIsProjectedSum(t, ks, p, k2);
  }

  /** Under a single key every row is summed: the key sum is the total. */
  lemma {:induction false} KeySumOfOneKey<K>(t: seq<Keyed<K>>, k: K)
    requires forall i :: 0 <= i < |t| ==> t[i].key == k
    ensures KeySum(t, k) == TotalOf(t)
  {
    if |t| > 0 {
      var q := t[..|t| - 1];
      assert forall i :: 0 <= i < |q| ==> q[i] == t[i];
      KeySumOfOneKey(q, k);
    }
  }

  /** Grouping keeps the grand total (no grams are lost or counted twice). */
  lemma GroupSumTotal<K(!new)>(t: seq<Keyed<K>>)
    ensures TotalOf(GroupSum(t)) == TotalOf(t)
  {
    var one := (k: K) => 0;
    Regroup(t, one, 0);
    KeySumOfOneKey(Project(GroupSum(t), one), 0);
    KeySumOfOneKey(Project(t, one), 0);
  }

  /** When every group of `t` is also a group of `s`, projecting both
      through `p` yields the same keys. */
  lemma ProjectKeys<K(!new), L(!new)>(g: seq<Keyed<K>>, t: seq<Keyed<K>>, p: K -> L)
    requires forall k :: HasKey(g, k) <==> HasKey(t, k)
    ensures forall k2 :: HasKey(Project(g, p), k2) <==> HasKey(Project(t, p), k2)
  {
    forall k2 | HasKey(Project(g, p), k2) ensures HasKey(Project(t, p), k2) {
      var i :| 0 <= i < |g| && Project(g, p)[i].key == k2;
      assert HasKey(g, g[i].key);
      var j :| 0 <= j < |t| && t[j].key == g[i].key;
      assert Project(t, p)[j].key == k2;
    }
    forall k2 | HasKey(Project(t, p), k2) ensures HasKey(Project(g, p), k2) {
      var j :| 0 <= j < |t| && Project(t, p)[j].key == k2;
      assert HasKey(t, t[j].key);
      var i :| 0 <= i < |g| && g[i].key == t[j].key;
      assert Project(g, p)[i].key == k2;
    }
  }

  /** The records keyed by employee alone: one row per record, so an
      employee's key sum is all their grams, the keys are exactly the
      employees with records, and the grand total is kept. */
  function ByEmployee(t: Table): (r: seq<Keyed<string>>)
    ensures |r| == |t|
    ensures forall i :: 0 <= i < |t| ==> r[i] == Keyed(t[i].employee, t[i].grams)
    ensures forall e :: KeySum(r, e) == Total(UserRows(t, e))
    ensures forall e :: HasKey(r, e) <==> HasRecords(t, e)
    ensures TotalOf(r) == Total(t)
  {
    var r := seq(|t|, i requires 0 <= i < |t| => Keyed(t[i].employee, t[i].grams));
    assert forall e :: KeySum(r, e) == Total(UserRows(t, e)) by {
      forall e ensures KeySum(r, e) == Total(UserRows(t, e)) {
        EmployeeKeyedSum(t, r, e);
      }
    }
    EmployeeKeyedTotal(t, r);
    assert forall e :: HasKey(r, e) <==> HasRecords(t, e) by {
      forall e | HasRecords(t, e) ensures HasKey(r, e) {
        var i :| 0 <= i < |t| && t[i].employee == e;
        assert r[i].key == e;
      }
    }
    r
  }

  /** The records keyed by (employee, month), for the first `groupby`;
      `monthOf` gives the month a day belongs to (`dt.to_period("M")`).
      Forgetting the month gives the records keyed by employee. */
  function ByEmployeeMonth(t: Table, monthOf: int -> int): (r: seq<Keyed<(string, int)>>)
    ensures |r| == |t|
    ensures forall i :: 0 <= i < |t| ==> r[i] == Keyed((t[i].employee, monthOf(t[i].date)), t[i].grams)
    ensures Project(r, EmployeeOf) == ByEmployee(t)
    ensures TotalOf(r) == Total(t)
  {
    var r := seq(|t|, i requires 0 <= i < |t| => Keyed((t[i].employee, monthOf(t[i].date)), t[i].grams));
    assert Project(r, EmployeeOf) == ByEmployee(t);
    r
  }

  function EmployeeOf(k: (string, int)): string {
    k.0
  }

  /** Keyed by employee, an employee's key sum is all the grams of their rows. */
  lemma {:induction false} EmployeeKeyedSum(t: Table, r: seq<Keyed<string>>, employee: string)
    requires |r| == |t|
    requires forall i :: 0 <= i < |t| ==> r[i] == Keyed(t[i].employee, t[i].grams)
    ensures KeySum(r, employee) == Total(UserRows(t, employee))
  {
    if |t| > 0 {
      var p := t[..|t| - 1];
      var last := t[|t| - 1];
      EmployeeKeyedSum(p, r[..|t| - 1], employee);
      var u := UserRows(p, employee);
      if last.employee == employee {
        assert UserRows(t, employee) == u + [last];
        TotalAppend(u, last);
      } else {
        assert UserRows(t, employee) == u;
      }
    }
  }

  /** Keyed by employee, the records keep their grand total. */
  lemma {:induction false} EmployeeKeyedTotal(t: Table, r: seq<Keyed<string>>)
    requires |r| == |t|
    requires forall i :: 0 <= i < |t| ==> r[i] == Keyed(t[i].employee, t[i].grams)
    ensures TotalOf(r) == Total(t)
  {
    if |t| > 0 {
      EmployeeKeyedTotal(t[..|t| - 1], r[..|t| - 1]);
    }
  }

  /** The two `groupby` sums before sorting: per (employee, month), then
      the monthly subtotals per employee. */
  function GroupedTotals(t: Table, monthOf: int -> int): seq<Keyed<string>> {
    GroupSum(Project(GroupSum(ByEmployeeMonth(t, monthOf)), EmployeeOf))
  }

  lemma GroupedTotalsKeys(t: Table, monthOf: int -> int)
    ensures forall e :: HasKey(GroupedTotals(t, monthOf), e) <==> HasRecords(t, e)
  {
    var byMonth := ByEmployeeMonth(t, monthOf);
    var monthly := GroupSum(byMonth);
    ProjectKeys(monthly, byMonth, EmployeeOf);
  }

  lemma GroupedTotalsGrams(t: Table, monthOf: int -> int, e: string)
    ensures KeySum(Project(GroupSum(ByEmployeeMonth(t, monthOf)), EmployeeOf), e) == Total(UserRows(t, e))
  {
    var byMonth := ByEmployeeMonth(t, monthOf);
    Regroup(byMonth, EmployeeOf, e);
  }

  lemma GroupedTotalsTotal(t: Table, monthOf: int -> int)
    ensures TotalOf(GroupedTotals(t, monthOf)) == Total(t)
  {
    var byMonth := ByEmployeeMonth(t, monthOf);
    var monthly := GroupSum(byMonth);
    GroupSumTotal(Project(monthly, EmployeeOf));
    GroupSumTotal(byMonth);
  }

  /** Each employee of the table gets one row holding their grams of all
      time: grouping by month first restricts nothing. */
  function EmployeeTotals(t: Table, monthOf: int -> int): (g: seq<Keyed<string>>)
    ensures DistinctKeys(g)
    ensures forall e :: HasKey(g, e) <==> HasRecords(t, e)
    ensures forall i :: 0 <= i < |g| ==> g[i].grams == Total(UserRows(t, g[i].key))
    ensures TotalOf(g) == Total(t)
  {
    var g := GroupedTotals(t, monthOf);
    GroupedTotalsKeys(t, monthOf);
    GroupedTotalsTotal(t, monthOf);
    assert forall i :: 0 <= i < |g| ==> g[i].grams == Total(UserRows(t, g[i].key)) by {
      forall i | 0 <= i < |g| ensures g[i].grams == Total(UserRows(t, g[i].key)) {
        GroupedTotalsGrams(t, monthOf, g[i].key);
      }
    }
    g
  }

  predicate NonIncreasing<K>(s: seq<Keyed<K>>) {
    forall i, j :: 0 <= i < j < |s| ==> s[i].grams >= s[j].grams
  }

  lemma {:induction false} TotalOfCons<K>(x: Keyed<K>, s: seq<Keyed<K>>)
    ensures TotalOf([x] + s) == x.grams + TotalOf(s)
  {
    if |s| > 0 {
      TotalOfCons(x, s[..|s| - 1]);
      assert ([x] + s)[..|s|] == [x] + s[..|s| - 1];
    }
  }

  /** A row with at least the grams of the first row keeps the order. */
  lemma ConsNonIncreasing<K>(x: Keyed<K>, s: seq<Keyed<K>>)
    requires NonIncreasing(s)
    requires |s| == 0 || x.grams >= s[0].grams
    ensures NonIncreasing([x] + s)
  {
    var r := [x] + s;
    forall i, j | 0 <= i < j < |r| ensures r[i].grams >= r[j].grams {
      if i > 0 {
        assert r[i] == s[i - 1] && r[j] == s[j - 1];
      } else {
        assert r[j] == s[j - 1];
      }
    }
  }

  lemma TailNonIncreasing<K>(s: seq<Keyed<K>>)
    requires NonIncreasing(s) && |s| > 0
    ensures NonIncreasing(s[1..])
    ensures forall i :: 0 <= i < |s| - 1 ==> s[1..][i].grams <= s[0].grams
  {
  }

  /** Inserts `x` into a non-increasing sequence, before the first entry
      with fewer grams. */
  function Insert<K(==)>(x: Keyed<K>, s: seq<Keyed<K>>): (r: seq<Keyed<K>>)
    requires NonIncreasing(s)
    ensures NonIncreasing(r)
    ensures multiset(r) == multiset(s) + multiset{x}
    ensures TotalOf(r) == TotalOf(s) + x.grams
    ensures |r| > 0 && (r[0] == x || (|s| > 0 && r[0] == s[0]))
  {
    if |s| == 0 || x.grams >= s[0].grams then
      TotalOfCons(x, s);
      ConsNonIncreasing(x, s);
      [x] + s
    else
      var tail := s[1..];
      TailNonIncreasing(s);
      var rest := Insert(x, tail);
      assert rest[0].grams <= s[0].grams;
      ConsNonIncreasing(s[0], rest);
      MultisetBehind(x, s, rest);
      TotalBehind(x, s, rest);
      [s[0]] + rest
  }

  /** Putting the first row back in front of the insertion into the rest
      adds `x` to the rows of `s`. */
  lemma MultisetBehind<K>(x: Keyed<K>, s: seq<Keyed<K>>, rest: seq<Keyed<K>>)
    requires |s| > 0 && multiset(rest) == multiset(s[1..]) + multiset{x}
    ensures multiset([s[0]] + rest) == multiset(s) + multiset{x}
  {
    assert s == [s[0]] + s[1..];
  }

  /** Putting the first row back in front of the insertion into the rest
      adds `x`'s grams to the total of `s`. */
  lemma TotalBehind<K>(x: Keyed<K>, s: seq<Keyed<K>>, rest: seq<Keyed<K>>)
    requires |s| > 0 && TotalOf(rest) == TotalOf(s[1..]) + x.grams
    ensures TotalOf([s[0]] + rest) == TotalOf(s) + x.grams
  {
    TotalOfCons(s[0], rest);
    TotalOfCons(s[0], s[1..]);
    assert s == [s[0]] + s[1..];
  }

  /** Sorts by grams, largest first (`sort_values(ascending=False)`). */
  function SortDescending<K(==)>(s: seq<Keyed<K>>): (r: seq<Keyed<K>>)
    ensures NonIncreasing(r)
    ensures multiset(r) == multiset(s)
    ensures TotalOf(r) == TotalOf(s)
  {
    if |s| == 0 then []
    else
      assert s == [s[0]] + s[1..];
      TotalOfCons(s[0], s[1..]);
      Insert(s[0], SortDescending(s[1..]))
  }

  /** A value counted twice in a sequence sits at two different positions. */
  lemma {:induction false} TwoCopies<T>(a: seq<T>, x: T)
    requires multiset(a)[x] >= 2
    ensures exists i, j :: 0 <= i < j < |a| && a[i] == x && a[j] == x
  {
    var p := a[..|a| - 1];
    assert a == p + [a[|a| - 1]];
    if a[|a| - 1] == x {
      assert x in multiset(p);
      var i :| 0 <= i < |p| && p[i] == x;
      assert a[i] == x && a[|a| - 1] == x;
    } else {
      TwoCopies(p, x);
      var i, j :| 0 <= i < j < |p| && p[i] == x && p[j] == x;
      assert a[i] == x && a[j] == x;
    }
  }

  /** Keys stay distinct under any permutation. */
  lemma DistinctKeysPermuted<K>(a: seq<Keyed<K>>, b: seq<Keyed<K>>)
    requires multiset(a) == multiset(b) && DistinctKeys(a)
    ensures DistinctKeys(b)
  {
    forall i, j | 0 <= i < j < |b| ensures b[i].key != b[j].key {
      if b[i] == b[j] {
        assert multiset(b)[b[i]] >= 2 by {
          assert b == b[..j] + [b[j]] + b[j + 1..];
          assert b[i] in b[..j];
        }
        TwoCopies(a, b[i]);
      } else {
        assert b[i] in multiset(a) && b[j] in multiset(a);
        var i' :| 0 <= i' < |a| && a[i'] == b[i];
        var j' :| 0 <= j' < |a| && a[j'] == b[j];
      }
    }
  }

  /** A permutation has the same entries and the same keys. */
  lemma PermutedKeys<K(!new)>(a: seq<Keyed<K>>, b: seq<Keyed<K>>)
    requires multiset(a) == multiset(b)
    ensures forall i :: 0 <= i < |b| ==> b[i] in a
    ensures forall k :: HasKey(b, k) <==> HasKey(a, k)
  {
    assert forall i :: 0 <= i < |b| ==> b[i] in a by {
      forall i | 0 <= i < |b| ensures b[i] in a {
        assert b[i] in multiset(b);
      }
    }
    forall k | HasKey(b, k) ensures HasKey(a, k) {
      var i :| 0 <= i < |b| && b[i].key == k;
      var j :| 0 <= j < |a| && a[j] == b[i];
    }
    forall k | HasKey(a, k) ensures HasKey(b, k) {
      var j :| 0 <= j < |a| && a[j].key == k;
      assert a[j] in multiset(b);
      var i :| 0 <= i < |b| && b[i] == a[j];
    }
  }

  /** The ranking table: one row per employee with records, holding their
      all-time grams, largest first; a permutation of the grouped totals,
      whatever order equal totals end up in. */
  function Ranking(t: Table, monthOf: int -> int): (r: seq<Keyed<string>>)
    ensures multiset(r) == multiset(EmployeeTotals(t, monthOf))
    ensures NonIncreasing(r)
    ensures DistinctKeys(r)
    ensures forall e :: HasKey(r, e) <==> HasRecords(t, e)
    ensures forall i :: 0 <= i < |r| ==> r[i].grams == Total(UserRows(t, r[i].key))
    ensures TotalOf(r) == Total(t)
  {
    var g := EmployeeTotals(t, monthOf);
    var r := SortDescending(g);
    DistinctKeysPermuted(g, r);
    PermutedKeys(g, r);
    r
  }

  /** 1-based position of `k` in the ranking (`index[0] + 1`), `None` when the
      key is absent and `index[0]` has nothing to return. */
  function RankOf<K(==)>(ranking: seq<Keyed<K>>, k: K): (r: Option<nat>)
    ensures r.None? <==> !HasKey(ranking, k)
    ensures r.Some? ==> 1 <= r.value <= |ranking| && ranking[r.value - 1].key == k
    ensures r.Some? ==> forall i :: 0 <= i < r.value - 1 ==> ranking[i].key != k
  {
    if |ranking| == 0 then None
    else if ranking[0].key == k then Some(1)
    else
      match RankOf(ranking[1..], k)
      case None => None
      case Some(n) => Some(n + 1)
  }

  /** With distinct keys, the rank of the key at position `k` is `k + 1`. */
  lemma RankAt<K>(r: seq<Keyed<K>>, k: int)
    requires DistinctKeys(r) && 0 <= k < |r|
    ensures RankOf(r, r[k].key) == Some(k + 1)
  {
    assert HasKey(r, r[k].key);
    var v := RankOf(r, r[k].key).value;
    assert r[v - 1].key == r[k].key;
  }

  /** In a non-increasing table, a row with strictly more grams than every
      other row is the first one. */
  lemma FirstOfSorted<K>(r: seq<Keyed<K>>, k: int)
    requires NonIncreasing(r) && 0 <= k < |r|
    requires forall i :: 0 <= i < |r| && i != k ==> r[i].grams < r[k].grams
    ensures k == 0
  {
    assert r[0].grams >= r[k].grams;
  }

  /** In a non-increasing table, a row with strictly fewer grams than every
      other row is the last one. */
  lemma LastOfSorted<K>(r: seq<Keyed<K>>, k: int)
    requires NonIncreasing(r) && 0 <= k < |r|
    requires forall i :: 0 <= i < |r| && i != k ==> r[k].grams < r[i].grams
    ensures k == |r| - 1
  {
    assert r[k].grams >= r[|r| - 1].grams;
  }

  /** `r` lists the employees of `t`, each once with their total grams,
      largest first. */
  ghost predicate RanksTotalsOf(r: seq<Keyed<string>>, t: Table) {
    && NonIncreasing(r)
    && DistinctKeys(r)
    && (forall e :: HasKey(r, e) <==> HasRecords(t, e))
    && (forall i :: 0 <= i < |r| ==> r[i].grams == Total(UserRows(t, r[i].key)))
  }

  /** When the employee at position `k` has strictly more grams than every
      other employee of `t`, every other row of `r` has fewer grams. */
  lemma OthersSmaller(r: seq<Keyed<string>>, t: Table, employee: string, k: int)
    requires RanksTotalsOf(r, t) && 0 <= k < |r| && r[k].key == employee
    requires forall e :: HasRecords(t, e) && e != employee ==>
               Total(UserRows(t, e)) < Total(UserRows(t, employee))
    ensures forall i :: 0 <= i < |r| && i != k ==> r[i].grams < r[k].grams
  {
    forall i | 0 <= i < |r| && i != k ensures r[i].grams < r[k].grams {
      assert HasKey(r, r[i].key);
    }
  }

  /** When the employee at position `k` has strictly fewer grams than every
      other employee of `t`, every other row of `r` has more grams. */
  lemma OthersLarger(r: seq<Keyed<string>>, t: Table, employee: string, k: int)
    requires RanksTotalsOf(r, t) && 0 <= k < |r| && r[k].key == employee
    requires forall e :: HasRecords(t, e) && e != employee ==>
               Total(UserRows(t, employee)) < Total(UserRows(t, e))
    ensures forall i :: 0 <= i < |r| && i != k ==> r[k].grams < r[i].grams
  {
    forall i | 0 <= i < |r| && i != k ensures r[k].grams < r[i].grams {
      assert HasKey(r, r[i].key);
    }
  }

  lemma TopOfTable(r: seq<Keyed<string>>, t: Table, employee: string)
    requires RanksTotalsOf(r, t) && HasRecords(t, employee)
    requires forall e :: HasRecords(t, e) && e != employee ==>
               Total(UserRows(t, e)) < Total(UserRows(t, employee))
    ensures RankOf(r, employee) == Some(1)
  {
    var k := PositionOf(r, t, employee);
    OthersSmaller(r, t, employee, k);
    FirstRank(r, k);
  }

  lemma BottomOfTable(r: seq<Keyed<string>>, t: Table, employee: string)
    requires RanksTotalsOf(r, t) && HasRecords(t, employee)
    requires forall e :: HasRecords(t, e) && e != employee ==>
               Total(UserRows(t, employee)) < Total(UserRows(t, e))
    ensures RankOf(r, employee) == Some(|r|)
  {
    var k := PositionOf(r, t, employee);
    OthersLarger(r, t, employee, k);
    LastRank(r, k);
  }

  /** The position of an employee with records in a table of totals. */
  lemma PositionOf(r: seq<Keyed<string>>, t: Table, employee: string) returns (k: int)
    requires RanksTotalsOf(r, t) && HasRecords(t, employee)
    ensures 0 <= k < |r| && r[k].key == employee
  {
    assert HasKey(r, employee);
    k :| 0 <= k < |r| && r[k].key == employee;
  }

  /** A row with strictly more grams than every other row of a sorted
      table with distinct keys is ranked first. */
  lemma FirstRank<K>(r: seq<Keyed<K>>, k: int)
    requires NonIncreasing(r) && DistinctKeys(r) && 0 <= k < |r|
    requires forall i :: 0 <= i < |r| && i != k ==> r[i].grams < r[k].grams
    ensures RankOf(r, r[k].key) == Some(1)
  {
    FirstOfSorted(r, k);
    RankAt(r, k);
  }

  /** A row with strictly fewer grams than every other row of a sorted
      table with distinct keys is ranked last. */
  lemma LastRank<K>(r: seq<Keyed<K>>, k: int)
    requires NonIncreasing(r) && DistinctKeys(r) && 0 <= k < |r|
    requires forall i :: 0 <= i < |r| && i != k ==> r[k].grams < r[i].grams
    ensures RankOf(r, r[k].key) == Some(|r|)
  {
    LastOfSorted(r, k);
    RankAt(r, k);
  }

  /** An employee whose all-time total is strictly larger than every other
      employee's is ranked first. */
  lemma TopRank(t: Table, monthOf: int -> int, employee: string)
    requires HasRecords(t, employee)
    requires forall e :: HasRecords(t, e) && e != employee ==>
               Total(UserRows(t, e)) < Total(UserRows(t, employee))
    ensures RankOf(Ranking(t, monthOf), employee) == Some(1)
  {
    TopOfTable(Ranking(t, monthOf), t, employee);
  }

  /** An employee whose all-time total is strictly smaller than every other
      employee's is ranked last, at the number of ranked employees. */
  lemma BottomRank(t: Table, monthOf: int -> int, employee: string)
    requires HasRecords(t, employee)
    requires forall e :: HasRecords(t, e) && e != employee ==>
               Total(UserRows(t, employee)) < Total(UserRows(t, e))
    ensures RankOf(Ranking(t, monthOf), employee) == Some(|Ranking(t, monthOf)|)
  {
    BottomOfTable(Ranking(t, monthOf), t, employee);
  }

  /** With distinct keys, no row other than the one at the rank holds the key. */
  lemma RankIsOnlyRow<K>(r: seq<Keyed<K>>, k: K)
    requires DistinctKeys(r)
    ensures RankOf(r, k).Some? ==>
              forall i :: 0 <= i < |r| && i != RankOf(r, k).value - 1 ==> r[i].key != k
  {
  }

  /** The ranking part of the page: nothing while the table is empty; the
      table and the employee's rank when they have records; and the failing
      `index[0]` lookup when the table is not empty but the employee has no
      record in it. */
  datatype Standing = NoData | Ranked(table: seq<Keyed<string>>, rank: nat) | NotRanked

  function Standings(t: Table, employee: string, monthOf: int -> int): (s: Standing)
    ensures s.NoData? <==> |t| == 0
    ensures s.NotRanked? <==> |t| > 0 && !HasRecords(t, employee)
    ensures s.Ranked? ==>
      && s.table == Ranking(t, monthOf)
      && 1 <= s.rank <= |s.table|
      && s.table[s.rank - 1].key == employee
      && forall i :: 0 <= i < |s.table| && i != s.rank - 1 ==> s.table[i].key != employee
  {
    if |t| == 0 then NoData
    else
      var r := Ranking(t, monthOf);
      assert HasKey(r, employee) <==> HasRecords(t, employee);
      StandingIn(r, employee)
  }

  /** The rank lookup in a table with distinct keys: the rank when the key
      is present, the failing lookup otherwise. */
  function StandingIn(r: seq<Keyed<string>>, employee: string): (s: Standing)
    requires DistinctKeys(r)
    ensures !s.NoData?
    ensures s.NotRanked? <==> !HasKey(r, employee)
    ensures s.Ranked? ==>
      && s.table == r
      && 1 <= s.rank <= |r|
      && r[s.rank - 1].key == employee
      && forall i :: 0 <= i < |r| && i != s.rank - 1 ==> r[i].key != employee
  {
    RankIsOnlyRow(r, employee);
    match RankOf(r, employee)
    case None => NotRanked
    case Some(n) => Ranked(r, n)
  }

  function ExampleTable(day1: int, day2: int): Table {
    [Record("E1", day1, 100), Record("E1", day2, 50), Record("E2", day1, 200)]
  }

  lemma ExampleTotals(day1: int, day2: int)
    ensures Total(UserRows(ExampleTable(day1, day2), "E1")) == 150
    ensures Total(UserRows(ExampleTable(day1, day2), "E2")) == 200
    ensures forall e :: HasRecords(ExampleTable(day1, day2), e) <==> e == "E1" || e == "E2"
  {
    var t := ExampleTable(day1, day2);
    ExampleRowsOfE1(day1, day2, t);
    ExampleRowsOfE2(day1, day2, t);
    assert t[0].employee == "E1" && t[2].employee == "E2";
  }

  lemma ExampleRowsOfE1(day1: int, day2: int, t: Table)
    requires t == ExampleTable(day1, day2)
    ensures Total(UserRows(t, "E1")) == 150
  {
    assert t[..2][..1] == t[..1] && t[..1][..0] == [];
    assert UserRows(t[..1], "E1") == [t[0]];
    assert UserRows(t[..2], "E1") == [t[0], t[1]];
    assert UserRows(t, "E1") == [t[0], t[1]];
    TotalAppend([t[0]], t[1]);
    TotalAppend([], t[0]);
    assert [t[0], t[1]] == [t[0]] + [t[1]];
  }

  lemma ExampleRowsOfE2(day1: int, day2: int, t: Table)
    requires t == ExampleTable(day1, day2)
    ensures Total(UserRows(t, "E2")) == 200
  {
    assert t[..2][..1] == t[..1] && t[..1][..0] == [];
    assert UserRows(t[..1], "E2") == [];
    assert UserRows(t[..2], "E2") == [];
    assert UserRows(t, "E2") == [t[2]];
    TotalAppend([], t[2]);
  }

  /** A non-increasing table with distinct keys holding exactly the two
      keys `e1` and `e2`, with `g1 < g2` grams, lists `e2` first. */
  lemma {:induction false} OrderOfTwo(r: seq<Keyed<string>>, e1: string, g1: nat, e2: string, g2: nat)
    requires e1 != e2 && g1 < g2
    requires NonIncreasing(r) && DistinctKeys(r)
    requires forall e :: HasKey(r, e) <==> e == e1 || e == e2
    requires forall i :: 0 <= i < |r| && r[i].key == e1 ==> r[i].grams == g1
    requires forall i :: 0 <= i < |r| && r[i].key == e2 ==> r[i].grams == g2
    ensures r == [Keyed(e2, g2), Keyed(e1, g1)]
  {
    assert HasKey(r, e1) && HasKey(r, e2);
    var a :| 0 <= a < |r| && r[a].key == e1;
    var b :| 0 <= b < |r| && r[b].key == e2;
    if |r| > 2 {
      assert HasKey(r, r[0].key) && HasKey(r, r[1].key) && HasKey(r, r[2].key);
      assert false;
    }
    assert r[a] == Keyed(e1, g1) && r[b] == Keyed(e2, g2);
    assert a == 1 && b == 0;
  }

  /** With exactly two employees, the one with more grams comes first. */
  lemma RankingOfTwo(t: Table, monthOf: int -> int, e1: string, g1: nat, e2: string, g2: nat)
    requires e1 != e2 && g1 < g2
    requires forall e :: HasRecords(t, e) <==> e == e1 || e == e2
    requires Total(UserRows(t, e1)) == g1 && Total(UserRows(t, e2)) == g2
    ensures Ranking(t, monthOf) == [Keyed(e2, g2), Keyed(e1, g1)]
  {
    OrderOfTwo(Ranking(t, monthOf), e1, g1, e2, g2);
  }

  /** Two employees, "E1" with 100 g and 50 g on two days and "E2" with
      200 g: the ranking is E2 (200) then E1 (150), and E1 is ranked 2nd,
      whatever the days and however days map to months. */
  lemma TwoEmployeeExample(monthOf: int -> int, day1: int, day2: int)
    ensures Ranking(ExampleTable(day1, day2), monthOf) == [Keyed("E2", 200), Keyed("E1", 150)]
    ensures RankOf(Ranking(ExampleTable(day1, day2), monthOf), "E1") == Some(2)
  {
    ExampleTotals(day1, day2);
    RankingOfTwo(ExampleTable(day1, day2), monthOf, "E1", 150, "E2", 200);
    var r: seq<Keyed<string>> := [Keyed("E2", 200), Keyed("E1", 150)];
    assert r[1..] == [Keyed("E1", 150)];
  }
}
