/** Totals over finite maps, for flow balances and capacity budgets. */
module Sums {
  import opened Dicts

  /** The sum of the values of `m` (missing keys count as 0). */
  ghost function Sum(m: map<Id, int>): (r: int)
    decreases |m.Keys|
  {
    if m.Keys == {} then 0
    else
      var k :| k in m;
      assert m.Keys == (m - {k}).Keys + {k};
      m[k] + Sum(m - {k})
  }

  function Get(m: map<Id, int>, k: Id): (r: int)
  {
    if k in m then m[k] else 0
  }

  /** Any key may be taken out first. */
  lemma {:induction false} SumPick(m: map<Id, int>, k: Id)
    requires k in m
    ensures Sum(m) == m[k] + Sum(m - {k})
    decreases |m.Keys|
  {
    var j :| j in m && Sum(m) == m[j] + Sum(m - {j});
    if j != k {
      Shrinks(m, j);
      Shrinks(m, k);
      SumPick(m - {j}, k);
      SumPick(m - {k}, j);
      RemoveBoth(m, j, k);
    }
  }

  lemma Shrinks(m: map<Id, int>, k: Id)
    requires k in m
    ensures |(m - {k}).Keys| < |m.Keys|
  {
    assert (m - {k}).Keys == m.Keys - {k};
  }

  lemma RemoveBoth(m: map<Id, int>, j: Id, k: Id)
    ensures m - {j} - {k} == m - {k} - {j}
  {
  }

  /** Writing `v` at `k` changes the total by `v` minus what was there. */
  lemma SumUpdate(m: map<Id, int>, k: Id, v: int)
    ensures Sum(m[k := v]) == Sum(m) - Get(m, k) + v
  {
    SumPick(m[k := v], k);
    if k in m {
      SumPick(m, k);
      assert m[k := v] - {k} == m - {k};
    } else {
      assert m[k := v] - {k} == m;
    }
  }

  /** Two maps that differ at one key only have totals that differ by as much. */
  lemma SumChangeOne(m: map<Id, int>, m': map<Id, int>, k: Id, d: int)
    requires m'.Keys == m.Keys && k in m && m'[k] == m[k] + d
    requires forall j | j in m && j != k :: m'[j] == m[j]
    ensures Sum(m') == Sum(m) + d
  {
    SameButOne(m, m', k);
    SumUpdate(m, k, m'[k]);
  }

  lemma SameButOne(m: map<Id, int>, m': map<Id, int>, k: Id)
    requires m'.Keys == m.Keys && k in m
    requires forall j | j in m && j != k :: m'[j] == m[j]
    ensures m' == m[k := m'[k]]
  {
  }

  /** A map of non-negative values has a non-negative total. */
  lemma {:induction false} SumNonNegative(m: map<Id, int>)
    requires forall k | k in m :: m[k] >= 0
    ensures Sum(m) >= 0
    decreases |m.Keys|
  {
    if m.Keys != {} {
      var k :| k in m;
      SumPick(m, k);
      assert (m - {k}).Keys == m.Keys - {k};
      SumNonNegative(m - {k});
    }
  }
}
