/**
 * Capacity graphs and flow states, and what pushing an amount along a path
 * does to a flow state: which entries change, the balance at every node,
 * and how much capacity is left over.
 */
module Flows {
  import opened Dicts
  import opened Sums

  /** The capacity graph: `arcs[u][v]` is the capacity of the arc u -> v. */
  type Arcs = Dict<Dict<int>>

  /** The outer record and every row are well formed. */
  ghost predicate WfArcs(arcs: Arcs)
  {
    Wf(arcs) && forall u | u in arcs.vals :: Wf(arcs.vals[u])
  }

  /**
   * The flow state: `flow[u][v]` is the amount pushed along u -> v.
   * Records are created lazily, so a missing entry reads as 0.
   */
  type Flow = map<Id, map<Id, int>>

  predicate HasArc(arcs: Arcs, u: Id, v: Id)
  {
    u in arcs.vals && v in arcs.vals[u].vals
  }

  function Cap(arcs: Arcs, u: Id, v: Id): (r: int)
    requires HasArc(arcs, u, v)
  {
    arcs.vals[u].vals[v]
  }

  ghost predicate PositiveCapacities(arcs: Arcs)
  {
    forall u, v | HasArc(arcs, u, v) :: Cap(arcs, u, v) > 0
  }

  /** `flow[u] ?? {}` */
  function Row(flow: Flow, u: Id): (r: map<Id, int>)
  {
    if u in flow then flow[u] else map[]
  }

  /** `flow[u]?.[v] ?? 0` */
  function FlowAt(flow: Flow, u: Id, v: Id): (r: int)
  {
    Get(Row(flow, u), v)
  }

  /** One step of applying a path: `flow[a] ??= {}; flow[a][b] += d`. */
  function Push(flow: Flow, a: Id, b: Id, d: int): (r: Flow)
  {
    flow[a := Row(flow, a)[b := FlowAt(flow, a, b) + d]]
  }

  /** The flow state once `d` has been pushed along every consecutive pair of `w`. */
  function Augmented(flow: Flow, w: seq<Id>, d: int): (r: Flow)
    decreases |w|
  {
    if |w| < 2 then flow else Augmented(Push(flow, w[0], w[1], d), w[1..], d)
  }

  /** x -> y is one of the steps of the walk `w`. */
  ghost predicate PairIn(w: seq<Id>, x: Id, y: Id)
  {
    exists j :: 0 <= j < |w| - 1 && w[j] == x && w[j + 1] == y
  }

  /** The total flow entering `n`. */
  ghost function Inflow(flow: Flow, n: Id): (r: int)
  {
    Sum(map x | x in flow :: FlowAt(flow, x, n))
  }

  /** The total flow leaving `n`. */
  ghost function Outflow(flow: Flow, n: Id): (r: int)
  {
    Sum(Row(flow, n))
  }

  /** Every node other than the two ends passes on exactly what it receives. */
  ghost predicate Conserved(flow: Flow, source: Id, sink: Id)
  {
    forall n | n != source && n != sink :: Inflow(flow, n) == Outflow(flow, n)
  }

  /** Capacity left on the arcs leaving `u`. */
  ghost function RowSlack(arcs: Arcs, flow: Flow, u: Id): (r: int)
    requires u in arcs.vals
  {
    Sum(map v | v in arcs.vals[u].vals :: arcs.vals[u].vals[v] - FlowAt(flow, u, v))
  }

  /** Capacity left on all arcs. */
  ghost function Slack(arcs: Arcs, flow: Flow): (r: int)
  {
    Sum(map u | u in arcs.vals :: RowSlack(arcs, flow, u))
  }

  /** The sum of all capacities. */
  ghost function TotalCapacity(arcs: Arcs): (r: int)
  {
    Sum(map u | u in arcs.vals :: Sum(arcs.vals[u].vals))
  }

  /** Pushing changes exactly one entry, by `d`. */
  lemma PushAt(flow: Flow, a: Id, b: Id, d: int, x: Id, y: Id)
    ensures FlowAt(Push(flow, a, b, d), x, y) == FlowAt(flow, x, y) + (if x == a && y == b then d else 0)
    ensures y in Row(Push(flow, a, b, d), x) <==> y in Row(flow, x) || (x == a && y == b)
  {
  }

  /** Pushing along a -> b moves `d` out of `a` and into `b`, and nothing else. */
  lemma PushBalance(flow: Flow, a: Id, b: Id, d: int, n: Id)
    ensures Inflow(Push(flow, a, b, d), n) == Inflow(flow, n) + (if n == b then d else 0)
    ensures Outflow(Push(flow, a, b, d), n) == Outflow(flow, n) + (if n == a then d else 0)
  {
    PushInflow(flow, a, b, d, n);
    PushOutflow(flow, a, b, d, n);
  }

  lemma PushInflow(flow: Flow, a: Id, b: Id, d: int, n: Id)
    ensures Inflow(Push(flow, a, b, d), n) == Inflow(flow, n) + (if n == b then d else 0)
  {
    var col := map x | x in flow :: FlowAt(flow, x, n);
    PushColumn(flow, a, b, d, n);
    SumUpdate(col, a, FlowAt(flow, a, n) + (if n == b then d else 0));
  }

  lemma PushColumn(flow: Flow, a: Id, b: Id, d: int, n: Id)
    ensures (map x | x in Push(flow, a, b, d) :: FlowAt(Push(flow, a, b, d), x, n))
         == (map x | x in flow :: FlowAt(flow, x, n))[a := FlowAt(flow, a, n) + (if n == b then d else 0)]
  {
  }

  lemma PushOutflow(flow: Flow, a: Id, b: Id, d: int, n: Id)
    ensures Outflow(Push(flow, a, b, d), n) == Outflow(flow, n) + (if n == a then d else 0)
  {
    if n == a {
      SumUpdate(Row(flow, a), b, FlowAt(flow, a, b) + d);
    } else {
      assert Row(Push(flow, a, b, d), n) == Row(flow, n);
    }
  }

  lemma PairInCons(w: seq<Id>, x: Id, y: Id)
    requires |w| >= 2
    ensures PairIn(w, x, y) <==> (x == w[0] && y == w[1]) || PairIn(w[1..], x, y)
  {
    if PairIn(w, x, y) {
      var j :| 0 <= j < |w| - 1 && w[j] == x && w[j + 1] == y;
      if j > 0 {
        assert w[1..][j - 1] == x && w[1..][j] == y;
      }
    }
    if PairIn(w[1..], x, y) {
      var j :| 0 <= j < |w[1..]| - 1 && w[1..][j] == x && w[1..][j + 1] == y;
      assert w[j + 1] == x && w[j + 2] == y;
    }
    if x == w[0] && y == w[1] {
      assert 0 < |w| - 1 && w[0] == x && w[1] == y;
    }
  }

  /**
   * Along a walk that visits no node twice, each of its steps gains `d`
   * exactly once and every other entry keeps its value.
   */
  lemma {:induction false} AugmentedAt(flow: Flow, w: seq<Id>, d: int, x: Id, y: Id)
    requires Distinct(w)
    ensures FlowAt(Augmented(flow, w, d), x, y) == FlowAt(flow, x, y) + (if PairIn(w, x, y) then d else 0)
    decreases |w|
  {
    if |w| < 2 {
      assert !PairIn(w, x, y);
    } else {
      var f1 := Push(flow, w[0], w[1], d);
      assert Distinct(w[1..]) by {
        forall i, j | 0 <= i < j < |w[1..]| ensures w[1..][i] != w[1..][j] {
          assert w[1..][i] == w[i + 1] && w[1..][j] == w[j + 1];
        }
      }
      AugmentedAt(f1, w[1..], d, x, y);
      PushAt(flow, w[0], w[1], d, x, y);
      PairInCons(w, x, y);
      if PairIn(w[1..], x, y) {
        var j :| 0 <= j < |w[1..]| - 1 && w[1..][j] == x && w[1..][j + 1] == y;
        assert w[j + 1] == x;
        assert x != w[0];
      }
    }
  }

  /** Entries appear only on the walk's steps. */
  lemma {:induction false} AugmentedEntries(flow: Flow, w: seq<Id>, d: int, x: Id, y: Id)
    requires y in Row(Augmented(flow, w, d), x)
    ensures y in Row(flow, x) || PairIn(w, x, y)
    decreases |w|
  {
    if |w| >= 2 {
      var f1 := Push(flow, w[0], w[1], d);
      AugmentedEntries(f1, w[1..], d, x, y);
      PushAt(flow, w[0], w[1], d, x, y);
      PairInCons(w, x, y);
    }
  }

  /** With a non-negative amount no entry ever decreases: nothing is cancelled. */
  lemma {:induction false} AugmentedGrows(flow: Flow, w: seq<Id>, d: int, x: Id, y: Id)
    requires d >= 0
    ensures FlowAt(Augmented(flow, w, d), x, y) >= FlowAt(flow, x, y)
    decreases |w|
  {
    if |w| >= 2 {
      AugmentedGrows(Push(flow, w[0], w[1], d), w[1..], d, x, y);
      PushAt(flow, w[0], w[1], d, x, y);
    }
  }

  /**
   * Pushing `d` along a walk moves `d` from its first node to its last one;
   * every node strictly inside keeps its balance.
   */
  lemma {:induction false} AugmentedBalance(flow: Flow, w: seq<Id>, d: int, n: Id)
    requires |w| >= 1
    ensures Inflow(Augmented(flow, w, d), n) - Outflow(Augmented(flow, w, d), n)
         == Inflow(flow, n) - Outflow(flow, n)
            + (if n == w[|w| - 1] then d else 0) - (if n == w[0] then d else 0)
    decreases |w|
  {
    if |w| >= 2 {
      var f1 := Push(flow, w[0], w[1], d);
      PushBalance(flow, w[0], w[1], d, n);
      AugmentedBalance(f1, w[1..], d, n);
    }
  }

  /** Pushing along a -> b leaves the other rows' leftover capacity alone. */
  lemma PushRowSlackOther(arcs: Arcs, flow: Flow, a: Id, b: Id, d: int, u: Id)
    requires u in arcs.vals && u != a
    ensures RowSlack(arcs, Push(flow, a, b, d), u) == RowSlack(arcs, flow, u)
  {
    var row := arcs.vals[u].vals;
    var f' := Push(flow, a, b, d);
    assert Row(f', u) == Row(flow, u);
    assert (map v | v in row :: row[v] - FlowAt(f', u, v)) == (map v | v in row :: row[v] - FlowAt(flow, u, v));
  }

  /** Pushing along a -> b uses up `d` of row `a`'s leftover capacity. */
  lemma PushRowSlack(arcs: Arcs, flow: Flow, a: Id, b: Id, d: int)
    requires HasArc(arcs, a, b)
    ensures RowSlack(arcs, Push(flow, a, b, d), a) == RowSlack(arcs, flow, a) - d
  {
    var row := arcs.vals[a].vals;
    var f' := Push(flow, a, b, d);
    var inner := map v | v in row :: row[v] - FlowAt(flow, a, v);
    var inner' := map v | v in row :: row[v] - FlowAt(f', a, v);
    forall v | v in row && v != b ensures inner'[v] == inner[v] {
      PushAt(flow, a, b, d, a, v);
    }
    PushAt(flow, a, b, d, a, b);
    SumChangeOne(inner, inner', b, -d);
  }

  /** Pushing along an arc uses up `d` of the leftover capacity. */
  lemma PushSlack(arcs: Arcs, flow: Flow, a: Id, b: Id, d: int)
    requires HasArc(arcs, a, b)
    ensures Slack(arcs, Push(flow, a, b, d)) == Slack(arcs, flow) - d
  {
    var f' := Push(flow, a, b, d);
    var outer := map u | u in arcs.vals :: RowSlack(arcs, flow, u);
    var outer' := map u | u in arcs.vals :: RowSlack(arcs, f', u);
    forall u | u in arcs.vals && u != a ensures outer'[u] == outer[u] {
      PushRowSlackOther(arcs, flow, a, b, d, u);
    }
    PushRowSlack(arcs, flow, a, b, d);
    SumChangeOne(outer, outer', a, -d);
  }

  lemma MulStep(d: int, k: int)
    ensures d * k + d == d * (k + 1)
  {
  }

  /** Pushing `d` along a walk of arcs uses up `d` per step. */
  lemma {:induction false} AugmentedSlack(arcs: Arcs, flow: Flow, w: seq<Id>, d: int)
    requires forall j | 0 <= j < |w| - 1 :: HasArc(arcs, w[j], w[j + 1])
    ensures Slack(arcs, Augmented(flow, w, d)) == Slack(arcs, flow) - d * (if |w| < 2 then 0 else |w| - 1)
    decreases |w|
  {
    if |w| >= 2 {
      PushSlack(arcs, flow, w[0], w[1], d);
      var tail := w[1..];
      forall j | 0 <= j < |tail| - 1 ensures HasArc(arcs, tail[j], tail[j + 1]) {
        assert tail[j] == w[j + 1] && tail[j + 1] == w[j + 2];
      }
      var f1 := Push(flow, w[0], w[1], d);
      AugmentedSlack(arcs, f1, tail, d);
      var k := if |tail| < 2 then 0 else |tail| - 1;
      assert k + 1 == |w| - 1;
      MulStep(d, k);
    }
  }

  /** Within capacity everywhere, the leftover capacity is not negative. */
  lemma SlackNonNegative(arcs: Arcs, flow: Flow)
    requires forall u, v | HasArc(arcs, u, v) :: FlowAt(flow, u, v) <= Cap(arcs, u, v)
    ensures Slack(arcs, flow) >= 0
  {
    var outer := map u | u in arcs.vals :: RowSlack(arcs, flow, u);
    forall u | u in outer ensures outer[u] >= 0 {
      SumNonNegative(map v | v in arcs.vals[u].vals :: arcs.vals[u].vals[v] - FlowAt(flow, u, v));
    }
    SumNonNegative(outer);
  }

  /** Before anything flows, all capacity is left over. */
  lemma SlackOfEmpty(arcs: Arcs)
    ensures Slack(arcs, map[]) == TotalCapacity(arcs)
  {
    forall u | u in arcs.vals ensures RowSlack(arcs, map[], u) == Sum(arcs.vals[u].vals) {
      assert (map v | v in arcs.vals[u].vals :: arcs.vals[u].vals[v] - FlowAt(map[], u, v)) == arcs.vals[u].vals;
    }
    assert (map u | u in arcs.vals :: RowSlack(arcs, map[], u)) == (map u | u in arcs.vals :: Sum(arcs.vals[u].vals));
  }
}
