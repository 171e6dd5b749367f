/**
 * `fordFulkerson` (src/maxflow/FordFulkerson.tsx): build the residual view,
 * then repeatedly search it for a path from the source to the sink and push
 * the path's bottleneck along it, reporting every round to `onUpdate`, until
 * the search fails. The flow state is updated in place; the reports are
 * collected here as a trace.
 */
module FordFulkerson {
  import opened Dicts
  import opened Sums
  import opened Flows
  import opened Residual
  import opened PathSearch

  /** What `onUpdate` receives after a round: the path walked and the flow state. */
  datatype Update = Update(path: seq<Id>, flow: Flow)

  /** Flow sits only on non-negative cells of the view, between 0 and the cell's entry. */
  ghost predicate FlowInv(R: Arcs, flow: Flow)
  {
    forall x, y | y in Row(flow, x) ::
      HasArc(R, x, y) && 0 <= Cap(R, x, y) && 0 <= FlowAt(flow, x, y) <= Cap(R, x, y)
  }

  /** Flow sits only on arcs, between 0 and the arc's capacity. */
  ghost predicate Feasible(arcs: Arcs, flow: Flow)
  {
    forall x, y | y in Row(flow, x) :: HasArc(arcs, x, y) && 0 <= FlowAt(flow, x, y) <= Cap(arcs, x, y)
  }

  /** No pair of nodes is joined in both directions (and so no node to itself). */
  ghost predicate NoOpposite(arcs: Arcs)
  {
    forall u, v | HasArc(arcs, u, v) :: !HasArc(arcs, v, u)
  }

  /**
   * One step of the augmenting loop: `flow[a] ??= {}`, then, the arc a -> b
   * being forward (`!!arcs[a][b]`), `flow[a][b] = increase` when the entry is
   * missing or 0 and `flow[a][b] += increase` otherwise.
   */
  method ApplyPair(arcs: Arcs, flow0: Flow, a: Id, b: Id, increase: int) returns (flow: Flow)
    requires HasArc(arcs, a, b) && Cap(arcs, a, b) != 0
    ensures flow == Push(flow0, a, b, increase)
  {
    flow := flow0;
    if a !in flow {
      flow := flow[a := map[]];
    }
    var forward := a in arcs.vals && b in arcs.vals[a].vals && arcs.vals[a].vals[b] != 0;
    if forward {
      var row := flow[a];
      if b !in row || row[b] == 0 {
        flow := flow[a := row[b := increase]];
      } else {
        flow := flow[a := row[b := row[b] + increase]];
      }
    } else {
      assert false;
    }
  }

  /** The `for` loop over the consecutive pairs of one path. */
  method Augment(arcs: Arcs, flow0: Flow, path: seq<Id>, increase: int) returns (flow: Flow)
    requires forall j | 0 <= j < |path| - 1 :: HasArc(arcs, path[j], path[j + 1]) && Cap(arcs, path[j], path[j + 1]) != 0
    ensures flow == Augmented(flow0, path, increase)
  {
    flow := flow0;
    var i := 0;
    while i < |path| - 1
      invariant i <= |path|
      invariant Augmented(flow, path[i..], increase) == Augmented(flow0, path, increase)
    {
      flow := AugmentStep(arcs, flow, path, i, increase, flow0);
      i := i + 1;
    }
  }

  method AugmentStep(arcs: Arcs, flow1: Flow, path: seq<Id>, i: nat, increase: int, ghost flow0: Flow) returns (flow: Flow)
    requires i < |path| - 1
    requires HasArc(arcs, path[i], path[i + 1]) && Cap(arcs, path[i], path[i + 1]) != 0
    requires Augmented(flow1, path[i..], increase) == Augmented(flow0, path, increase)
    ensures Augmented(flow, path[i + 1..], increase) == Augmented(flow0, path, increase)
  {
    flow := ApplyPair(arcs, flow1, path[i], path[i + 1], increase);
    assert path[i..][1..] == path[i + 1..];
  }

  /** The flow state before round `k` (`{}` before the first). */
  function FlowBefore(updates: seq<Update>, k: nat): (r: Flow)
    requires k <= |updates|
  {
    if k == 0 then map[] else updates[k - 1].flow
  }

  /**
   * `u` is what a round reports on flow state `prior`: the path the search
   * returns from the source, and `prior` augmented along it by its bottleneck.
   */
  ghost predicate RoundOf(R: Arcs, source: Id, sink: Id, prior: Flow, u: Update)
  {
    var r := FindPath(R, prior, sink, source, [], Unbounded);
    && r.Some? && r.value.visited == u.path && r.value.increase.Finite?
    && u.flow == Augmented(prior, u.path, r.value.increase.n)
  }

  /** Every report follows from the one before it, and `flow` is the last one's state. */
  ghost predicate Traced(R: Arcs, source: Id, sink: Id, updates: seq<Update>, flow: Flow)
  {
    && (forall k | 0 <= k < |updates| :: RoundOf(R, source, sink, FlowBefore(updates, k), updates[k]))
    && flow == FlowBefore(updates, |updates|)
  }

  /** No entry of `f` is larger than the same entry of `g`. */
  ghost predicate Grows(f: Flow, g: Flow)
  {
    forall x, y :: FlowAt(f, x, y) <= FlowAt(g, x, y)
  }

  /** No entry of the flow state ever decreases from one report to the next. */
  ghost predicate NeverCancels(updates: seq<Update>)
  {
    forall k | 0 <= k < |updates| :: Grows(FlowBefore(updates, k), updates[k].flow)
  }

  /** Every flow state reported to `onUpdate` is feasible and conserved. */
  ghost predicate SnapshotsValid(arcs: Arcs, source: Id, sink: Id, updates: seq<Update>)
  {
    forall k | 0 <= k < |updates| :: Feasible(arcs, updates[k].flow) && Conserved(updates[k].flow, source, sink)
  }

  /** What holds at the top of every round. */
  ghost predicate Inv(arcs: Arcs, R: Arcs, source: Id, sink: Id, flow: Flow, updates: seq<Update>)
  {
    && R == ResidualOf(arcs)
    && FlowInv(R, flow)
    && Conserved(flow, source, sink)
    && Inflow(flow, sink) - Outflow(flow, sink) >= |updates|
    && 0 <= Slack(arcs, flow) && |updates| + Slack(arcs, flow) <= TotalCapacity(arcs)
    && Traced(R, source, sink, updates, flow)
    && NeverCancels(updates)
    && SnapshotsValid(arcs, source, sink, updates)
  }

  /**
   * `fordFulkerson({arcs, source, sink, onUpdate})`: the result is the state
   * the trace of reports leads to, and the search finds no further path. It
   * is a feasible flow, conserved at every node but the two ends, with at
   * least one unit more entering the sink per round; the rounds are bounded
   * by the total capacity, and no entry is ever decreased. Every state
   * reported along the way is feasible and conserved as well.
   */
  method Run(arcs: Arcs, source: Id, sink: Id) returns (flow: Flow, updates: seq<Update>)
    requires WfArcs(arcs) && PositiveCapacities(arcs) && source != sink
    ensures Traced(ResidualOf(arcs), source, sink, updates, flow)
    ensures FindPath(ResidualOf(arcs), flow, sink, source, [], Unbounded).None?
    ensures !Reaches(ResidualOf(arcs), flow, sink, source, [])
    ensures Feasible(arcs, flow) && Conserved(flow, source, sink)
    ensures Inflow(flow, sink) - Outflow(flow, sink) >= |updates|
    ensures |updates| <= TotalCapacity(arcs)
    ensures NeverCancels(updates)
    ensures SnapshotsValid(arcs, source, sink, updates)
  {
    var R := BuildResidual(arcs);
    flow := map[];
    updates := [];
    InitInv(arcs, R, source, sink);
    var path := FindPath(R, flow, sink, source, [], Unbounded);
    while path.Some?
      invariant Inv(arcs, R, source, sink, flow, updates)
      invariant path == FindPath(R, flow, sink, source, [], Unbounded)
      decreases Slack(arcs, flow)
    {
      flow, updates := Round(arcs, R, source, sink, flow, updates, path.value);
      path := FindPath(R, flow, sink, source, [], Unbounded);
    }
    FindPathIff(R, flow, sink, source, [], Unbounded);
    FeasibleOf(arcs, R, flow);
  }

  /**
   * With the source as the sink, the search returns the one-node path at
   * once, and augmenting along it changes nothing: every round would find
   * the same path again, so the loop never ends.
   */
  lemma SameEndsNeverStops(R: Arcs, flow: Flow, source: Id, increase: int)
    ensures FindPath(R, flow, source, source, [], Unbounded) == Some(Found([source], Unbounded))
    ensures Augmented(flow, [source], increase) == flow
  {
  }

  /** One round: augment along the path found, and report. */
  method Round(arcs: Arcs, R: Arcs, source: Id, sink: Id, flow0: Flow, updates0: seq<Update>, found: Found)
    returns (flow: Flow, updates: seq<Update>)
    requires WfArcs(arcs) && PositiveCapacities(arcs) && source != sink
    requires Inv(arcs, R, source, sink, flow0, updates0)
    requires FindPath(R, flow0, sink, source, [], Unbounded) == Some(found)
    ensures found.increase.Finite? && flow == Augmented(flow0, found.visited, found.increase.n)
    ensures updates == updates0 + [Update(found.visited, flow)]
    ensures Inv(arcs, R, source, sink, flow, updates)
    ensures Slack(arcs, flow) < Slack(arcs, flow0)
  {
    RoundPath(arcs, R, source, sink, flow0, found);
    var increase := found.increase.n;
    flow := Augment(arcs, flow0, found.visited, increase);
    updates := updates0 + [Update(found.visited, flow)];
    RoundInv(arcs, R, source, sink, flow0, updates0, found, flow, updates);
  }

  /** Before the first round. */
  lemma InitInv(arcs: Arcs, R: Arcs, source: Id, sink: Id)
    requires R == ResidualOf(arcs) && PositiveCapacities(arcs)
    ensures Inv(arcs, R, source, sink, map[], [])
  {
    var empty: Flow := map[];
    forall n ensures Inflow(empty, n) == 0 && Outflow(empty, n) == 0 {
      assert (map x | x in empty :: FlowAt(empty, x, n)) == map[];
    }
    SlackOfEmpty(arcs);
    SlackNonNegative(arcs, map[]);
  }

  /** Each cell the search steps through is a forward cell of an arc with room left. */
  lemma PathStep(arcs: Arcs, R: Arcs, flow: Flow, x: Id, y: Id)
    requires WfArcs(arcs) && PositiveCapacities(arcs) && R == ResidualOf(arcs) && WfArcs(R) && FlowInv(R, flow)
    requires y in Neighbours(R, x).keys && Usable(R, flow, x, y) > 0
    ensures x != y && HasArc(arcs, x, y) && HasArc(R, x, y) && Cap(R, x, y) == Cap(arcs, x, y) > 0
    ensures Usable(R, flow, x, y) == Cap(arcs, x, y) - FlowAt(flow, x, y)
  {
    assert x in R.vals;
    assert HasArc(R, x, y);
    assert Cap(R, x, y) >= 0;
    ForwardCell(arcs, x, y);
  }

  /** x -> y is an arc of both graphs with the same capacity and room for `d` more. */
  ghost predicate ArcStep(arcs: Arcs, R: Arcs, flow: Flow, x: Id, y: Id, d: int)
  {
    && HasArc(arcs, x, y) && HasArc(R, x, y) && Cap(R, x, y) == Cap(arcs, x, y) > 0
    && FlowAt(flow, x, y) + d <= Cap(arcs, x, y)
  }

  /** `p` visits no node twice, and `d` > 0 fits along each of its arcs. */
  ghost predicate Augmentable(arcs: Arcs, R: Arcs, flow: Flow, p: seq<Id>, d: int)
  {
    |p| >= 2 && Distinct(p) && d > 0 &&
    forall j | 0 <= j < |p| - 1 :: ArcStep(arcs, R, flow, p[j], p[j + 1], d)
  }

  /**
   * The path found in a round runs from the source to the sink along forward
   * arcs, visits no node twice, and its bottleneck is positive and fits.
   */
  lemma RoundPath(arcs: Arcs, R: Arcs, source: Id, sink: Id, flow: Flow, found: Found)
    requires WfArcs(arcs) && PositiveCapacities(arcs) && source != sink
    requires R == ResidualOf(arcs) && FlowInv(R, flow)
    requires FindPath(R, flow, sink, source, [], Unbounded) == Some(found)
    ensures found.increase.Finite? && |found.visited| >= 2
    ensures found.visited[0] == source && found.visited[|found.visited| - 1] == sink
    ensures Augmentable(arcs, R, flow, found.visited, found.increase.n)
  {
    FindPathSound(R, flow, sink, source, [], Unbounded);
    var p := found.visited;
    var none: seq<Id> := [];
    assert p[|none|..] == p;
    ResidualWf(arcs);
    BottleneckBounds(R, flow, [], p, Unbounded);
    forall j | 0 <= j < |p| - 1
      ensures ArcStep(arcs, R, flow, p[j], p[j + 1], found.increase.n) && p[j] != p[j + 1]
    {
      assert Step(R, flow, [] + p[..j], p[j], p[j + 1]);
      PathStep(arcs, R, flow, p[j], p[j + 1]);
    }
    WalkDistinct(R, flow, p);
  }

  lemma RoundInv(arcs: Arcs, R: Arcs, source: Id, sink: Id, flow0: Flow, updates0: seq<Update>,
                 found: Found, flow: Flow, updates: seq<Update>)
    requires WfArcs(arcs) && PositiveCapacities(arcs) && source != sink
    requires Inv(arcs, R, source, sink, flow0, updates0)
    requires FindPath(R, flow0, sink, source, [], Unbounded) == Some(found)
    requires found.increase.Finite? && |found.visited| >= 2
    requires found.visited[0] == source && found.visited[|found.visited| - 1] == sink
    requires Augmentable(arcs, R, flow0, found.visited, found.increase.n)
    requires flow == Augmented(flow0, found.visited, found.increase.n)
    requires updates == updates0 + [Update(found.visited, flow)]
    ensures Inv(arcs, R, source, sink, flow, updates)
    ensures Slack(arcs, flow) < Slack(arcs, flow0)
  {
    var p, d := found.visited, found.increase.n;
    AugmentFlowInv(arcs, R, flow0, p, d);
    AugmentConserved(flow0, p, d, source, sink);
    AugmentedBalance(flow0, p, d, sink);
    AugmentSlack(arcs, R, flow0, p, d);
    FeasibleOf(arcs, R, flow);
    WithinCaps(arcs, flow);
    SlackNonNegative(arcs, flow);
    TracedAppend(R, source, sink, updates0, flow0, Update(p, flow));
    AugmentGrows(flow0, p, d);
    NeverCancelsAppend(updates0, Update(p, flow));
    SnapshotsAppend(arcs, source, sink, updates0, Update(p, flow));
  }

  lemma SnapshotsAppend(arcs: Arcs, source: Id, sink: Id, updates: seq<Update>, u: Update)
    requires SnapshotsValid(arcs, source, sink, updates)
    requires Feasible(arcs, u.flow) && Conserved(u.flow, source, sink)
    ensures SnapshotsValid(arcs, source, sink, updates + [u])
  {
    var us := updates + [u];
    forall k | 0 <= k < |us| ensures Feasible(arcs, us[k].flow) && Conserved(us[k].flow, source, sink) {
      if k < |updates| {
        assert us[k] == updates[k];
      }
    }
  }

  lemma AugmentFlowInv(arcs: Arcs, R: Arcs, flow0: Flow, p: seq<Id>, d: int)
    requires FlowInv(R, flow0) && Augmentable(arcs, R, flow0, p, d)
    ensures FlowInv(R, Augmented(flow0, p, d))
  {
    var flow := Augmented(flow0, p, d);
    forall x, y | y in Row(flow, x)
      ensures HasArc(R, x, y) && 0 <= Cap(R, x, y) && 0 <= FlowAt(flow, x, y) <= Cap(R, x, y)
    {
      AugmentedEntries(flow0, p, d, x, y);
      AugmentedAt(flow0, p, d, x, y);
      if PairIn(p, x, y) {
        var j :| 0 <= j < |p| - 1 && p[j] == x && p[j + 1] == y;
        assert ArcStep(arcs, R, flow0, p[j], p[j + 1], d);
      }
    }
  }

  lemma AugmentConserved(flow0: Flow, p: seq<Id>, d: int, source: Id, sink: Id)
    requires Conserved(flow0, source, sink) && |p| >= 1 && p[0] == source && p[|p| - 1] == sink
    ensures Conserved(Augmented(flow0, p, d), source, sink)
  {
    forall n | n != source && n != sink
      ensures Inflow(Augmented(flow0, p, d), n) == Outflow(Augmented(flow0, p, d), n)
    {
      AugmentedBalance(flow0, p, d, n);
    }
  }

  lemma AugmentSlack(arcs: Arcs, R: Arcs, flow0: Flow, p: seq<Id>, d: int)
    requires Augmentable(arcs, R, flow0, p, d)
    ensures Slack(arcs, Augmented(flow0, p, d)) <= Slack(arcs, flow0) - 1
  {
    forall j | 0 <= j < |p| - 1 ensures HasArc(arcs, p[j], p[j + 1]) {
      assert ArcStep(arcs, R, flow0, p[j], p[j + 1], d);
    }
    AugmentedSlack(arcs, flow0, p, d);
    AtLeastOne(d, |p| - 1);
  }

  lemma AtLeastOne(d: int, k: int)
    requires d >= 1 && k >= 1
    ensures d * k >= 1
  {
    assert d * k >= d * 1;
  }

  lemma AugmentGrows(flow0: Flow, p: seq<Id>, d: int)
    requires d >= 0
    ensures Grows(flow0, Augmented(flow0, p, d))
  {
    forall x, y ensures FlowAt(flow0, x, y) <= FlowAt(Augmented(flow0, p, d), x, y) {
      AugmentedGrows(flow0, p, d, x, y);
    }
  }

  lemma TracedAppend(R: Arcs, source: Id, sink: Id, updates: seq<Update>, flow: Flow, u: Update)
    requires Traced(R, source, sink, updates, flow) && RoundOf(R, source, sink, flow, u)
    ensures Traced(R, source, sink, updates + [u], u.flow)
  {
    var us := updates + [u];
    forall k | 0 <= k < |us| ensures RoundOf(R, source, sink, FlowBefore(us, k), us[k]) {
      if k < |updates| {
        assert FlowBefore(us, k) == FlowBefore(updates, k) && us[k] == updates[k];
      }
    }
  }

  lemma NeverCancelsAppend(updates: seq<Update>, u: Update)
    requires NeverCancels(updates) && Grows(FlowBefore(updates, |updates|), u.flow)
    ensures NeverCancels(updates + [u])
  {
    var us := updates + [u];
    forall k | 0 <= k < |us| ensures Grows(FlowBefore(us, k), us[k].flow) {
      if k < |updates| {
        assert FlowBefore(us, k) == FlowBefore(updates, k) && us[k] == updates[k];
      }
    }
  }

  /** Flow on the non-negative cells of the view is flow on arcs within capacity. */
  lemma FeasibleOf(arcs: Arcs, R: Arcs, flow: Flow)
    requires WfArcs(arcs) && PositiveCapacities(arcs) && R == ResidualOf(arcs) && FlowInv(R, flow)
    ensures Feasible(arcs, flow)
  {
    forall x, y | y in Row(flow, x) ensures HasArc(arcs, x, y) && 0 <= FlowAt(flow, x, y) <= Cap(arcs, x, y) {
      ForwardCell(arcs, x, y);
    }
  }

  lemma WithinCaps(arcs: Arcs, flow: Flow)
    requires PositiveCapacities(arcs) && Feasible(arcs, flow)
    ensures forall u, v | HasArc(arcs, u, v) :: FlowAt(flow, u, v) <= Cap(arcs, u, v)
  {
  }

  /**
   * When no pair of nodes is joined both ways, a flow state on which the
   * search fails is blocking: every simple path of arcs from the source to
   * the sink has an arc that is full.
   */
  lemma Blocking(arcs: Arcs, flow: Flow, source: Id, sink: Id, p: seq<Id>)
    requires WfArcs(arcs) && PositiveCapacities(arcs) && NoOpposite(arcs)
    requires !Reaches(ResidualOf(arcs), flow, sink, source, [])
    requires |p| >= 1 && Distinct(p) && p[0] == source && p[|p| - 1] == sink
    requires forall j | 0 <= j < |p| - 1 :: HasArc(arcs, p[j], p[j + 1])
    ensures exists j | 0 <= j < |p| - 1 :: FlowAt(flow, p[j], p[j + 1]) >= Cap(arcs, p[j], p[j + 1])
  {
    var R := ResidualOf(arcs);
    if forall j | 0 <= j < |p| - 1 :: FlowAt(flow, p[j], p[j + 1]) < Cap(arcs, p[j], p[j + 1]) {
      ResidualWf(arcs);
      forall j | 0 <= j < |p| - 1 ensures Step(R, flow, [] + p[..j], p[j], p[j + 1]) {
        OpenStep(arcs, flow, p[j], p[j + 1]);
        assert p[j + 1] !in p[..j];
      }
      assert IsWalk(R, flow, [], p);
    }
  }

  lemma OpenStep(arcs: Arcs, flow: Flow, x: Id, y: Id)
    requires WfArcs(arcs) && WfArcs(ResidualOf(arcs)) && PositiveCapacities(arcs) && NoOpposite(arcs)
    requires HasArc(arcs, x, y) && FlowAt(flow, x, y) < Cap(arcs, x, y)
    ensures y in Neighbours(ResidualOf(arcs), x).keys && Usable(ResidualOf(arcs), flow, x, y) > 0
  {
    ResidualOneWay(arcs, x, y);
    var R := ResidualOf(arcs);
    assert y in R.vals[x].vals;
  }
}
