/**
 * The residual view built before the search (src/maxflow/FordFulkerson.tsx,
 * `arcsWithBackward`). Every arc u -> v of capacity c is written as `+c` at
 * [u][v] and as the reverse sentinel `-c` at [v][u]; both ends become keys.
 * A later write to the same cell overwrites an earlier one.
 */
module Residual {
  import opened Dicts
  import opened Flows

  /** One arc of the capacity graph, as the builder meets it. */
  datatype Triple = Triple(tail: Id, head: Id, cap: int)

  /** The first `j` arcs of `row`, the record of arcs leaving `u`, in enumeration order. */
  function RowTriples(u: Id, row: Dict<int>, j: nat): (r: seq<Triple>)
    requires j <= |row.keys|
  {
    if j == 0 then []
    else
      var v := row.keys[j - 1];
      RowTriples(u, row, j - 1) + [Triple(u, v, GetOr(row, v, 0))]
  }

  /** The arcs of the first `i` rows, in the order the builder visits them. */
  function ArcTriples(arcs: Arcs, i: nat): (r: seq<Triple>)
    requires i <= |arcs.keys|
  {
    if i == 0 then []
    else
      var u := arcs.keys[i - 1];
      var row := GetOr(arcs, u, Empty());
      ArcTriples(arcs, i - 1) + RowTriples(u, row, |row.keys|)
  }

  /** `if (!acc[k]) acc[k] = {}` */
  function Touch(acc: Arcs, k: Id): (r: Arcs)
  {
    if k in acc.vals then acc else Put(acc, k, Empty())
  }

  /** `acc[x][y] = c` */
  function Write(acc: Arcs, x: Id, y: Id, c: int): (r: Arcs)
    requires x in acc.vals
  {
    Put(acc, x, Put(acc.vals[x], y, c))
  }

  /**
   * The body of the builder's inner loop for one arc: both ends become keys,
   * then `acc[u][v] = c` and `acc[v][u] = -acc[u][v]` (which reads back `c`).
   */
  function AddArc(acc: Arcs, t: Triple): (r: Arcs)
  {
    Write(Write(Touch(Touch(acc, t.head), t.tail), t.tail, t.head, t.cap), t.head, t.tail, -t.cap)
  }

  lemma TouchCells(acc: Arcs, k: Id, x: Id, y: Id)
    ensures x in Touch(acc, k).vals <==> x in acc.vals || x == k
    ensures HasArc(Touch(acc, k), x, y) <==> HasArc(acc, x, y)
    ensures HasArc(acc, x, y) ==> Cap(Touch(acc, k), x, y) == Cap(acc, x, y)
  {
  }

  lemma WriteCells(acc: Arcs, p: Id, q: Id, c: int, x: Id, y: Id)
    requires p in acc.vals
    ensures x in Write(acc, p, q, c).vals <==> x in acc.vals
    ensures HasArc(Write(acc, p, q, c), x, y) <==> HasArc(acc, x, y) || (x == p && y == q)
    ensures HasArc(Write(acc, p, q, c), x, y) ==>
      Cap(Write(acc, p, q, c), x, y) == if x == p && y == q then c else Cap(acc, x, y)
  {
  }

  lemma TouchWf(acc: Arcs, k: Id)
    requires WfArcs(acc)
    ensures WfArcs(Touch(acc, k))
  {
  }

  lemma WriteWf(acc: Arcs, x: Id, y: Id, c: int)
    requires WfArcs(acc) && x in acc.vals
    ensures WfArcs(Write(acc, x, y, c))
  {
  }

  lemma AddArcWf(acc: Arcs, t: Triple)
    requires WfArcs(acc)
    ensures WfArcs(AddArc(acc, t))
  {
    var a1 := Touch(acc, t.head);
    TouchWf(acc, t.head);
    var a2 := Touch(a1, t.tail);
    TouchWf(a1, t.tail);
    var a3 := Write(a2, t.tail, t.head, t.cap);
    WriteWf(a2, t.tail, t.head, t.cap);
    WriteWf(a3, t.head, t.tail, -t.cap);
  }

  /** The builder's state after the arcs of `ts`, in order. */
  function Insert(acc: Arcs, ts: seq<Triple>): (r: Arcs)
    decreases |ts|
  {
    if ts == [] then acc else AddArc(Insert(acc, ts[..|ts| - 1]), ts[|ts| - 1])
  }

  lemma {:induction false} InsertWf(ts: seq<Triple>)
    ensures WfArcs(Insert(Empty(), ts))
    decreases |ts|
  {
    if ts != [] {
      InsertWf(ts[..|ts| - 1]);
      AddArcWf(Insert(Empty(), ts[..|ts| - 1]), ts[|ts| - 1]);
    }
  }

  /** The residual view of a capacity graph. */
  function ResidualOf(arcs: Arcs): (r: Arcs)
  {
    Insert(Empty(), ArcTriples(arcs, |arcs.keys|))
  }

  /** The residual view is well formed, whatever the capacity graph. */
  lemma ResidualWf(arcs: Arcs)
    ensures WfArcs(ResidualOf(arcs))
  {
    InsertWf(ArcTriples(arcs, |arcs.keys|));
  }

  /**
   * The builder as written: a `reduce` over the rows of the capacity graph
   * whose accumulator is updated in place.
   */
  method BuildResidual(arcs: Arcs) returns (acc: Arcs)
    requires WfArcs(arcs)
    ensures acc == ResidualOf(arcs)
  {
    acc := Empty();
    var i := 0;
    while i < |arcs.keys|
      invariant i <= |arcs.keys|
      invariant acc == Insert(Empty(), ArcTriples(arcs, i))
    {
      acc := AddRow(acc, arcs, i);
      i := i + 1;
    }
  }

  /**
   * The `reduce` callback for row `i`: the inner `forEach` over its arcs
   * takes the view of the rows before it to the view of the rows up to it.
   */
  method AddRow(acc0: Arcs, arcs: Arcs, i: nat) returns (acc: Arcs)
    requires WfArcs(arcs) && i < |arcs.keys|
    requires acc0 == Insert(Empty(), ArcTriples(arcs, i))
    ensures acc == Insert(Empty(), ArcTriples(arcs, i + 1))
  {
    var u := arcs.keys[i];
    assert u in arcs.vals;
    var row := arcs.vals[u];
    ghost var done := ArcTriples(arcs, i);
    acc := acc0;
    assert done + RowTriples(u, row, 0) == done;
    var j := 0;
    while j < |row.keys|
      invariant j <= |row.keys|
      invariant acc == Insert(Empty(), done + RowTriples(u, row, j))
    {
      acc := AddEntry(acc, done, u, row, j);
      j := j + 1;
    }
  }

  /**
   * The `forEach` callback for the `j`-th arc u -> v of `row`: both ends
   * become keys, then `acc[u][v] = c` and `acc[v][u] = -acc[u][v]`; the view
   * then covers that arc too.
   */
  method AddEntry(acc0: Arcs, ghost done: seq<Triple>, u: Id, row: Dict<int>, j: nat) returns (acc: Arcs)
    requires Wf(row) && j < |row.keys|
    requires acc0 == Insert(Empty(), done + RowTriples(u, row, j))
    ensures acc == Insert(Empty(), done + RowTriples(u, row, j + 1))
  {
    var v := row.keys[j];
    assert v in row.vals;
    var c := row.vals[v];
    acc := acc0;
    if v !in acc.vals {
      acc := Put(acc, v, Empty());
    }
    assert acc == Touch(acc0, v);
    ghost var acc1 := acc;
    if u !in acc.vals {
      acc := Put(acc, u, Empty());
    }
    assert acc == Touch(acc1, u);
    ghost var acc2 := acc;
    acc := Put(acc, u, Put(acc.vals[u], v, c));
    assert acc == Write(acc2, u, v, c);
    ghost var acc3 := acc;
    acc := Put(acc, v, Put(acc.vals[v], u, -acc.vals[u].vals[v]));
    ReadBack(acc0, acc1, acc2, acc3, u, v, c, acc);
    InsertLast(Empty(), done + RowTriples(u, row, j), Triple(u, v, c));
    assert done + RowTriples(u, row, j + 1) == done + RowTriples(u, row, j) + [Triple(u, v, c)];
  }

  /** The four statements of the inner loop, one arc at a time, are `AddArc`. */
  lemma ReadBack(acc0: Arcs, acc1: Arcs, acc2: Arcs, acc3: Arcs, u: Id, v: Id, c: int, acc: Arcs)
    requires acc1 == Touch(acc0, v) && acc2 == Touch(acc1, u)
    requires u in acc2.vals && acc3 == Write(acc2, u, v, c)
    requires v in acc3.vals && u in acc3.vals && v in acc3.vals[u].vals
    requires acc == Put(acc3, v, Put(acc3.vals[v], u, -acc3.vals[u].vals[v]))
    ensures acc == AddArc(acc0, Triple(u, v, c))
  {
  }

  /** What one arc adds to the view: its two ends, and its two cells. */
  lemma AddArcCells(acc: Arcs, t: Triple, x: Id, y: Id)
    ensures x in AddArc(acc, t).vals <==> x in acc.vals || x == t.tail || x == t.head
    ensures HasArc(AddArc(acc, t), x, y)
        <==> HasArc(acc, x, y) || (x == t.tail && y == t.head) || (x == t.head && y == t.tail)
    ensures HasArc(AddArc(acc, t), x, y) ==>
      Cap(AddArc(acc, t), x, y)
        == if x == t.head && y == t.tail then -t.cap
           else if x == t.tail && y == t.head then t.cap
           else Cap(acc, x, y)
  {
    var acc1 := Touch(acc, t.head);
    var acc2 := Touch(acc1, t.tail);
    var acc3 := Write(acc2, t.tail, t.head, t.cap);
    TouchCells(acc, t.head, x, y);
    TouchCells(acc1, t.tail, x, y);
    WriteCells(acc2, t.tail, t.head, t.cap, x, y);
    TouchCells(acc1, t.tail, t.head, t.head);
    TouchCells(acc, t.head, t.head, t.head);
    WriteCells(acc2, t.tail, t.head, t.cap, t.head, t.head);
    WriteCells(acc3, t.head, t.tail, -t.cap, x, y);
  }

  lemma InsertLast(acc: Arcs, ts: seq<Triple>, t: Triple)
    ensures Insert(acc, ts + [t]) == AddArc(Insert(acc, ts), t)
  {
    assert (ts + [t])[..|ts|] == ts;
  }

  /** The keys of the view are the ends of the arcs inserted. */
  lemma {:induction false} InsertKey(ts: seq<Triple>, x: Id)
    ensures x in Insert(Empty(), ts).vals <==> exists t :: t in ts && (t.tail == x || t.head == x)
    decreases |ts|
  {
    if ts != [] {
      var front, t := ts[..|ts| - 1], ts[|ts| - 1];
      assert ts == front + [t];
      InsertKey(front, x);
      AddArcCells(Insert(Empty(), front), t, x, x);
      if x in Insert(Empty(), ts).vals && x !in Insert(Empty(), front).vals {
        assert t in ts && (t.tail == x || t.head == x);
      }
    }
  }

  /** A cell exists exactly for the two directions of an inserted arc. */
  lemma {:induction false} InsertEdge(ts: seq<Triple>, x: Id, y: Id)
    ensures HasArc(Insert(Empty(), ts), x, y)
        <==> exists t :: t in ts && ((t.tail == x && t.head == y) || (t.tail == y && t.head == x))
    decreases |ts|
  {
    if ts != [] {
      var front, t := ts[..|ts| - 1], ts[|ts| - 1];
      assert ts == front + [t];
      InsertEdge(front, x, y);
      AddArcCells(Insert(Empty(), front), t, x, y);
      if HasArc(Insert(Empty(), ts), x, y) && !HasArc(Insert(Empty(), front), x, y) {
        assert t in ts;
      }
    }
  }

  /**
   * Value `c` in cell [x][y] is the capacity of the arc it belongs to:
   * forwards from an arc x -> y (never on the diagonal, where the sentinel is
   * written last) or negated from an arc y -> x.
   */
  ghost predicate Explained(ts: seq<Triple>, x: Id, y: Id, c: int)
  {
    (x != y && Triple(x, y, c) in ts) || Triple(y, x, -c) in ts
  }

  lemma AddArcValue(before: Arcs, t: Triple, front: seq<Triple>, x: Id, y: Id)
    requires HasArc(AddArc(before, t), x, y)
    requires HasArc(before, x, y) ==> Explained(front, x, y, Cap(before, x, y))
    ensures Explained(front + [t], x, y, Cap(AddArc(before, t), x, y))
  {
    AddArcCells(before, t, x, y);
    var c := Cap(AddArc(before, t), x, y);
    var ts := front + [t];
    if x == t.head && y == t.tail {
      assert Triple(y, x, -c) == ts[|front|];
    } else if x == t.tail && y == t.head {
      assert Triple(x, y, c) == ts[|front|];
    } else if x != y && Triple(x, y, c) in front {
      assert Triple(x, y, c) in ts;
    } else {
      assert Triple(y, x, -c) in ts;
    }
  }

  lemma {:induction false} InsertValue(ts: seq<Triple>, x: Id, y: Id)
    requires HasArc(Insert(Empty(), ts), x, y)
    ensures Explained(ts, x, y, Cap(Insert(Empty(), ts), x, y))
    decreases |ts|
  {
    var front, t := ts[..|ts| - 1], ts[|ts| - 1];
    assert ts == front + [t];
    var before := Insert(Empty(), front);
    if HasArc(before, x, y) {
      InsertValue(front, x, y);
    }
    AddArcValue(before, t, front, x, y);
  }

  /**
   * An arc whose reverse is never inserted, and whose cell is written with
   * one capacity only, ends up as `+c` forwards and `-c` backwards.
   */
  lemma {:induction false} InsertOneWay(ts: seq<Triple>, x: Id, y: Id, c: int)
    requires x != y && Triple(x, y, c) in ts
    requires forall t | t in ts && t.tail == x && t.head == y :: t.cap == c
    requires forall t | t in ts :: !(t.tail == y && t.head == x)
    ensures HasArc(Insert(Empty(), ts), x, y) && Cap(Insert(Empty(), ts), x, y) == c
    ensures HasArc(Insert(Empty(), ts), y, x) && Cap(Insert(Empty(), ts), y, x) == -c
    decreases |ts|
  {
    var front, t := ts[..|ts| - 1], ts[|ts| - 1];
    assert ts == front + [t];
    AddArcCells(Insert(Empty(), front), t, x, y);
    AddArcCells(Insert(Empty(), front), t, y, x);
    if t != Triple(x, y, c) {
      InsertOneWay(front, x, y, c);
    }
  }

  lemma {:induction false} RowTriplesMember(u: Id, row: Dict<int>, j: nat, t: Triple)
    requires Wf(row) && j <= |row.keys|
    ensures t in RowTriples(u, row, j) <==>
      t.tail == u && t.head in row.keys[..j] && t.head in row.vals && t.cap == row.vals[t.head]
  {
    if j > 0 {
      RowTriplesMember(u, row, j - 1, t);
      assert row.keys[..j] == row.keys[..j - 1] + [row.keys[j - 1]];
    }
  }

  /** A whole row contributes exactly its own arcs. */
  lemma RowMember(u: Id, row: Dict<int>, t: Triple)
    requires Wf(row)
    ensures t in RowTriples(u, row, |row.keys|) <==> t.tail == u && t.head in row.vals && t.cap == row.vals[t.head]
  {
    RowTriplesMember(u, row, |row.keys|, t);
    assert row.keys[..|row.keys|] == row.keys;
  }

  lemma {:induction false} ArcTriplesMember(arcs: Arcs, i: nat, t: Triple)
    requires WfArcs(arcs) && i <= |arcs.keys|
    ensures t in ArcTriples(arcs, i) <==>
      t.tail in arcs.keys[..i] && HasArc(arcs, t.tail, t.head) && t.cap == Cap(arcs, t.tail, t.head)
  {
    if i > 0 {
      var u := arcs.keys[i - 1];
      assert u in arcs.vals;
      ArcTriplesMember(arcs, i - 1, t);
      RowMember(u, arcs.vals[u], t);
      assert arcs.keys[..i] == arcs.keys[..i - 1] + [u];
    }
  }

  /** The builder meets every arc of the graph, each with its own capacity, and nothing else. */
  lemma ArcsMet(arcs: Arcs, t: Triple)
    requires WfArcs(arcs)
    ensures t in ArcTriples(arcs, |arcs.keys|) <==> HasArc(arcs, t.tail, t.head) && t.cap == Cap(arcs, t.tail, t.head)
  {
    ArcTriplesMember(arcs, |arcs.keys|, t);
    assert arcs.keys[..|arcs.keys|] == arcs.keys;
  }

  /** Both ends of every arc, and nothing else, are keys of the view. */
  lemma ResidualNodes(arcs: Arcs, x: Id)
    requires WfArcs(arcs)
    ensures x in ResidualOf(arcs).vals <==> exists y :: HasArc(arcs, x, y) || HasArc(arcs, y, x)
  {
    var ts := ArcTriples(arcs, |arcs.keys|);
    InsertKey(ts, x);
    if x in ResidualOf(arcs).vals {
      var t :| t in ts && (t.tail == x || t.head == x);
      ArcsMet(arcs, t);
      if t.tail == x {
        assert HasArc(arcs, x, t.head);
      } else {
        assert HasArc(arcs, t.tail, x);
      }
    }
    if exists y :: HasArc(arcs, x, y) || HasArc(arcs, y, x) {
      var y :| HasArc(arcs, x, y) || HasArc(arcs, y, x);
      if HasArc(arcs, x, y) {
        ArcsMet(arcs, Triple(x, y, Cap(arcs, x, y)));
      } else {
        ArcsMet(arcs, Triple(y, x, Cap(arcs, y, x)));
      }
    }
  }

  /** The view has a cell for both directions of every arc, and no other. */
  lemma ResidualCells(arcs: Arcs, x: Id, y: Id)
    requires WfArcs(arcs)
    ensures HasArc(ResidualOf(arcs), x, y) <==> HasArc(arcs, x, y) || HasArc(arcs, y, x)
  {
    var ts := ArcTriples(arcs, |arcs.keys|);
    InsertEdge(ts, x, y);
    if HasArc(ResidualOf(arcs), x, y) {
      var t :| t in ts && ((t.tail == x && t.head == y) || (t.tail == y && t.head == x));
      ArcsMet(arcs, t);
    }
    if HasArc(arcs, x, y) {
      ArcsMet(arcs, Triple(x, y, Cap(arcs, x, y)));
    } else if HasArc(arcs, y, x) {
      ArcsMet(arcs, Triple(y, x, Cap(arcs, y, x)));
    }
  }

  /**
   * Every cell holds `+c` for an arc x -> y (never a self-loop) or `-c` for an
   * arc y -> x.
   */
  lemma ResidualValues(arcs: Arcs, x: Id, y: Id)
    requires WfArcs(arcs)
    requires HasArc(ResidualOf(arcs), x, y)
    ensures || (x != y && HasArc(arcs, x, y) && Cap(ResidualOf(arcs), x, y) == Cap(arcs, x, y))
            || (HasArc(arcs, y, x) && Cap(ResidualOf(arcs), x, y) == -Cap(arcs, y, x))
  {
    var ts := ArcTriples(arcs, |arcs.keys|);
    InsertValue(ts, x, y);
    ExplainedByArcs(arcs, x, y, Cap(ResidualOf(arcs), x, y));
  }

  lemma ExplainedByArcs(arcs: Arcs, x: Id, y: Id, c: int)
    requires WfArcs(arcs) && Explained(ArcTriples(arcs, |arcs.keys|), x, y, c)
    ensures || (x != y && HasArc(arcs, x, y) && c == Cap(arcs, x, y))
            || (HasArc(arcs, y, x) && c == -Cap(arcs, y, x))
  {
    if x != y && Triple(x, y, c) in ArcTriples(arcs, |arcs.keys|) {
      ArcsMet(arcs, Triple(x, y, c));
    } else {
      ArcsMet(arcs, Triple(y, x, -c));
    }
  }

  /**
   * An arc u -> v of capacity c without an arc v -> u: the view holds `c` at
   * [u][v] and `-c` at [v][u], and has both ends as keys.
   */
  lemma ResidualOneWay(arcs: Arcs, u: Id, v: Id)
    requires WfArcs(arcs)
    requires HasArc(arcs, u, v) && !HasArc(arcs, v, u)
    ensures u in ResidualOf(arcs).vals && v in ResidualOf(arcs).vals
    ensures HasArc(ResidualOf(arcs), u, v) && Cap(ResidualOf(arcs), u, v) == Cap(arcs, u, v)
    ensures HasArc(ResidualOf(arcs), v, u) && Cap(ResidualOf(arcs), v, u) == -Cap(arcs, u, v)
  {
    var ts := ArcTriples(arcs, |arcs.keys|);
    var c := Cap(arcs, u, v);
    ArcsMet(arcs, Triple(u, v, c));
    forall t | t in ts && t.tail == u && t.head == v ensures t.cap == c {
      ArcsMet(arcs, t);
    }
    forall t | t in ts ensures !(t.tail == v && t.head == u) {
      ArcsMet(arcs, t);
    }
    InsertOneWay(ts, u, v, c);
  }

  /**
   * With positive capacities, a non-negative cell is a forward cell: it
   * belongs to an arc x -> y (not a self-loop) and holds its capacity.
   */
  lemma ForwardCell(arcs: Arcs, x: Id, y: Id)
    requires WfArcs(arcs)
    requires PositiveCapacities(arcs)
    requires HasArc(ResidualOf(arcs), x, y) && Cap(ResidualOf(arcs), x, y) >= 0
    ensures x != y && HasArc(arcs, x, y) && Cap(ResidualOf(arcs), x, y) == Cap(arcs, x, y)
  {
    ResidualValues(arcs, x, y);
  }
}
