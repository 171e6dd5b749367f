/**
 * `findPath` (src/maxflow/FordFulkerson.tsx): a first-success depth-first
 * search over the residual view. `visited` is the path walked so far (not a
 * global visited set); the search carries the running bottleneck.
 */
module PathSearch {
  import opened Dicts
  import opened Flows

  /** The bottleneck carried by the search: `Infinity` until the first step. */
  datatype Amount = Unbounded | Finite(n: int)

  /** `Math.min(increase, arcIncrease)`; the second operand is always finite. */
  function Min(a: Amount, n: int): (r: int)
    ensures r <= n && (a.Finite? ==> r <= a.n)
    ensures r == n || (a.Finite? && r == a.n)
  {
    if a.Finite? && a.n < n then a.n else n
  }

  /** A successful search: the nodes walked, and the bottleneck along them. */
  datatype Found = Found(visited: seq<Id>, increase: Amount)

  /** `arcsWithBackward[node] ?? {}` */
  function Neighbours(R: Arcs, node: Id): (r: Dict<int>)
  {
    GetOr(R, node, Empty())
  }

  /** The signed entry of the residual view at [x][y] (0 when absent). */
  function Entry(R: Arcs, x: Id, y: Id): (r: int)
  {
    GetOr(Neighbours(R, x), y, 0)
  }

  /**
   * The usable residual of x -> y: the headroom `capacity - flow[x][y]` of a
   * forward entry, or the flow recorded at [x][y] itself for a reverse
   * sentinel.
   */
  function Usable(R: Arcs, flow: Flow, x: Id, y: Id): (r: int)
  {
    var c := Entry(R, x, y);
    if c >= 0 then c - FlowAt(flow, x, y) else FlowAt(flow, x, y)
  }

  ghost function Elems(s: seq<Id>): (r: set<Id>)
  {
    set x | x in s
  }

  /** `w` is `visited`, then `node`, then more nodes, ending at `sink`. */
  ghost predicate Extends(w: seq<Id>, visited: seq<Id>, node: Id, sink: Id)
  {
    |w| > |visited| && w[..|visited|] == visited && w[|visited|] == node && w[|w| - 1] == sink
  }

  /**
   * `findPath(node, visited, increase)`: the path found is the visited
   * prefix, `node`, and a continuation that ends at the sink.
   */
  function FindPath(R: Arcs, flow: Flow, sink: Id, node: Id, visited: seq<Id>, increase: Amount): (r: Option<Found>)
    ensures r.Some? ==> Extends(r.value.visited, visited, node, sink)
    decreases |R.vals.Keys - Elems(visited)|, if node in visited then 2 else 1, 1, 0
  {
    if node == sink then Some(Found(visited + [node], increase))
    else Scan(R, flow, sink, node, visited, increase, 0)
  }

  /** The `for` loop of `findPath` over the neighbours of `node`, from the `i`-th on. */
  function Scan(R: Arcs, flow: Flow, sink: Id, node: Id, visited: seq<Id>, increase: Amount, i: nat): (r: Option<Found>)
    requires i <= |Neighbours(R, node).keys|
    ensures r.Some? ==> Extends(r.value.visited, visited, node, sink)
    decreases |R.vals.Keys - Elems(visited)|, if node in visited then 2 else 1, 0, |Neighbours(R, node).keys| - i
  {
    var row := Neighbours(R, node);
    if i == |row.keys| then None
    else
      var dest := row.keys[i];
      if dest in visited then Scan(R, flow, sink, node, visited, increase, i + 1)
      else
        var arcIncrease := Usable(R, flow, node, dest);
        if arcIncrease > 0 then
          VisitMeasure(R, visited, node);
          var path := FindPath(R, flow, sink, dest, visited + [node], Finite(Min(increase, arcIncrease)));
          if path.Some? then
            ExtendsCons(path.value.visited, visited, node, dest, sink);
            path
          else Scan(R, flow, sink, node, visited, increase, i + 1)
        else Scan(R, flow, sink, node, visited, increase, i + 1)
  }

  /** Visiting a node with neighbours shrinks the unvisited part of the view, or keeps it if it was visited already. */
  lemma VisitMeasure(R: Arcs, visited: seq<Id>, node: Id)
    requires |Neighbours(R, node).keys| > 0
    ensures node !in visited ==> |R.vals.Keys - Elems(visited + [node])| < |R.vals.Keys - Elems(visited)|
    ensures node in visited ==> R.vals.Keys - Elems(visited + [node]) == R.vals.Keys - Elems(visited)
  {
    assert Elems(visited + [node]) == Elems(visited) + {node};
    if node !in visited {
      assert node in R.vals.Keys - Elems(visited);
      assert R.vals.Keys - Elems(visited + [node]) == (R.vals.Keys - Elems(visited)) - {node};
    }
  }

  lemma ExtendsCons(w: seq<Id>, visited: seq<Id>, node: Id, dest: Id, sink: Id)
    requires Extends(w, visited + [node], dest, sink)
    ensures Extends(w, visited, node, sink)
  {
    assert w[..|visited|] == (w[..|visited| + 1])[..|visited|];
  }

  /**
   * The search may go from `x` to `y` when `prefix` was visited before `x`:
   * `y` is a neighbour of `x`, not in `prefix`, with positive usable residual.
   */
  ghost predicate Step(R: Arcs, flow: Flow, prefix: seq<Id>, x: Id, y: Id)
  {
    y in Neighbours(R, x).keys && y !in prefix && Usable(R, flow, x, y) > 0
  }

  /** `p` is a walk the search may take after `visited`, step by step. */
  ghost predicate IsWalk(R: Arcs, flow: Flow, visited: seq<Id>, p: seq<Id>)
  {
    |p| >= 1 && forall j | 0 <= j < |p| - 1 :: Step(R, flow, visited + p[..j], p[j], p[j + 1])
  }

  /** The bottleneck the search carries along `p`, starting from `start`. */
  function Bottleneck(R: Arcs, flow: Flow, p: seq<Id>, start: Amount): (r: Amount)
    decreases |p|
  {
    if |p| < 2 then start
    else Bottleneck(R, flow, p[1..], Finite(Min(start, Usable(R, flow, p[0], p[1]))))
  }

  lemma WalkCons(R: Arcs, flow: Flow, visited: seq<Id>, node: Id, q: seq<Id>)
    requires IsWalk(R, flow, visited + [node], q) && Step(R, flow, visited, node, q[0])
    ensures IsWalk(R, flow, visited, [node] + q)
  {
    var p := [node] + q;
    forall j | 0 <= j < |p| - 1
      ensures Step(R, flow, visited + p[..j], p[j], p[j + 1])
    {
      if j > 0 {
        assert visited + p[..j] == visited + [node] + q[..j - 1];
      } else {
        assert visited + p[..j] == visited;
      }
    }
  }

  lemma WalkTail(R: Arcs, flow: Flow, visited: seq<Id>, p: seq<Id>)
    requires IsWalk(R, flow, visited, p) && |p| >= 2
    ensures Step(R, flow, visited, p[0], p[1])
    ensures IsWalk(R, flow, visited + [p[0]], p[1..])
  {
    assert visited + p[..0] == visited;
    var q := p[1..];
    forall j | 0 <= j < |q| - 1
      ensures Step(R, flow, visited + [p[0]] + q[..j], q[j], q[j + 1])
    {
      assert visited + [p[0]] + q[..j] == visited + p[..j + 1];
    }
  }

  /**
   * What a path found from `node` is: the visited prefix followed by a walk
   * the search may take from `node`, ending at the first visit of the sink,
   * with `increase` the bottleneck along that walk.
   */
  ghost predicate Sound(R: Arcs, flow: Flow, sink: Id, node: Id, visited: seq<Id>, increase: Amount, f: Found)
  {
    |f.visited| > |visited| &&
    var p := f.visited[|visited|..];
    && p[0] == node && p[|p| - 1] == sink && sink !in p[..|p| - 1]
    && IsWalk(R, flow, visited, p)
    && f.increase == Bottleneck(R, flow, p, increase)
  }

  /**
   * Soundness: every path the search returns from `node` is `Sound`.
   */
  lemma {:induction false} FindPathSound(R: Arcs, flow: Flow, sink: Id, node: Id, visited: seq<Id>, increase: Amount)
    requires FindPath(R, flow, sink, node, visited, increase).Some?
    ensures Sound(R, flow, sink, node, visited, increase, FindPath(R, flow, sink, node, visited, increase).value)
    decreases |R.vals.Keys - Elems(visited)|, if node in visited then 2 else 1, 1, 0
  {
    if node == sink {
      assert (visited + [node])[|visited|..] == [node];
    } else {
      ScanSound(R, flow, sink, node, visited, increase, 0);
    }
  }

  lemma {:induction false} ScanSound(R: Arcs, flow: Flow, sink: Id, node: Id, visited: seq<Id>, increase: Amount, i: nat)
    requires node != sink && i <= |Neighbours(R, node).keys|
    requires Scan(R, flow, sink, node, visited, increase, i).Some?
    ensures Sound(R, flow, sink, node, visited, increase, Scan(R, flow, sink, node, visited, increase, i).value)
    decreases |R.vals.Keys - Elems(visited)|, if node in visited then 2 else 1, 0, |Neighbours(R, node).keys| - i
  {
    var row := Neighbours(R, node);
    var dest := row.keys[i];
    if dest in visited {
      ScanSound(R, flow, sink, node, visited, increase, i + 1);
    } else {
      var u := Usable(R, flow, node, dest);
      if u > 0 {
        VisitMeasure(R, visited, node);
        var inc := Finite(Min(increase, u));
        var path := FindPath(R, flow, sink, dest, visited + [node], inc);
        if path.Some? {
          FindPathSound(R, flow, sink, dest, visited + [node], inc);
          Glue(R, flow, sink, node, dest, visited, increase, path.value);
        } else {
          ScanSound(R, flow, sink, node, visited, increase, i + 1);
        }
      } else {
        ScanSound(R, flow, sink, node, visited, increase, i + 1);
      }
    }
  }

  /** One step of the search in front of a path found from the next node. */
  lemma Glue(R: Arcs, flow: Flow, sink: Id, node: Id, dest: Id, visited: seq<Id>, increase: Amount, f: Found)
    requires node != sink && Step(R, flow, visited, node, dest)
    requires Sound(R, flow, sink, dest, visited + [node], Finite(Min(increase, Usable(R, flow, node, dest))), f)
    requires f.visited[|visited|] == node
    ensures Sound(R, flow, sink, node, visited, increase, f)
  {
    var p := f.visited[|visited|..];
    var q := f.visited[|visited| + 1..];
    assert p == [node] + q;
    assert p[1..] == q;
    assert p[..|p| - 1] == [node] + q[..|q| - 1];
    WalkCons(R, flow, visited, node, q);
  }

  /**
   * Completeness: from the first node of any walk the search may take that
   * ends at the sink, the search finds some path.
   */
  lemma {:induction false} FindPathComplete(R: Arcs, flow: Flow, sink: Id, visited: seq<Id>, p: seq<Id>, increase: Amount)
    requires IsWalk(R, flow, visited, p) && p[|p| - 1] == sink
    ensures FindPath(R, flow, sink, p[0], visited, increase).Some?
    decreases |p|, 1, 0
  {
    if p[0] != sink {
      WalkTail(R, flow, visited, p);
      var keys := Neighbours(R, p[0]).keys;
      var k :| 0 <= k < |keys| && keys[k] == p[1];
      ScanComplete(R, flow, sink, visited, p, increase, 0, k);
    }
  }

  lemma {:induction false} ScanComplete(R: Arcs, flow: Flow, sink: Id, visited: seq<Id>, p: seq<Id>, increase: Amount, i: nat, k: nat)
    requires |p| >= 2 && p[|p| - 1] == sink
    requires Step(R, flow, visited, p[0], p[1]) && IsWalk(R, flow, visited + [p[0]], p[1..])
    requires i <= k < |Neighbours(R, p[0]).keys| && Neighbours(R, p[0]).keys[k] == p[1]
    ensures Scan(R, flow, sink, p[0], visited, increase, i).Some?
    decreases |p|, 0, k - i
  {
    var node := p[0];
    var dest := Neighbours(R, node).keys[i];
    if i == k {
      FindPathComplete(R, flow, sink, visited + [node], p[1..], Finite(Min(increase, Usable(R, flow, node, dest))));
    } else if dest !in visited && Usable(R, flow, node, dest) > 0
      && FindPath(R, flow, sink, dest, visited + [node], Finite(Min(increase, Usable(R, flow, node, dest)))).Some? {
    } else {
      ScanComplete(R, flow, sink, visited, p, increase, i + 1, k);
    }
  }

  /** Some walk the search may take after `visited` leads from `node` to the sink. */
  ghost predicate Reaches(R: Arcs, flow: Flow, sink: Id, node: Id, visited: seq<Id>)
  {
    exists p :: IsWalk(R, flow, visited, p) && p[0] == node && p[|p| - 1] == sink
  }

  /** The search succeeds exactly when some walk it may take leads to the sink. */
  lemma FindPathIff(R: Arcs, flow: Flow, sink: Id, node: Id, visited: seq<Id>, increase: Amount)
    ensures FindPath(R, flow, sink, node, visited, increase).Some? <==> Reaches(R, flow, sink, node, visited)
  {
    if FindPath(R, flow, sink, node, visited, increase).Some? {
      FindPathSound(R, flow, sink, node, visited, increase);
      var f := FindPath(R, flow, sink, node, visited, increase).value;
      SoundReaches(R, flow, sink, node, visited, increase, f);
    } else if Reaches(R, flow, sink, node, visited) {
      var p :| IsWalk(R, flow, visited, p) && p[0] == node && p[|p| - 1] == sink;
      FindPathComplete(R, flow, sink, visited, p, increase);
    }
  }

  lemma SoundReaches(R: Arcs, flow: Flow, sink: Id, node: Id, visited: seq<Id>, increase: Amount, f: Found)
    requires Sound(R, flow, sink, node, visited, increase, f)
    ensures Reaches(R, flow, sink, node, visited)
  {
    var p := f.visited[|visited|..];
    assert IsWalk(R, flow, visited, p) && p[0] == node && p[|p| - 1] == sink;
  }

  /**
   * Along a walk of two or more nodes the bottleneck is finite, at most the
   * usable residual of every step (and the start), and attained by one of
   * them; from `Infinity`, or any positive start, it is positive.
   */
  lemma {:induction false} BottleneckBounds(R: Arcs, flow: Flow, visited: seq<Id>, p: seq<Id>, start: Amount)
    requires IsWalk(R, flow, visited, p) && |p| >= 2
    ensures Bottleneck(R, flow, p, start).Finite?
    ensures forall j | 0 <= j < |p| - 1 :: Bottleneck(R, flow, p, start).n <= Usable(R, flow, p[j], p[j + 1])
    ensures start.Finite? ==> Bottleneck(R, flow, p, start).n <= start.n
    ensures (start.Finite? && Bottleneck(R, flow, p, start).n == start.n)
         || exists j | 0 <= j < |p| - 1 :: Bottleneck(R, flow, p, start).n == Usable(R, flow, p[j], p[j + 1])
    ensures (start.Unbounded? || start.n > 0) ==> Bottleneck(R, flow, p, start).n > 0
    decreases |p|
  {
    WalkTail(R, flow, visited, p);
    var next := Finite(Min(start, Usable(R, flow, p[0], p[1])));
    if |p| > 2 {
      BottleneckBounds(R, flow, visited + [p[0]], p[1..], next);
      BottleneckShift(R, flow, p, start);
    }
  }

  lemma BottleneckShift(R: Arcs, flow: Flow, p: seq<Id>, start: Amount)
    requires |p| > 2
    requires var b := Bottleneck(R, flow, p[1..], Finite(Min(start, Usable(R, flow, p[0], p[1]))));
      && b.Finite?
      && (forall j | 0 <= j < |p[1..]| - 1 :: b.n <= Usable(R, flow, p[1..][j], p[1..][j + 1]))
      && b.n <= Min(start, Usable(R, flow, p[0], p[1]))
      && (b.n == Min(start, Usable(R, flow, p[0], p[1]))
         || exists j | 0 <= j < |p[1..]| - 1 :: b.n == Usable(R, flow, p[1..][j], p[1..][j + 1]))
    ensures var b := Bottleneck(R, flow, p, start);
      && (forall j | 0 <= j < |p| - 1 :: b.n <= Usable(R, flow, p[j], p[j + 1]))
      && ((start.Finite? && b.n == start.n) || exists j | 0 <= j < |p| - 1 :: b.n == Usable(R, flow, p[j], p[j + 1]))
  {
    var b := Bottleneck(R, flow, p, start);
    forall j | 0 <= j < |p| - 1 ensures b.n <= Usable(R, flow, p[j], p[j + 1]) {
      if j > 0 {
        assert p[1..][j - 1] == p[j] && p[1..][j] == p[j + 1];
      }
    }
    if !(start.Finite? && b.n == start.n) && b.n != Usable(R, flow, p[0], p[1]) {
      var j :| 0 <= j < |p[1..]| - 1 && b.n == Usable(R, flow, p[1..][j], p[1..][j + 1]);
      assert p[1..][j] == p[j + 1] && p[1..][j + 1] == p[j + 2];
    }
  }

  /**
   * A walk from the empty prefix never returns to a node it left; with no
   * step that stays in place it has pairwise distinct nodes.
   */
  lemma WalkDistinct(R: Arcs, flow: Flow, p: seq<Id>)
    requires IsWalk(R, flow, [], p)
    requires forall j | 0 <= j < |p| - 1 :: p[j] != p[j + 1]
    ensures Distinct(p)
  {
    forall i, k | 0 <= i < k < |p| ensures p[i] != p[k] {
      assert Step(R, flow, [] + p[..k - 1], p[k - 1], p[k]);
      if i < k - 1 {
        assert p[i] in p[..k - 1];
      }
    }
  }

  /**
   * A path found from `source` with an empty prefix starts at the source and
   * ends at the sink; when no node has a usable entry to itself, its nodes
   * are pairwise distinct.
   */
  lemma FoundPathShape(R: Arcs, flow: Flow, sink: Id, source: Id)
    requires FindPath(R, flow, sink, source, [], Unbounded).Some?
    ensures var w := FindPath(R, flow, sink, source, [], Unbounded).value.visited;
      |w| >= 1 && w[0] == source && w[|w| - 1] == sink
    ensures (forall x :: Usable(R, flow, x, x) <= 0) ==> Distinct(FindPath(R, flow, sink, source, [], Unbounded).value.visited)
  {
    FindPathSound(R, flow, sink, source, [], Unbounded);
    var w := FindPath(R, flow, sink, source, [], Unbounded).value.visited;
    var none: seq<Id> := [];
    assert w[|none|..] == w;
    if forall x :: Usable(R, flow, x, x) <= 0 {
      forall j | 0 <= j < |w| - 1 ensures w[j] != w[j + 1] {
        assert Step(R, flow, none + w[..j], w[j], w[j + 1]);
      }
      WalkDistinct(R, flow, w);
    }
  }
}
