/**
 * The flow-network editor's state machine (src/components/FlowNetworkEditor/
 * FlowNetworkEditor.tsx): the `reducer` over the editor state, and the
 * click handlers that decide which action a user event dispatches.
 */
module Editor {
  import opened Dicts
  import opened Flows
  import opened FordFulkerson

  /** A screen position, in the canvas's relative coordinates. */
  datatype Point = Point(x: real, y: real)

  /**
   * A stored node. `Anonymous` is the record `{...undefined, position}` that
   * moving an id with no node leaves behind: it has no `id` field.
   */
  datatype NodeData = Node(id: Id, position: Point) | Anonymous(position: Point)

  datatype Action =
    | AddNode(id: Id, position: Point)
    | RemoveNode(id: Id)
    | MoveNode(id: Id, position: Point)
    | AddArc(from: Id, to: Id, capacity: int)
    | SetSource(mark: Option<Id>)
    | SetSink(mark: Option<Id>)
    | SelectNode(id: Id)

  /** `flow` is the record the editor starts with; no action writes it. */
  datatype EditorState = EditorState(
    nodes: Dict<NodeData>,
    arcs: Arcs,
    flow: Arcs,
    source: Option<Id>,
    sink: Option<Id>,
    selectedNode: Option<Id>)

  /** The state `useReducer` starts from. */
  function Initial(): (r: EditorState)
  {
    EditorState(Empty(), Empty(), Empty(), None, None, None)
  }

  /** `{...nodes[id], position}`: the node moved, or a record holding only the position. */
  function Moved(nodes: Dict<NodeData>, id: Id, position: Point): (r: NodeData)
  {
    if id in nodes.vals then nodes.vals[id].(position := position) else Anonymous(position)
  }

  /** Every row with its entry for `id` deleted; the rows keep their order. */
  function StripIncoming(arcs: Arcs, id: Id): (r: Arcs)
  {
    Dict(arcs.keys, map u | u in arcs.vals :: Remove(arcs.vals[u], id))
  }

  /** `id` is no longer an end or the selection if it was one; otherwise nothing changes. */
  function Unmark(mark: Option<Id>, id: Id): (r: Option<Id>)
  {
    if Some(id) != mark then mark else None
  }

  /**
   * `reducer(state, action)`, with the sink rule of REMOVE_NODE corrected
   * (see `RemoveNodeAsWritten`). No action changes the flow record.
   */
  function Next(s: EditorState, a: Action): (r: EditorState)
    ensures r.flow == s.flow
  {
    match a
    case AddNode(id, position) =>
      s.(nodes := Put(s.nodes, id, Node(id, position)))
    case RemoveNode(id) =>
      s.(nodes := Remove(s.nodes, id),
         arcs := StripIncoming(Remove(s.arcs, id), id),
         selectedNode := Unmark(s.selectedNode, id),
         source := Unmark(s.source, id),
         sink := Unmark(s.sink, id))
    case AddArc(from, to, capacity) =>
      s.(selectedNode := None,
         arcs := Put(s.arcs, from, Put(GetOr(s.arcs, from, Empty()), to, capacity)))
    case MoveNode(id, position) =>
      s.(nodes := Put(s.nodes, id, Moved(s.nodes, id, position)))
    case SetSource(mark) =>
      s.(selectedNode := None, source := mark)
    case SetSink(mark) =>
      s.(selectedNode := None, sink := mark)
    case SelectNode(id) =>
      s.(selectedNode := if Some(id) != s.selectedNode then Some(id) else None)
  }

  /**
   * REMOVE_NODE as written: the sink becomes undefined when it is the removed
   * node, and otherwise takes the value of the source.
   */
  function RemoveNodeAsWritten(s: EditorState, id: Id): (r: EditorState)
    ensures s.source != Some(id) && s.sink != Some(id) ==> r.sink == r.source
    ensures s.source == Some(id) && s.sink != Some(id) ==> r.sink == Some(id) && r.source == None
    ensures s.sink == Some(id) ==> r.sink == None
  {
    Next(s, RemoveNode(id)).(sink := if Some(id) != s.sink then s.source else None)
  }

  /**
   * The reducer as it runs: every case builds a new record, except that
   * REMOVE_NODE deletes the incoming entries row by row.
   */
  method Reduce(s: EditorState, a: Action) returns (r: EditorState)
    requires Wf(s.arcs)
    ensures r == Next(s, a)
  {
    if a.RemoveNode? {
      var id := a.id;
      var arcs := DeleteIncoming(Remove(s.arcs, id), id);
      r := s.(nodes := Remove(s.nodes, id), arcs := arcs,
              selectedNode := Unmark(s.selectedNode, id),
              source := Unmark(s.source, id),
              sink := Unmark(s.sink, id));
    } else {
      r := Next(s, a);
    }
  }

  /** The rows of `arcs` whose keys come before position `i` have lost their entry for `id`. */
  ghost function StripPrefix(arcs: Arcs, id: Id, i: nat): (r: Arcs)
    requires i <= |arcs.keys|
  {
    Dict(arcs.keys, map u | u in arcs.vals :: if u in arcs.keys[..i] then Remove(arcs.vals[u], id) else arcs.vals[u])
  }

  /** `for (const tos of Object.values(arcs)) delete tos[id]` */
  method DeleteIncoming(arcs0: Arcs, id: Id) returns (arcs: Arcs)
    requires Wf(arcs0)
    ensures arcs == StripIncoming(arcs0, id)
  {
    arcs := arcs0;
    var i := 0;
    assert arcs0.vals == map u | u in arcs0.vals :: arcs0.vals[u];
    while i < |arcs0.keys|
      invariant i <= |arcs0.keys|
      invariant arcs == StripPrefix(arcs0, id, i)
    {
      arcs := DeleteStep(arcs0, arcs, id, i);
      i := i + 1;
    }
    assert arcs0.keys[..|arcs0.keys|] == arcs0.keys;
  }

  method DeleteStep(arcs0: Arcs, arcs1: Arcs, id: Id, i: nat) returns (arcs: Arcs)
    requires Wf(arcs0) && i < |arcs0.keys|
    requires arcs1 == StripPrefix(arcs0, id, i)
    ensures arcs == StripPrefix(arcs0, id, i + 1)
  {
    var k := arcs0.keys[i];
    assert k in arcs1.vals;
    arcs := Put(arcs1, k, Remove(arcs1.vals[k], id));
    assert k !in arcs0.keys[..i];
    assert arcs0.keys[..i + 1] == arcs0.keys[..i] + [k];
  }

  /* ---------------- What each action does ---------------- */

  /** ADD_NODE stores the payload under its id and changes nothing else. */
  lemma AddNodeEffect(s: EditorState, id: Id, position: Point)
    ensures var r := Next(s, AddNode(id, position));
      && r.nodes.vals == s.nodes.vals[id := Node(id, position)]
      && r.nodes.keys == (if id in s.nodes.vals then s.nodes.keys else s.nodes.keys + [id])
      && r.arcs == s.arcs && r.source == s.source && r.sink == s.sink && r.selectedNode == s.selectedNode
  {
  }

  /**
   * REMOVE_NODE drops the node, its row of arcs and every arc into it; all
   * other arcs keep their capacity. The selection, the source and the sink
   * are cleared exactly when they are the removed node.
   */
  lemma RemoveNodeEffect(s: EditorState, id: Id, x: Id, y: Id)
    ensures var r := Next(s, RemoveNode(id));
      && r.nodes.vals == s.nodes.vals - {id}
      && (x in r.arcs.vals <==> x in s.arcs.vals && x != id)
      && (HasArc(r.arcs, x, y) <==> HasArc(s.arcs, x, y) && x != id && y != id)
      && (HasArc(r.arcs, x, y) ==> Cap(r.arcs, x, y) == Cap(s.arcs, x, y))
      && r.selectedNode == (if s.selectedNode == Some(id) then None else s.selectedNode)
      && r.source == (if s.source == Some(id) then None else s.source)
      && r.sink == (if s.sink == Some(id) then None else s.sink)
  {
  }

  /**
   * ADD_ARC writes `capacity` at [from][to], keeps every other arc (those
   * leaving `from` included), and clears the selection.
   */
  lemma AddArcEffect(s: EditorState, from: Id, to: Id, capacity: int, x: Id, y: Id)
    requires Wf(s.arcs)
    ensures var r := Next(s, AddArc(from, to, capacity));
      && (HasArc(r.arcs, x, y) <==> HasArc(s.arcs, x, y) || (x == from && y == to))
      && (HasArc(r.arcs, x, y) ==> Cap(r.arcs, x, y) == if x == from && y == to then capacity else Cap(s.arcs, x, y))
      && r.selectedNode == None
      && r.nodes == s.nodes && r.source == s.source && r.sink == s.sink
  {
  }

  /** MOVE_NODE changes the position of that one node and nothing else. */
  lemma MoveNodeEffect(s: EditorState, id: Id, position: Point, other: Id)
    requires id in s.nodes.vals && other != id
    ensures var r := Next(s, MoveNode(id, position));
      && r.nodes.keys == s.nodes.keys && r.nodes.vals.Keys == s.nodes.vals.Keys
      && r.nodes.vals[id] == s.nodes.vals[id].(position := position)
      && (other in s.nodes.vals ==> r.nodes.vals[other] == s.nodes.vals[other])
      && r.arcs == s.arcs && r.source == s.source && r.sink == s.sink && r.selectedNode == s.selectedNode
  {
  }

  /** SET_SOURCE and SET_SINK set their end to the payload and clear the selection. */
  lemma SetEndsEffect(s: EditorState, mark: Option<Id>)
    ensures Next(s, SetSource(mark)) == s.(source := mark, selectedNode := None)
    ensures Next(s, SetSink(mark)) == s.(sink := mark, selectedNode := None)
  {
  }

  /**
   * SELECT_NODE toggles: the selected id becomes unselected, any other id
   * becomes the selection; selecting the same id twice from an empty
   * selection returns to it.
   */
  lemma SelectToggle(s: EditorState, id: Id)
    ensures Next(s, SelectNode(id)).selectedNode == Some(id) <==> s.selectedNode != Some(id)
    ensures Next(s, SelectNode(id)).selectedNode.None? <==> s.selectedNode == Some(id)
    ensures s.selectedNode == None ==> Next(Next(s, SelectNode(id)), SelectNode(id)) == s
  {
  }

  /* ---------------- Handlers ---------------- */

  /** A user event, with the ids, times and random draws it carries as inputs. */
  datatype Event =
    | CanvasClick(stamp: Id, position: Point)   // the new id is `'' + Date.now()`
    | Drag(id: Id, position: Point)
    | NodeClick(id: Id, roll: nat)              // the capacity is `roll + 2`, `roll` being `Math.round(8 * Math.random())`
    | DeleteClick
    | SourceMarkClick
    | SinkMarkClick

  /** `!!v` for an optional id: present and not the empty string. */
  predicate Truthy(v: Option<Id>)
  {
    v.Some? && v.value != ""
  }

  /** `!!arcs[x]?.[y]`: an arc with a non-zero capacity. */
  predicate ArcTruthy(arcs: Arcs, x: Id, y: Id)
  {
    HasArc(arcs, x, y) && Cap(arcs, x, y) != 0
  }

  /**
   * The action a user event dispatches in state `s`, if any. A click on a
   * node selects or unselects it when nothing is selected or it is the
   * selection; otherwise it adds an arc from the selection unless the two
   * nodes are joined already, in either direction. A mark button is enabled
   * only for a selection that is not the other end, and toggles the mark.
   */
  function Dispatch(s: EditorState, e: Event): (r: Option<Action>)
  {
    match e
    case CanvasClick(stamp, position) => Some(AddNode(stamp, position))
    case Drag(id, position) => Some(MoveNode(id, position))
    case NodeClick(id, roll) =>
      if !Truthy(s.selectedNode) || Some(id) == s.selectedNode then Some(SelectNode(id))
      else if !ArcTruthy(s.arcs, s.selectedNode.value, id) && !ArcTruthy(s.arcs, id, s.selectedNode.value) then
        Some(AddArc(s.selectedNode.value, id, roll + 2))
      else None
    case DeleteClick =>
      if Truthy(s.selectedNode) then Some(RemoveNode(s.selectedNode.value)) else None
    case SourceMarkClick =>
      if Truthy(s.selectedNode) && s.selectedNode != s.sink then
        Some(SetSource(if s.selectedNode != s.source then s.selectedNode else None))
      else None
    case SinkMarkClick =>
      if Truthy(s.selectedNode) && s.selectedNode != s.source then
        Some(SetSink(if s.selectedNode != s.sink then s.selectedNode else None))
      else None
  }

  /** The state after one user event. */
  function Step(s: EditorState, e: Event): (r: EditorState)
  {
    match Dispatch(s, e)
    case None => s
    case Some(a) => Next(s, a)
  }

  /** The state after a sequence of user events. */
  function Replay(s: EditorState, events: seq<Event>): (r: EditorState)
    decreases |events|
  {
    if events == [] then s else Replay(Step(s, events[0]), events[1..])
  }

  /** The source and the sink are never the same node. */
  ghost predicate EndsApart(s: EditorState)
  {
    s.source.Some? ==> s.source != s.sink
  }

  /**
   * What the editor keeps true: well-formed records, positive capacities,
   * no pair of nodes joined both ways, and distinct ends.
   */
  ghost predicate Good(s: EditorState)
  {
    Wf(s.nodes) && WfArcs(s.arcs) && PositiveCapacities(s.arcs) && NoOpposite(s.arcs) && EndsApart(s)
  }

  /**
   * A click on a node dispatches ADD_ARC only between two different nodes
   * not yet joined in either direction.
   */
  lemma NodeClickGuard(s: EditorState, id: Id, roll: nat)
    requires PositiveCapacities(s.arcs)
    requires Dispatch(s, NodeClick(id, roll)).Some? && Dispatch(s, NodeClick(id, roll)).value.AddArc?
    ensures var a := Dispatch(s, NodeClick(id, roll)).value;
      && a.from != a.to && a.to == id && Some(a.from) == s.selectedNode
      && !HasArc(s.arcs, a.from, a.to) && !HasArc(s.arcs, a.to, a.from) && a.capacity >= 2
  {
  }

  /** A mark button never makes the source and the sink the same node. */
  lemma MarksKeepEndsApart(s: EditorState)
    requires EndsApart(s)
    ensures EndsApart(Step(s, SourceMarkClick)) && EndsApart(Step(s, SinkMarkClick))
  {
  }

  lemma StepKeepsNodes(s: EditorState, e: Event)
    requires Wf(s.nodes)
    ensures Wf(Step(s, e).nodes)
  {
  }

  lemma AddArcKeepsArcs(s: EditorState, from: Id, to: Id, capacity: int)
    requires WfArcs(s.arcs) && PositiveCapacities(s.arcs) && NoOpposite(s.arcs)
    requires from != to && !HasArc(s.arcs, to, from) && capacity > 0
    ensures var r := Next(s, AddArc(from, to, capacity));
      WfArcs(r.arcs) && PositiveCapacities(r.arcs) && NoOpposite(r.arcs)
  {
    var r := Next(s, AddArc(from, to, capacity));
    forall x, y ensures (HasArc(r.arcs, x, y) <==> HasArc(s.arcs, x, y) || (x == from && y == to))
      && (HasArc(r.arcs, x, y) ==> Cap(r.arcs, x, y) == if x == from && y == to then capacity else Cap(s.arcs, x, y))
    {
      AddArcEffect(s, from, to, capacity, x, y);
    }
  }

  lemma RemoveNodeKeepsArcs(s: EditorState, id: Id)
    requires WfArcs(s.arcs) && PositiveCapacities(s.arcs) && NoOpposite(s.arcs)
    ensures var r := Next(s, RemoveNode(id));
      WfArcs(r.arcs) && PositiveCapacities(r.arcs) && NoOpposite(r.arcs)
  {
    var r := Next(s, RemoveNode(id));
    forall x, y ensures (HasArc(r.arcs, x, y) <==> HasArc(s.arcs, x, y) && x != id && y != id)
      && (HasArc(r.arcs, x, y) ==> Cap(r.arcs, x, y) == Cap(s.arcs, x, y))
    {
      RemoveNodeEffect(s, id, x, y);
    }
  }

  /** Every user event keeps the editor's invariant. */
  lemma StepKeepsGood(s: EditorState, e: Event)
    requires Good(s)
    ensures Good(Step(s, e))
  {
    StepKeepsNodes(s, e);
    match e {
      case NodeClick(id, roll) =>
        var a := Dispatch(s, e);
        if a.Some? && a.value.AddArc? {
          NodeClickGuard(s, id, roll);
          AddArcKeepsArcs(s, a.value.from, a.value.to, a.value.capacity);
        }
      case DeleteClick =>
        if Truthy(s.selectedNode) {
          RemoveNodeKeepsArcs(s, s.selectedNode.value);
        }
      case SourceMarkClick =>
        MarksKeepEndsApart(s);
      case SinkMarkClick =>
        MarksKeepEndsApart(s);
      case _ =>
    }
  }

  /** Every state the editor reaches from its initial state keeps the invariant. */
  lemma {:induction false} ReplayKeepsGood(s: EditorState, events: seq<Event>)
    requires Good(s)
    ensures Good(Replay(s, events))
    decreases |events|
  {
    if events != [] {
      StepKeepsGood(s, events[0]);
      ReplayKeepsGood(Step(s, events[0]), events[1..]);
    }
  }

  lemma InitialGood()
    ensures Good(Initial())
  {
  }

  /**
   * The Compute button is enabled once both ends are marked. In every state
   * the editor reaches, `fordFulkerson` is then called on a graph that meets
   * its preconditions: positive capacities, no pair joined both ways, and
   * distinct ends.
   */
  lemma ComputeReady(events: seq<Event>)
    ensures var s := Replay(Initial(), events);
      Truthy(s.source) && Truthy(s.sink) ==>
        && WfArcs(s.arcs) && PositiveCapacities(s.arcs) && NoOpposite(s.arcs)
        && s.source.value != s.sink.value
  {
    InitialGood();
    ReplayKeepsGood(Initial(), events);
  }

  /**
   * REMOVE_NODE as written lets the two ends meet: with source "a", sink "b"
   * and node "c" selected, deleting "c" makes "a" both the source and the
   * sink; deleting "a" instead leaves the removed "a" as the sink. The
   * corrected reducer keeps them apart.
   */
  lemma AsWrittenMergesEnds()
    ensures var s := EditorState(Empty(), Empty(), Empty(), Some("a"), Some("b"), Some("c"));
      && Good(s) && Dispatch(s, DeleteClick) == Some(RemoveNode("c"))
      && RemoveNodeAsWritten(s, "c").source == Some("a") && RemoveNodeAsWritten(s, "c").sink == Some("a")
      && RemoveNodeAsWritten(s, "a").source == None && RemoveNodeAsWritten(s, "a").sink == Some("a")
      && EndsApart(Step(s, DeleteClick))
  {
  }

  /** With the corrected sink rule, deleting a node never makes the ends meet. */
  lemma RemoveNodeKeepsEndsApart(s: EditorState, id: Id)
    requires EndsApart(s)
    ensures EndsApart(Next(s, RemoveNode(id)))
    ensures Next(s, RemoveNode(id)).sink != Some(id)
  {
  }

  /* ---------------- The reducer as written ---------------- */

  /** `reducer(state, action)` with line 122 as written; it differs from `Next` at most in the sink. */
  function NextAsWritten(s: EditorState, a: Action): (r: EditorState)
    ensures r == Next(s, a).(sink := r.sink)
    ensures a.RemoveNode? && s.sink != Some(a.id) ==> r.sink == s.source
  {
    if a.RemoveNode? then RemoveNodeAsWritten(s, a.id) else Next(s, a)
  }

  /** The state after one user event, with the reducer as written. */
  function StepAsWritten(s: EditorState, e: Event): (r: EditorState)
  {
    match Dispatch(s, e)
    case None => s
    case Some(a) => NextAsWritten(s, a)
  }

  /** The state after a sequence of user events, with the reducer as written. */
  function ReplayAsWritten(s: EditorState, events: seq<Event>): (r: EditorState)
    decreases |events|
  {
    if events == [] then s else ReplayAsWritten(StepAsWritten(s, events[0]), events[1..])
  }

  /**
   * Three canvas clicks add nodes "a", "b" and "c"; "a" is selected and
   * marked as the source, "b" selected and marked as the sink, then "c" is
   * selected and deleted.
   */
  function MergeClicks(): (r: seq<Event>)
    ensures |r| == 9
  {
    var p := Point(0.0, 0.0);
    [CanvasClick("a", p), CanvasClick("b", p), CanvasClick("c", p),
     NodeClick("a", 0), SourceMarkClick, NodeClick("b", 0), SinkMarkClick,
     NodeClick("c", 0), DeleteClick]
  }

  /** Away from REMOVE_NODE the two reducers agree. */
  lemma AsWrittenAgrees(s: EditorState, e: Event)
    requires !e.DeleteClick?
    ensures StepAsWritten(s, e) == Step(s, e)
  {
  }

  lemma ReplayAsWrittenAt(s: EditorState, es: seq<Event>, i: nat)
    requires i < |es|
    ensures ReplayAsWritten(s, es[i..]) == ReplayAsWritten(StepAsWritten(s, es[i]), es[i + 1..])
  {
    assert es[i..][1..] == es[i + 1..];
  }

  lemma ReplayAt(s: EditorState, es: seq<Event>, i: nat)
    requires i < |es|
    ensures Replay(s, es[i..]) == Replay(Step(s, es[i]), es[i + 1..])
  {
    assert es[i..][1..] == es[i + 1..];
  }

  /** The marks of a state: the selection, the source and the sink. */
  function Marks(s: EditorState): (r: (Option<Id>, Option<Id>, Option<Id>))
  {
    (s.selectedNode, s.source, s.sink)
  }

  lemma CanvasMarks(s: EditorState, id: Id, p: Point)
    ensures Marks(Step(s, CanvasClick(id, p))) == Marks(s) && Step(s, CanvasClick(id, p)).arcs == s.arcs
  {
  }

  lemma SelectMarks(s: EditorState, id: Id)
    requires s.selectedNode == None
    ensures Marks(Step(s, NodeClick(id, 0))) == (Some(id), s.source, s.sink) && Step(s, NodeClick(id, 0)).arcs == s.arcs
  {
  }

  lemma SourceMarks(s: EditorState)
    requires Truthy(s.selectedNode) && s.source == None && s.sink != s.selectedNode
    ensures Marks(Step(s, SourceMarkClick)) == (None, s.selectedNode, s.sink) && Step(s, SourceMarkClick).arcs == s.arcs
  {
  }

  lemma SinkMarks(s: EditorState)
    requires Truthy(s.selectedNode) && s.sink == None && s.source != s.selectedNode
    ensures Marks(Step(s, SinkMarkClick)) == (None, s.source, s.selectedNode) && Step(s, SinkMarkClick).arcs == s.arcs
  {
  }

  /**
   * With the reducer as written, those clicks from the initial state enable
   * Compute with "a" as both the source and the sink (on which
   * `fordFulkerson` never stops, see `SameEndsNeverStops`); with the
   * corrected reducer the ends stay "a" and "b".
   */
  lemma AsWrittenReachesSameEnds()
    ensures var s := ReplayAsWritten(Initial(), MergeClicks());
      Truthy(s.source) && Truthy(s.sink) && s.source == s.sink == Some("a")
    ensures Marks(Replay(Initial(), MergeClicks())) == (None, Some("a"), Some("b"))
  {
    var es := MergeClicks();
    var p := Point(0.0, 0.0);
    assert es[0..] == es;
    var c0 := Initial();
    ReplayAt(c0, es, 0);
    ReplayAsWrittenAt(c0, es, 0);
    AsWrittenAgrees(c0, es[0]);
    CanvasMarks(c0, "a", p);
    var c1 := Step(c0, es[0]);
    ReplayAt(c1, es, 1);
    ReplayAsWrittenAt(c1, es, 1);
    AsWrittenAgrees(c1, es[1]);
    CanvasMarks(c1, "b", p);
    var c2 := Step(c1, es[1]);
    ReplayAt(c2, es, 2);
    ReplayAsWrittenAt(c2, es, 2);
    AsWrittenAgrees(c2, es[2]);
    CanvasMarks(c2, "c", p);
    var c3 := Step(c2, es[2]);
    ReplayAt(c3, es, 3);
    ReplayAsWrittenAt(c3, es, 3);
    AsWrittenAgrees(c3, es[3]);
    SelectMarks(c3, "a");
    var c4 := Step(c3, es[3]);
    ReplayAt(c4, es, 4);
    ReplayAsWrittenAt(c4, es, 4);
    AsWrittenAgrees(c4, es[4]);
    SourceMarks(c4);
    var c5 := Step(c4, es[4]);
    ReplayAt(c5, es, 5);
    ReplayAsWrittenAt(c5, es, 5);
    AsWrittenAgrees(c5, es[5]);
    SelectMarks(c5, "b");
    var c6 := Step(c5, es[5]);
    ReplayAt(c6, es, 6);
    ReplayAsWrittenAt(c6, es, 6);
    AsWrittenAgrees(c6, es[6]);
    SinkMarks(c6);
    var c7 := Step(c6, es[6]);
    ReplayAt(c7, es, 7);
    ReplayAsWrittenAt(c7, es, 7);
    AsWrittenAgrees(c7, es[7]);
    SelectMarks(c7, "c");
    var c8 := Step(c7, es[7]);
    ReplayAt(c8, es, 8);
    ReplayAsWrittenAt(c8, es, 8);
    DeleteMarks(c8);
    assert es[9..] == [];
  }

  /** Deleting the selected node "c" while "a" and "b" are the ends. */
  lemma DeleteMarks(s: EditorState)
    requires Marks(s) == (Some("c"), Some("a"), Some("b"))
    ensures Marks(Step(s, DeleteClick)) == (None, Some("a"), Some("b"))
    ensures Marks(StepAsWritten(s, DeleteClick)) == (None, Some("a"), Some("a"))
  {
  }
}
