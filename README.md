# maxflow — a Dafny model of the augmenting-path routine and the network editor

This project models the two core pieces of the maxflow web application:

- **`fordFulkerson`** (`src/maxflow/FordFulkerson.tsx`) works in three stages.
  - It builds a residual view of the capacity graph (`arcsWithBackward`). An arc u → v of capacity c is stored as `+c` at [u][v] and as the reverse sentinel `-c` at [v][u].
  - It searches that view depth-first for a path from the source to the sink (`findPath`). The search carries the visited prefix and the running bottleneck, and returns the first path it finds.
  - It pushes the bottleneck along each path into the flow state and reports each round to `onUpdate`. It repeats until the search fails.
- **The editor's state machine** (`src/components/FlowNetworkEditor/FlowNetworkEditor.tsx`) has two parts.
  - The `reducer` over nodes, arcs, source, sink and selection.
  - The click handlers that decide which action a user event dispatches.

Modules, one per concern:

| file | module | models |
|---|---|---|
| `dicts.dfy` | `Dicts` | string-keyed JavaScript objects, with their key enumeration order (`Dict`) |
| `sums.dfy` | `Sums` | totals over finite maps |
| `flows.dfy` | `Flows` | capacity graphs, flow states, pushing an amount along a path, balances and leftover capacity |
| `residual.dfy` | `Residual` | the residual build, as a method equal to a fold over the arcs, and what the view holds |
| `pathsearch.dfy` | `PathSearch` | `findPath` as mutually recursive functions, proved sound and complete |
| `fordfulkerson.dfy` | `FordFulkerson` | the augment loop and the main loop as methods with invariants; `onUpdate` becomes an appended trace |
| `editor.dfy` | `Editor` | `reducer`, the REMOVE_NODE deletion loop, the handlers, and the editor's invariant |

### What the code computes, and where it differs from its own comments

The comments in src/maxflow/FordFulkerson.tsx treat backward arcs as cancelling flow. Line 36 says "mark backwards with negative capacity", and line 62 says that a negative capacity means a backward arc. The branch at lines 85-89 would subtract the increase from `flow[b][a]`. The code never cancels flow, and this model follows the code:

- For a reverse sentinel at [x][y], the usable residual is read from `flow[x][y]` (line 60). Flow is only ever recorded on forward cells, so that entry is always 0.
- The backward branch of the apply step (lines 85-89) is never taken. Every pair of an accepted path is an arc of the graph (`FordFulkerson.RoundPath`).
- No entry of the flow ever decreases (`FordFulkerson.Run`, `NeverCancels`).
- So the result is a *blocking* flow:
  - the search finds no walk in the view (`Run`, `FindPathIff`);
  - when no pair of nodes is joined both ways, every simple source-to-sink path has a full arc (`FordFulkerson.Blocking`).
  - It need not be a maximum flow.

The comment at line 36 describes the second write of each arc as its backward mark. When the graph has both u → v and v → u, that mark overwrites the cell the other arc wrote. A cell of the pair can then hold the negated capacity of the opposite arc instead of the capacity of its own arc (`Residual.ResidualValues`). The search never steps through such a negative cell (`FordFulkerson.PathStep`). The editor never creates such pairs (`Editor.NodeClickGuard`), and `Blocking` assumes there are none.

## Model

| member | source | states |
|---|---|---|
| `Dicts.Put` | src/maxflow/FordFulkerson.tsx:29-37 | Writing a key keeps the object well formed: every key is listed once, and exactly the present keys are listed |
| `Dicts.Remove` | src/components/FlowNetworkEditor/FlowNetworkEditor.tsx:109-110 | Deleting a key (rest pattern) keeps the object well formed |
| `Dicts.WithoutOrder` | src/components/FlowNetworkEditor/FlowNetworkEditor.tsx:109-115 | After a key is deleted, one key comes before another exactly when it did before and neither is the deleted key: the remaining keys keep their relative order |
| `Residual.BuildResidual` | src/maxflow/FordFulkerson.tsx:27-40 | The `reduce` over the rows, updating the accumulator in place, yields exactly `ResidualOf(arcs)`, the fold of the per-arc step over the arcs in enumeration order |
| `Residual.AddRow` | src/maxflow/FordFulkerson.tsx:28-38 | The inner loop over one row applies the per-arc step to each of its arcs in order |
| `Residual.AddEntry` | src/maxflow/FordFulkerson.tsx:29-37 | One inner iteration does the following: touch both ends, set `acc[u][v] = c`, then set `acc[v][u] = -acc[u][v]` |
| `Residual.ResidualWf` | src/maxflow/FordFulkerson.tsx:27-40 | The view is a well-formed record of well-formed rows |
| `Residual.ResidualNodes` | src/maxflow/FordFulkerson.tsx:29-34 | The keys of the view are exactly the ends of the arcs |
| `Residual.ResidualCells` | src/maxflow/FordFulkerson.tsx:35-37 | The view has a cell at [x][y] exactly when the graph has x → y or y → x |
| `Residual.ResidualValues` | src/maxflow/FordFulkerson.tsx:35-37 | Each cell holds `+c` of an arc x → y (never a self-loop) or `-c` of an arc y → x |
| `Residual.ResidualOneWay` | src/maxflow/FordFulkerson.tsx:27-40 | For an arc u → v with no arc v → u, the view holds `c` at [u][v] and `-c` at [v][u], and both ends are keys |
| `Residual.ForwardCell` | src/maxflow/FordFulkerson.tsx:35-37 | With positive capacities, a non-negative cell is the forward cell of an arc and holds its capacity |
| `PathSearch.Min` | src/maxflow/FordFulkerson.tsx:66 | `Math.min` of the running bottleneck (possibly `Infinity`) and a finite residual is at most both and equal to one of them |
| `PathSearch.FindPath` | src/maxflow/FordFulkerson.tsx:42-75 | A returned path is the visited prefix, then `node`, then more nodes, and ends at the sink |
| `PathSearch.Scan` | src/maxflow/FordFulkerson.tsx:53-74 | The neighbour loop returns only paths that extend the prefix through `node` to the sink |
| `PathSearch.FindPathSound` | src/maxflow/FordFulkerson.tsx:43-71 | A returned path is as follows. It is a walk the search may take: each step goes to a neighbour outside the prefix, with positive usable residual. It stops at the first visit of the sink. Its `increase` is the bottleneck along it |
| `PathSearch.FindPathComplete` | src/maxflow/FordFulkerson.tsx:53-74 | If any such walk leads from the node to the sink, the search returns a path (it does not give up early) |
| `PathSearch.FindPathIff` | src/maxflow/FordFulkerson.tsx:42-75 | The search succeeds exactly when such a walk exists |
| `PathSearch.BottleneckBounds` | src/maxflow/FordFulkerson.tsx:63-66 | Along a walk of two or more nodes, the increase is finite. It is at most every step's usable residual and equals one of them or the start. From `Infinity` it is positive |
| `PathSearch.WalkDistinct` | src/maxflow/FordFulkerson.tsx:56-58 | A walk from the empty prefix with no step that stays in place has pairwise distinct nodes |
| `PathSearch.FoundPathShape` | src/maxflow/FordFulkerson.tsx:43-66 | A path found from the source with an empty prefix starts at the source and ends at the sink. With no usable entry from a node to itself, its nodes are pairwise distinct |
| `Flows.AugmentedAt` | src/maxflow/FordFulkerson.tsx:80-95 | Along a path with distinct nodes, each of its steps gains the increase exactly once, and every other entry keeps its value |
| `Flows.AugmentedEntries` | src/maxflow/FordFulkerson.tsx:82-95 | Augmenting creates entries only on the path's steps |
| `Flows.AugmentedGrows` | src/maxflow/FordFulkerson.tsx:91-95 | With a non-negative increase, no entry decreases |
| `Flows.AugmentedBalance` | src/maxflow/FordFulkerson.tsx:80-95 | Augmenting moves the increase from the path's first node to its last. Every other node keeps its balance |
| `Flows.AugmentedSlack` | src/maxflow/FordFulkerson.tsx:80-95 | Along a path of arcs, the leftover capacity drops by the increase per step |
| `Flows.SlackNonNegative` | src/maxflow/FordFulkerson.tsx:77-100 | Within capacity everywhere, the leftover capacity is not negative. This is the bound on the loop's termination measure |
| `FordFulkerson.ApplyPair` | src/maxflow/FordFulkerson.tsx:81-95 | For a forward arc, `flow[a] ??= {}` followed by the set-or-add of lines 91-95 is a push of the increase onto [a][b] |
| `FordFulkerson.Augment` | src/maxflow/FordFulkerson.tsx:79-96 | The loop over consecutive pairs leaves the flow augmented along the whole path |
| `FordFulkerson.Run` | src/maxflow/FordFulkerson.tsx:18-102 | See the list below the table |
| `FordFulkerson.Round` | src/maxflow/FordFulkerson.tsx:78-98 | One round augments the flow along the path found by its bottleneck and appends exactly one report of that path and flow. It keeps all of these: flow only on forward cells within capacity, conservation, the sink's gain, the trace, no cancellation. It strictly lowers the leftover capacity |
| `FordFulkerson.RoundPath` | src/maxflow/FordFulkerson.tsx:60-66 | On a flow kept within forward cells, the path found runs from the source to the sink, over arcs of the graph only, with distinct nodes. Its increase is positive and fits every arc |
| `FordFulkerson.PathStep` | src/maxflow/FordFulkerson.tsx:60-63 | A step the search takes is the forward cell of an arc with room left. A reverse sentinel is never usable, because `flow[x][y]` is 0 there |
| `FordFulkerson.AugmentFlowInv` | src/maxflow/FordFulkerson.tsx:80-95 | Augmenting by a fitting increase keeps flow only on forward cells, between 0 and the capacity |
| `FordFulkerson.SameEndsNeverStops` | src/maxflow/FordFulkerson.tsx:45-51 | With source = sink the search returns the one-node path at once, and augmenting along it changes nothing, so the loop never ends |
| `FordFulkerson.Blocking` | src/maxflow/FordFulkerson.tsx:77-102 | If no pair of nodes is joined both ways and the search fails, then every simple path of arcs from the source to the sink has a full arc |
| `Editor.Next` | src/components/FlowNetworkEditor/FlowNetworkEditor.tsx:98-168 | The reducer, with the sink rule of line 122 corrected. No action changes the flow record |
| `Editor.Reduce` | src/components/FlowNetworkEditor/FlowNetworkEditor.tsx:98-168 | The reducer with line 122 corrected, run with REMOVE_NODE deleting incoming entries row by row, yields `Next(s, a)` |
| `Editor.DeleteIncoming` | src/components/FlowNetworkEditor/FlowNetworkEditor.tsx:112-115 | The loop deletes the removed id from every remaining row and keeps the rows and their order |
| `Editor.RemoveNodeAsWritten` | src/components/FlowNetworkEditor/FlowNetworkEditor.tsx:120-122 | As written, deleting a node that is neither end makes the sink equal to the source; deleting the source leaves the deleted node as the sink while the source is cleared; deleting the sink clears it |
| `Editor.AddNodeEffect` | src/components/FlowNetworkEditor/FlowNetworkEditor.tsx:100-107 | ADD_NODE stores the payload under its id (a new id goes last) and changes nothing else |
| `Editor.RemoveNodeEffect` | src/components/FlowNetworkEditor/FlowNetworkEditor.tsx:108-123 | REMOVE_NODE drops the node, its row and every arc into it, and keeps the other arcs' capacities. It clears the selection, the source and (with line 122 corrected) the sink exactly when they are the removed node |
| `Editor.AddArcEffect` | src/components/FlowNetworkEditor/FlowNetworkEditor.tsx:124-135 | ADD_ARC writes the capacity at [from][to] and keeps every other arc, including those leaving `from`. It clears the selection and changes nothing else |
| `Editor.MoveNodeEffect` | src/components/FlowNetworkEditor/FlowNetworkEditor.tsx:136-146 | MOVE_NODE of an existing node changes only that node's position |
| `Editor.SetEndsEffect` | src/components/FlowNetworkEditor/FlowNetworkEditor.tsx:147-158 | SET_SOURCE and SET_SINK set their end to the payload and clear the selection |
| `Editor.SelectToggle` | src/components/FlowNetworkEditor/FlowNetworkEditor.tsx:159-163 | SELECT_NODE toggles. The same id twice from an empty selection gives back the same state |
| `Editor.NodeClickGuard` | src/components/FlowNetworkEditor/FlowNetworkEditor.tsx:209-232 | A node click dispatches ADD_ARC only between two different nodes that are not joined in either direction, with capacity at least 2 |
| `Editor.MarksKeepEndsApart` | src/components/FlowNetworkEditor/FlowNetworkEditor.tsx:256-276 | The mark buttons never make the source and the sink the same node |
| `Editor.StepKeepsGood` | src/components/FlowNetworkEditor/FlowNetworkEditor.tsx:183-276 | With line 122 corrected, every user event keeps the invariant: well-formed records, positive capacities, no pair of nodes joined both ways, distinct ends |
| `Editor.ReplayKeepsGood` | src/components/FlowNetworkEditor/FlowNetworkEditor.tsx:176-276 | With line 122 corrected, any sequence of events keeps the invariant |
| `Editor.InitialGood` | src/components/FlowNetworkEditor/FlowNetworkEditor.tsx:176-180 | The initial state meets the invariant |
| `Editor.ComputeReady` | src/components/FlowNetworkEditor/FlowNetworkEditor.tsx:234-242 | With line 122 corrected, in every reachable state where Compute is enabled, the graph and ends meet the preconditions of `FordFulkerson.Run` and `FordFulkerson.Blocking` |
| `Editor.AsWrittenMergesEnds` | src/components/FlowNetworkEditor/FlowNetworkEditor.tsx:122 | As written, deleting a node can make one node both source and sink, or leave the deleted node as the sink |
| `Editor.NextAsWritten` | src/components/FlowNetworkEditor/FlowNetworkEditor.tsx:98-168 | The reducer exactly as written differs from the corrected one at most in the sink, and REMOVE_NODE of a node other than the sink copies the source into the sink |
| `Editor.AsWrittenReachesSameEnds` | src/components/FlowNetworkEditor/FlowNetworkEditor.tsx:122 | With the reducer as written, the clicks of `MergeClicks` from the initial state enable Compute (lines 234-235) with "a" as both source and sink. The corrected reducer leaves the ends at "a" and "b" |
| `Editor.RemoveNodeKeepsEndsApart` | src/components/FlowNetworkEditor/FlowNetworkEditor.tsx:120-122 | With the corrected rule, deleting a node keeps the ends apart and never leaves the deleted node as the sink |

`FordFulkerson.Run` requires a well-formed graph with positive capacities and source ≠ sink. Its contract states:

- the result is the state that the trace of reports leads to, and each report is one round: the path the search returns, and the flow augmented by its bottleneck;
- the search then finds no path, and no walk in the view leads to the sink;
- the flow lies on arcs, between 0 and the capacity;
- the flow is conserved everywhere except at the two ends;
- every flow state reported to `onUpdate` also lies on arcs within capacity and is conserved at every node except the two ends;
- the sink gains at least one unit per round;
- the number of rounds is at most the total capacity;
- no entry is ever decreased.

## Left out

- `sleep(1000)` and `async`/`await` (src/maxflow/FordFulkerson.tsx:99): the loop is modelled as synchronous.
- `onUpdate` (line 97) is modelled as an appended sequence of `Update` values. The `{...flow}` snapshot is a shallow copy: in the program, inner rows are shared, so later rounds also change earlier snapshots. The model records each snapshot as a value and makes no claim that the program's snapshots stay frozen.
- The `Infinity` start bottleneck is the `Unbounded` case of `Amount`.
- Identifiers and key order:
  - `visited.find` (line 56) treats the empty-string id as absent, because `find` returns the falsy `""`. The model uses plain membership. Editor ids are `'' + Date.now()` and are never empty.
  - JavaScript enumerates array-index keys (canonical integers below 2^32 − 1) before all others. The model enumerates keys in insertion order. Ids from `Date.now()` are far above that bound, so insertion order holds for them.
- `FordFulkerson.ApplyPair`: its requires excludes two cases.
  - The backward branch (lines 86-89 with `forward` false), which would write `flow[b][a]` and throw when `flow[b]` is missing.
  - A missing `arcs[a]`, which would throw at line 86.
  `RoundPath` proves that `Run` never meets either case.
- `FordFulkerson.Run` requires positive capacities and source ≠ sink. The editor only creates capacities 2..10. With source = sink the program never stops (`SameEndsNeverStops`).
- `FordFulkerson.Run`: it states only that the sink's net inflow is at least the number of rounds, not that it equals the exact sum of the increases.
- Maximum flow / minimum cut: the code never cancels flow, so optimality does not hold and is not stated.
- The call `fordFulkerson(source, sink, state.arcs)` (FlowNetworkEditor.tsx:237) passes positional arguments to a function that takes one object, and its result is stored with `setFlow` through a Promise. This plumbing is not modelled. `ComputeReady` states what the intended call needs.
- REMOVE_NODE's `delete tos[id]` (lines 113-115) mutates inner rows that the previous state shares. The model computes on values, so the previous state is not shown losing those entries.
- JavaScript numbers are modelled as unbounded integers (capacities and flows) and as reals (positions).
- The `default` branch of `reducer` (lines 164-165) cannot be reached with a typed action and is not modelled.
- `Date.now()` ids and `Math.random()` capacities are inputs of the `Event` datatype.
- Left out entirely:
  - the floating-point geometry and screen mapping (src/geometry/index.tsx, FlowNetworkEditor.tsx:48-67);
  - the colour interpolation of src/components/flow/FlowArc.tsx;
  - the React components, styling, JSX and DOM events.
- `Wf` and `WfArcs` are representation invariants of the `Dict` encoding of JavaScript objects, whose keys are always listed once. Members that need them take them as requires.

## Findings

| source | as written | input that shows it | evidently intended | confidence | as-written member | corrected member |
|---|---|---|---|---|---|---|
| src/components/FlowNetworkEditor/FlowNetworkEditor.tsx:122 | `sink: action.payload !== state.sink ? state.source : undefined` | Click the canvas three times (nodes "a", "b", "c"); select "a", Mark as source; select "b", Mark as sink; select "c", Delete. Source and sink both become "a" and Compute is enabled. Deleting the selected source "a" instead leaves the deleted "a" as the sink | `state.sink` in place of `state.source`, like lines 120-121 | high (not executed) | `Editor.RemoveNodeAsWritten`, exhibited by `Editor.AsWrittenMergesEnds` and, from the initial state, by `Editor.AsWrittenReachesSameEnds` | `Editor.Next`, with `Editor.RemoveNodeKeepsEndsApart` and `Editor.StepKeepsGood` |
