# SimpleGraphEditor: graph store and edge-insertion state, in Dafny

This project models two sequential pieces of a WinForms graph editor.

1. **The graph store** (`GraphRepresentationModel`). It holds one mutable dictionary, `_graphData`, from node to the list of edges stored under that node. An edge is stored only under the owner it was added under. Adding `e(n1, n2)` under `n1` therefore makes `n1` a neighbour-holder of `n2` but not the other way round, and the undirected queries compensate by searching both sides. The store also finds the first enabled node within a radius, takes snapshots (mementos) and restores them.
2. **The edge-insertion editor state** (`EdgeInsertionModeState`). It turns node clicks into requests for new edges. The first click picks a start node. Each later click on a node not connected to the start asks the presenter for an edge from the start. The start is never cleared after an edge is placed. Leaving the mode clears the start and the editor's selected node.

## Layout

- `wrappers.dfy`, module `Wrappers`: the error kinds (`DuplicateEntity`, `UnknownEntity`, `InvalidArgument`), plus `Outcome`, `Result` and `Option`.
- `sequences.dfy`, module `Sequences`: `Filter`, the order-preserving selection that `List<T>.RemoveAll` performs, with its lemmas.
- `graph.dfy`, module `Graph`:
  - `Node` and `Edge` as classes, compared by reference like the C# objects;
  - the dictionary as a value, `GraphState(keys, adj)`, where `keys` is the dictionary's enumeration order;
  - the invariant `WellFormed`;
  - every store operation as a function from the old state to its result;
  - the store's properties as lemmas.
- `graph_representation.dfy`, module `GraphModel`: the class `GraphRepresentationModel`.
  - Fields `keys` and `adj`.
  - Methods written loop for loop as in C#.
  - Each method is proved to agree with its function in `Graph`.
  - The mutating methods keep `Valid()`.
- `edge_insertion.dfy`, module `EditorStates`: the class `EdgeInsertionModeState` and the part of the editor model it writes, `EditorModel.selectedNode`.
- `scenarios.dfy`, module `Scenarios`: client methods that use only the contracts.
  - The checks of the two unit tests of the store (TestGraphRepresenatation.cs), each with one more assertion: a duplicate node is rejected, and the undirected test also holds in the reverse order.
  - Undo over any sequence of edits on any valid store (`Scenarios.UndoAnyEdits`).
  - An undo round trip.
  - Chained edge requests, and a self-edge request.
  - An undo in the middle of a gesture.

## Behaviours of the code worth knowing

- After an edge is placed, `_startEdgeNode` stays set and only `_endEdgeNode` is reset (EdgeInsertionModeState.cs:81-88). Further clicks therefore chain edges from the same start (`Scenarios.ChainedEdgeRequests`).
- Nothing clears the start node when the graph is restored from a memento. The code's own comment at EdgeInsertionModeState.cs:41-43 names this race ("_startEdgeNode was modified ... because of undo operation"), but the re-selection it sketches is commented out. When the start is no longer a key, the next click fails with `UnknownEntity`, raised by `HasThisNeighbour` (GraphRepresentationModel.cs:35). `OnClientInteract`'s contract states this, and `Scenarios.UndoBetweenClicks` shows it.
- Clicking the start node again asks for a self-edge `(s, s)` unless `s` already stores one, because `AreNodesConectedByEdge(s, s)` is then false.
- `AddEdgeToGraph` rejects a null owner with `InvalidArgument`, before checking whether the owner is a key.
- `AreNodesConectedByEdge` short-circuits. If `a` stores an edge to `b`, the answer is true even when `b` is not a key. The second lookup, and its `UnknownEntity`, happen only when the first lookup answers false (`Graph.Connected`).
- `GetConnectionsUndirected` reports an edge that another key stores and that ends at `b` as `(b, e)`. The pair holds `b` itself, not the other end point.

## Model

| member | source | states |
|---|---|---|
| `Sequences.Filter` | simple_graph_editor/Models/GraphModel/GraphRepresentationModel.cs:70 | `RemoveAll` keeps exactly the elements that do not match, and never grows the list |
| `Sequences.FilterAppend` | simple_graph_editor/Models/GraphModel/GraphRepresentationModel.cs:69-72 | removal keeps the survivors in their original relative order: the survivors of `a + b` are the survivors of `a` followed by those of `b` |
| `Sequences.FilterKeepsAll` | simple_graph_editor/Models/GraphModel/GraphRepresentationModel.cs:81-83 | `RemoveAll` with nothing to remove leaves the list as it was |
| `Sequences.FilterDistinct` | simple_graph_editor/Models/GraphModel/GraphRepresentationModel.cs:70 | removal never creates a duplicate, so the no-duplicate-edges invariant survives it |
| `Graph.AddNode` | simple_graph_editor/Models/GraphModel/GraphRepresentationModel.cs:51-55 | fails with DuplicateEntity exactly when the node is already a key; otherwise adds it last in enumeration order with an empty list, leaves every other list unchanged, and keeps the invariant |
| `Graph.AddEdge` | simple_graph_editor/Models/GraphModel/GraphRepresentationModel.cs:57-63 | null owner gives InvalidArgument, absent owner gives UnknownEntity, an edge already in the owner's list gives DuplicateEntity, and it succeeds in no other case; on success the edge is appended to the owner's list only, whatever its end points, and the keys and all other lists stay unchanged |
| `Graph.RemoveNode` | simple_graph_editor/Models/GraphModel/GraphRepresentationModel.cs:64-75 | null gives InvalidArgument and an absent node gives UnknownEntity; on success the node leaves the key set and the enumeration order, every other list keeps only its edges not touching the node, and the invariant holds |
| `Graph.RemoveEdge` | simple_graph_editor/Models/GraphModel/GraphRepresentationModel.cs:77-84 | fails only for null; otherwise the keys are unchanged and every list loses every occurrence of the edge |
| `Graph.HasNeighbour` | simple_graph_editor/Models/GraphModel/GraphRepresentationModel.cs:33-44 | raises UnknownEntity exactly when the base node is not a key; otherwise true exactly when some position of the base node's own list holds an edge whose second end point is the candidate |
| `Graph.Connected` | simple_graph_editor/Models/GraphModel/GraphRepresentationModel.cs:46-48 | is the short-circuit disjunction of the two directional tests: an error if the first node is absent, true as soon as the first test is true, the second test's error if the second node is absent, and the plain disjunction when both are keys |
| `Graph.ConnectionsUndirected` | simple_graph_editor/Models/GraphModel/GraphRepresentationModel.cs:87-107 | null gives InvalidArgument and an absent node UnknownEntity, and nothing else fails; every edge of the base node's list is reported with its second end point, and every reported pair `(m, e)` has `m == e.n2` with `e` either in the base node's list or ending at the base node |
| `Graph.Selectable` | simple_graph_editor/Models/GraphModel/GraphRepresentationModel.cs:113-114 | a selectable node is enabled and lies strictly within the radius along each axis; an enabled node exactly at the coordinates is selectable for every positive radius |
| `Graph.FirstInRadius` | simple_graph_editor/Models/GraphModel/GraphRepresentationModel.cs:111-117 | a non-null result is a key that is enabled and strictly within the radius; null means no key is |
| `Graph.Restore` | simple_graph_editor/Models/GraphModel/GraphRepresentationModel.cs:27-30 | a null memento leaves the state as it was, any other replaces it wholesale by the memento's, and the invariant survives when both hold it |
| `Graph.AddNodeTwice` | simple_graph_editor/Models/GraphModel/GraphRepresentationModel.cs:51-55 | adding a new node succeeds and adding it again fails with DuplicateEntity |
| `Graph.AsymmetricStorage` | simple_graph_editor/Models/GraphModel/GraphRepresentationModel.cs:33-63 | after `e(n1, n2)` is added under `n1`, `n1` has neighbour `n2`, `n2` does not have neighbour `n1`, and the undirected test is true in both orders |
| `Graph.HasNeighbourOfAbsent` | simple_graph_editor/Models/GraphModel/GraphRepresentationModel.cs:33-35 | the neighbour test and the connected test raise UnknownEntity, not false, for a node that is not a key |
| `Graph.ConnectedSymmetric` | simple_graph_editor/Models/GraphModel/GraphRepresentationModel.cs:46-48 | when both nodes are keys, the undirected test gives the same answer in either order |
| `Graph.RemoveNodeCascades` | simple_graph_editor/Models/GraphModel/GraphRepresentationModel.cs:64-75 | after removal the node is neither a key nor in the enumeration order; every other key remains; no remaining edge has it as either end point and every remaining edge was there before; looking it up or removing it again gives UnknownEntity |
| `Graph.RemoveNodeKeepsOrder` | simple_graph_editor/Models/GraphModel/GraphRepresentationModel.cs:69-72 | a surviving list `a + b` becomes the survivors of `a` followed by the survivors of `b` |
| `Graph.RemoveEdgeRemovesAll` | simple_graph_editor/Models/GraphModel/GraphRepresentationModel.cs:77-84 | after removal the edge is in no list, and every other edge stays in the list that held it |
| `Graph.RemoveAbsentEdge` | simple_graph_editor/Models/GraphModel/GraphRepresentationModel.cs:77-84 | removing an edge that no list holds raises nothing and changes nothing |
| `Graph.RemoveEdgeIdempotent` | simple_graph_editor/Models/GraphModel/GraphRepresentationModel.cs:77-84 | removing the same edge twice gives the same store as removing it once |
| `Graph.ConnectionsMembership` | simple_graph_editor/Models/GraphModel/GraphRepresentationModel.cs:87-107 | `(m, e)` is reported exactly when `e` is in the base node's list with `m` its second end point, or when `m` is the base node, `e` ends at it, and another key's list holds `e` |
| `Graph.ConnectionsCoverConnected` | simple_graph_editor/Models/GraphModel/GraphRepresentationModel.cs:87-107 | for another key `x`, the undirected test is true exactly when the scan reports a pair `(x, e)`, or a pair `(b, e)` whose edge `x` stores |
| `Graph.FirstInRadiusIsFirst` | simple_graph_editor/Models/GraphModel/GraphRepresentationModel.cs:111-117 | the result is the first qualifying key in enumeration order: every key before it is disabled or out of range |
| `Graph.RestoreSnapshot` | simple_graph_editor/Models/GraphModel/GraphRepresentationModel.cs:23-30 | restoring a snapshot gives back the state it was taken from, whatever changed in between; a null memento changes nothing |
| `Scenarios.UndoAnyEdits` | simple_graph_editor/Models/GraphModel/GraphRepresentationModel.cs:23-30 | for any valid store and any sequence of node and edge additions and removals, restoring the memento taken before them gives back exactly the store as it was |
| `GraphModel.GraphRepresentationModel.constructor` | simple_graph_editor/Models/GraphModel/GraphRepresentationModel.cs:18-20 | a new store is empty and valid |
| `GraphModel.GraphRepresentationModel.CreateMemento` | simple_graph_editor/Models/GraphModel/GraphRepresentationModel.cs:23-25 | the memento holds the store's whole current state |
| `GraphModel.GraphRepresentationModel.RestoreFromMemento` | simple_graph_editor/Models/GraphModel/GraphRepresentationModel.cs:27-30 | null leaves the store unchanged; otherwise the whole dictionary becomes the memento's, and the invariant holds |
| `GraphModel.GraphRepresentationModel.HasThisNeighbour` | simple_graph_editor/Models/GraphModel/GraphRepresentationModel.cs:33-44 | UnknownEntity when the base node is not a key; otherwise true exactly when some edge in the base node's own list has the candidate as its second end point |
| `GraphModel.GraphRepresentationModel.AreNodesConectedByEdge` | simple_graph_editor/Models/GraphModel/GraphRepresentationModel.cs:46-48 | agrees with `Graph.Connected`; for two keys, true exactly when either stores an edge ending at the other |
| `GraphModel.GraphRepresentationModel.GetConnectionsUndirected` | simple_graph_editor/Models/GraphModel/GraphRepresentationModel.cs:87-107 | null gives InvalidArgument and an absent node gives UnknownEntity; otherwise the result is exactly `{(e.n2, e) : e in b's list}` united with `{(b, e) : e in another key's list, e.n2 == b}` |
| `GraphModel.GraphRepresentationModel.GetNodeInRadius` | simple_graph_editor/Models/GraphModel/GraphRepresentationModel.cs:111-117 | the first key in enumeration order that is enabled and strictly within the radius, or null when no key is |
| `GraphModel.GraphRepresentationModel.IsNodeInRadius` | simple_graph_editor/Models/GraphModel/GraphRepresentationModel.cs:157-159 | true exactly when `GetNodeInRadius` finds a node, that is, when some key is enabled and within the radius |
| `GraphModel.GraphRepresentationModel.RemoveAllFromEveryList` | simple_graph_editor/Models/GraphModel/GraphRepresentationModel.cs:69-72 | the loop over all lists leaves every key with exactly the edges of its old list that pass the test, in order |
| `GraphModel.GraphRepresentationModel.AddNodeToGraph` | simple_graph_editor/Models/GraphModel/GraphRepresentationModel.cs:51-55 | the outcome and the new state are those of `Graph.AddNode`; a failure changes nothing; the invariant holds |
| `GraphModel.GraphRepresentationModel.AddEdgeToGraph` | simple_graph_editor/Models/GraphModel/GraphRepresentationModel.cs:57-63 | the outcome and the new state are those of `Graph.AddEdge`; a failure changes nothing; the invariant holds |
| `GraphModel.GraphRepresentationModel.RemoveNodeFromGraph` | simple_graph_editor/Models/GraphModel/GraphRepresentationModel.cs:64-75 | the outcome and the new state are those of `Graph.RemoveNode`; a failure changes nothing; the invariant holds |
| `GraphModel.GraphRepresentationModel.RemoveEdgeFromGraph` | simple_graph_editor/Models/GraphModel/GraphRepresentationModel.cs:77-84 | the outcome and the new state are those of `Graph.RemoveEdge`; the invariant holds |
| `EditorStates.EditorModel.constructor` | simple_graph_editor/Presenters/GraphPresenter/EditorStates/EdgeInsertionModeState.cs:11 | the editor model this state writes starts with no selected node |
| `EditorStates.EdgeInsertionModeState.constructor` | simple_graph_editor/Presenters/GraphPresenter/EditorStates/EdgeInsertionModeState.cs:16-27 | starts with no start node, no end node, no requests, in edge-insertion mode |
| `EditorStates.EdgeInsertionModeState.OnClientInteract` | simple_graph_editor/Presenters/GraphPresenter/EditorStates/EdgeInsertionModeState.cs:29-48 | a click on no node changes nothing; with no start, the clicked node becomes both the start and the selection and no edge is requested; with a start, the start and selection stay, exactly one edge `(start, clicked)` is requested when the two are not connected, none when they are, and a start that is no longer a key makes the click fail with UnknownEntity; a repeated click on the start requests a self-edge unless one exists; the end node is null afterwards |
| `EditorStates.EdgeInsertionModeState.SetFirstSelectedNode` | simple_graph_editor/Presenters/GraphPresenter/EditorStates/EdgeInsertionModeState.cs:77-80 | the clicked node becomes both the start and the editor's selected node |
| `EditorStates.EdgeInsertionModeState.PlaceEdgeToGraph` | simple_graph_editor/Presenters/GraphPresenter/EditorStates/EdgeInsertionModeState.cs:81-88 | requests exactly one edge from the start to the clicked node, then resets the end node and keeps the start |
| `EditorStates.EdgeInsertionModeState.ClearEdgeNodesData` | simple_graph_editor/Presenters/GraphPresenter/EditorStates/EdgeInsertionModeState.cs:72-75 | clears the selected node, the start and the end |
| `EditorStates.EdgeInsertionModeState.TurnOnDeletationMode` | simple_graph_editor/Presenters/GraphPresenter/EditorStates/EdgeInsertionModeState.cs:50-53 | clears the gesture and the selection, then switches to deletion mode |
| `EditorStates.EdgeInsertionModeState.TurnOnDragMode` | simple_graph_editor/Presenters/GraphPresenter/EditorStates/EdgeInsertionModeState.cs:54-57 | clears the gesture and the selection, then switches to drag mode |
| `EditorStates.EdgeInsertionModeState.TurnOnEdgeInsertionMode` | simple_graph_editor/Presenters/GraphPresenter/EditorStates/EdgeInsertionModeState.cs:58 | a no-op: the start, the selection and the mode survive |
| `EditorStates.EdgeInsertionModeState.TurnOnIdleMode` | simple_graph_editor/Presenters/GraphPresenter/EditorStates/EdgeInsertionModeState.cs:59-62 | clears the gesture and the selection, then switches to idle mode |
| `EditorStates.EdgeInsertionModeState.TurnOnNodeInsertionMode` | simple_graph_editor/Presenters/GraphPresenter/EditorStates/EdgeInsertionModeState.cs:63-66 | clears the gesture and the selection, then switches to node-insertion mode |
| `EditorStates.EdgeInsertionModeState.TurnOnValueEditState` | simple_graph_editor/Presenters/GraphPresenter/EditorStates/EdgeInsertionModeState.cs:67-70 | clears the gesture and the selection, then switches to value-edit mode |

## Left out

- `GetEdgeOnCoords` (GraphRepresentationModel.cs:119-155): an approximate geometric hit test. It rests on projection helpers that are not part of this model, on integer rounding of those projections, and on a floating-point tolerance coefficient.
- `GetColsestNodeInRectangle` (GraphRepresentationModel.cs:161-163): it only throws `NotImplementedException`.
- Graph.Selectable: it uses the exact integer form `radius > 0 && dx² + dy² < radius²` of `Math.Sqrt(dx² + dy²) < radius`. Double-precision rounding of the square root is not modelled. Neither is the unchecked 32-bit subtraction `node.X - coord.x` (GraphRepresentationModel.cs:113), which can wrap around for coordinates far apart; the model subtracts unbounded integers.
- The dictionary's enumeration order is modelled as insertion order, with removed keys dropped in place. .NET can reuse a removed key's slot for a later insertion. "First" in `GetNodeInRadius` refers to the modelled order.
- `GraphMemento` internals (copy depth, `GetStateData`) are not part of this model. A memento is an immutable value snapshot of the dictionary. Nodes inside it are still shared references, so a later change to a node's coordinates is not undone.
- The `GraphData` read-only view (GraphRepresentationModel.cs:16) is not modelled as a member. The fields `keys` and `adj` are that view.
- Null node arguments to `AddNodeToGraph` and to the base node of `HasThisNeighbour` are not modelled. The parameters are non-null. In .NET, `ContainsKey(null)` would throw `ArgumentNullException`. The explicit null checks of `AddEdgeToGraph`, `RemoveNodeFromGraph`, `RemoveEdgeFromGraph` and `GetConnectionsUndirected` are modelled.
- GraphModel.GraphRepresentationModel.AddEdgeToGraph: a null edge is not modelled; the parameter is a non-null `Edge`. The C# never checks `newEdge`: `Contains(null)` at line 60 is false, so line 62 stores the null, and lines 41, 70 and 101 later dereference it.
- Null edge lists (`baseNodeEdges == null` at line 38, `edges?.` at lines 70 and 82) are not modelled. Every key's list is created by `AddNodeToGraph`, so a list is never null.
- Node and edge payloads are not modelled, apart from the node's enabled flag and coordinates: no value, colour, width or directed flag.
- `GetNodeOnCoords` is not part of this model. `OnClientInteract` receives its result, the clicked node or null, in place of the coordinates.
- EditorStates.EdgeInsertionModeState.PlaceEdgeToGraph: records the call to `GraphPresenter.AddEdge`, but not that call's effect on the graph, because `GraphPresenter` is not part of this model. The state never changes the graph itself.
- EditorStates.EdgeInsertionModeState.OnClientInteract: assumes the lookup at EdgeInsertionModeState.cs:84 and the presenter call at :86 return normally. `PlaceEdgeToGraph` sets `_endEdgeNode` at :82 before them; if either throws, it stays set, and the `else if` at :40 then ignores every later click until a `TurnOn*` clears it. `Valid()`, which `OnClientInteract` requires, excludes that state.
- The base `EditorState` transitions are not part of this model. The mode each `TurnOn*` hands over to is recorded in the field `mode`.
- The unused lookup `_graphModel.GraphData[_startEdgeNode.Coords]` (EdgeInsertionModeState.cs:84) is not modelled. Its result is discarded, and its key type does not match the dictionary's.
- The view and the editor model's other members are not modelled, apart from `SelectedNode`.
- The WinForms edge-properties dialog and the process entry point are not modelled: they are UI and wiring.
