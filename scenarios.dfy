/** Client code that exercises the store and the edge-insertion state
    through their contracts alone, the way the editor and its unit tests use
    them. */
module Scenarios {
  import opened Wrappers
  import opened Sequences
  import opened Graph
  import opened GraphModel
  import opened EditorStates

  /** Asking for the neighbours of a node that was never added fails; once
      both nodes are in and `e(nd1, nd2)` is stored under `nd1`, `nd1` has
      `nd2` as a neighbour. A node cannot be added twice. */
  method UnknownAndDuplicateNodes() {
    var graph := new GraphRepresentationModel();
    var nd1 := new Node(0, 0, true);
    var nd2 := new Node(1, 1, true);
    var e12 := new Edge(nd1, nd2);

    var o := graph.AddNodeToGraph(nd1);
    assert o == Pass;
    var r := graph.HasThisNeighbour(nd2, nd1);
    assert r == Err(UnknownEntity);
    o := graph.AddNodeToGraph(nd2);
    o := graph.AddEdgeToGraph(e12, nd1);
    assert graph.adj[nd1] == [e12];
    r := graph.HasThisNeighbour(nd1, nd2);
    assert r == Ok(true);
    o := graph.AddNodeToGraph(nd1);
    assert o == Fail(DuplicateEntity);
  }

  /** After e(n1, n2) is stored under n1, n1 has n2 as a neighbour, n2 does
      not have n1, and both orders are connected. */
  method AsymmetricNeighbours() {
    var graph := new GraphRepresentationModel();
    var nd1 := new Node(0, 0, true);
    var nd2 := new Node(1, 1, true);
    var e12 := new Edge(nd1, nd2);
    var o := graph.AddNodeToGraph(nd1);
    o := graph.AddNodeToGraph(nd2);
    o := graph.AddEdgeToGraph(e12, nd1);
    assert o == Pass;
    assert graph.adj[nd1] == [e12] && graph.adj[nd2] == [];

    var r := graph.HasThisNeighbour(nd1, nd2);
    assert r == Ok(true);
    r := graph.HasThisNeighbour(nd2, nd1);
    assert r == Ok(false);
    r := graph.AreNodesConectedByEdge(nd1, nd2);
    assert r == Ok(true);
    r := graph.AreNodesConectedByEdge(nd2, nd1);
    assert r == Ok(true);
  }

  /** Removing a node takes its edges with it, and it cannot be looked up
      afterwards. */
  method RemovedNodeIsGone() {
    var graph, nd1, nd2 := TwoLooseNodes();
    var e21 := new Edge(nd2, nd1);
    var o := graph.AddEdgeToGraph(e21, nd2);
    assert [] + [e21] == [e21];
    assert graph.adj.Keys == {nd1, nd2} && graph.adj[nd1] == [] && graph.adj[nd2] == [e21];

    o := graph.RemoveNodeFromGraph(nd1);
    assert o == Pass;
    assert nd2 in graph.adj && graph.adj[nd2] == Filter([e21], NotIncident(nd1));
    assert graph.adj[nd2] == [];
    var r := graph.HasThisNeighbour(nd1, nd2);
    assert r == Err(UnknownEntity);
  }

  /** A fresh store holding two nodes and no edge. */
  method TwoLooseNodes() returns (graph: GraphRepresentationModel, a: Node, b: Node)
    ensures fresh(graph) && graph.Valid() && a != b
    ensures graph.adj == map[a := [], b := []]
  {
    graph := new GraphRepresentationModel();
    a := new Node(0, 0, true);
    b := new Node(10, 0, true);
    var o := graph.AddNodeToGraph(a);
    o := graph.AddNodeToGraph(b);
  }

  /** Undo: a snapshot taken before some edits, restored afterwards, gives
      back exactly the graph it was taken from. */
  method UndoAfterEdits() {
    var graph := new GraphRepresentationModel();
    var a := new Node(0, 0, true);
    var b := new Node(5, 5, true);
    var o := graph.AddNodeToGraph(a);
    ghost var before := graph.State();
    var m := graph.CreateMemento();

    o := graph.AddNodeToGraph(b);
    var e := new Edge(a, b);
    o := graph.AddEdgeToGraph(e, a);
    o := graph.RemoveNodeFromGraph(a);
    assert a !in graph.adj;

    graph.RestoreFromMemento(Some(m));
    assert graph.State() == before;
    assert a in graph.adj && b !in graph.adj;
  }

  /** One editing operation of the store, with its arguments. */
  datatype Edit =
    | AddNodeEdit(n: Node)
    | AddEdgeEdit(e: Edge, owner: Node?)
    | RemoveNodeEdit(target: Node?)
    | RemoveEdgeEdit(edge: Edge?)

  /** Performs `edit` on `graph`; a failed edit changes nothing. */
  method ApplyEdit(graph: GraphRepresentationModel, edit: Edit)
    requires graph.Valid()
    modifies graph
    ensures graph.Valid()
  {
    var o: Outcome;
    match edit
    case AddNodeEdit(n) => o := graph.AddNodeToGraph(n);
    case AddEdgeEdit(e, owner) => o := graph.AddEdgeToGraph(e, owner);
    case RemoveNodeEdit(n) => o := graph.RemoveNodeFromGraph(n);
    case RemoveEdgeEdit(e) => o := graph.RemoveEdgeFromGraph(e);
  }

  /** Undo for any store and any edits: a memento taken before the edits and
      restored after them gives back exactly the store it was taken from. */
  method UndoAnyEdits(graph: GraphRepresentationModel, edits: seq<Edit>)
    requires graph.Valid()
    modifies graph
    ensures graph.Valid() && graph.State() == old(graph.State())
  {
    var m := graph.CreateMemento();
    for i := 0 to |edits|
      invariant graph.Valid()
    {
      ApplyEdit(graph, edits[i]);
    }
    graph.RestoreFromMemento(Some(m));
  }

  /** A fresh store holding three nodes and no edge. */
  method ThreeLooseNodes() returns (graph: GraphRepresentationModel, a: Node, b: Node, c: Node)
    ensures fresh(graph) && graph.Valid()
    ensures a != b && b != c && a != c
    ensures graph.adj == map[a := [], b := [], c := []]
  {
    graph := new GraphRepresentationModel();
    a := new Node(0, 0, true);
    b := new Node(10, 0, true);
    c := new Node(0, 10, true);
    var o := graph.AddNodeToGraph(a);
    o := graph.AddNodeToGraph(b);
    o := graph.AddNodeToGraph(c);
  }

  /** Two clicks after the first: each click on a node not yet connected to
      the start asks for one more edge from the same start. */
  method ChainedEdgeRequests() {
    var graph, a, b, c := ThreeLooseNodes();
    var editor := new EditorModel();
    var state := new EdgeInsertionModeState(graph, editor);

    var o := state.OnClientInteract(a);
    assert state.startEdgeNode == a && editor.selectedNode == a;
    o := state.OnClientInteract(b);
    assert o == Pass && state.requestedEdges == [(a, b)];
    o := state.OnClientInteract(c);
    assert state.requestedEdges == [(a, b), (a, c)];
    assert state.startEdgeNode == a;
  }

  /** A click on no node is ignored; a second click on the start asks for a
      self-edge; leaving the mode forgets the start and the selection. */
  method SelfEdgeThenLeave() {
    var graph := new GraphRepresentationModel();
    var a := new Node(0, 0, true);
    var o := graph.AddNodeToGraph(a);
    var editor := new EditorModel();
    var state := new EdgeInsertionModeState(graph, editor);

    o := state.OnClientInteract(null);
    assert state.startEdgeNode == null && state.requestedEdges == [];
    o := state.OnClientInteract(a);
    o := state.OnClientInteract(a);
    assert state.requestedEdges == [(a, a)];

    state.TurnOnIdleMode();
    assert state.startEdgeNode == null && editor.selectedNode == null;
    assert state.mode == Idle;
  }

  /** A click already connected to the start is ignored. */
  method ConnectedClickIgnored() {
    var graph := new GraphRepresentationModel();
    var a := new Node(0, 0, true);
    var b := new Node(10, 0, true);
    var o := graph.AddNodeToGraph(a);
    o := graph.AddNodeToGraph(b);
    var e := new Edge(b, a);
    o := graph.AddEdgeToGraph(e, b);
    var editor := new EditorModel();
    var state := new EdgeInsertionModeState(graph, editor);

    o := state.OnClientInteract(a);
    o := state.OnClientInteract(b);
    assert o == Pass && state.requestedEdges == [] && state.startEdgeNode == a;
  }

  /** An undo between the two clicks removes the start node from the graph;
      nothing clears the start, so the next click fails with
      `UnknownEntity` and asks for no edge. */
  method UndoBetweenClicks() {
    var graph := new GraphRepresentationModel();
    var m := graph.CreateMemento();
    var a := new Node(0, 0, true);
    var b := new Node(10, 0, true);
    var o := graph.AddNodeToGraph(a);
    o := graph.AddNodeToGraph(b);
    var editor := new EditorModel();
    var state := new EdgeInsertionModeState(graph, editor);

    o := state.OnClientInteract(a);
    graph.RestoreFromMemento(Some(m));
    assert state.startEdgeNode == a && a !in graph.adj;
    o := state.OnClientInteract(b);
    assert o == Fail(UnknownEntity) && state.requestedEdges == [];
  }
}
