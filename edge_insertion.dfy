/** `EdgeInsertionModeState`: the editor state in which two clicks on nodes
    ask the presenter for an edge between them. */
module EditorStates {
  import opened Wrappers
  import opened Graph
  import opened GraphModel

  /** The editor's modes, between which the base state's `TurnOn*`
      transitions switch. */
  datatype Mode = Idle | NodeInsertion | EdgeInsertion | Drag | Deletion | ValueEdit

  /** The part of the editor model this state writes: the node the view
      highlights as selected. */
  class EditorModel {
    var selectedNode: Node?

    constructor ()
      ensures selectedNode == null
    {
      selectedNode := null;
    }
  }

  class EdgeInsertionModeState {
    const graphModel: GraphRepresentationModel
    const editorModel: EditorModel
    /** `_startEdgeNode`: the first node of the gesture, null until one is
        clicked. */
    var startEdgeNode: Node?
    /** `_endEdgeNode`: set only while an edge is being placed. */
    var endEdgeNode: Node?
    /** The mode the base state's transition last switched the editor to. */
    var mode: Mode
    /** The calls `GraphPresenter.AddEdge(start, end)` made so far, in order. */
    var requestedEdges: seq<(Node, Node)>

    /** Between calls no edge is half placed. */
    ghost predicate Valid()
      reads this
    {
      endEdgeNode == null
    }

    constructor (graphModel: GraphRepresentationModel, editorModel: EditorModel)
      ensures Valid()
      ensures this.graphModel == graphModel && this.editorModel == editorModel
      ensures startEdgeNode == null && mode == EdgeInsertion && requestedEdges == []
    {
      this.graphModel, this.editorModel := graphModel, editorModel;
      startEdgeNode, endEdgeNode := null, null;
      mode := EdgeInsertion;
      requestedEdges := [];
    }

    /** `OnClientInteract`, given the node the click's coordinates resolved
        to (`clicked`, null when they hit no node). A failure is the
        exception `AreNodesConectedByEdge` throws, which leaves every field as
        it was. */
    method OnClientInteract(clicked: Node?) returns (o: Outcome)
      requires Valid()
      modifies this, editorModel
      ensures Valid() && mode == old(mode)
      // A click on no node is ignored.
      ensures clicked == null ==>
                && o == Pass
                && startEdgeNode == old(startEdgeNode)
                && editorModel.selectedNode == old(editorModel.selectedNode)
                && requestedEdges == old(requestedEdges)
      // The first node clicked becomes the start and the selection.
      ensures clicked != null && old(startEdgeNode) == null ==>
                && o == Pass
                && startEdgeNode == clicked
                && editorModel.selectedNode == clicked
                && requestedEdges == old(requestedEdges)
      // Later clicks never move the start or the selection; they request an
      // edge from the start exactly when the two are not yet connected.
      ensures clicked != null && old(startEdgeNode) != null ==>
                && startEdgeNode == old(startEdgeNode)
                && editorModel.selectedNode == old(editorModel.selectedNode)
                && match Connected(graphModel.State(), old(startEdgeNode), clicked)
                   case Err(err) => o == Fail(err) && requestedEdges == old(requestedEdges)
                   case Ok(connected) =>
                     && o == Pass
                     && requestedEdges == old(requestedEdges) +
                                          (if connected then [] else [(old(startEdgeNode), clicked)])
      // A start node that is no longer in the graph makes the click fail.
      ensures clicked != null && old(startEdgeNode) != null && old(startEdgeNode) !in graphModel.adj ==>
                o == Fail(UnknownEntity) && requestedEdges == old(requestedEdges)
      // Clicking the start again asks for a self-edge unless one exists.
      ensures clicked != null && clicked == old(startEdgeNode) && clicked in graphModel.adj &&
              (forall e :: e in graphModel.adj[clicked] ==> e.n2 != clicked) ==>
                requestedEdges == old(requestedEdges) + [(clicked, clicked)]
    {
      if clicked == null {
        return Pass;
      }
      if startEdgeNode == null {
        SetFirstSelectedNode(clicked);
      } else if endEdgeNode == null {
        var connected := graphModel.AreNodesConectedByEdge(startEdgeNode, clicked);
        if connected.Err? {
          return Fail(connected.error);
        }
        if !connected.value {
          PlaceEdgeToGraph(clicked);
        }
      }
      o := Pass;
    }

    /** `SetFirstSelectedNode`. */
    method SetFirstSelectedNode(clicked: Node)
      modifies this, editorModel
      ensures startEdgeNode == clicked && editorModel.selectedNode == clicked
      ensures endEdgeNode == old(endEdgeNode) && mode == old(mode)
      ensures requestedEdges == old(requestedEdges)
    {
      startEdgeNode := clicked;
      editorModel.selectedNode := clicked;
    }

    /** `PlaceEdgeToGraph`: asks the presenter for the edge from the start to
        `clicked`; the start stays, so further clicks chain edges from it. */
    method PlaceEdgeToGraph(clicked: Node)
      requires startEdgeNode != null
      modifies this
      ensures requestedEdges == old(requestedEdges) + [(startEdgeNode, clicked)]
      ensures endEdgeNode == null
      ensures startEdgeNode == old(startEdgeNode) && mode == old(mode)
    {
      endEdgeNode := clicked;
      requestedEdges := requestedEdges + [(startEdgeNode, endEdgeNode)];
      endEdgeNode := null;
    }

    /** `ClearEdgeNodesData`: forgets the gesture and the selection. */
    method ClearEdgeNodesData()
      modifies this, editorModel
      ensures Valid()
      ensures startEdgeNode == null && editorModel.selectedNode == null
      ensures mode == old(mode) && requestedEdges == old(requestedEdges)
    {
      editorModel.selectedNode := null;
      startEdgeNode, endEdgeNode := null, null;
    }

    // -------------------------------------------------------------------
    // Leaving the mode: every transition but the one to this mode clears
    // the gesture before the base state switches modes.

    method TurnOnDeletationMode()
      modifies this, editorModel
      ensures Valid() && startEdgeNode == null && editorModel.selectedNode == null
      ensures mode == Deletion && requestedEdges == old(requestedEdges)
    {
      ClearEdgeNodesData();
      mode := Deletion;
    }

    method TurnOnDragMode()
      modifies this, editorModel
      ensures Valid() && startEdgeNode == null && editorModel.selectedNode == null
      ensures mode == Drag && requestedEdges == old(requestedEdges)
    {
      ClearEdgeNodesData();
      mode := Drag;
    }

    /** Already in this mode: nothing happens, the gesture survives. */
    method TurnOnEdgeInsertionMode()
      ensures unchanged(this, editorModel)
    {
      return;
    }

    method TurnOnIdleMode()
      modifies this, editorModel
      ensures Valid() && startEdgeNode == null && editorModel.selectedNode == null
      ensures mode == Idle && requestedEdges == old(requestedEdges)
    {
      ClearEdgeNodesData();
      mode := Idle;
    }

    method TurnOnNodeInsertionMode()
      modifies this, editorModel
      ensures Valid() && startEdgeNode == null && editorModel.selectedNode == null
      ensures mode == NodeInsertion && requestedEdges == old(requestedEdges)
    {
      ClearEdgeNodesData();
      mode := NodeInsertion;
    }

    method TurnOnValueEditState()
      modifies this, editorModel
      ensures Valid() && startEdgeNode == null && editorModel.selectedNode == null
      ensures mode == ValueEdit && requestedEdges == old(requestedEdges)
    {
      ClearEdgeNodesData();
      mode := ValueEdit;
    }
  }
}
