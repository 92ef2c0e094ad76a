/** `GraphRepresentationModel`: the editor's graph store, a single mutable
    dictionary from node to the list of edges stored under it. Each method
    does what the C# method does, loop for loop, and is proved to agree with
    the function of the same operation in module `Graph`. */
module GraphModel {
  import opened Wrappers
  import opened Sequences
  import opened Graph

  class GraphRepresentationModel {
    /** The order in which `_graphData` enumerates its keys. */
    var keys: seq<Node>
    /** `_graphData`: node to the edges stored under it. */
    var adj: map<Node, seq<Edge>>

    function State(): GraphState
      reads this
    {
      GraphState(keys, adj)
    }

    ghost predicate Valid()
      reads this
    {
      WellFormed(State())
    }

    constructor ()
      ensures Valid()
      ensures keys == [] && adj == map[]
    {
      keys, adj := [], map[];
    }

    // -------------------------------------------------------------------
    // History

    /** `CreateMemento`: a snapshot of the whole dictionary. */
    method CreateMemento() returns (m: GraphMemento)
      requires Valid()
      ensures m.state == State() && WellFormed(m.state)
    {
      m := GraphMemento(GraphState(keys, adj));
    }

    /** `RestoreFromMemento`: null changes nothing; otherwise the dictionary
        is replaced wholesale by the snapshot's. */
    method RestoreFromMemento(m: Option<GraphMemento>)
      requires Valid()
      requires m.Some? ==> WellFormed(m.value.state)
      modifies this
      ensures Valid()
      ensures State() == Restore(old(State()), m)
      ensures m.None? ==> State() == old(State())
      ensures m.Some? ==> State() == m.value.state
    {
      if m.None? {
        return;
      }
      keys, adj := m.value.state.keys, m.value.state.adj;
    }

    // -------------------------------------------------------------------
    // Queries

    /** `HasThisNeighbour`: scans the list stored under `b` for an edge whose
        second end point is `x`. */
    method HasThisNeighbour(b: Node, x: Node?) returns (r: Result<bool>)
      ensures b !in adj ==> r == Err(UnknownEntity)
      ensures b in adj ==> r == Ok(exists e :: e in adj[b] && e.n2 == x)
      ensures r == HasNeighbour(State(), b, x)
    {
      if b !in adj {
        return Err(UnknownEntity);
      }
      var edges := adj[b];
      for i := 0 to |edges|
        invariant forall j :: 0 <= j < i ==> edges[j].n2 != x
      {
        if edges[i].n2 == x {
          return Ok(true);
        }
      }
      return Ok(false);
    }

    /** `AreNodesConectedByEdge`: `HasThisNeighbour(a, b) ||
        HasThisNeighbour(b, a)`, evaluated left to right. */
    method AreNodesConectedByEdge(a: Node, b: Node) returns (r: Result<bool>)
      ensures r == Connected(State(), a, b)
      ensures a in adj && b in adj ==>
                r == Ok((exists e :: e in adj[a] && e.n2 == b) || (exists e :: e in adj[b] && e.n2 == a))
    {
      var first := HasThisNeighbour(a, b);
      if first.Err? {
        return first;
      }
      if first.value {
        return Ok(true);
      }
      r := HasThisNeighbour(b, a);
    }

    /** `GetConnectionsUndirected`: the edges stored under `b`, each with its
        second end point, then every edge stored under another key that ends
        at `b`, each with `b`. */
    method GetConnectionsUndirected(b: Node?) returns (r: Result<set<(Node, Edge)>>)
      requires Valid()
      ensures b == null ==> r == Err(InvalidArgument)
      ensures b != null && b !in adj ==> r == Err(UnknownEntity)
      ensures b != null && b in adj ==> r == Ok(Outgoing(adj[b]) + Incoming(State(), b))
    {
      if b == null {
        return Err(InvalidArgument);
      }
      if b !in adj {
        return Err(UnknownEntity);
      }
      var result: set<(Node, Edge)> := {};
      var own := adj[b];
      for i := 0 to |own|
        invariant result == Outgoing(own[..i])
      {
        assert own[..i + 1] == own[..i] + [own[i]];
        result := result + {(own[i].n2, own[i])};
      }
      assert own[..|own|] == own;
      for i := 0 to |keys|
        invariant result == Outgoing(own) + IncomingFrom(keys[..i], b)
      {
        var k := keys[i];
        assert keys[..i + 1] == keys[..i] + [k];
        if k != b {
          var list := adj[k];
          for j := 0 to |list|
            invariant result == Outgoing(own) + IncomingFrom(keys[..i], b) + EndingAt(list[..j], b)
          {
            assert list[..j + 1] == list[..j] + [list[j]];
            if list[j].n2 == b && (list[j].n2, list[j]) !in result {
              result := result + {(list[j].n2, list[j])};
            }
          }
          assert list[..|list|] == list;
        }
      }
      assert keys[..|keys|] == keys;
      assert IncomingFrom(keys, b) == Incoming(State(), b);
      return Ok(result);
    }

    /** The pairs `(b, e)` for the edges `e` of `list` that end at `b`. */
    ghost function EndingAt(list: seq<Edge>, b: Node): set<(Node, Edge)> {
      set e | e in list && e.n2 == b :: (e.n2, e)
    }

    /** The pairs the scan of the keys in `ks` contributes. */
    ghost function IncomingFrom(ks: seq<Node>, b: Node): set<(Node, Edge)>
      reads this
    {
      set k, e | k in ks && k in adj && k != b && e in adj[k] && e.n2 == b :: (e.n2, e)
    }

    /** `GetNodeInRadius`: the first key, in enumeration order, that is
        strictly within `radius` of `coord` and enabled; null if none is. */
    method GetNodeInRadius(coord: (int, int), radius: int) returns (found: Node?)
      ensures found == FirstInRadius(keys, coord, radius)
      ensures found != null ==> found in keys && Selectable(found, coord, radius)
      ensures found == null <==> forall n :: n in keys ==> !Selectable(n, coord, radius)
    {
      for i := 0 to |keys|
        invariant forall j :: 0 <= j < i ==> !Selectable(keys[j], coord, radius)
      {
        var n := keys[i];
        var dx, dy := n.x - coord.0, n.y - coord.1;
        if radius > 0 && dx * dx + dy * dy < radius * radius && n.enabled {
          FirstInRadiusIsFirst(keys, coord, radius, i);
          return n;
        }
      }
      return null;
    }

    /** `IsNodeInRadius`: whether `GetNodeInRadius` finds a node. */
    method IsNodeInRadius(coord: (int, int), radius: int) returns (r: bool)
      ensures r <==> FirstInRadius(keys, coord, radius) != null
      ensures r <==> exists n :: n in keys && Selectable(n, coord, radius)
    {
      var found := GetNodeInRadius(coord, radius);
      r := found != null;
    }

    // -------------------------------------------------------------------
    // Editing operations

    /** The `foreach` over `_graphData.Values` calling `RemoveAll` on each
        list: every list keeps only the edges satisfying `keep`, in order. */
    method RemoveAllFromEveryList(keep: Edge -> bool) returns (lists: map<Node, seq<Edge>>)
      requires Valid()
      ensures lists.Keys == adj.Keys
      ensures forall k :: k in adj ==> lists[k] == Filter(adj[k], keep)
    {
      lists := adj;
      for i := 0 to |keys|
        invariant lists.Keys == adj.Keys
        invariant forall k :: k in keys[..i] ==> lists[k] == Filter(adj[k], keep)
        invariant forall k :: k in adj && k !in keys[..i] ==> lists[k] == adj[k]
      {
        var k := keys[i];
        assert keys[..i + 1] == keys[..i] + [k];
        assert k !in keys[..i] by {
          forall j | 0 <= j < i ensures keys[j] != k { }
        }
        lists := lists[k := Filter(lists[k], keep)];
      }
      assert keys[..|keys|] == keys;
    }

    /** `AddNodeToGraph`. */
    method AddNodeToGraph(n: Node) returns (o: Outcome)
      requires Valid()
      modifies this
      ensures Valid()
      ensures o == OutcomeOf(AddNode(old(State()), n))
      ensures State() == NextState(old(State()), AddNode(old(State()), n))
    {
      if n in adj {
        return Fail(DuplicateEntity);
      }
      adj := adj[n := []];
      keys := keys + [n];
      o := Pass;
    }

    /** `AddEdgeToGraph`: appends `e` to the list of `owner`. */
    method AddEdgeToGraph(e: Edge, owner: Node?) returns (o: Outcome)
      requires Valid()
      modifies this
      ensures Valid()
      ensures o == OutcomeOf(AddEdge(old(State()), e, owner))
      ensures State() == NextState(old(State()), AddEdge(old(State()), e, owner))
    {
      if owner == null {
        return Fail(InvalidArgument);
      }
      if owner !in adj {
        return Fail(UnknownEntity);
      }
      if e in adj[owner] {
        return Fail(DuplicateEntity);
      }
      adj := adj[owner := adj[owner] + [e]];
      o := Pass;
    }

    /** `RemoveNodeFromGraph`: `RemoveAll` of the incident edges on every
        list, then removal of the key. */
    method RemoveNodeFromGraph(n: Node?) returns (o: Outcome)
      requires Valid()
      modifies this
      ensures Valid()
      ensures o == OutcomeOf(RemoveNode(old(State()), n))
      ensures State() == NextState(old(State()), RemoveNode(old(State()), n))
    {
      if n == null {
        return Fail(InvalidArgument);
      }
      if n !in adj {
        return Fail(UnknownEntity);
      }
      var lists := RemoveAllFromEveryList(NotIncident(n));
      ghost var expected := RemoveNode(State(), n).value;
      assert WellFormed(expected);
      var remaining := lists - {n};
      assert remaining.Keys == expected.adj.Keys;
      forall k | k in remaining ensures remaining[k] == expected.adj[k] { }
      assert remaining == expected.adj;
      adj := remaining;
      keys := Filter(keys, OtherThan(n));
      assert State() == expected;
      o := Pass;
    }

    /** `RemoveEdgeFromGraph`: `RemoveAll` of the edge on every list. */
    method RemoveEdgeFromGraph(e: Edge?) returns (o: Outcome)
      requires Valid()
      modifies this
      ensures Valid()
      ensures o == OutcomeOf(RemoveEdge(old(State()), e))
      ensures State() == NextState(old(State()), RemoveEdge(old(State()), e))
    {
      if e == null {
        return Fail(InvalidArgument);
      }
      var lists := RemoveAllFromEveryList(NotThisEdge(e));
      ghost var expected := RemoveEdge(State(), e).value;
      adj := lists;
      assert adj == expected.adj;
      o := Pass;
    }
  }
}
