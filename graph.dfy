/** The graph store's entities and its state as a value: every operation of
    `GraphRepresentationModel` written as a function from the old state to
    the result, and the properties the store promises proved about them. */
module Graph {
  import opened Wrappers
  import opened Sequences

  /** A vertex. Compared by reference; coordinates and the enabled flag of
      its payload are changed in place by other parts of the editor. */
  class Node {
    var x: int
    var y: int
    var enabled: bool

    constructor (x: int, y: int, enabled: bool)
      ensures this.x == x && this.y == y && this.enabled == enabled
    {
      this.x, this.y, this.enabled := x, y, enabled;
    }
  }

  /** An edge record from `n1` to `n2`. Compared by reference; it does not own
      its end points. Its rendering payload is not modelled. */
  class Edge {
    const n1: Node
    const n2: Node

    constructor (n1: Node, n2: Node)
      ensures this.n1 == n1 && this.n2 == n2
    {
      this.n1, this.n2 := n1, n2;
    }
  }

  /** The dictionary `_graphData`: `adj` maps each node to the edges stored
      under it, and `keys` is the order in which the dictionary enumerates
      its keys. */
  datatype GraphState = GraphState(keys: seq<Node>, adj: map<Node, seq<Edge>>)

  /** A snapshot of the whole dictionary, taken and restored as a value. */
  datatype GraphMemento = GraphMemento(state: GraphState)

  /** The store's invariant: the enumeration order lists each key exactly
      once, and no edge is stored twice under the same node. */
  predicate WellFormed(g: GraphState) {
    && Distinct(g.keys)
    && (forall n :: n in g.keys ==> n in g.adj)
    && (forall n :: n in g.adj ==> n in g.keys)
    && (forall n :: n in g.adj ==> Distinct(g.adj[n]))
  }

  /** The state after an operation: a failed operation throws before it
      changes anything. */
  function NextState(g: GraphState, r: Result<GraphState>): GraphState {
    if r.Ok? then r.value else g
  }

  /** What the caller observes of an operation that returns nothing. */
  function OutcomeOf(r: Result<GraphState>): Outcome {
    if r.Ok? then Pass else Fail(r.error)
  }

  // ---------------------------------------------------------------------
  // Editing operations

  /** `AddNodeToGraph`: a new key with an empty edge list. */
  function AddNode(g: GraphState, n: Node): (r: Result<GraphState>)
    ensures r.Err? <==> n in g.adj
    ensures r.Err? ==> r.error == DuplicateEntity
    ensures r.Ok? ==> && r.value.keys == g.keys + [n]
                      && r.value.adj.Keys == g.adj.Keys + {n}
                      && r.value.adj[n] == []
                      && forall k :: k in g.adj ==> r.value.adj[k] == g.adj[k]
    ensures WellFormed(g) && r.Ok? ==> WellFormed(r.value)
  {
    if n in g.adj then Err(DuplicateEntity)
    else Ok(GraphState(g.keys + [n], g.adj[n := []]))
  }

  /** `AddEdgeToGraph`: append `e` to the list of `owner`, whichever its end
      points are. */
  function AddEdge(g: GraphState, e: Edge, owner: Node?): (r: Result<GraphState>)
    ensures owner == null ==> r == Err(InvalidArgument)
    ensures owner != null && owner !in g.adj ==> r == Err(UnknownEntity)
    ensures owner != null && owner in g.adj && e in g.adj[owner] ==> r == Err(DuplicateEntity)
    ensures r.Ok? <==> owner != null && owner in g.adj && e !in g.adj[owner]
    ensures r.Ok? ==> && r.value.keys == g.keys
                      && r.value.adj.Keys == g.adj.Keys
                      && r.value.adj[owner] == g.adj[owner] + [e]
                      && forall k :: k in g.adj && k != owner ==> r.value.adj[k] == g.adj[k]
    ensures WellFormed(g) && r.Ok? ==> WellFormed(r.value)
  {
    if owner == null then Err(InvalidArgument)
    else if owner !in g.adj then Err(UnknownEntity)
    else if e in g.adj[owner] then Err(DuplicateEntity)
    else
      var r := GraphState(g.keys, g.adj[owner := g.adj[owner] + [e]]);
      assert WellFormed(g) ==> WellFormed(r) by {
        if WellFormed(g) {
          var s := g.adj[owner];
          forall i, j | 0 <= i < j < |s + [e]| ensures (s + [e])[i] != (s + [e])[j] {
            if j == |s| { assert (s + [e])[i] == s[i] && s[i] in s; }
          }
        }
      }
      Ok(r)
  }

  /** The keys that survive the removal of node `n`. */
  function OtherThan(n: Node): Node -> bool {
    (k: Node) => k != n
  }

  /** The edges that survive the removal of node `n`: those not touching it. */
  function NotIncident(n: Node): Edge -> bool {
    (e: Edge) => e.n1 != n && e.n2 != n
  }

  /** The edges that survive the removal of edge `e`. */
  function NotThisEdge(e: Edge): Edge -> bool {
    (x: Edge) => x != e
  }

  /** `RemoveNodeFromGraph`: every edge touching `n`, in every list, goes, and
      then the key `n` goes. */
  function RemoveNode(g: GraphState, n: Node?): (r: Result<GraphState>)
    ensures n == null ==> r == Err(InvalidArgument)
    ensures n != null && n !in g.adj ==> r == Err(UnknownEntity)
    ensures r.Ok? <==> n != null && n in g.adj
    ensures r.Ok? ==> && r.value.adj.Keys == g.adj.Keys - {n}
                      && r.value.keys == Filter(g.keys, OtherThan(n))
                      && forall k :: k in r.value.adj ==> r.value.adj[k] == Filter(g.adj[k], NotIncident(n))
    ensures WellFormed(g) && r.Ok? ==> WellFormed(r.value)
  {
    if n == null then Err(InvalidArgument)
    else if n !in g.adj then Err(UnknownEntity)
    else
      var r := GraphState(Filter(g.keys, OtherThan(n)),
                          map k | k in g.adj && k != n :: Filter(g.adj[k], NotIncident(n)));
      assert WellFormed(g) ==> WellFormed(r) by {
        if WellFormed(g) {
          FilterDistinct(g.keys, OtherThan(n));
          forall k | k in r.adj ensures Distinct(r.adj[k]) {
            FilterDistinct(g.adj[k], NotIncident(n));
          }
        }
      }
      Ok(r)
  }

  /** `RemoveEdgeFromGraph`: every occurrence of `e`, in every list, goes;
      the keys stay. */
  function RemoveEdge(g: GraphState, e: Edge?): (r: Result<GraphState>)
    ensures r.Err? <==> e == null
    ensures r.Err? ==> r.error == InvalidArgument
    ensures r.Ok? ==> && r.value.keys == g.keys
                      && r.value.adj.Keys == g.adj.Keys
                      && forall k :: k in g.adj ==> r.value.adj[k] == Filter(g.adj[k], NotThisEdge(e))
    ensures WellFormed(g) && r.Ok? ==> WellFormed(r.value)
  {
    if e == null then Err(InvalidArgument)
    else
      var r := GraphState(g.keys, map k | k in g.adj :: Filter(g.adj[k], NotThisEdge(e)));
      assert WellFormed(g) ==> WellFormed(r) by {
        if WellFormed(g) {
          forall k | k in r.adj ensures Distinct(r.adj[k]) {
            FilterDistinct(g.adj[k], NotThisEdge(e));
          }
        }
      }
      Ok(r)
  }

  // ---------------------------------------------------------------------
  // Queries

  /** `HasThisNeighbour`: directional, looks only at the list stored under
      `b`. */
  function HasNeighbour(g: GraphState, b: Node, x: Node?): (r: Result<bool>)
    ensures r.Err? <==> b !in g.adj
    ensures r.Err? ==> r.error == UnknownEntity
    ensures r.Ok? ==> (r.value <==> exists i :: 0 <= i < |g.adj[b]| && g.adj[b][i].n2 == x)
  {
    if b !in g.adj then Err(UnknownEntity)
    else Ok(exists e :: e in g.adj[b] && e.n2 == x)
  }

  /** `AreNodesConectedByEdge`: `HasNeighbour(a, b) || HasNeighbour(b, a)`
      with C#'s left-to-right short circuit, so the second lookup, and the
      error it may raise, happens only when the first answers false. */
  function Connected(g: GraphState, a: Node, b: Node): (r: Result<bool>)
    ensures a !in g.adj ==> r == Err(UnknownEntity)
    ensures a in g.adj && b in g.adj ==>
              r == Ok(HasNeighbour(g, a, b).value || HasNeighbour(g, b, a).value)
    ensures HasNeighbour(g, a, b) == Ok(true) ==> r == Ok(true)
    ensures HasNeighbour(g, a, b) == Ok(false) && b !in g.adj ==> r == Err(UnknownEntity)
  {
    match HasNeighbour(g, a, b)
    case Err(err) => Err(err)
    case Ok(found) => if found then Ok(true) else HasNeighbour(g, b, a)
  }

  /** The pairs contributed by the edges stored under the base node. */
  function Outgoing(own: seq<Edge>): set<(Node, Edge)> {
    set e | e in own :: (e.n2, e)
  }

  /** The pairs contributed by edges stored under other nodes that end at
      `b`; each is reported with `b` itself as its first component. */
  function Incoming(g: GraphState, b: Node): set<(Node, Edge)> {
    set k, e | k in g.adj && k != b && e in g.adj[k] && e.n2 == b :: (e.n2, e)
  }

  /** `GetConnectionsUndirected`. */
  function ConnectionsUndirected(g: GraphState, b: Node?): (r: Result<set<(Node, Edge)>>)
    ensures b == null ==> r == Err(InvalidArgument)
    ensures b != null && b !in g.adj ==> r == Err(UnknownEntity)
    ensures r.Ok? <==> b != null && b in g.adj
    // Every edge stored under `b` is reported with its second end point ...
    ensures r.Ok? ==> forall e :: e in g.adj[b] ==> (e.n2, e) in r.value
    // ... and every reported edge is stored under `b` or ends at `b`.
    ensures r.Ok? ==> forall p :: p in r.value ==>
                        p.0 == p.1.n2 && (p.1 in g.adj[b] || p.0 == b)
  {
    if b == null then Err(InvalidArgument)
    else if b !in g.adj then Err(UnknownEntity)
    else Ok(Outgoing(g.adj[b]) + Incoming(g, b))
  }

  /** Integer form of `Math.Sqrt(dx² + dy²) < radius && node.Data.IsEnabled`:
      a square root is below `radius` exactly when `radius` is positive and
      the squared distance is below its square. */
  function Selectable(n: Node, coord: (int, int), radius: int): (r: bool)
    reads n
    // A selectable node is enabled and within `radius` along each axis ...
    ensures r ==> n.enabled && -radius < n.x - coord.0 < radius && -radius < n.y - coord.1 < radius
    // ... and an enabled node exactly at `coord` is selectable for any
    // positive radius.
    ensures n.enabled && n.x == coord.0 && n.y == coord.1 && radius > 0 ==> r
  {
    var dx, dy := n.x - coord.0, n.y - coord.1;
    var r := radius > 0 && dx * dx + dy * dy < radius * radius && n.enabled;
    assert r ==> -radius < dx < radius && -radius < dy < radius by {
      if r {
        SquareBelow(dx, radius);
        SquareBelow(dy, radius);
      }
    }
    r
  }

  /** A square below `radius²` comes from a number strictly between
      `-radius` and `radius`; squares are never negative. */
  lemma SquareBelow(d: int, radius: int)
    requires radius > 0
    ensures d * d >= 0
    ensures d * d < radius * radius ==> -radius < d < radius
  {
  }

  /** `GetNodeInRadius`: the first node, in enumeration order, that is
      enabled and strictly within `radius` of `coord`; null if none is. */
  function FirstInRadius(ks: seq<Node>, coord: (int, int), radius: int): (found: Node?)
    reads ks
    ensures found != null ==> found in ks && Selectable(found, coord, radius)
    ensures found == null ==> forall n :: n in ks ==> !Selectable(n, coord, radius)
  {
    if ks == [] then null
    else if Selectable(ks[0], coord, radius) then ks[0]
    else FirstInRadius(ks[1..], coord, radius)
  }

  /** `RestoreFromMemento`: a null memento changes nothing, any other
      replaces the whole dictionary. */
  function Restore(g: GraphState, m: Option<GraphMemento>): (r: GraphState)
    ensures m.None? ==> r == g
    ensures m.Some? ==> r == m.value.state
    ensures WellFormed(g) && (m.Some? ==> WellFormed(m.value.state)) ==> WellFormed(r)
  {
    if m.None? then g else m.value.state
  }

  // ---------------------------------------------------------------------
  // Properties

  /** Adding a node twice: the second attempt is rejected as a duplicate. */
  lemma AddNodeTwice(g: GraphState, n: Node)
    requires n !in g.adj
    ensures AddNode(g, n).Ok?
    ensures AddNode(AddNode(g, n).value, n) == Err(DuplicateEntity)
  {
  }

  /** Edges are stored on one side only: after `e = (n1, n2)` is added under
      `n1`, `n1` has `n2` as a neighbour but not the other way round (unless
      `n2` already stored an edge ending at `n1`), while the undirected test
      sees the connection from both sides. */
  lemma AsymmetricStorage(g: GraphState, e: Edge)
    requires e.n1 in g.adj && e.n2 in g.adj && e.n1 != e.n2
    requires e !in g.adj[e.n1]
    requires HasNeighbour(g, e.n2, e.n1) == Ok(false)
    ensures AddEdge(g, e, e.n1).Ok?
    ensures var g' := AddEdge(g, e, e.n1).value;
            && HasNeighbour(g', e.n1, e.n2) == Ok(true)
            && HasNeighbour(g', e.n2, e.n1) == Ok(false)
            && Connected(g', e.n1, e.n2) == Ok(true)
            && Connected(g', e.n2, e.n1) == Ok(true)
  {
  }

  /** Querying the neighbours of a node that is not in the store raises
      `UnknownEntity` rather than answering false. */
  lemma HasNeighbourOfAbsent(g: GraphState, b: Node, x: Node)
    requires b !in g.adj
    ensures HasNeighbour(g, b, x) == Err(UnknownEntity)
    ensures Connected(g, b, x) == Err(UnknownEntity)
  {
  }

  /** The undirected test does not depend on the order of its arguments when
      both are keys. */
  lemma ConnectedSymmetric(g: GraphState, a: Node, b: Node)
    requires a in g.adj && b in g.adj
    ensures Connected(g, a, b) == Connected(g, b, a)
  {
  }

  /** After a node is removed it is no longer a key, no edge anywhere touches
      it, every other key stays, and looking it up raises `UnknownEntity`. */
  lemma RemoveNodeCascades(g: GraphState, n: Node)
    requires WellFormed(g) && n in g.adj
    ensures RemoveNode(g, n).Ok?
    ensures var g' := RemoveNode(g, n).value;
            && n !in g'.adj && n !in g'.keys
            && (forall k :: k in g.adj && k != n ==> k in g'.adj)
            && (forall k, e :: k in g'.adj && e in g'.adj[k] ==> e in g.adj[k] && e.n1 != n && e.n2 != n)
            && HasNeighbour(g', n, n) == Err(UnknownEntity)
            && RemoveNode(g', n) == Err(UnknownEntity)
  {
  }

  /** Removing a node keeps the surviving edges of a list in their order: if
      the list was `a + b`, it becomes the survivors of `a` followed by the
      survivors of `b`. */
  lemma RemoveNodeKeepsOrder(g: GraphState, n: Node, k: Node, a: seq<Edge>, b: seq<Edge>)
    requires n in g.adj && k in g.adj && k != n && g.adj[k] == a + b
    ensures RemoveNode(g, n).Ok?
    ensures RemoveNode(g, n).value.adj[k] == Filter(a, NotIncident(n)) + Filter(b, NotIncident(n))
  {
    FilterAppend(a, b, NotIncident(n));
  }

  /** After an edge is removed it occurs in no list, and every other edge
      stays where it was. */
  lemma RemoveEdgeRemovesAll(g: GraphState, e: Edge)
    ensures RemoveEdge(g, e).Ok?
    ensures var g' := RemoveEdge(g, e).value;
            forall k, x :: k in g'.adj && x in g'.adj[k] ==> x != e && x in g.adj[k]
    ensures var g' := RemoveEdge(g, e).value;
            forall k, x :: k in g.adj && x in g.adj[k] && x != e ==> x in g'.adj[k]
  {
  }

  /** Removing an edge that is stored nowhere leaves the store as it was. */
  lemma RemoveAbsentEdge(g: GraphState, e: Edge)
    requires forall k :: k in g.adj ==> e !in g.adj[k]
    ensures RemoveEdge(g, e) == Ok(g)
  {
    var g' := RemoveEdge(g, e).value;
    forall k | k in g.adj ensures g'.adj[k] == g.adj[k] {
      FilterKeepsAll(g.adj[k], NotThisEdge(e));
    }
    assert g'.adj == g.adj;
  }

  /** Removing the same edge twice is removing it once. */
  lemma RemoveEdgeIdempotent(g: GraphState, e: Edge)
    ensures RemoveEdge(g, e).Ok?
    ensures RemoveEdge(RemoveEdge(g, e).value, e) == RemoveEdge(g, e)
  {
    var g1 := RemoveEdge(g, e).value;
    RemoveEdgeRemovesAll(g, e);
    RemoveAbsentEdge(g1, e);
  }

  /** Exactly which pairs the undirected scan reports: `(e.n2, e)` for the
      edges stored under `b`, and `(b, e)` for an edge stored under another
      key that ends at `b`. */
  lemma ConnectionsMembership(g: GraphState, b: Node, m: Node, e: Edge)
    requires b in g.adj
    ensures ConnectionsUndirected(g, b).Ok?
    ensures (m, e) in ConnectionsUndirected(g, b).value <==>
              || (e in g.adj[b] && m == e.n2)
              || (m == b && e.n2 == b && exists k :: k in g.adj && k != b && e in g.adj[k])
  {
  }

  /** The undirected scan sees every connection the undirected test sees:
      `b` and another key `x` are connected exactly when the scan reports a
      pair `(x, e)`, or a pair `(b, e)` whose edge is stored under `x`. */
  lemma ConnectionsCoverConnected(g: GraphState, b: Node, x: Node)
    requires b in g.adj && x in g.adj && b != x
    ensures ConnectionsUndirected(g, b).Ok?
    ensures var r := ConnectionsUndirected(g, b).value;
            Connected(g, b, x) == Ok(true) <==>
              || (exists e :: (x, e) in r)
              || (exists e :: (b, e) in r && e in g.adj[x])
  {
    var r := ConnectionsUndirected(g, b).value;
    if HasNeighbour(g, b, x) == Ok(true) {
      var e :| e in g.adj[b] && e.n2 == x;
      assert (x, e) in Outgoing(g.adj[b]);
    } else if HasNeighbour(g, x, b) == Ok(true) {
      var e :| e in g.adj[x] && e.n2 == b;
      assert (e.n2, e) in Incoming(g, b);
    }
    if exists e :: (x, e) in r {
      var e :| (x, e) in r;
      ConnectionsMembership(g, b, x, e);
    }
    if exists e :: (b, e) in r && e in g.adj[x] {
      var e :| (b, e) in r && e in g.adj[x];
      ConnectionsMembership(g, b, b, e);
    }
  }

  /** `FirstInRadius` returns the first match: if `ks[i]` is selectable and
      nothing before it is, the answer is `ks[i]`. */
  lemma {:induction false} FirstInRadiusIsFirst(ks: seq<Node>, coord: (int, int), radius: int, i: nat)
    requires i < |ks| && Selectable(ks[i], coord, radius)
    requires forall j :: 0 <= j < i ==> !Selectable(ks[j], coord, radius)
    ensures FirstInRadius(ks, coord, radius) == ks[i]
  {
    if i > 0 {
      FirstInRadiusIsFirst(ks[1..], coord, radius, i - 1);
    }
  }

  /** Restoring a snapshot gives back exactly the state it was taken from,
      whatever happened in between. */
  lemma RestoreSnapshot(before: GraphState, now: GraphState)
    ensures Restore(now, Some(GraphMemento(before))) == before
    ensures Restore(now, None) == now
  {
  }
}
