/** The graph store of the older engine (src/roadgraph/MapGraph.java): a
    collection of nodes, each holding its own outgoing segments. The source
    keeps the nodes in a hash set; the model keeps them as a sequence in the
    set's iteration order, which every scan of the source follows. */
module LegacyGraph {
  import opened Options
  import opened Geography
  import opened LegacyNode

  datatype Graph = Graph(nodes: seq<Node>)

  /** The graph a fresh MapGraph() holds. */
  function EmptyGraph(): Graph {
    Graph([])
  }

  /** Some node of `nodes` sits at `p`. */
  predicate HasLocation(nodes: seq<Node>, p: GeographicPoint) {
    exists i :: 0 <= i < |nodes| && nodes[i].location == p
  }

  /** No two nodes share a location: what the source means the node set to be. */
  predicate Valid(g: Graph) {
    forall i, j | 0 <= i < j < |g.nodes| :: g.nodes[i].location != g.nodes[j].location
  }

  /** The locations of the nodes, as a set. */
  function Locations(nodes: seq<Node>): set<GeographicPoint> {
    set i | 0 <= i < |nodes| :: nodes[i].location
  }

  /** The position of the first node at `p`, the one every scan of the
      source stops at. */
  function IndexOf(nodes: seq<Node>, p: GeographicPoint): (r: Option<nat>)
    ensures r.None? <==> !HasLocation(nodes, p)
    ensures r.Some? ==> r.value < |nodes| && nodes[r.value].location == p
    ensures r.Some? ==> forall j | 0 <= j < r.value :: nodes[j].location != p
  {
    if |nodes| == 0 then None
    else if nodes[0].location == p then Some(0)
    else
      match IndexOf(nodes[1..], p)
      case None =>
        assert forall i | 1 <= i < |nodes| :: nodes[i] == nodes[1..][i - 1];
        None
      case Some(k) =>
        assert nodes[k + 1] == nodes[1..][k];
        Some(k + 1)
  }

  /** The first node at `p`, if any. */
  function NodeAt(nodes: seq<Node>, p: GeographicPoint): (r: Option<Node>)
    ensures r.None? <==> !HasLocation(nodes, p)
    ensures r.Some? ==> r.value in nodes && r.value.location == p
  {
    match IndexOf(nodes, p)
    case None => None
    case Some(k) => Some(nodes[k])
  }

  /** `getNumVertices`: the size of the node collection. */
  function NumVertices(g: Graph): nat {
    |g.nodes|
  }

  /** The number of segments held by the nodes, summed from the front. */
  ghost function SumDegrees(nodes: seq<Node>): nat {
    if |nodes| == 0 then 0 else SumDegrees(nodes[..|nodes| - 1]) + |nodes[|nodes| - 1].edges|
  }

  /** `getVertices`: collects the location of every node into a new set. */
  method GetVertices(g: Graph) returns (r: set<GeographicPoint>)
    ensures forall p :: p in r <==> HasLocation(g.nodes, p)
  {
    r := {};
    for i := 0 to |g.nodes|
      invariant forall p :: p in r <==> exists j :: 0 <= j < i && g.nodes[j].location == p
    {
      r := r + {g.nodes[i].location};
    }
  }

  /** `getNumEdges`: adds up the lengths of the nodes' segment lists. */
  method GetNumEdges(g: Graph) returns (total: nat)
    ensures total == SumDegrees(g.nodes)
  {
    total := 0;
    for i := 0 to |g.nodes|
      invariant total == SumDegrees(g.nodes[..i])
    {
      assert g.nodes[..i + 1][..i] == g.nodes[..i];
      total := total + |g.nodes[i].edges|;
    }
    assert g.nodes[..|g.nodes|] == g.nodes;
  }

  /** `addVertex` as intended by its documentation: a location already
      present leaves the graph unchanged and answers false; otherwise a node
      with no segments is added and the answer is true. */
  function AddVertex(g: Graph, location: GeographicPoint): (r: (Graph, bool))
    ensures r.1 <==> !HasLocation(g.nodes, location)
    ensures r.1 ==> r.0.nodes == g.nodes + [NewNode(location)]
    ensures !r.1 ==> r.0 == g
    ensures HasLocation(r.0.nodes, location)
    ensures Valid(g) ==> Valid(r.0)
    ensures NumVertices(r.0) == NumVertices(g) + (if r.1 then 1 else 0)
  {
    if HasLocation(g.nodes, location) then (g, false)
    else
      var nodes := g.nodes + [NewNode(location)];
      assert nodes[|g.nodes|].location == location;
      (Graph(nodes), true)
  }

  /** `addVertex` as written. The membership test of the source's hash set
      looks a node up by hash code first, and Node does not override
      `hashCode`, so a fresh node finds an equal one only on the rare
      identity-hash collision `hashHit`; otherwise it is added next to a node
      at the same location. */
  function AddVertexAsWritten(g: Graph, location: GeographicPoint, hashHit: bool): (r: (Graph, bool))
    ensures r.1 <==> !(hashHit && HasLocation(g.nodes, location))
    ensures r.1 ==> r.0.nodes == g.nodes + [NewNode(location)]
    ensures !r.1 ==> r.0 == g
  {
    if hashHit && HasLocation(g.nodes, location) then (g, false)
    else (Graph(g.nodes + [NewNode(location)]), true)
  }

  /** Adding the same location twice without a hash collision keeps two
      nodes at one location: the count of vertices is 2 while the set of
      vertices has one element. */
  lemma DuplicateVertex(p: GeographicPoint)
    ensures var (g1, added1) := AddVertexAsWritten(EmptyGraph(), p, false);
            var (g2, added2) := AddVertexAsWritten(g1, p, false);
            && added1 && added2
            && NumVertices(g2) == 2
            && Locations(g2.nodes) == {p}
            && !Valid(g2)
  {
    var g2 := Graph([NewNode(p), NewNode(p)]);
    assert AddVertexAsWritten(AddVertexAsWritten(EmptyGraph(), p, false).0, p, false).0 == g2;
    assert g2.nodes[0].location == g2.nodes[1].location;
  }

  /** With the intended test, a second insertion of a location is refused and
      changes nothing. */
  lemma AddVertexIdempotent(g: Graph, p: GeographicPoint)
    ensures var g1 := AddVertex(g, p).0;
            AddVertex(g1, p) == (g1, false)
  {
  }

  /** With distinct locations the number of vertices is the number of
      distinct locations. */
  lemma {:induction false} VertexCount(nodes: seq<Node>)
    requires Valid(Graph(nodes))
    ensures |Locations(nodes)| == |nodes|
  {
    if |nodes| > 0 {
      var front := nodes[..|nodes| - 1];
      var last := nodes[|nodes| - 1].location;
      forall i, j | 0 <= i < j < |front| ensures front[i].location != front[j].location {
        assert front[i] == nodes[i] && front[j] == nodes[j];
      }
      VertexCount(front);
      LocationsSnoc(nodes);
      forall i | 0 <= i < |front| ensures front[i].location != last {
        assert front[i] == nodes[i];
      }
      assert last !in Locations(front);
    }
  }

  /** The locations of a non-empty sequence are those of all but its last
      node, plus the last node's. */
  lemma LocationsSnoc(nodes: seq<Node>)
    requires |nodes| > 0
    ensures Locations(nodes) == Locations(nodes[..|nodes| - 1]) + {nodes[|nodes| - 1].location}
  {
    var front := nodes[..|nodes| - 1];
    var last := nodes[|nodes| - 1].location;
    forall p | p in Locations(nodes) ensures p in Locations(front) + {last} {
      var i :| 0 <= i < |nodes| && nodes[i].location == p;
      if i < |nodes| - 1 {
        assert front[i] == nodes[i];
      }
    }
    forall p | p in Locations(front) ensures p in Locations(nodes) {
      var i :| 0 <= i < |front| && front[i].location == p;
      assert nodes[i] == front[i];
    }
  }

  /** Replacing one node changes the segment count by the difference of the
      two segment lists. */
  lemma {:induction false} SumDegreesUpdate(nodes: seq<Node>, k: nat, n: Node)
    requires k < |nodes|
    ensures SumDegrees(nodes[k := n]) + |nodes[k].edges| == SumDegrees(nodes) + |n.edges|
  {
    var m := |nodes| - 1;
    if k < m {
      assert nodes[k := n][..m] == nodes[..m][k := n];
      SumDegreesUpdate(nodes[..m], k, n);
    } else {
      assert nodes[k := n][..m] == nodes[..m];
    }
  }

  /** `addEdge`: scans the nodes and appends the new segment to the first one
      at `from`, then stops; if no node is at `from` the graph is unchanged.
      The destination is not checked. */
  method AddEdge(g: Graph, from: GeographicPoint, to: GeographicPoint, roadName: string,
                 roadType: string, length: real) returns (g': Graph)
    ensures |g'.nodes| == |g.nodes|
    ensures forall i | 0 <= i < |g.nodes| :: g'.nodes[i].location == g.nodes[i].location
    ensures !HasLocation(g.nodes, from) ==> g' == g
    ensures HasLocation(g.nodes, from) ==>
              var k := IndexOf(g.nodes, from).value;
              && g'.nodes[k].edges == g.nodes[k].edges + [Edge(to, roadName, roadType, length)]
              && forall i | 0 <= i < |g.nodes| && i != k :: g'.nodes[i] == g.nodes[i]
    ensures SumDegrees(g'.nodes) == SumDegrees(g.nodes) + (if HasLocation(g.nodes, from) then 1 else 0)
    ensures Valid(g) ==> Valid(g')
  {
    var edge := Edge(to, roadName, roadType, length);
    g' := g;
    var i := 0;
    while i < |g.nodes|
      invariant i <= |g.nodes|
      invariant forall j | 0 <= j < i :: g.nodes[j].location != from
    {
      if g.nodes[i].location == from {
        var n := Node(from, g.nodes[i].edges + [edge]);
        g' := Graph(g.nodes[i := n]);
        SumDegreesUpdate(g.nodes, i, n);
        return;
      }
      i := i + 1;
    }
  }
}
