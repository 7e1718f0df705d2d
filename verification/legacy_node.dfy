/** The node and segment records of the older engine (Node.java and the
    older Edge.java): a node is a location with an ordered list of outgoing
    segments, and a segment records only its destination. */
module LegacyNode {
  import opened Geography

  datatype Edge = Edge(destination: GeographicPoint, roadName: string, roadType: string, length: real)

  datatype Node = Node(location: GeographicPoint, edges: seq<Edge>)

  /** `new Node(location)`: the location with no segments yet. */
  function NewNode(location: GeographicPoint): Node {
    Node(location, [])
  }

  /** `new Node(location, edges)`: the location with exactly the given list. */
  function NodeWithEdges(location: GeographicPoint, edges: seq<Edge>): Node {
    Node(location, edges)
  }

  /** `equals`: two nodes are equal when their locations are. */
  predicate NodeEquals(a: Node, b: Node) {
    a.location == b.location
  }

  /** Some outgoing segment of `n` leads to the location of `child`. */
  predicate IsParent(n: Node, child: Node) {
    exists i :: 0 <= i < |n.edges| && n.edges[i].destination == child.location
  }

  /** `isParentOf`: scans the segments in order and answers as soon as one
      leads to the child's location; the answer is the parent relation the
      backward walk of the search follows. */
  method IsParentOf(n: Node, child: Node) returns (r: bool)
    ensures r == IsParent(n, child)
  {
    for i := 0 to |n.edges|
      invariant forall j | 0 <= j < i :: n.edges[j].destination != child.location
    {
      if n.edges[i].destination == child.location {
        return true;
      }
    }
    return false;
  }

  /** A node built from a location alone has that location and is the parent
      of nothing. */
  lemma NewNodeIsLeaf(location: GeographicPoint, child: Node)
    ensures NewNode(location).location == location && NewNode(location).edges == []
    ensures !IsParent(NewNode(location), child)
  {
  }

  /** A node built with a segment list is the parent of exactly the
      destinations of that list. */
  lemma NodeWithEdgesParents(location: GeographicPoint, edges: seq<Edge>, child: Node)
    ensures NodeWithEdges(location, edges).edges == edges
    ensures IsParent(NodeWithEdges(location, edges), child) <==>
              exists e :: e in edges && e.destination == child.location
  {
    if exists e :: e in edges && e.destination == child.location {
      var e :| e in edges && e.destination == child.location;
      var i :| 0 <= i < |edges| && edges[i] == e;
    }
  }

  /** Equality ignores the segment lists: replacing either node's list does
      not change the answer. */
  lemma EqualsIgnoresEdges(a: Node, b: Node, ea: seq<Edge>, eb: seq<Edge>)
    ensures NodeEquals(a, b) == NodeEquals(Node(a.location, ea), Node(b.location, eb))
  {
  }

  /** Equality of nodes is an equivalence. */
  lemma EqualsIsEquivalence(a: Node, b: Node, c: Node)
    ensures NodeEquals(a, a)
    ensures NodeEquals(a, b) ==> NodeEquals(b, a)
    ensures NodeEquals(a, b) && NodeEquals(b, c) ==> NodeEquals(a, c)
  {
  }

  /** Whether `child` is a child does not depend on the child's segments. */
  lemma IsParentIgnoresChildEdges(n: Node, child: Node, edges: seq<Edge>)
    ensures IsParent(n, child) == IsParent(n, Node(child.location, edges))
  {
  }
}
