/** The graph store of the current engine: a map from location to node plus
    the collection of all road segments (MapGraph.java, fields at lines 42-43). */
module RoadGraph {
  import opened Geography

  /** Length used by the overloads that take no length. The edge class is not
      part of this model; its default is taken to be 0.01 km. */
  const DEFAULT_LENGTH: real := 0.01

  /** A directed road segment from `start` to `end`. */
  datatype MapEdge = MapEdge(roadName: string, roadType: string, start: GeographicPoint,
                             end: GeographicPoint, length: real)

  /** An intersection with its outgoing segments in insertion order. */
  datatype MapNode = MapNode(location: GeographicPoint, edges: seq<MapEdge>)

  /** `edges` lists every segment object ever added, in insertion order: the
      source keeps them in a hash set of objects compared by identity, so each
      insertion is a new element. */
  datatype MapGraph = MapGraph(pointNodeMap: map<GeographicPoint, MapNode>, edges: seq<MapEdge>)

  datatype GraphError = StartNotInGraph(pt1: GeographicPoint) | EndNotInGraph(pt2: GeographicPoint)

  datatype Result<T> = Success(value: T) | Failure(error: GraphError)

  /** Every node sits at its key, every segment leaves the node that holds it and
      ends at a node of the graph, and the segment collection and the
      per-node lists hold the same segments. */
  ghost predicate Valid(g: MapGraph) {
    && (forall p | p in g.pointNodeMap ::
          && g.pointNodeMap[p].location == p
          && (forall e | e in g.pointNodeMap[p].edges :: e.start == p && e.end in g.pointNodeMap && e in g.edges))
    && (forall e | e in g.edges :: e.start in g.pointNodeMap && e in g.pointNodeMap[e.start].edges)
  }

  function Vertices(g: MapGraph): set<GeographicPoint> {
    g.pointNodeMap.Keys
  }

  function NumVertices(g: MapGraph): nat {
    |g.pointNodeMap|
  }

  function NumEdges(g: MapGraph): nat {
    |g.edges|
  }

  /** The graph a fresh MapGraph() holds. */
  function EmptyGraph(): (g: MapGraph)
    ensures Valid(g)
    ensures NumVertices(g) == 0 && NumEdges(g) == 0
  {
    MapGraph(map[], [])
  }

  function IsNode(g: MapGraph, point: GeographicPoint): bool {
    point in g.pointNodeMap
  }

  /** The end points of the node's outgoing segments. */
  function Neighbors(g: MapGraph, p: GeographicPoint): (r: set<GeographicPoint>)
    requires p in g.pointNodeMap
    ensures forall v :: v in r <==> exists e :: e in g.pointNodeMap[p].edges && e.end == v
    ensures Valid(g) ==> r <= Vertices(g)
  {
    set e | e in g.pointNodeMap[p].edges :: e.end
  }

  /** Adds an intersection; a location already present leaves the graph as it is. */
  function AddVertex(g: MapGraph, location: GeographicPoint): (g': MapGraph)
    ensures location in g'.pointNodeMap
    ensures IsNode(g, location) ==> g' == g
    ensures !IsNode(g, location) ==>
              && NumVertices(g') == NumVertices(g) + 1
              && g'.pointNodeMap[location] == MapNode(location, [])
              && (forall p | p in g.pointNodeMap :: p in g'.pointNodeMap && g'.pointNodeMap[p] == g.pointNodeMap[p])
              && Vertices(g') == Vertices(g) + {location}
              && g'.edges == g.edges
    ensures Valid(g) ==> Valid(g')
  {
    if location in g.pointNodeMap then g
    else g.(pointNodeMap := g.pointNodeMap[location := MapNode(location, [])])
  }

  /** The overload taking raw coordinates adds the intersection at that point. */
  function AddVertexLatLon(g: MapGraph, latitude: real, longitude: real): (g': MapGraph)
    ensures var location := GeographicPoint(latitude, longitude);
            && location in g'.pointNodeMap
            && (IsNode(g, location) ==> g' == g)
            && (!IsNode(g, location) ==>
                  && NumVertices(g') == NumVertices(g) + 1
                  && g'.pointNodeMap[location] == MapNode(location, [])
                  && (forall p | p in g.pointNodeMap :: p in g'.pointNodeMap && g'.pointNodeMap[p] == g.pointNodeMap[p]))
            && Vertices(g') == Vertices(g) + {location}
            && g'.edges == g.edges
    ensures Valid(g) ==> Valid(g')
  {
    AddVertex(g, GeographicPoint(latitude, longitude))
  }

  /** Adds a segment between two existing intersections; an absent end point
      (checked start first) is an error and the graph is not changed. */
  function AddEdge(g: MapGraph, pt1: GeographicPoint, pt2: GeographicPoint, roadName: string,
                   roadType: string, length: real): (r: Result<MapGraph>)
    ensures !IsNode(g, pt1) <==> r == Failure(StartNotInGraph(pt1))
    ensures IsNode(g, pt1) && !IsNode(g, pt2) <==> r == Failure(EndNotInGraph(pt2))
    ensures r.Success? <==> IsNode(g, pt1) && IsNode(g, pt2)
    ensures r.Success? ==>
              var e := MapEdge(roadName, roadType, pt1, pt2, length);
              var g' := r.value;
              && g'.edges == g.edges + [e]
              && NumEdges(g') == NumEdges(g) + 1
              && Vertices(g') == Vertices(g)
              && g'.pointNodeMap[pt1] == MapNode(g.pointNodeMap[pt1].location, g.pointNodeMap[pt1].edges + [e])
              && (forall p | p in g.pointNodeMap && p != pt1 :: g'.pointNodeMap[p] == g.pointNodeMap[p])
    ensures r.Success? && Valid(g) ==> Valid(r.value)
  {
    if pt1 !in g.pointNodeMap then Failure(StartNotInGraph(pt1))
    else if pt2 !in g.pointNodeMap then Failure(EndNotInGraph(pt2))
    else
      var n1 := g.pointNodeMap[pt1];
      var e := MapEdge(roadName, roadType, pt1, pt2, length);
      Success(MapGraph(g.pointNodeMap[pt1 := n1.(edges := n1.edges + [e])], g.edges + [e]))
  }

  /** The overload without a length uses the default length. */
  function AddEdgeDefaultLength(g: MapGraph, pt1: GeographicPoint, pt2: GeographicPoint,
                                roadName: string, roadType: string): (r: Result<MapGraph>)
    ensures !IsNode(g, pt1) <==> r == Failure(StartNotInGraph(pt1))
    ensures IsNode(g, pt1) && !IsNode(g, pt2) <==> r == Failure(EndNotInGraph(pt2))
    ensures r.Success? <==> IsNode(g, pt1) && IsNode(g, pt2)
    ensures r.Success? ==>
              var e := MapEdge(roadName, roadType, pt1, pt2, DEFAULT_LENGTH);
              var g' := r.value;
              && g'.edges == g.edges + [e]
              && Vertices(g') == Vertices(g)
              && g'.pointNodeMap[pt1] == MapNode(g.pointNodeMap[pt1].location, g.pointNodeMap[pt1].edges + [e])
              && (forall p | p in g.pointNodeMap && p != pt1 :: g'.pointNodeMap[p] == g.pointNodeMap[p])
    ensures r.Success? && Valid(g) ==> Valid(r.value)
  {
    AddEdge(g, pt1, pt2, roadName, roadType, DEFAULT_LENGTH)
  }

  /** The overload taking raw coordinates. */
  function AddEdgeLatLon(g: MapGraph, lat1: real, lon1: real, lat2: real, lon2: real,
                         roadName: string, roadType: string): (r: Result<MapGraph>)
    ensures var pt1, pt2 := GeographicPoint(lat1, lon1), GeographicPoint(lat2, lon2);
            && (!IsNode(g, pt1) <==> r == Failure(StartNotInGraph(pt1)))
            && (IsNode(g, pt1) && !IsNode(g, pt2) <==> r == Failure(EndNotInGraph(pt2)))
            && (r.Success? <==> IsNode(g, pt1) && IsNode(g, pt2))
    ensures r.Success? ==>
              var pt1, pt2 := GeographicPoint(lat1, lon1), GeographicPoint(lat2, lon2);
              var e := MapEdge(roadName, roadType, pt1, pt2, DEFAULT_LENGTH);
              var g' := r.value;
              && g'.edges == g.edges + [e]
              && NumEdges(g') == NumEdges(g) + 1
              && Vertices(g') == Vertices(g)
              && g'.pointNodeMap[pt1] == MapNode(g.pointNodeMap[pt1].location, g.pointNodeMap[pt1].edges + [e])
              && (forall p | p in g.pointNodeMap && p != pt1 :: g'.pointNodeMap[p] == g.pointNodeMap[p])
    ensures r.Success? && Valid(g) ==> Valid(r.value)
  {
    AddEdge(g, GeographicPoint(lat1, lon1), GeographicPoint(lat2, lon2), roadName, roadType, DEFAULT_LENGTH)
  }

  /** Adding a location twice is the same as adding it once. */
  lemma AddVertexIdempotent(g: MapGraph, location: GeographicPoint)
    ensures AddVertex(AddVertex(g, location), location) == AddVertex(g, location)
    ensures NumVertices(AddVertex(AddVertex(g, location), location)) == NumVertices(AddVertex(g, location))
  {
  }
}
