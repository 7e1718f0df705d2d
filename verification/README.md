# Road-map route finding, modelled in Dafny

The repository is a course project (UCSD "Advanced Data Structures in
Java"). It models a road map as a directed graph:

- intersections are `GeographicPoint`s;
- road segments carry a name, a road type and a length in km.

It answers route queries between two intersections. Two engines are
modelled here.

**The current engine** (`UCSDGraphs/src/main/java/roadgraph/MapGraph.java`):

- It keeps a map from location to node, plus the collection of all segments.
- It offers three searches:
  - breadth-first search by number of hops;
  - Dijkstra's algorithm, either by road length or by travel time for a
    means of transport ("car", "bus", "walk", "flight");
  - A* by road length, with the straight-line distance to the goal as its
    estimate.
- Every search returns the route from start to goal, or `null` when an
  end point is missing or the goal cannot be reached.

**The older engine** (`UCSDGraphs/src/roadgraph/MapGraph.java` with
`Node.java` and the older `Edge.java`):

- It keeps a hash set of nodes, each with its own list of outgoing segments.
- Its only search is breadth-first:
  - it records a hop count per discovered location;
  - it rebuilds the route backwards, looking for a recorded location one
    hop lower whose node has a segment into the current one;
  - it reverses that list in place.

## How the model is organised

| file | module | what it holds |
|---|---|---|
| `options.dfy` | `Options` | `Option` (the source's `null`) and small set and sequence lemmas |
| `ext_reals.dfy` | `ExtReals` | costs as reals extended with +infinity, as the engine's doubles use them |
| `geography.dfy` | `Geography` | `GeographicPoint` |
| `road_graph.dfy` | `RoadGraph` | the current graph store and its mutators, as pure functions |
| `road_weights.dfy` | `RoadWeights` | speed limits and travel-time weights |
| `routes.dfy` | `Routes` | step and path costs, parent-map path reconstruction |
| `bfs.dfy` | `Bfs` | breadth-first search of the current engine |
| `min_queue.dfy` | `MinQueue` | the priority queue: remove an entry of least priority |
| `dijkstra.dfy` | `Dijkstra` | both Dijkstra searches, over any segment weighting |
| `astar.dfy` | `AStar` | A* by road length, over any heuristic |
| `search_agreement.dfy` | `SearchAgreement` | A* against Dijkstra by length |
| `legacy_node.dfy` | `LegacyNode` | the older node and segment records |
| `legacy_graph.dfy` | `LegacyGraph` | the older graph store |
| `legacy_bfs.dfy` | `LegacyBfs` | the older breadth-first search |

**Searches.** Each search is a loop method whose state lives in immutable
maps:

- cost, parent, priority and hop count are maps;
- the visited set is a set;
- the frontier is a multiset.

The loop invariant of each search is a conjunction of named predicates,
and one lemma per predicate shows that a turn of the loop keeps it.

**Priority queue.** Removing from the queue yields some entry of least
current priority. When a node is re-inserted with a lower priority, the
stale entry stays in the queue, as with the engine's
`java.util.PriorityQueue`. The removal rule is an assumption about that
queue, discussed under "Left out".

**Path costs.** A path's cost is the sum of its step costs. A step uses the
cheapest segment between its two ends, and infinity when there is none.

**Path reconstruction.** `reconstructPath` follows the parent map back from
the goal with no bound on the number of steps. The model proves that every
search's parent map leads back to the start, so the walk ends.

**Travel-time weights.** The travel-time search uses the weight as
`getRoadWeight` computes it. An unknown means of transport leaves every
segment at infinite weight, and walking falls through into the flight case
(see Findings). The intended weight is kept beside it, and the model shows
the search's route is also a quickest one under it.

## Model

| member | source | states |
|---|---|---|
| RoadGraph.EmptyGraph | UCSDGraphs/src/main/java/roadgraph/MapGraph.java:69-71 | a new graph is well formed and has no vertices and no segments |
| RoadGraph.Neighbors | UCSDGraphs/src/main/java/roadgraph/MapGraph.java:228-230 | the neighbours of a node are exactly the ends of its segments, and in a well-formed graph they are vertices |
| RoadGraph.AddVertex | UCSDGraphs/src/main/java/roadgraph/MapGraph.java:145-154 | afterwards the location is a vertex; a present location leaves the graph unchanged; otherwise exactly one vertex with no segments is added and nothing else changes; well-formedness is kept |
| RoadGraph.AddVertexLatLon | UCSDGraphs/src/main/java/roadgraph/MapGraph.java:134-137 | adding by coordinates adds the intersection at that point: a present location leaves the graph unchanged; otherwise exactly one vertex with no segments is added and every other node keeps its segment list; the segments are unchanged and well-formedness is kept |
| RoadGraph.AddEdge | UCSDGraphs/src/main/java/roadgraph/MapGraph.java:197-220 | a missing start is reported before a missing end, and either leaves the graph unchanged; on success exactly one segment is added to the collection and to the start's list, the vertex set is unchanged and well-formedness is kept |
| RoadGraph.AddEdgeDefaultLength | UCSDGraphs/src/main/java/roadgraph/MapGraph.java:183-195 | a missing start is reported before a missing end, and either leaves the graph unchanged; on success exactly one segment of the default length is added to the collection and to the start's list, every other node and the vertex set are unchanged, and well-formedness is kept |
| RoadGraph.AddEdgeLatLon | UCSDGraphs/src/main/java/roadgraph/MapGraph.java:165-181 | the same for the two points built from the coordinates: a missing first point is reported before a missing second one; on success exactly one segment from the first point to the second, of the default length, is added to the collection and to the first point's list, all else unchanged, and well-formedness is kept |
| RoadGraph.AddVertexIdempotent | UCSDGraphs/src/main/java/roadgraph/MapGraph.java:145-154 | adding a location twice gives the same graph, and the same vertex count, as adding it once |
| RoadWeights.SpeedLimit | UCSDGraphs/src/main/java/roadgraph/MapGraph.java:47-62 | a speed limit is never negative, and it is positive exactly for the three known road types |
| RoadWeights.Quotient | UCSDGraphs/src/main/java/roadgraph/MapGraph.java:602 | a length over a speed is infinite exactly when the speed is zero; otherwise it is the number that multiplied by the speed gives the length |
| RoadWeights.RoadWeight | UCSDGraphs/src/main/java/roadgraph/MapGraph.java:596-610 | car and bus travel at the road type's speed limit (impassable when it is 0), walking at 7.2 km/h and flight at 900 km/h; any other means of transport is impassable |
| RoadWeights.RoadWeightAsWritten | UCSDGraphs/src/main/java/roadgraph/MapGraph.java:596-610 | as written, walking is priced at the flight speed of 900 km/h; every other means of transport gets the intended weight |
| RoadWeights.IntendedIsScaled | UCSDGraphs/src/main/java/roadgraph/MapGraph.java:596-610 | the intended weight of every segment is the weight as written times 125 for walking (900 / 7.2) and times 1 for every other means of transport |
| RoadWeights.IntendedCostScales | UCSDGraphs/src/main/java/roadgraph/MapGraph.java:564-566 | the travel time the search adds up along any path, taken with the intended weights, is that factor times the time taken with the weights as written |
| RoadWeights.ConnectsAgree | UCSDGraphs/src/main/java/roadgraph/MapGraph.java:564-566 | a path reaches its end at finite cost under the intended weights exactly when it does under the weights as written |
| RoadWeights.WeightsAgreeExceptWalk | UCSDGraphs/src/main/java/roadgraph/MapGraph.java:596-610 | the weight as written and as intended agree on every means of transport except walking; as written, walking costs what flying costs |
| RoadWeights.CarBusWeight | UCSDGraphs/src/main/java/roadgraph/MapGraph.java:600-603 | car and bus take the length over 80, 60 or 40 km/h by road type, and an unknown road type is impassable |
| RoadWeights.UnknownModeIsImpassable | UCSDGraphs/src/main/java/roadgraph/MapGraph.java:598-610 | any other means of transport keeps the initial infinite weight, in both definitions |
| RoadWeights.WalkFallsThrough | UCSDGraphs/src/main/java/roadgraph/MapGraph.java:604-607 | a 7.2 km street takes 0.008 hours to walk as written and 1 hour as intended |
| RoadWeights.WalkAndFlightIgnoreRoadType | UCSDGraphs/src/main/java/roadgraph/MapGraph.java:604-607 | walking is intended to cost length/7.2 and flying length/900 on any road, so a flight over a segment of positive length is quicker than walking it |
| Routes.ReconstructPath | UCSDGraphs/src/main/java/roadgraph/MapGraph.java:315-327 | the returned path starts at the start and ends at the goal, each later element's parent is the element before it, and the walk terminates |
| Bfs.ExpandBfs | UCSDGraphs/src/main/java/roadgraph/MapGraph.java:282-289 | afterwards every neighbour of the expanded node is visited; a neighbour seen for the first time gets that node as its parent and is enqueued once; earlier parents are never overwritten |
| Bfs.Explore | UCSDGraphs/src/main/java/roadgraph/MapGraph.java:267-290 | the search loop keeps its invariant; it ends with the goal at the head of the queue or with the queue empty |
| Bfs.BfsMinimal | UCSDGraphs/src/main/java/roadgraph/MapGraph.java:275-281 | when the goal is dequeued, no route to it has fewer hops than the goal's recorded count |
| Bfs.Search | UCSDGraphs/src/main/java/roadgraph/MapGraph.java:251-300 | `null` when an end point is absent; with both present, a route is returned exactly when the goal is reachable; the route follows segments from start to goal and has the fewest hops of all routes |
| MinQueue.PopMin | UCSDGraphs/src/main/java/roadgraph/MapGraph.java:408-410 | the removed entry is in the queue and has the least priority of all queued entries |
| Dijkstra.Relax | UCSDGraphs/src/main/java/roadgraph/MapGraph.java:421-441 | a neighbour that is not visited and is strictly cheaper through the expanded node gets the lower cost and that node as its parent, and is re-queued; every other entry is kept |
| Dijkstra.SettleOnPop | UCSDGraphs/src/main/java/roadgraph/MapGraph.java:408-420 | with non-negative weights, a node removed with least cost has a cost no path from the start undercuts |
| Dijkstra.Exhausted | UCSDGraphs/src/main/java/roadgraph/MapGraph.java:443-446 | when the queue runs empty without reaching the goal, no path of finite cost leads to it |
| Dijkstra.Explore | UCSDGraphs/src/main/java/roadgraph/MapGraph.java:388-442 | the search loop keeps its invariant; it ends with the goal as a least entry of the queue, or with the queue empty |
| Dijkstra.Search | UCSDGraphs/src/main/java/roadgraph/MapGraph.java:363-467 | `null` when an end point is absent; with both present, a route is returned exactly when some path has finite cost; that route has finite cost, and with non-negative weights no path from start to goal costs less |
| Dijkstra.ShortestByDistance | UCSDGraphs/src/main/java/roadgraph/MapGraph.java:363-467 | the same properties for weighting by road length |
| Dijkstra.QuickestByTravelTime | UCSDGraphs/src/main/java/roadgraph/MapGraph.java:503-594 | the same properties for the travel-time weight as the code computes it, walking at flight speed; also, a route is found exactly when one exists under the intended weights, and with non-negative weights the route found is a quickest one under the intended weights too |
| AStar.Relax | UCSDGraphs/src/main/java/roadgraph/MapGraph.java:697-732 | a neighbour whose cost through the expanded node is strictly lower gets that cost, that node as its parent, and the priority cost plus estimate, and is re-queued, whether it was visited or not; every other entry is kept |
| AStar.Explore | UCSDGraphs/src/main/java/roadgraph/MapGraph.java:666-734 | the search loop keeps its invariant; it ends with the goal as an entry of least priority, with the queue empty, or with the removal budget spent |
| AStar.Exhausted | UCSDGraphs/src/main/java/roadgraph/MapGraph.java:735-738 | when the queue runs empty without reaching the goal, no path of finite length leads to it |
| AStar.GoalSettled | UCSDGraphs/src/main/java/roadgraph/MapGraph.java:695-696 | with an admissible, non-negative estimate, the goal's cost when it is removed is no longer than any path from the start |
| AStar.Search | UCSDGraphs/src/main/java/roadgraph/MapGraph.java:642-759 | `null` when an end point is absent; "no route" only when none exists; a returned route has finite length; with an admissible, non-negative estimate it is a shortest route |
| SearchAgreement.CompareSearches | UCSDGraphs/src/main/java/roadgraph/MapGraph.java:642-759 | a route found by A* means Dijkstra by length finds one; A* reporting none means Dijkstra reports none; with an admissible estimate the two routes are equally long |
| LegacyNode.IsParentOf | UCSDGraphs/src/main/java/roadgraph/Node.java:69-79 | the answer is the parent relation the backward walk of the older search follows: some segment of the node ends at the child's location |
| LegacyNode.NewNodeIsLeaf | UCSDGraphs/src/main/java/roadgraph/Node.java:18-22 | a node made from a location alone has that location, no segments, and is the parent of nothing |
| LegacyNode.NodeWithEdgesParents | UCSDGraphs/src/main/java/roadgraph/Node.java:28-32 | a node made with a segment list keeps exactly that list and is the parent of exactly the destinations in it |
| LegacyNode.EqualsIgnoresEdges | UCSDGraphs/src/main/java/roadgraph/Node.java:60-65 | node equality depends on the locations only |
| LegacyNode.EqualsIsEquivalence | UCSDGraphs/src/main/java/roadgraph/Node.java:60-65 | node equality is reflexive, symmetric and transitive |
| LegacyNode.IsParentIgnoresChildEdges | UCSDGraphs/src/main/java/roadgraph/Node.java:69-79 | whether a node is a parent does not depend on the child's own segments |
| LegacyGraph.IndexOf | UCSDGraphs/src/roadgraph/MapGraph.java:154-161 | finds a node at the location exactly when one exists, and it is the first one, the node where every scan stops |
| LegacyGraph.GetVertices | UCSDGraphs/src/roadgraph/MapGraph.java:73-86 | the returned set holds exactly the locations of the nodes |
| LegacyGraph.GetNumEdges | UCSDGraphs/src/roadgraph/MapGraph.java:92-102 | the count is the sum of the lengths of all nodes' segment lists |
| LegacyGraph.VertexCount | UCSDGraphs/src/roadgraph/MapGraph.java:61-67 | with distinct locations, the vertex count equals the number of distinct locations |
| LegacyGraph.AddVertex | UCSDGraphs/src/roadgraph/MapGraph.java:106-133 | answers true exactly when the location was absent, then appending a node with no segments; otherwise the graph is unchanged; afterwards the location is present; distinct locations stay distinct |
| LegacyGraph.AddVertexIdempotent | UCSDGraphs/src/roadgraph/MapGraph.java:106-133 | a second insertion of a location is refused and changes nothing |
| LegacyGraph.AddVertexAsWritten | UCSDGraphs/src/roadgraph/MapGraph.java:127-132 | without a hash collision the node is always appended, even next to a node at the same location |
| LegacyGraph.DuplicateVertex | UCSDGraphs/src/roadgraph/MapGraph.java:127-132 | adding one location twice as written answers true twice and leaves two vertices but only one location, so the locations are no longer distinct |
| LegacyGraph.AddEdge | UCSDGraphs/src/roadgraph/MapGraph.java:147-162 | the segment is appended to the first node at the start location, every other node is unchanged, and nothing changes when there is no such node; the destination is not checked; the segment count grows by one exactly when the start is present; distinct locations stay distinct |
| LegacyBfs.Expand | UCSDGraphs/src/roadgraph/MapGraph.java:224-240 | existing hop counts are never overwritten; each newly recorded location is a destination of the head's segments, one hop above the head, and is enqueued; afterwards every destination of the head is recorded |
| LegacyBfs.Explore | UCSDGraphs/src/roadgraph/MapGraph.java:199-241 | the start has hop 0 and every other recorded location is one hop above a recorded location with a segment into it; either the goal is recorded and no route to it is shorter than its hop count, or it is not recorded and every recorded location has been expanded |
| LegacyBfs.ClosedHoldsRoutes | UCSDGraphs/src/roadgraph/MapGraph.java:243-247 | once every recorded location is expanded, every location reachable from the start is recorded, so an unrecorded goal is unreachable |
| LegacyBfs.Backtrack | UCSDGraphs/src/roadgraph/MapGraph.java:248-272 | the backward list has hop(goal)+1 elements from goal to start; hop counts drop by one per element; each element's node has a segment into the element before it; the loop always finds a next element and ends |
| LegacyBfs.Reverse | UCSDGraphs/src/roadgraph/MapGraph.java:274-278 | the swap loop leaves the list equal to the reverse of its previous contents |
| LegacyBfs.Bfs | UCSDGraphs/src/roadgraph/MapGraph.java:186-281 | `null` exactly when no route leads from start to goal; otherwise a route with the fewest steps |

## Left out

- Logging, console output, the statistics counters and the `nodeSearched`
  visualisation callback have no effect on results and are not modelled.
- `main`, `GraphLoader` and the map files are not modelled.
- `printNodes` and `printEdges` only print, and are not modelled.
- `isNode`, `getNumVertices`, `getNumEdges` and `getVertices` of the current
  engine are one-line reads. They appear as the functions `IsNode`,
  `NumVertices`, `NumEdges` and `Vertices` and are used in the contracts above.
- The older engine's `dijkstra` and `aStarSearch` are stubs returning `null`,
  and are not modelled.
- Null arguments are not modelled, because Dafny values cannot be null. The
  searches throw a `NullPointerException` on a null end point, and the
  current engine's `addEdge` throws one for a point that is not a vertex. Both
  engines' `addVertex` accept null and store a node under it. The older
  engine then answers true, although its documentation promises false for a
  null location.
- LegacyGraph.AddEdge: the documented `IllegalArgumentException` for a point
  that is not a vertex, a null argument or a negative length is not raised by
  the code, and the model raises none either. A missing start leaves the
  graph unchanged, and neither the destination nor the length is checked.
- `GeographicPoint.distance`, the great-circle distance, is trigonometric
  and not modelled. A* takes an arbitrary heuristic `h` in its place; the
  optimality results assume `h` is non-negative and never overestimates.
- `MapEdge` and `MapNode` are not part of this model. The default segment
  length `MapEdge.DEFAULT_LENGTH` is taken to be 0.01 km.
- The engine's doubles are modelled as exact reals extended with +infinity,
  so rounding is not modelled.
- RoadWeights.Quotient: a division by a zero speed is taken as +infinity for
  every length. IEEE arithmetic gives NaN for a zero length and -infinity for
  a negative one.
- Hash-set and hash-map iteration orders are not modelled. The current
  breadth-first search takes neighbours in an arbitrary order. Dijkstra and
  A* take a node's segments in list order, which gives the same final state
  because relaxations of distinct neighbours commute. The older engine's node
  set is a sequence in iteration order.
- `java.util.PriorityQueue` is not re-ordered when a queued node's priority
  changes. The model takes the removed entry to be one of least current
  priority.
- AStar.Search: termination is not proved, because A* reopens nodes. The
  loop runs for at most `fuel` removals and can report `OutOfFuel`.
- AStar.Search: it requires every segment length to be positive, which the
  source does not check. This keeps the parent map acyclic so that the
  route can be rebuilt.
- A*'s visited set only feeds the statistics counter and is not modelled.
- Dijkstra.QuickestByTravelTime: an unknown means of transport is not
  reported as an error. The code gives every segment an infinite weight, so
  only the start can be reached, and the model does the same.

## Findings

| source | as written | input that shows it | evidently intended | confidence | as-written member | corrected member |
|---|---|---|---|---|---|---|
| UCSDGraphs/src/main/java/roadgraph/MapGraph.java:604-607 | the `"walk"` case has no `break`, so it falls into `"flight"` and the weight becomes length/900 | a 7.2 km segment, mode `"walk"`: weight 0.008 hours instead of 1 hour | walking at 7.2 km/h, length/7.2 | not executed | RoadWeights.RoadWeightAsWritten (shown by RoadWeights.WalkFallsThrough) | RoadWeights.RoadWeight (RoadWeights.WalkAndFlightIgnoreRoadType, RoadWeights.IntendedCostScales) |
| UCSDGraphs/src/roadgraph/MapGraph.java:127-132 | `Node` overrides `equals` but not `hashCode`, so the hash set's `contains` misses an equal node and `addVertex` adds the same location again | `addVertex(p)` twice: both answer true, there are 2 vertices and 1 location | a present location is refused and the graph left unchanged | not executed | LegacyGraph.AddVertexAsWritten (shown by LegacyGraph.DuplicateVertex) | LegacyGraph.AddVertex (LegacyGraph.AddVertexIdempotent) |

The travel-time search keeps the weight as written, as the code does. For
walking that weight is the intended one divided by 125 on every segment, so
every path's time shrinks by the same factor. The search therefore returns a
route that is also quickest at walking speed (Dijkstra.QuickestByTravelTime).
