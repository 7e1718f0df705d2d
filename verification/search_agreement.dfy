/** How the two distance searches of the current engine relate: A* by road
    length and Dijkstra by road length answer the same question, and with an
    admissible heuristic they find equally long routes. */
module SearchAgreement {
  import opened Options
  import opened ExtReals
  import opened Geography
  import opened RoadGraph
  import opened Routes
  import Dijkstra
  import AStar

  lemma PositiveLengthsNonNeg(g: MapGraph)
    requires PositiveLengths(g)
    ensures NonNegWeights(g, LengthWeight)
  {
  }

  /** Runs both searches between the same end points. A route found by A*
      means Dijkstra finds one too, A* reporting none means Dijkstra reports
      none, and under an admissible, non-negative heuristic the two routes
      have the same length. */
  method CompareSearches(g: MapGraph, h: GeographicPoint -> real, start: GeographicPoint,
                         goal: GeographicPoint, fuel: nat)
    returns (byDijkstra: Option<seq<GeographicPoint>>, byAStar: AStar.Outcome)
    requires Valid(g) && PositiveLengths(g)
    ensures byAStar.Route? ==> byDijkstra.Some?
    ensures byAStar == AStar.NoRoute ==> byDijkstra == None
    ensures byDijkstra.Some? && byAStar.Route? && AStar.NonNegHeuristic(h) && AStar.Admissible(g, h, goal) ==>
              PathCost(g, LengthWeight, byDijkstra.value) == PathCost(g, LengthWeight, byAStar.path)
  {
    byDijkstra := Dijkstra.ShortestByDistance(g, start, goal);
    byAStar := AStar.Search(g, h, start, goal, fuel);
    PositiveLengthsNonNeg(g);
    if byDijkstra.Some? && byAStar.Route? && AStar.NonNegHeuristic(h) && AStar.Admissible(g, h, goal) {
      var d, a := PathCost(g, LengthWeight, byDijkstra.value), PathCost(g, LengthWeight, byAStar.path);
      assert Le(d, a) && Le(a, d);
    }
  }
}
