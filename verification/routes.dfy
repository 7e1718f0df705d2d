/** Routes over the current graph: the cost of a sequence of locations under a
    segment weighting, and the walk back along a parent map that turns a
    search's result into a route (MapGraph.java, reconstructPath). */
module Routes {
  import opened ExtReals
  import opened Geography
  import opened RoadGraph

  /** The cheapest weight among the segments of `es` that end at `v`
      (infinity when there is none). */
  function MinWeightTo(es: seq<MapEdge>, v: GeographicPoint, w: MapEdge -> ExtReal): (r: ExtReal)
    ensures forall i | 0 <= i < |es| && es[i].end == v :: Le(r, w(es[i]))
    ensures r.Fin? ==> exists i :: 0 <= i < |es| && es[i].end == v && w(es[i]) == r
  {
    if es == [] then Inf
    else
      var rest := MinWeightTo(es[1..], v, w);
      if es[0].end == v then Min(w(es[0]), rest) else rest
  }

  /** Cost of one step from `u` to `v`: the cheapest segment between them. */
  function StepCost(g: MapGraph, w: MapEdge -> ExtReal, u: GeographicPoint, v: GeographicPoint): ExtReal {
    if u in g.pointNodeMap then MinWeightTo(g.pointNodeMap[u].edges, v, w) else Inf
  }

  /** Total cost of walking the locations of `p` in order; infinite when two
      consecutive locations are not joined by a passable segment. */
  ghost function PathCost(g: MapGraph, w: MapEdge -> ExtReal, p: seq<GeographicPoint>): ExtReal {
    CostBy(Steps(g, w), p, |p|)
  }

  /** The step costs of a graph under a weighting, as one function. */
  function Steps(g: MapGraph, w: MapEdge -> ExtReal): (GeographicPoint, GeographicPoint) -> ExtReal {
    (u, v) => StepCost(g, w, u, v)
  }

  /** The cost of walking the first `n` locations of `p` under the step
      costs `step`, counted by position. */
  ghost function CostBy(step: (GeographicPoint, GeographicPoint) -> ExtReal, p: seq<GeographicPoint>, n: nat): ExtReal
    requires n <= |p|
  {
    if n <= 1 then Fin(0.0)
    else Add(CostBy(step, p, n - 1), step(p[n - 2], p[n - 1]))
  }

  /** `p` leads from `s` to `t` at a finite cost. */
  ghost predicate Connects(g: MapGraph, w: MapEdge -> ExtReal, p: seq<GeographicPoint>,
                           s: GeographicPoint, t: GeographicPoint) {
    |p| >= 1 && p[0] == s && p[|p| - 1] == t && PathCost(g, w, p).Fin?
  }

  ghost predicate NonNegWeights(g: MapGraph, w: MapEdge -> ExtReal) {
    forall p, e | p in g.pointNodeMap && e in g.pointNodeMap[p].edges :: NonNeg(w(e))
  }

  ghost predicate PositiveLengths(g: MapGraph) {
    forall p, e | p in g.pointNodeMap && e in g.pointNodeMap[p].edges :: e.length > 0.0
  }

  /** Weighting by segment length, as the distance searches use it. */
  function LengthWeight(e: MapEdge): ExtReal {
    Fin(e.length)
  }

  /** Unit weighting: the cost of a path is its number of hops. */
  function HopWeight(e: MapEdge): ExtReal {
    Fin(1.0)
  }

  /** A finite step joins two nodes of a well-formed graph by a segment. */
  lemma FiniteStepIsEdge(g: MapGraph, w: MapEdge -> ExtReal, u: GeographicPoint, v: GeographicPoint)
    requires Valid(g) && StepCost(g, w, u, v).Fin?
    ensures u in g.pointNodeMap && v in g.pointNodeMap && v in Neighbors(g, u)
  {
    var es := g.pointNodeMap[u].edges;
    var i :| 0 <= i < |es| && es[i].end == v && w(es[i]) == StepCost(g, w, u, v);
    assert es[i] in es;
  }

  /** Along a path of finite cost every step is finite. */
  lemma FiniteStepsOfFinitePath(g: MapGraph, w: MapEdge -> ExtReal, p: seq<GeographicPoint>, i: nat)
    requires 0 < i < |p| && PathCost(g, w, p).Fin?
    ensures StepCost(g, w, p[i - 1], p[i]).Fin?
    ensures PathCost(g, w, p[..i]).Fin?
  {
    PrefixCostFinite(g, w, p, i);
    PrefixStep(g, w, p, i);
  }

  /** `c` is no more than the cost of any path from `s` to `x`. */
  ghost predicate Settled(g: MapGraph, w: MapEdge -> ExtReal, s: GeographicPoint, x: GeographicPoint, c: ExtReal) {
    forall p | |p| >= 1 && p[0] == s && p[|p| - 1] == x :: Le(c, PathCost(g, w, p))
  }

  /** Walks the parent map back from `goal` until `start` is reached and
      returns the locations in start-to-goal order. `rank` is a measure that
      strictly drops at each parent step, so the walk ends at `start`. */
  method ReconstructPath(parent: map<GeographicPoint, GeographicPoint>, start: GeographicPoint,
                         goal: GeographicPoint, ghost rank: map<GeographicPoint, nat>)
    returns (path: seq<GeographicPoint>)
    requires goal in rank
    requires forall v | v in rank && v != start :: v in parent && parent[v] in rank && rank[parent[v]] < rank[v]
    ensures |path| >= 1 && path[0] == start && path[|path| - 1] == goal
    ensures forall i | 0 < i < |path| :: path[i] != start && path[i] in parent && parent[path[i]] == path[i - 1]
    ensures start == goal ==> path == [start]
  {
    var rest: seq<GeographicPoint> := [];
    var current := goal;
    while current != start
      invariant current in rank
      invariant rest == [] ==> current == goal
      invariant rest != [] ==> rest[|rest| - 1] == goal && rest[0] in parent && parent[rest[0]] == current
      invariant forall i | 0 <= i < |rest| :: rest[i] != start && rest[i] in parent
      invariant forall i | 0 < i < |rest| :: parent[rest[i]] == rest[i - 1]
      decreases rank[current]
    {
      rest := [current] + rest;
      current := parent[current];
    }
    path := [start] + rest;
  }

  /** A path read off the parent map costs at most the cost recorded at its
      end, given that each parent step costs at most the recorded difference. */
  lemma {:induction false} ParentPathCost(g: MapGraph, w: MapEdge -> ExtReal,
                                          parent: map<GeographicPoint, GeographicPoint>,
                                          cost: map<GeographicPoint, ExtReal>, path: seq<GeographicPoint>)
    requires |path| >= 1 && path[0] in cost && cost[path[0]] == Fin(0.0)
    requires forall i | 0 < i < |path| :: path[i] in parent && parent[path[i]] == path[i - 1]
    requires forall v | v in parent :: v in cost && parent[v] in cost
                                       && Le(Add(cost[parent[v]], StepCost(g, w, parent[v], v)), cost[v])
    ensures Le(PathCost(g, w, path), cost[path[|path| - 1]])
    decreases |path|
  {
    if |path| > 1 {
      var n := |path|;
      var init := path[..n - 1];
      var a, b := path[n - 2], path[n - 1];
      forall i | 0 < i < |init| ensures init[i] in parent && parent[init[i]] == init[i - 1] {
        assert init[i] == path[i] && init[i - 1] == path[i - 1];
      }
      ParentPathCost(g, w, parent, cost, init);
      assert init[|init| - 1] == a;
      assert b in parent && parent[b] == a;
      var step := StepCost(g, w, a, b);
      assert Le(Add(cost[a], step), cost[b]);
      PathCostUnfold(g, w, path);
      AddMono(PathCost(g, w, init), step, cost[a], step);
      LeTrans(PathCost(g, w, path), Add(cost[a], step), cost[b]);
    }
  }

  /** The cost of a path is the cost of a prefix plus the cost of the suffix
      starting where the prefix ends. */
  lemma PathCostSplit(g: MapGraph, w: MapEdge -> ExtReal, p: seq<GeographicPoint>, i: nat)
    requires i < |p|
    ensures PathCost(g, w, p) == Add(PathCost(g, w, p[..i + 1]), PathCost(g, w, p[i..]))
  {
    assert |p[..i + 1]| == i + 1 && |p[i..]| == |p| - i;
    CostByPrefix(Steps(g, w), p, i + 1, i + 1);
    CostBySplit(Steps(g, w), p, i, |p|);
  }

  /** The cost of the first `j` locations does not depend on what follows
      the first `k`. */
  lemma {:induction false} CostByPrefix(step: (GeographicPoint, GeographicPoint) -> ExtReal, p: seq<GeographicPoint>,
                                        k: nat, j: nat)
    requires j <= k <= |p|
    ensures CostBy(step, p[..k], j) == CostBy(step, p, j)
  {
    if j > 1 {
      CostByPrefix(step, p, k, j - 1);
      assert p[..k][j - 2] == p[j - 2] && p[..k][j - 1] == p[j - 1];
    }
  }

  /** Counting by position splits at any position `i` before `n`. */
  lemma {:induction false} CostBySplit(step: (GeographicPoint, GeographicPoint) -> ExtReal, p: seq<GeographicPoint>,
                                       i: nat, n: nat)
    requires i < n <= |p|
    ensures CostBy(step, p, n) == Add(CostBy(step, p, i + 1), CostBy(step, p[i..], n - i))
  {
    if n > i + 1 {
      var q := p[i..];
      CostBySplit(step, p, i, n - 1);
      assert q[n - i - 2] == p[n - 2] && q[n - i - 1] == p[n - 1];
      AddAssoc(CostBy(step, p, i + 1), CostBy(step, q, n - i - 1), step(p[n - 2], p[n - 1]));
    }
  }

  /** Dropping the last location of a path drops the last step's cost. */
  lemma PathCostUnfold(g: MapGraph, w: MapEdge -> ExtReal, p: seq<GeographicPoint>)
    requires |p| >= 2
    ensures PathCost(g, w, p) == Add(PathCost(g, w, p[..|p| - 1]), StepCost(g, w, p[|p| - 2], p[|p| - 1]))
  {
    CostByPrefix(Steps(g, w), p, |p| - 1, |p| - 1);
  }

  /** With non-negative weights a prefix costs no more than the whole path. */
  lemma PrefixCostLe(g: MapGraph, w: MapEdge -> ExtReal, p: seq<GeographicPoint>, i: nat)
    requires i < |p|
    requires NonNegWeights(g, w)
    ensures Le(PathCost(g, w, p[..i + 1]), PathCost(g, w, p))
  {
    PathCostSplit(g, w, p, i);
    PathCostNonNeg(g, w, p[i..]);
  }

  lemma {:induction false} PathCostNonNeg(g: MapGraph, w: MapEdge -> ExtReal, p: seq<GeographicPoint>)
    requires NonNegWeights(g, w)
    ensures NonNeg(PathCost(g, w, p))
    decreases |p|
  {
    if |p| > 1 {
      PathCostNonNeg(g, w, p[..|p| - 1]);
      StepCostNonNeg(g, w, p[|p| - 2], p[|p| - 1]);
      PathCostUnfold(g, w, p);
    }
  }

  lemma StepCostNonNeg(g: MapGraph, w: MapEdge -> ExtReal, u: GeographicPoint, v: GeographicPoint)
    requires NonNegWeights(g, w)
    ensures NonNeg(StepCost(g, w, u, v))
  {
  }

  /** A finite path cost makes every prefix cost finite. */
  lemma {:induction false} PrefixCostFinite(g: MapGraph, w: MapEdge -> ExtReal, p: seq<GeographicPoint>, i: nat)
    requires i < |p|
    requires PathCost(g, w, p).Fin?
    ensures PathCost(g, w, p[..i + 1]).Fin?
  {
    PathCostSplit(g, w, p, i);
  }

  /** Extending a prefix by one step adds that step's cost. */
  lemma PrefixStep(g: MapGraph, w: MapEdge -> ExtReal, p: seq<GeographicPoint>, i: nat)
    requires 0 < i < |p|
    ensures PathCost(g, w, p[..i + 1]) == Add(PathCost(g, w, p[..i]), StepCost(g, w, p[i - 1], p[i]))
  {
    CostByPrefix(Steps(g, w), p, i + 1, i + 1);
    CostByPrefix(Steps(g, w), p, i, i);
  }

  /** `w2` prices every segment at `k` times what `w1` does. */
  ghost predicate ScaledWeights(w1: MapEdge -> ExtReal, w2: MapEdge -> ExtReal, k: real)
    requires k > 0.0
  {
    forall e :: w2(e) == Scale(k, w1(e))
  }

  /** Scaling every segment's weight scales the cheapest one the same way. */
  lemma {:induction false} ScaledMinWeight(es: seq<MapEdge>, v: GeographicPoint, w1: MapEdge -> ExtReal,
                                           w2: MapEdge -> ExtReal, k: real)
    requires k > 0.0 && ScaledWeights(w1, w2, k)
    ensures MinWeightTo(es, v, w2) == Scale(k, MinWeightTo(es, v, w1))
  {
    if es != [] {
      ScaledMinWeight(es[1..], v, w1, w2, k);
      ScaleLt(k, MinWeightTo(es[1..], v, w1), w1(es[0]));
    }
  }

  /** Scaling every segment's weight scales the cost of every path the same
      way, so the two weightings rank paths alike. */
  lemma {:induction false} ScaledPathCost(g: MapGraph, w1: MapEdge -> ExtReal, w2: MapEdge -> ExtReal,
                                          k: real, p: seq<GeographicPoint>)
    requires k > 0.0 && ScaledWeights(w1, w2, k)
    ensures PathCost(g, w2, p) == Scale(k, PathCost(g, w1, p))
    decreases |p|
  {
    if |p| > 1 {
      var u, v := p[|p| - 2], p[|p| - 1];
      ScaledPathCost(g, w1, w2, k, p[..|p| - 1]);
      PathCostUnfold(g, w1, p);
      PathCostUnfold(g, w2, p);
      if u in g.pointNodeMap {
        ScaledMinWeight(g.pointNodeMap[u].edges, v, w1, w2, k);
      }
      ScaleAdd(k, PathCost(g, w1, p[..|p| - 1]), StepCost(g, w1, u, v));
    }
  }
}
