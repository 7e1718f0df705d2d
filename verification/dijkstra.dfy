/** Dijkstra's search over the current graph (MapGraph.java, the two
    `dijkstra` overloads). The nodes' mutable distance fields become the map
    `cost`, the priority queue becomes a multiset `open` from which any entry
    of least current cost is removed, and a decrease-key is a re-insertion, as
    in the source. The search is generic in the segment weighting `w`: by
    length for the distance search, by travel time for the other. */
module Dijkstra {
  import opened Options
  import opened ExtReals
  import opened Geography
  import opened RoadGraph
  import opened RoadWeights
  import opened Routes
  import opened MinQueue

  /** Well-formedness of the search state: costs are kept for exactly the
      graph's nodes, the start costs nothing, queued and visited nodes have a
      finite cost, and before the first removal the queue holds the start alone. */
  ghost predicate Shape(g: MapGraph, start: GeographicPoint, cost: map<GeographicPoint, ExtReal>,
                        visited: set<GeographicPoint>, open: multiset<GeographicPoint>) {
    && (forall p :: p in cost <==> p in g.pointNodeMap)
    && start in cost && cost[start] == Fin(0.0)
    && (forall v | v in visited :: v in cost && cost[v].Fin?)
    && (forall x | x in open :: x in cost && cost[x].Fin?)
    && (visited == {} ==> open == multiset{start})
    && (visited != {} ==> start in visited)
  }

  /** Every unvisited node that has been reached waits in the queue. */
  ghost predicate Frontier(cost: map<GeographicPoint, ExtReal>, visited: set<GeographicPoint>,
                           open: multiset<GeographicPoint>) {
    forall x | x in cost && x !in visited && cost[x].Fin? :: x in open
  }

  /** Every step out of a visited node into an unvisited one has been relaxed. */
  ghost predicate Relaxed(g: MapGraph, w: MapEdge -> ExtReal, cost: map<GeographicPoint, ExtReal>,
                          visited: set<GeographicPoint>) {
    forall x, y | x in visited && x in cost && y in cost && y !in visited ::
      Le(cost[y], Add(cost[x], StepCost(g, w, x, y)))
  }

  /** The parent of a node is visited and a step from it accounts for the
      node's cost; every reached node other than the start has a parent. */
  ghost predicate Parents(g: MapGraph, w: MapEdge -> ExtReal, start: GeographicPoint,
                          cost: map<GeographicPoint, ExtReal>, parent: map<GeographicPoint, GeographicPoint>,
                          visited: set<GeographicPoint>) {
    && (forall v | v in parent ::
          && v in cost && v != start && parent[v] in visited && parent[v] in cost && cost[v].Fin?
          && Le(Add(cost[parent[v]], StepCost(g, w, parent[v], v)), cost[v]))
    && (forall v | v in cost && v != start && cost[v].Fin? :: v in parent)
  }

  /** `order` numbers the visited nodes in the order they were first removed;
      a parent was always removed before its child. */
  ghost predicate Ordered(parent: map<GeographicPoint, GeographicPoint>, visited: set<GeographicPoint>,
                          order: map<GeographicPoint, nat>, clock: nat) {
    && (forall v :: v in order <==> v in visited)
    && (forall v | v in order :: order[v] < clock)
    && (forall v | v in parent && v in order :: parent[v] in order && order[parent[v]] < order[v])
  }

  /** With non-negative weights, the cost of a visited node is final: no path
      from the start reaches it more cheaply. */
  ghost predicate Final(g: MapGraph, w: MapEdge -> ExtReal, start: GeographicPoint,
                        cost: map<GeographicPoint, ExtReal>, visited: set<GeographicPoint>) {
    NonNegWeights(g, w) ==> forall x | x in visited && x in cost :: Settled(g, w, start, x, cost[x])
  }

  ghost predicate Inv(g: MapGraph, w: MapEdge -> ExtReal, start: GeographicPoint, goal: GeographicPoint,
                      cost: map<GeographicPoint, ExtReal>, parent: map<GeographicPoint, GeographicPoint>,
                      visited: set<GeographicPoint>, open: multiset<GeographicPoint>,
                      order: map<GeographicPoint, nat>, clock: nat) {
    && Valid(g)
    && Shape(g, start, cost, visited, open)
    && Frontier(cost, visited, open)
    && Relaxed(g, w, cost, visited)
    && Parents(g, w, start, cost, parent, visited)
    && Ordered(parent, visited, order, clock)
    && Final(g, w, start, cost, visited)
    && goal !in visited
  }

  /** Relaxation never raises a cost, leaves visited nodes alone, and
      touches the parent of a node only when it lowers that node's cost. */
  ghost predicate Keeps(cost: map<GeographicPoint, ExtReal>, parent: map<GeographicPoint, GeographicPoint>,
                        visited: set<GeographicPoint>,
                        cost': map<GeographicPoint, ExtReal>, parent': map<GeographicPoint, GeographicPoint>) {
    && (forall p :: p in cost' <==> p in cost)
    && (forall v | v in cost :: Le(cost'[v], cost[v]))
    && (forall v | v in visited && v in cost :: cost'[v] == cost[v])
    && (forall v | v in cost && cost'[v] == cost[v] ::
          (v in parent' <==> v in parent) && (v in parent ==> parent'[v] == parent[v]))
    && (forall v | v in parent' :: v in parent || (v in cost && cost'[v] != cost[v]))
  }

  /** A lowered cost is accounted for by a step from `u`, which becomes the
      node's parent, and the node is queued. */
  ghost predicate Lowers(g: MapGraph, w: MapEdge -> ExtReal, u: GeographicPoint, cost: map<GeographicPoint, ExtReal>,
                         cost': map<GeographicPoint, ExtReal>, parent': map<GeographicPoint, GeographicPoint>,
                         open': multiset<GeographicPoint>)
    requires u in cost
    requires forall p :: p in cost' <==> p in cost
  {
    forall v | v in cost && cost'[v] != cost[v] ::
      && v in parent' && parent'[v] == u && cost'[v].Fin? && v in open'
      && Le(Add(cost[u], StepCost(g, w, u, v)), cost'[v])
  }

  /** Afterwards no unvisited node costs more than a step from `u`. */
  ghost predicate Covers(g: MapGraph, w: MapEdge -> ExtReal, u: GeographicPoint, cost: map<GeographicPoint, ExtReal>,
                         visited: set<GeographicPoint>, cost': map<GeographicPoint, ExtReal>)
    requires u in cost
    requires forall p :: p in cost' <==> p in cost
  {
    forall v | v in cost && v !in visited :: Le(cost'[v], Add(cost[u], StepCost(g, w, u, v)))
  }

  /** What relaxing the segments out of `u` does; when every unvisited node
      already cost no more than a step from `u`, it changes nothing. */
  ghost predicate RelaxedFrom(g: MapGraph, w: MapEdge -> ExtReal, u: GeographicPoint,
                              cost: map<GeographicPoint, ExtReal>, parent: map<GeographicPoint, GeographicPoint>,
                              visited: set<GeographicPoint>, open: multiset<GeographicPoint>,
                              cost': map<GeographicPoint, ExtReal>, parent': map<GeographicPoint, GeographicPoint>,
                              open': multiset<GeographicPoint>)
    requires u in cost
  {
    && Keeps(cost, parent, visited, cost', parent')
    && Lowers(g, w, u, cost, cost', parent', open')
    && Covers(g, w, u, cost, visited, cost')
    && Requeues(cost, open, cost', open')
    && ((forall v | v in cost && v !in visited :: Le(cost[v], Add(cost[u], StepCost(g, w, u, v))))
        ==> cost' == cost && parent' == parent && open' == open)
  }

  /** Relaxing one segment `e` out of `u`: if its end is unvisited and the
      cost through `u` is strictly lower, the end takes that cost, `u` as its
      parent, and a new queue entry. */
  function RelaxEdge(w: MapEdge -> ExtReal, u: GeographicPoint, e: MapEdge, visited: set<GeographicPoint>,
                     cost: map<GeographicPoint, ExtReal>, parent: map<GeographicPoint, GeographicPoint>,
                     open: multiset<GeographicPoint>)
    : (map<GeographicPoint, ExtReal>, map<GeographicPoint, GeographicPoint>, multiset<GeographicPoint>)
    requires u in cost && e.end in cost
  {
    var candidate := Add(cost[u], w(e));
    if e.end !in visited && Lt(candidate, cost[e.end]) then
      (cost[e.end := candidate], parent[e.end := u], open + multiset{e.end})
    else (cost, parent, open)
  }

  /** The invariant of the loop over the segments out of `u`, the first `i`
      of which have been relaxed. */
  ghost predicate RelaxLoop(g: MapGraph, w: MapEdge -> ExtReal, u: GeographicPoint, i: nat,
                            cost: map<GeographicPoint, ExtReal>, parent: map<GeographicPoint, GeographicPoint>,
                            visited: set<GeographicPoint>, open: multiset<GeographicPoint>,
                            cost': map<GeographicPoint, ExtReal>, parent': map<GeographicPoint, GeographicPoint>,
                            open': multiset<GeographicPoint>)
    requires u in g.pointNodeMap && u in cost
  {
    var es := g.pointNodeMap[u].edges;
    && i <= |es|
    && Keeps(cost, parent, visited, cost', parent')
    && Lowers(g, w, u, cost, cost', parent', open')
    && Requeues(cost, open, cost', open')
    && (forall j | 0 <= j < i && es[j].end in cost' && es[j].end !in visited ::
          Le(cost'[es[j].end], Add(cost[u], w(es[j]))))
    && ((forall v | v in cost && v !in visited :: Le(cost[v], Add(cost[u], StepCost(g, w, u, v))))
        ==> cost' == cost && parent' == parent && open' == open)
  }

  lemma UpdateKeeps(cost: map<GeographicPoint, ExtReal>, parent: map<GeographicPoint, GeographicPoint>,
                    visited: set<GeographicPoint>,
                    cost': map<GeographicPoint, ExtReal>, parent': map<GeographicPoint, GeographicPoint>,
                    u: GeographicPoint, v: GeographicPoint, candidate: ExtReal)
    requires Keeps(cost, parent, visited, cost', parent')
    requires v in cost && v !in visited && Lt(candidate, cost'[v])
    ensures Keeps(cost, parent, visited, cost'[v := candidate], parent'[v := u])
  {
    LeTrans(candidate, cost'[v], cost[v]);
  }

  lemma UpdateLowers(g: MapGraph, w: MapEdge -> ExtReal, u: GeographicPoint, cost: map<GeographicPoint, ExtReal>,
                     cost': map<GeographicPoint, ExtReal>, parent': map<GeographicPoint, GeographicPoint>,
                     open': multiset<GeographicPoint>, v: GeographicPoint, candidate: ExtReal)
    requires u in cost && v in cost
    requires forall p :: p in cost' <==> p in cost
    requires Lowers(g, w, u, cost, cost', parent', open')
    requires candidate.Fin? && Le(Add(cost[u], StepCost(g, w, u, v)), candidate)
    ensures Lowers(g, w, u, cost, cost'[v := candidate], parent'[v := u], open' + multiset{v})
  {
  }

  lemma RelaxEdgeStep(g: MapGraph, w: MapEdge -> ExtReal, u: GeographicPoint, i: nat,
                      cost: map<GeographicPoint, ExtReal>, parent: map<GeographicPoint, GeographicPoint>,
                      visited: set<GeographicPoint>, open: multiset<GeographicPoint>,
                      cost': map<GeographicPoint, ExtReal>, parent': map<GeographicPoint, GeographicPoint>,
                      open': multiset<GeographicPoint>)
    requires u in g.pointNodeMap && u in cost && u in visited
    requires i < |g.pointNodeMap[u].edges| && g.pointNodeMap[u].edges[i].end in cost
    requires RelaxLoop(g, w, u, i, cost, parent, visited, open, cost', parent', open')
    ensures var e := g.pointNodeMap[u].edges[i];
            var (c, par, o) := RelaxEdge(w, u, e, visited, cost', parent', open');
            RelaxLoop(g, w, u, i + 1, cost, parent, visited, open, c, par, o)
  {
    var e := g.pointNodeMap[u].edges[i];
    if e.end !in visited && Lt(Add(cost[u], w(e)), cost'[e.end]) {
      RelaxEdgeLowers(g, w, u, i, cost, parent, visited, open, cost', parent', open');
    } else {
      RelaxEdgeSkips(g, w, u, i, cost, parent, visited, open, cost', parent', open');
    }
  }

  /** A segment into a visited node, or one that does not lower its end's
      cost, changes nothing and counts as relaxed. */
  lemma RelaxEdgeSkips(g: MapGraph, w: MapEdge -> ExtReal, u: GeographicPoint, i: nat,
                       cost: map<GeographicPoint, ExtReal>, parent: map<GeographicPoint, GeographicPoint>,
                       visited: set<GeographicPoint>, open: multiset<GeographicPoint>,
                       cost': map<GeographicPoint, ExtReal>, parent': map<GeographicPoint, GeographicPoint>,
                       open': multiset<GeographicPoint>)
    requires u in g.pointNodeMap && u in cost && u in visited
    requires i < |g.pointNodeMap[u].edges| && g.pointNodeMap[u].edges[i].end in cost
    requires RelaxLoop(g, w, u, i, cost, parent, visited, open, cost', parent', open')
    requires var e := g.pointNodeMap[u].edges[i];
             !(e.end !in visited && Lt(Add(cost[u], w(e)), cost'[e.end]))
    ensures RelaxLoop(g, w, u, i + 1, cost, parent, visited, open, cost', parent', open')
  {
  }

  /** A segment whose unvisited end gets a lower cost: the loop invariant
      survives the update. */
  lemma RelaxEdgeLowers(g: MapGraph, w: MapEdge -> ExtReal, u: GeographicPoint, i: nat,
                        cost: map<GeographicPoint, ExtReal>, parent: map<GeographicPoint, GeographicPoint>,
                        visited: set<GeographicPoint>, open: multiset<GeographicPoint>,
                        cost': map<GeographicPoint, ExtReal>, parent': map<GeographicPoint, GeographicPoint>,
                        open': multiset<GeographicPoint>)
    requires u in g.pointNodeMap && u in cost && u in visited
    requires i < |g.pointNodeMap[u].edges| && g.pointNodeMap[u].edges[i].end in cost
    requires RelaxLoop(g, w, u, i, cost, parent, visited, open, cost', parent', open')
    requires g.pointNodeMap[u].edges[i].end !in visited
    requires Lt(Add(cost[u], w(g.pointNodeMap[u].edges[i])), cost'[g.pointNodeMap[u].edges[i].end])
    ensures var e := g.pointNodeMap[u].edges[i];
            var candidate := Add(cost[u], w(e));
            RelaxLoop(g, w, u, i + 1, cost, parent, visited, open, cost'[e.end := candidate],
                      parent'[e.end := u], open' + multiset{e.end})
  {
    LowersKeeps(g, w, u, i, cost, parent, visited, open, cost', parent', open');
    LowersQueue(g, w, u, i, cost, parent, visited, open, cost', parent', open');
  }

  /** The update keeps what relaxation may change and records the lowering. */
  lemma LowersKeeps(g: MapGraph, w: MapEdge -> ExtReal, u: GeographicPoint, i: nat,
                      cost: map<GeographicPoint, ExtReal>, parent: map<GeographicPoint, GeographicPoint>,
                      visited: set<GeographicPoint>, open: multiset<GeographicPoint>,
                      cost': map<GeographicPoint, ExtReal>, parent': map<GeographicPoint, GeographicPoint>,
                      open': multiset<GeographicPoint>)
    requires u in g.pointNodeMap && u in cost && u in visited
    requires i < |g.pointNodeMap[u].edges| && g.pointNodeMap[u].edges[i].end in cost
    requires RelaxLoop(g, w, u, i, cost, parent, visited, open, cost', parent', open')
    requires g.pointNodeMap[u].edges[i].end !in visited
    requires Lt(Add(cost[u], w(g.pointNodeMap[u].edges[i])), cost'[g.pointNodeMap[u].edges[i].end])
    ensures var e := g.pointNodeMap[u].edges[i];
            var candidate := Add(cost[u], w(e));
            && Keeps(cost, parent, visited, cost'[e.end := candidate], parent'[e.end := u])
            && Lowers(g, w, u, cost, cost'[e.end := candidate], parent'[e.end := u], open' + multiset{e.end})
  {
    var es := g.pointNodeMap[u].edges;
    var e := es[i];
    var v := e.end;
    assert e in es;
    var candidate := Add(cost[u], w(e));
    assert Le(StepCost(g, w, u, v), w(e));
    AddMono(cost[u], StepCost(g, w, u, v), cost[u], w(e));
    UpdateKeeps(cost, parent, visited, cost', parent', u, v, candidate);
    UpdateLowers(g, w, u, cost, cost', parent', open', v, candidate);
  }

  /** The update queues the end once more, keeps the first `i + 1` segments
      relaxed, and happens only when some unvisited node cost more than a
      step from `u`. */
  lemma LowersQueue(g: MapGraph, w: MapEdge -> ExtReal, u: GeographicPoint, i: nat,
                      cost: map<GeographicPoint, ExtReal>, parent: map<GeographicPoint, GeographicPoint>,
                      visited: set<GeographicPoint>, open: multiset<GeographicPoint>,
                      cost': map<GeographicPoint, ExtReal>, parent': map<GeographicPoint, GeographicPoint>,
                      open': multiset<GeographicPoint>)
    requires u in g.pointNodeMap && u in cost && u in visited
    requires i < |g.pointNodeMap[u].edges| && g.pointNodeMap[u].edges[i].end in cost
    requires RelaxLoop(g, w, u, i, cost, parent, visited, open, cost', parent', open')
    requires g.pointNodeMap[u].edges[i].end !in visited
    requires Lt(Add(cost[u], w(g.pointNodeMap[u].edges[i])), cost'[g.pointNodeMap[u].edges[i].end])
    ensures var e := g.pointNodeMap[u].edges[i];
            var candidate := Add(cost[u], w(e));
            && Requeues(cost, open, cost'[e.end := candidate], open' + multiset{e.end})
            && (forall j | 0 <= j < i + 1 && g.pointNodeMap[u].edges[j].end in cost'[e.end := candidate]
                           && g.pointNodeMap[u].edges[j].end !in visited ::
                  Le(cost'[e.end := candidate][g.pointNodeMap[u].edges[j].end],
                     Add(cost[u], w(g.pointNodeMap[u].edges[j]))))
            && !forall y | y in cost && y !in visited :: Le(cost[y], Add(cost[u], StepCost(g, w, u, y)))
  {
    var es := g.pointNodeMap[u].edges;
    var e := es[i];
    var v := e.end;
    assert e in es;
    var candidate := Add(cost[u], w(e));
    assert Le(StepCost(g, w, u, v), w(e));
    AddMono(cost[u], StepCost(g, w, u, v), cost[u], w(e));
    UpdateRequeues(cost, open, cost', open', v, candidate);
    RelaxedPrefixUpdate(w, u, es, i, cost, visited, cost');
    NotAllCovered(g, w, u, cost, visited, v, candidate, cost'[v]);
  }

  /** Lowering the end of segment `i` keeps every relaxed segment among the
      first `i + 1` relaxed. */
  lemma RelaxedPrefixUpdate(w: MapEdge -> ExtReal, u: GeographicPoint, es: seq<MapEdge>, i: nat,
                            cost: map<GeographicPoint, ExtReal>, visited: set<GeographicPoint>,
                            cost': map<GeographicPoint, ExtReal>)
    requires u in cost && i < |es| && es[i].end in cost' && es[i].end !in visited
    requires Lt(Add(cost[u], w(es[i])), cost'[es[i].end])
    requires forall j | 0 <= j < i && es[j].end in cost' && es[j].end !in visited ::
               Le(cost'[es[j].end], Add(cost[u], w(es[j])))
    ensures var c := cost'[es[i].end := Add(cost[u], w(es[i]))];
            forall j | 0 <= j < i + 1 && es[j].end in c && es[j].end !in visited ::
              Le(c[es[j].end], Add(cost[u], w(es[j])))
  {
    var v := es[i].end;
    var c := cost'[v := Add(cost[u], w(es[i]))];
    forall j | 0 <= j < i + 1 && es[j].end in c && es[j].end !in visited
      ensures Le(c[es[j].end], Add(cost[u], w(es[j])))
    {
      if es[j].end == v && j < i {
        LeTrans(c[v], cost'[v], Add(cost[u], w(es[j])));
      }
    }
  }

  /** A segment that lowers an unvisited node's cost shows that not every
      unvisited node already cost no more than a step from `u`. */
  lemma NotAllCovered(g: MapGraph, w: MapEdge -> ExtReal, u: GeographicPoint,
                      cost: map<GeographicPoint, ExtReal>, visited: set<GeographicPoint>,
                      v: GeographicPoint, candidate: ExtReal, current: ExtReal)
    requires u in cost && v in cost && v !in visited
    requires Le(Add(cost[u], StepCost(g, w, u, v)), candidate)
    requires Lt(candidate, current) && Le(current, cost[v])
    ensures !forall y | y in cost && y !in visited :: Le(cost[y], Add(cost[u], StepCost(g, w, u, y)))
  {
    assert !Le(cost[v], Add(cost[u], StepCost(g, w, u, v)));
  }



  /** The inner loops of the search: every segment out of `u` is relaxed in
      turn (the source walks the neighbours and, for each, the segments that
      reach it; the order does not affect the result, since relaxations of
      distinct ends commute). */
  method Relax(g: MapGraph, w: MapEdge -> ExtReal, u: GeographicPoint,
               cost: map<GeographicPoint, ExtReal>, parent: map<GeographicPoint, GeographicPoint>,
               visited: set<GeographicPoint>, open: multiset<GeographicPoint>)
    returns (cost': map<GeographicPoint, ExtReal>, parent': map<GeographicPoint, GeographicPoint>,
             open': multiset<GeographicPoint>)
    requires u in g.pointNodeMap && u in cost && u in visited
    requires forall e | e in g.pointNodeMap[u].edges :: e.end in cost
    ensures RelaxedFrom(g, w, u, cost, parent, visited, open, cost', parent', open')
  {
    var es := g.pointNodeMap[u].edges;
    cost', parent', open' := cost, parent, open;
    for i := 0 to |es|
      invariant RelaxLoop(g, w, u, i, cost, parent, visited, open, cost', parent', open')
    {
      assert es[i] in es;
      RelaxEdgeStep(g, w, u, i, cost, parent, visited, open, cost', parent', open');
      var next := RelaxEdge(w, u, es[i], visited, cost', parent', open');
      cost', parent', open' := next.0, next.1, next.2;
    }
    forall v | v in cost && v !in visited
      ensures Le(cost'[v], Add(cost[u], StepCost(g, w, u, v)))
    {
      if StepCost(g, w, u, v).Fin? {
        var j :| 0 <= j < |es| && es[j].end == v && w(es[j]) == StepCost(g, w, u, v);
      }
    }
  }

  /** The state before the first removal. */
  lemma InitInv(g: MapGraph, w: MapEdge -> ExtReal, start: GeographicPoint, goal: GeographicPoint,
                cost: map<GeographicPoint, ExtReal>)
    requires Valid(g) && start in g.pointNodeMap
    requires forall p :: p in cost <==> p in g.pointNodeMap
    requires forall p | p in cost :: cost[p] == if p == start then Fin(0.0) else Inf
    ensures Inv(g, w, start, goal, cost, map[], {}, multiset{start}, map[], 0)
  {
  }

  /** Where a path from the start first leaves the visited nodes, the cost
      recorded for that node is no more than the cost of the path up to it. */
  lemma ExitCost(g: MapGraph, w: MapEdge -> ExtReal, start: GeographicPoint,
                 cost: map<GeographicPoint, ExtReal>, visited: set<GeographicPoint>,
                 p: seq<GeographicPoint>, i: nat)
    requires start in cost && cost[start] == Fin(0.0)
    requires forall v | v in visited :: v in cost
    requires Relaxed(g, w, cost, visited)
    requires forall x | x in visited && x in cost :: Settled(g, w, start, x, cost[x])
    requires i < |p| && p[0] == start
    requires forall j | 0 <= j < i :: p[j] in visited
    requires p[i] !in visited && p[i] in cost
    requires PathCost(g, w, p[..i + 1]).Fin?
    ensures Le(cost[p[i]], PathCost(g, w, p[..i + 1]))
  {
    if i == 0 {
      assert p[..1] == [start];
    } else {
      var x := p[i - 1];
      assert x in visited && x in cost;
      SettledPrefix(g, w, start, x, cost[x], p, i);
      assert Le(cost[p[i]], Add(cost[x], StepCost(g, w, x, p[i])));
      StepBound(g, w, p, i, cost[x], cost[p[i]]);
    }
  }

  /** A cost settled for `x` bounds the cost of every path prefix ending at `x`. */
  lemma SettledPrefix(g: MapGraph, w: MapEdge -> ExtReal, start: GeographicPoint, x: GeographicPoint,
                      c: ExtReal, p: seq<GeographicPoint>, i: nat)
    requires Settled(g, w, start, x, c)
    requires 0 < i < |p| && p[0] == start && p[i - 1] == x
    ensures Le(c, PathCost(g, w, p[..i]))
  {
    assert p[..i][0] == start && p[..i][|p[..i]| - 1] == x;
  }

  /** A bound on a prefix and a bound through its last step bound the prefix
      one longer. */
  lemma StepBound(g: MapGraph, w: MapEdge -> ExtReal, p: seq<GeographicPoint>, i: nat, cx: ExtReal, cy: ExtReal)
    requires 0 < i < |p|
    requires Le(cx, PathCost(g, w, p[..i]))
    requires Le(cy, Add(cx, StepCost(g, w, p[i - 1], p[i])))
    ensures Le(cy, PathCost(g, w, p[..i + 1]))
  {
    PrefixStep(g, w, p, i);
    AddMono(cx, StepCost(g, w, p[i - 1], p[i]), PathCost(g, w, p[..i]), StepCost(g, w, p[i - 1], p[i]));
    LeTrans(cy, Add(cx, StepCost(g, w, p[i - 1], p[i])), PathCost(g, w, p[..i + 1]));
  }

  /** With non-negative weights, the cost of a node of least cost in the
      queue is final when it is removed for the first time: a cheaper path
      would have to leave the visited nodes at some first node, which is
      queued no cheaper than that path. */
  lemma SettleOnPop(g: MapGraph, w: MapEdge -> ExtReal, start: GeographicPoint, goal: GeographicPoint,
                    cost: map<GeographicPoint, ExtReal>, parent: map<GeographicPoint, GeographicPoint>,
                    visited: set<GeographicPoint>, open: multiset<GeographicPoint>,
                    order: map<GeographicPoint, nat>, clock: nat, u: GeographicPoint)
    requires Inv(g, w, start, goal, cost, parent, visited, open, order, clock)
    requires u in open && u !in visited
    requires forall x | x in open :: Le(cost[u], cost[x])
    requires NonNegWeights(g, w)
    ensures Settled(g, w, start, u, cost[u])
  {
    forall p | |p| >= 1 && p[0] == start && p[|p| - 1] == u
      ensures Le(cost[u], PathCost(g, w, p))
    {
      if PathCost(g, w, p).Fin? {
        var i := Options.FirstIndex(p, x => x !in visited);
        PrefixCostLe(g, w, p, i);
        if i > 0 {
          FiniteStepsOfFinitePath(g, w, p, i);
          FiniteStepIsEdge(g, w, p[i - 1], p[i]);
        }
        PrefixCostFinite(g, w, p, i);
        ExitCost(g, w, start, cost, visited, p, i);
        LeTrans(cost[p[i]], PathCost(g, w, p[..i + 1]), PathCost(g, w, p));
        assert p[i] in open;
        LeTrans(cost[u], cost[p[i]], PathCost(g, w, p));
      }
    }
  }

  /** When the queue runs dry before the goal is removed, no path of finite
      cost leads from the start to the goal: it would have to leave the
      visited nodes at some first node, which would have been queued. */
  lemma Exhausted(g: MapGraph, w: MapEdge -> ExtReal, start: GeographicPoint, goal: GeographicPoint,
                  cost: map<GeographicPoint, ExtReal>, parent: map<GeographicPoint, GeographicPoint>,
                  visited: set<GeographicPoint>, order: map<GeographicPoint, nat>, clock: nat)
    requires Inv(g, w, start, goal, cost, parent, visited, multiset{}, order, clock)
    ensures forall p :: !Connects(g, w, p, start, goal)
  {
    forall p | Connects(g, w, p, start, goal)
      ensures false
    {
      assert start in visited;
      var i := Options.FirstIndex(p, x => x !in visited);
      assert i > 0;
      FiniteStepsOfFinitePath(g, w, p, i);
      FiniteStepIsEdge(g, w, p[i - 1], p[i]);
    }
  }

  /** The state after removing `u` (other than the goal) and relaxing the
      segments out of it satisfies each part of the invariant again. */
  lemma StepShape(g: MapGraph, w: MapEdge -> ExtReal, start: GeographicPoint,
                  cost: map<GeographicPoint, ExtReal>, parent: map<GeographicPoint, GeographicPoint>,
                  visited: set<GeographicPoint>, open: multiset<GeographicPoint>, u: GeographicPoint,
                  cost': map<GeographicPoint, ExtReal>, parent': map<GeographicPoint, GeographicPoint>,
                  open': multiset<GeographicPoint>)
    requires Shape(g, start, cost, visited, open)
    requires u in open
    requires RelaxedFrom(g, w, u, cost, parent, visited + {u}, open - multiset{u}, cost', parent', open')
    ensures Shape(g, start, cost', visited + {u}, open')
  {
    if visited == {} {
      assert u == start;
    }
    forall x | x in open'
      ensures x in cost' && cost'[x].Fin?
    {
      if x in open - multiset{u} {
        LeTrans(cost'[x], cost[x], Fin(cost[x].v));
      }
    }
  }

  lemma StepFrontier(g: MapGraph, w: MapEdge -> ExtReal,
                     cost: map<GeographicPoint, ExtReal>, parent: map<GeographicPoint, GeographicPoint>,
                     visited: set<GeographicPoint>, open: multiset<GeographicPoint>, u: GeographicPoint,
                     cost': map<GeographicPoint, ExtReal>, parent': map<GeographicPoint, GeographicPoint>,
                     open': multiset<GeographicPoint>)
    requires Frontier(cost, visited, open)
    requires u in cost
    requires RelaxedFrom(g, w, u, cost, parent, visited + {u}, open - multiset{u}, cost', parent', open')
    ensures Frontier(cost', visited + {u}, open')
  {
    forall x | x in cost' && x !in visited + {u} && cost'[x].Fin?
      ensures x in open'
    {
      if cost'[x] == cost[x] {
        assert x in open - multiset{u};
      }
    }
  }

  lemma StepRelaxed(g: MapGraph, w: MapEdge -> ExtReal,
                    cost: map<GeographicPoint, ExtReal>, parent: map<GeographicPoint, GeographicPoint>,
                    visited: set<GeographicPoint>, open: multiset<GeographicPoint>, u: GeographicPoint,
                    cost': map<GeographicPoint, ExtReal>, parent': map<GeographicPoint, GeographicPoint>,
                    open': multiset<GeographicPoint>)
    requires Relaxed(g, w, cost, visited)
    requires u in cost
    requires RelaxedFrom(g, w, u, cost, parent, visited + {u}, open - multiset{u}, cost', parent', open')
    ensures Relaxed(g, w, cost', visited + {u})
  {
    forall x, y | x in visited + {u} && x in cost' && y in cost' && y !in visited + {u}
      ensures Le(cost'[y], Add(cost'[x], StepCost(g, w, x, y)))
    {
      if x != u {
        LeTrans(cost'[y], cost[y], Add(cost[x], StepCost(g, w, x, y)));
      }
    }
  }

  lemma StepParents(g: MapGraph, w: MapEdge -> ExtReal, start: GeographicPoint,
                    cost: map<GeographicPoint, ExtReal>, parent: map<GeographicPoint, GeographicPoint>,
                    visited: set<GeographicPoint>, open: multiset<GeographicPoint>, u: GeographicPoint,
                    cost': map<GeographicPoint, ExtReal>, parent': map<GeographicPoint, GeographicPoint>,
                    open': multiset<GeographicPoint>)
    requires Parents(g, w, start, cost, parent, visited)
    requires u in cost && start in visited + {u}
    requires RelaxedFrom(g, w, u, cost, parent, visited + {u}, open - multiset{u}, cost', parent', open')
    ensures Parents(g, w, start, cost', parent', visited + {u})
  {
    forall v | v in parent'
      ensures && v in cost' && v != start && parent'[v] in visited + {u} && parent'[v] in cost' && cost'[v].Fin?
              && Le(Add(cost'[parent'[v]], StepCost(g, w, parent'[v], v)), cost'[v])
    {
      if cost'[v] == cost[v] {
        assert v in parent;
      }
    }
    forall v | v in cost' && v != start && cost'[v].Fin?
      ensures v in parent'
    {
      if cost'[v] == cost[v] {
        assert v in parent;
      }
    }
  }

  lemma StepOrdered(parent: map<GeographicPoint, GeographicPoint>, visited: set<GeographicPoint>,
                    order: map<GeographicPoint, nat>, clock: nat, u: GeographicPoint,
                    cost: map<GeographicPoint, ExtReal>, cost': map<GeographicPoint, ExtReal>,
                    parent': map<GeographicPoint, GeographicPoint>)
    requires Ordered(parent, visited, order, clock)
    requires forall v | v in parent :: parent[v] in visited
    requires Keeps(cost, parent, visited + {u}, cost', parent')
    requires forall v | v in visited + {u} :: v in cost
    ensures u !in visited ==> Ordered(parent', visited + {u}, order[u := clock], clock + 1)
    ensures u in visited ==> Ordered(parent', visited + {u}, order, clock)
  {
    if u in visited {
      assert visited + {u} == visited;
    }
  }

  lemma StepFinal(g: MapGraph, w: MapEdge -> ExtReal, start: GeographicPoint,
                  cost: map<GeographicPoint, ExtReal>, parent: map<GeographicPoint, GeographicPoint>,
                  visited: set<GeographicPoint>, u: GeographicPoint,
                  cost': map<GeographicPoint, ExtReal>, parent': map<GeographicPoint, GeographicPoint>)
    requires Final(g, w, start, cost, visited)
    requires u in cost
    requires NonNegWeights(g, w) ==> Settled(g, w, start, u, cost[u])
    requires Keeps(cost, parent, visited + {u}, cost', parent')
    ensures Final(g, w, start, cost', visited + {u})
  {
  }

  /** One iteration of the search loop keeps the invariant. */
  lemma Step(g: MapGraph, w: MapEdge -> ExtReal, start: GeographicPoint, goal: GeographicPoint,
             cost: map<GeographicPoint, ExtReal>, parent: map<GeographicPoint, GeographicPoint>,
             visited: set<GeographicPoint>, open: multiset<GeographicPoint>,
             order: map<GeographicPoint, nat>, clock: nat, u: GeographicPoint,
             cost': map<GeographicPoint, ExtReal>, parent': map<GeographicPoint, GeographicPoint>,
             open': multiset<GeographicPoint>)
    requires Inv(g, w, start, goal, cost, parent, visited, open, order, clock)
    requires u in open && u != goal
    requires forall x | x in open :: Le(cost[u], cost[x])
    requires u in cost
    requires RelaxedFrom(g, w, u, cost, parent, visited + {u}, open - multiset{u}, cost', parent', open')
    ensures u !in visited ==>
              Inv(g, w, start, goal, cost', parent', visited + {u}, open', order[u := clock], clock + 1)
    ensures u in visited ==> Inv(g, w, start, goal, cost', parent', visited + {u}, open', order, clock)
  {
    if u !in visited && NonNegWeights(g, w) {
      SettleOnPop(g, w, start, goal, cost, parent, visited, open, order, clock, u);
    }
    if visited == {} {
      assert u == start;
    }
    StepShape(g, w, start, cost, parent, visited, open, u, cost', parent', open');
    StepFrontier(g, w, cost, parent, visited, open, u, cost', parent', open');
    StepRelaxed(g, w, cost, parent, visited, open, u, cost', parent', open');
    StepParents(g, w, start, cost, parent, visited, open, u, cost', parent', open');
    StepFinal(g, w, start, cost, parent, visited, u, cost', parent');
    StepOrdered(parent, visited, order, clock, u, cost, cost', parent');
  }

  /** A node removed a second time has had its segments relaxed already, so
      relaxing them again changes nothing but the queue, which loses it. */
  lemma RepeatIsQuiet(g: MapGraph, w: MapEdge -> ExtReal,
                      cost: map<GeographicPoint, ExtReal>, parent: map<GeographicPoint, GeographicPoint>,
                      visited: set<GeographicPoint>, open: multiset<GeographicPoint>, u: GeographicPoint,
                      cost': map<GeographicPoint, ExtReal>, parent': map<GeographicPoint, GeographicPoint>,
                      open': multiset<GeographicPoint>)
    requires Relaxed(g, w, cost, visited)
    requires u in visited && u in cost
    requires RelaxedFrom(g, w, u, cost, parent, visited + {u}, open, cost', parent', open')
    ensures cost' == cost && parent' == parent && open' == open
  {
    assert visited + {u} == visited;
  }

  /** Each iteration either visits a new node or shortens the queue. */
  lemma Progress(g: MapGraph, visited: set<GeographicPoint>, open: multiset<GeographicPoint>,
                 u: GeographicPoint, open': multiset<GeographicPoint>)
    requires u in open && u in g.pointNodeMap
    requires u in visited ==> open' == open - multiset{u}
    ensures || |g.pointNodeMap.Keys - (visited + {u})| < |g.pointNodeMap.Keys - visited|
            || (visited + {u} == visited && |open'| < |open|)
  {
    if u !in visited {
      assert u in g.pointNodeMap.Keys - visited;
      Options.ProperSubsetSmaller(g.pointNodeMap.Keys - (visited + {u}), g.pointNodeMap.Keys - visited);
    }
  }

  /** The search loop, up to the removal of the goal or the exhaustion of
      the queue. */
  method Explore(g: MapGraph, w: MapEdge -> ExtReal, start: GeographicPoint, goal: GeographicPoint)
    returns (found: bool, cost: map<GeographicPoint, ExtReal>, parent: map<GeographicPoint, GeographicPoint>,
             visited: set<GeographicPoint>, open: multiset<GeographicPoint>,
             ghost order: map<GeographicPoint, nat>, ghost clock: nat)
    requires Valid(g) && start in g.pointNodeMap
    ensures Inv(g, w, start, goal, cost, parent, visited, open, order, clock)
    ensures found ==> goal in open && forall x | x in open :: Le(cost[goal], cost[x])
    ensures !found ==> open == multiset{}
  {
    cost := map p | p in g.pointNodeMap :: if p == start then Fin(0.0) else Inf;
    parent, visited, open := map[], {}, multiset{start};
    order, clock := map[], 0;
    found := false;
    InitInv(g, w, start, goal, cost);
    while open != multiset{}
      invariant Inv(g, w, start, goal, cost, parent, visited, open, order, clock)
      invariant !found
      decreases |g.pointNodeMap.Keys - visited|, |open|
    {
      var u := PopMin(open, cost);
      if u == goal {
        found := true;
        break;
      }
      var visited' := visited + {u};
      assert forall e | e in g.pointNodeMap[u].edges :: e.end in cost;
      var cost', parent', open' := Relax(g, w, u, cost, parent, visited', open - multiset{u});
      Step(g, w, start, goal, cost, parent, visited, open, order, clock, u, cost', parent', open');
      if u in visited {
        RepeatIsQuiet(g, w, cost, parent, visited, open - multiset{u}, u, cost', parent', open');
      }
      Progress(g, visited, open, u, open');
      if u !in visited {
        order, clock := order[u := clock], clock + 1;
      }
      cost, parent, visited, open := cost', parent', visited', open';
    }
  }

  /** When the goal is removed, the parent map leads back from it to the
      start along visited nodes, each removed before its child. */
  lemma GoalRanked(g: MapGraph, w: MapEdge -> ExtReal, start: GeographicPoint, goal: GeographicPoint,
                   cost: map<GeographicPoint, ExtReal>, parent: map<GeographicPoint, GeographicPoint>,
                   visited: set<GeographicPoint>, open: multiset<GeographicPoint>,
                   order: map<GeographicPoint, nat>, clock: nat)
    requires Shape(g, start, cost, visited, open) && Parents(g, w, start, cost, parent, visited)
    requires Ordered(parent, visited, order, clock) && goal !in visited && goal in open
    ensures goal in order[goal := clock]
    ensures forall v | v in order[goal := clock] && v != start ::
              v in parent && parent[v] in order[goal := clock]
              && order[goal := clock][parent[v]] < order[goal := clock][v]
  {
    var rank := order[goal := clock];
    forall v | v in rank && v != start
      ensures v in parent && parent[v] in rank && rank[parent[v]] < rank[v]
    {
      RankedAt(g, w, start, goal, cost, parent, visited, open, order, clock, v);
    }
  }

  lemma RankedAt(g: MapGraph, w: MapEdge -> ExtReal, start: GeographicPoint, goal: GeographicPoint,
                 cost: map<GeographicPoint, ExtReal>, parent: map<GeographicPoint, GeographicPoint>,
                 visited: set<GeographicPoint>, open: multiset<GeographicPoint>,
                 order: map<GeographicPoint, nat>, clock: nat, v: GeographicPoint)
    requires Shape(g, start, cost, visited, open) && Parents(g, w, start, cost, parent, visited)
    requires Ordered(parent, visited, order, clock) && goal !in visited && goal in open
    requires v in order[goal := clock] && v != start
    ensures v in parent && parent[v] in order[goal := clock]
            && order[goal := clock][parent[v]] < order[goal := clock][v]
  {
    assert v in cost && cost[v].Fin?;
    assert v in parent;
    assert parent[v] in visited;
  }

  /** The search (both overloads of `dijkstra`, weighting abstracted as
      `w`): no route when an endpoint is not a node; otherwise a route exactly
      when some path of finite cost joins them, read off the parent map; with
      non-negative weights the route is a cheapest path. */
  method Search(g: MapGraph, w: MapEdge -> ExtReal, start: GeographicPoint, goal: GeographicPoint)
    returns (r: Option<seq<GeographicPoint>>)
    requires Valid(g)
    ensures start !in g.pointNodeMap || goal !in g.pointNodeMap ==> r == None
    ensures start in g.pointNodeMap && goal in g.pointNodeMap ==>
              (r.Some? <==> exists p :: Connects(g, w, p, start, goal))
    ensures r.Some? ==> Connects(g, w, r.value, start, goal)
    ensures r.Some? && NonNegWeights(g, w) ==>
              forall p | |p| >= 1 && p[0] == start && p[|p| - 1] == goal ::
                Le(PathCost(g, w, r.value), PathCost(g, w, p))
  {
    if start !in g.pointNodeMap || goal !in g.pointNodeMap {
      return None;
    }
    var found, cost, parent, visited, open, order, clock := Explore(g, w, start, goal);
    if !found {
      Exhausted(g, w, start, goal, cost, parent, visited, order, clock);
      return None;
    }
    GoalRanked(g, w, start, goal, cost, parent, visited, open, order, clock);
    var path := ReconstructPath(parent, start, goal, order[goal := clock]);
    ParentPathCost(g, w, parent, cost, path);
    assert Connects(g, w, path, start, goal);
    if NonNegWeights(g, w) {
      SettleOnPop(g, w, start, goal, cost, parent, visited, open, order, clock, goal);
      forall p | |p| >= 1 && p[0] == start && p[|p| - 1] == goal
        ensures Le(PathCost(g, w, path), PathCost(g, w, p))
      {
        LeTrans(PathCost(g, w, path), cost[goal], PathCost(g, w, p));
      }
    }
    r := Some(path);
  }

  /** Shortest route by road length (the three-argument `dijkstra`). */
  method ShortestByDistance(g: MapGraph, start: GeographicPoint, goal: GeographicPoint)
    returns (r: Option<seq<GeographicPoint>>)
    requires Valid(g)
    ensures start !in g.pointNodeMap || goal !in g.pointNodeMap ==> r == None
    ensures start in g.pointNodeMap && goal in g.pointNodeMap ==>
              (r.Some? <==> exists p :: Connects(g, LengthWeight, p, start, goal))
    ensures r.Some? ==> Connects(g, LengthWeight, r.value, start, goal)
    ensures r.Some? && NonNegWeights(g, LengthWeight) ==>
              forall p | |p| >= 1 && p[0] == start && p[|p| - 1] == goal ::
                Le(PathCost(g, LengthWeight, r.value), PathCost(g, LengthWeight, p))
  {
    r := Search(g, LengthWeight, start, goal);
  }

  /** Quickest route for a means of transport (the four-argument
      `dijkstra`), weighting each segment by its travel time as the code
      computes it. Walking is priced at the flight speed, which is the
      intended walking time divided by 125 on every segment, so the route
      found is also a quickest one at walking speed. */
  method QuickestByTravelTime(g: MapGraph, start: GeographicPoint, goal: GeographicPoint, mode: string)
    returns (r: Option<seq<GeographicPoint>>)
    requires Valid(g)
    ensures start !in g.pointNodeMap || goal !in g.pointNodeMap ==> r == None
    ensures start in g.pointNodeMap && goal in g.pointNodeMap ==>
              (r.Some? <==> exists p :: Connects(g, TravelWeight(mode), p, start, goal))
    ensures r.Some? ==> Connects(g, TravelWeight(mode), r.value, start, goal)
    ensures r.Some? && NonNegWeights(g, TravelWeight(mode)) ==>
              forall p | |p| >= 1 && p[0] == start && p[|p| - 1] == goal ::
                Le(PathCost(g, TravelWeight(mode), r.value), PathCost(g, TravelWeight(mode), p))
    ensures start in g.pointNodeMap && goal in g.pointNodeMap ==>
              (r.Some? <==> exists p :: Connects(g, IntendedWeight(mode), p, start, goal))
    ensures r.Some? && NonNegWeights(g, TravelWeight(mode)) ==>
              forall p | |p| >= 1 && p[0] == start && p[|p| - 1] == goal ::
                Le(PathCost(g, IntendedWeight(mode), r.value), PathCost(g, IntendedWeight(mode), p))
  {
    r := Search(g, TravelWeight(mode), start, goal);
    forall p ensures Connects(g, IntendedWeight(mode), p, start, goal) <==> Connects(g, TravelWeight(mode), p, start, goal) {
      ConnectsAgree(g, mode, p, start, goal);
    }
    if r.Some? && NonNegWeights(g, TravelWeight(mode)) {
      forall p | |p| >= 1 && p[0] == start && p[|p| - 1] == goal
        ensures Le(PathCost(g, IntendedWeight(mode), r.value), PathCost(g, IntendedWeight(mode), p))
      {
        IntendedCostScales(g, mode, r.value);
        IntendedCostScales(g, mode, p);
        ScaleLt(WalkFactor(mode), PathCost(g, TravelWeight(mode), p), PathCost(g, TravelWeight(mode), r.value));
      }
    }
  }
}
