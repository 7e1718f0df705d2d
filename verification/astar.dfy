/** A* search over the current graph by road length (MapGraph.java,
    `aStarSearch`). A node's queue priority is its cost from the start plus
    the heuristic estimate `h` of its distance to the goal, except for the
    start, whose priority is 0. Unlike the Dijkstra searches, relaxation does
    not skip visited nodes, so a node can be reopened when a cheaper way to
    it is found; the visited set only feeds statistics and is not modelled.
    The loop runs for at most `fuel` removals. */
module AStar {
  import Options
  import opened ExtReals
  import opened Geography
  import opened RoadGraph
  import opened Routes
  import opened MinQueue

  datatype Outcome = Route(path: seq<GeographicPoint>) | NoRoute | OutOfFuel

  /** How the search loop stopped. */
  datatype Halt = GoalReached | QueueEmpty | FuelSpent

  /** The heuristic never overestimates the length of a path to the goal. */
  ghost predicate Admissible(g: MapGraph, h: GeographicPoint -> real, goal: GeographicPoint) {
    forall q | |q| >= 1 && q[|q| - 1] == goal :: Le(Fin(h(q[0])), PathCost(g, LengthWeight, q))
  }

  ghost predicate NonNegHeuristic(h: GeographicPoint -> real) {
    forall x :: h(x) >= 0.0
  }

  /** Well-formedness of the search state: costs and priorities are kept for
      exactly the graph's nodes, the start costs nothing and has priority 0,
      costs are non-negative and queued nodes have finite cost. */
  ghost predicate Shape(g: MapGraph, start: GeographicPoint, cost: map<GeographicPoint, ExtReal>,
                        key: map<GeographicPoint, ExtReal>, open: multiset<GeographicPoint>) {
    && (forall p :: p in cost <==> p in g.pointNodeMap)
    && (forall p :: p in key <==> p in g.pointNodeMap)
    && start in cost && cost[start] == Fin(0.0) && start in key && key[start] == Fin(0.0)
    && (forall v | v in cost :: NonNeg(cost[v]))
    && (forall x | x in open :: x in cost && cost[x].Fin?)
  }

  /** Every node but the start is prioritised by cost plus estimate. */
  ghost predicate Keyed(h: GeographicPoint -> real, start: GeographicPoint,
                        cost: map<GeographicPoint, ExtReal>, key: map<GeographicPoint, ExtReal>) {
    forall v | v in cost && v in key && v != start :: key[v] == Add(cost[v], Fin(h(v)))
  }

  /** A reached node that is not queued has had every segment out of it
      relaxed since its cost last changed. */
  ghost predicate Closed(g: MapGraph, cost: map<GeographicPoint, ExtReal>, open: multiset<GeographicPoint>) {
    forall x, y | x in cost && cost[x].Fin? && x !in open && y in cost ::
      Le(cost[y], Add(cost[x], StepCost(g, LengthWeight, x, y)))
  }

  /** Once reached, the goal stays queued (its removal ends the search). */
  ghost predicate GoalOpen(goal: GeographicPoint, cost: map<GeographicPoint, ExtReal>, open: multiset<GeographicPoint>) {
    goal in cost && cost[goal].Fin? ==> goal in open
  }

  /** The parent of a node costs strictly less and a step from it accounts
      for the node's cost; every reached node other than the start has one. */
  ghost predicate Parents(g: MapGraph, start: GeographicPoint, cost: map<GeographicPoint, ExtReal>,
                          parent: map<GeographicPoint, GeographicPoint>) {
    && (forall v | v in parent ::
          && v in cost && v != start && parent[v] in cost && cost[v].Fin? && cost[parent[v]].Fin?
          && cost[parent[v]].v < cost[v].v
          && Le(Add(cost[parent[v]], StepCost(g, LengthWeight, parent[v], v)), cost[v]))
    && (forall v | v in cost && v != start && cost[v].Fin? :: v in parent)
  }

  ghost predicate Inv(g: MapGraph, h: GeographicPoint -> real, start: GeographicPoint, goal: GeographicPoint,
                      cost: map<GeographicPoint, ExtReal>, key: map<GeographicPoint, ExtReal>,
                      parent: map<GeographicPoint, GeographicPoint>, open: multiset<GeographicPoint>) {
    && Valid(g) && PositiveLengths(g)
    && Shape(g, start, cost, key, open)
    && Keyed(h, start, cost, key)
    && Closed(g, cost, open)
    && GoalOpen(goal, cost, open)
    && Parents(g, start, cost, parent)
  }

  /** Relaxation never raises a cost and touches the parent and priority of
      a node only when it lowers that node's cost. */
  ghost predicate Keeps(cost: map<GeographicPoint, ExtReal>, key: map<GeographicPoint, ExtReal>,
                        parent: map<GeographicPoint, GeographicPoint>,
                        cost': map<GeographicPoint, ExtReal>, key': map<GeographicPoint, ExtReal>,
                        parent': map<GeographicPoint, GeographicPoint>) {
    && (forall p :: p in cost' <==> p in cost)
    && (forall p :: p in key' <==> p in key)
    && (forall v | v in cost :: Le(cost'[v], cost[v]))
    && (forall v | v in cost && cost'[v] == cost[v] ::
          && (v in parent' <==> v in parent) && (v in parent ==> parent'[v] == parent[v])
          && (v in key ==> key'[v] == key[v]))
    && (forall v | v in parent' :: v in parent || (v in cost && cost'[v] != cost[v]))
  }

  /** A lowered cost is strictly above the cost of `u` and accounted for by
      a step from `u`, which becomes the parent; the node is queued with
      priority cost plus estimate. */
  ghost predicate Lowers(g: MapGraph, h: GeographicPoint -> real, u: GeographicPoint,
                         cost: map<GeographicPoint, ExtReal>, cost': map<GeographicPoint, ExtReal>,
                         key': map<GeographicPoint, ExtReal>, parent': map<GeographicPoint, GeographicPoint>,
                         open': multiset<GeographicPoint>)
    requires u in cost
    requires forall p :: p in cost' <==> p in cost
  {
    forall v | v in cost && cost'[v] != cost[v] ::
      && v in parent' && parent'[v] == u && cost'[v].Fin? && v in open'
      && cost[u].Fin? && cost[u].v < cost'[v].v
      && Le(Add(cost[u], StepCost(g, LengthWeight, u, v)), cost'[v])
      && v in key' && key'[v] == Add(cost'[v], Fin(h(v)))
  }

  /** Afterwards no node costs more than a step from `u`. */
  ghost predicate Covers(g: MapGraph, u: GeographicPoint, cost: map<GeographicPoint, ExtReal>,
                         cost': map<GeographicPoint, ExtReal>)
    requires u in cost
    requires forall p :: p in cost' <==> p in cost
  {
    forall v | v in cost :: Le(cost'[v], Add(cost[u], StepCost(g, LengthWeight, u, v)))
  }

  /** What relaxing every segment out of `u` does. */
  ghost predicate RelaxedFrom(g: MapGraph, h: GeographicPoint -> real, u: GeographicPoint,
                              cost: map<GeographicPoint, ExtReal>, key: map<GeographicPoint, ExtReal>,
                              parent: map<GeographicPoint, GeographicPoint>, open: multiset<GeographicPoint>,
                              cost': map<GeographicPoint, ExtReal>, key': map<GeographicPoint, ExtReal>,
                              parent': map<GeographicPoint, GeographicPoint>, open': multiset<GeographicPoint>)
    requires u in cost
  {
    && Keeps(cost, key, parent, cost', key', parent')
    && Lowers(g, h, u, cost, cost', key', parent', open')
    && Covers(g, u, cost, cost')
    && Requeues(cost, open, cost', open')
    && cost'[u] == cost[u]
  }

  /** Relaxing one segment `e` out of `u`: if the cost through `u` is
      strictly lower than the end's cost, the end takes that cost, `u` as its
      parent, cost plus estimate as its priority, and a new queue entry. */
  function RelaxEdge(h: GeographicPoint -> real, u: GeographicPoint, e: MapEdge,
                     cost: map<GeographicPoint, ExtReal>, key: map<GeographicPoint, ExtReal>,
                     parent: map<GeographicPoint, GeographicPoint>, open: multiset<GeographicPoint>)
    : (map<GeographicPoint, ExtReal>, map<GeographicPoint, ExtReal>, map<GeographicPoint, GeographicPoint>,
       multiset<GeographicPoint>)
    requires u in cost && e.end in cost
  {
    var candidate := Add(cost[u], Fin(e.length));
    if Lt(candidate, cost[e.end]) then
      (cost[e.end := candidate], key[e.end := Add(candidate, Fin(h(e.end)))], parent[e.end := u],
       open + multiset{e.end})
    else (cost, key, parent, open)
  }

  /** The invariant of the loop over the segments out of `u`, the first `i`
      of which have been relaxed. */
  ghost predicate RelaxLoop(g: MapGraph, h: GeographicPoint -> real, u: GeographicPoint, i: nat,
                            cost: map<GeographicPoint, ExtReal>, key: map<GeographicPoint, ExtReal>,
                            parent: map<GeographicPoint, GeographicPoint>, open: multiset<GeographicPoint>,
                            cost': map<GeographicPoint, ExtReal>, key': map<GeographicPoint, ExtReal>,
                            parent': map<GeographicPoint, GeographicPoint>, open': multiset<GeographicPoint>)
    requires u in g.pointNodeMap && u in cost
  {
    var es := g.pointNodeMap[u].edges;
    && i <= |es|
    && Keeps(cost, key, parent, cost', key', parent')
    && Lowers(g, h, u, cost, cost', key', parent', open')
    && Requeues(cost, open, cost', open')
    && cost'[u] == cost[u]
    && (forall j | 0 <= j < i && es[j].end in cost' :: Le(cost'[es[j].end], Add(cost[u], Fin(es[j].length))))
  }

  lemma UpdateKeeps(cost: map<GeographicPoint, ExtReal>, key: map<GeographicPoint, ExtReal>,
                    parent: map<GeographicPoint, GeographicPoint>,
                    cost': map<GeographicPoint, ExtReal>, key': map<GeographicPoint, ExtReal>,
                    parent': map<GeographicPoint, GeographicPoint>,
                    u: GeographicPoint, v: GeographicPoint, candidate: ExtReal, priority: ExtReal)
    requires Keeps(cost, key, parent, cost', key', parent')
    requires v in cost && v in key && Lt(candidate, cost'[v])
    ensures Keeps(cost, key, parent, cost'[v := candidate], key'[v := priority], parent'[v := u])
  {
    LeTrans(candidate, cost'[v], cost[v]);
  }

  lemma UpdateLowers(g: MapGraph, h: GeographicPoint -> real, u: GeographicPoint,
                     cost: map<GeographicPoint, ExtReal>, cost': map<GeographicPoint, ExtReal>,
                     key': map<GeographicPoint, ExtReal>, parent': map<GeographicPoint, GeographicPoint>,
                     open': multiset<GeographicPoint>, v: GeographicPoint, candidate: ExtReal)
    requires u in cost && v in cost
    requires forall p :: p in cost' <==> p in cost
    requires Lowers(g, h, u, cost, cost', key', parent', open')
    requires candidate.Fin? && cost[u].Fin? && cost[u].v < candidate.v
    requires Le(Add(cost[u], StepCost(g, LengthWeight, u, v)), candidate)
    ensures Lowers(g, h, u, cost, cost'[v := candidate], key'[v := Add(candidate, Fin(h(v)))], parent'[v := u],
                   open' + multiset{v})
  {
  }

  lemma RelaxEdgeStep(g: MapGraph, h: GeographicPoint -> real, u: GeographicPoint, i: nat,
                      cost: map<GeographicPoint, ExtReal>, key: map<GeographicPoint, ExtReal>,
                      parent: map<GeographicPoint, GeographicPoint>, open: multiset<GeographicPoint>,
                      cost': map<GeographicPoint, ExtReal>, key': map<GeographicPoint, ExtReal>,
                      parent': map<GeographicPoint, GeographicPoint>, open': multiset<GeographicPoint>)
    requires u in g.pointNodeMap && u in cost && cost[u].Fin?
    requires forall p :: p in key <==> p in cost
    requires i < |g.pointNodeMap[u].edges| && g.pointNodeMap[u].edges[i].end in cost
    requires g.pointNodeMap[u].edges[i].length > 0.0
    requires RelaxLoop(g, h, u, i, cost, key, parent, open, cost', key', parent', open')
    ensures var e := g.pointNodeMap[u].edges[i];
            var (c, k, par, o) := RelaxEdge(h, u, e, cost', key', parent', open');
            RelaxLoop(g, h, u, i + 1, cost, key, parent, open, c, k, par, o)
  {
    var e := g.pointNodeMap[u].edges[i];
    if Lt(Add(cost[u], Fin(e.length)), cost'[e.end]) {
      RelaxEdgeLowers(g, h, u, i, cost, key, parent, open, cost', key', parent', open');
    } else {
      assert Le(cost'[e.end], Add(cost[u], Fin(e.length)));
    }
  }

  /** A segment whose end gets a lower cost: the loop invariant survives the update. */
  lemma RelaxEdgeLowers(g: MapGraph, h: GeographicPoint -> real, u: GeographicPoint, i: nat,
                        cost: map<GeographicPoint, ExtReal>, key: map<GeographicPoint, ExtReal>,
                        parent: map<GeographicPoint, GeographicPoint>, open: multiset<GeographicPoint>,
                        cost': map<GeographicPoint, ExtReal>, key': map<GeographicPoint, ExtReal>,
                        parent': map<GeographicPoint, GeographicPoint>, open': multiset<GeographicPoint>)
    requires u in g.pointNodeMap && u in cost && cost[u].Fin?
    requires forall p :: p in key <==> p in cost
    requires i < |g.pointNodeMap[u].edges| && g.pointNodeMap[u].edges[i].end in cost
    requires g.pointNodeMap[u].edges[i].length > 0.0
    requires RelaxLoop(g, h, u, i, cost, key, parent, open, cost', key', parent', open')
    requires Lt(Add(cost[u], Fin(g.pointNodeMap[u].edges[i].length)), cost'[g.pointNodeMap[u].edges[i].end])
    ensures var e := g.pointNodeMap[u].edges[i];
            var candidate := Add(cost[u], Fin(e.length));
            RelaxLoop(g, h, u, i + 1, cost, key, parent, open, cost'[e.end := candidate],
                      key'[e.end := Add(candidate, Fin(h(e.end)))], parent'[e.end := u], open' + multiset{e.end})
  {
    LowersKeeps(g, h, u, i, cost, key, parent, open, cost', key', parent', open');
    LowersQueue(g, h, u, i, cost, key, parent, open, cost', key', parent', open');
  }

  /** The update keeps what relaxation may change and records the lowering. */
  lemma LowersKeeps(g: MapGraph, h: GeographicPoint -> real, u: GeographicPoint, i: nat,
                        cost: map<GeographicPoint, ExtReal>, key: map<GeographicPoint, ExtReal>,
                        parent: map<GeographicPoint, GeographicPoint>, open: multiset<GeographicPoint>,
                        cost': map<GeographicPoint, ExtReal>, key': map<GeographicPoint, ExtReal>,
                        parent': map<GeographicPoint, GeographicPoint>, open': multiset<GeographicPoint>)
    requires u in g.pointNodeMap && u in cost && cost[u].Fin?
    requires forall p :: p in key <==> p in cost
    requires i < |g.pointNodeMap[u].edges| && g.pointNodeMap[u].edges[i].end in cost
    requires g.pointNodeMap[u].edges[i].length > 0.0
    requires RelaxLoop(g, h, u, i, cost, key, parent, open, cost', key', parent', open')
    requires Lt(Add(cost[u], Fin(g.pointNodeMap[u].edges[i].length)), cost'[g.pointNodeMap[u].edges[i].end])
    ensures var e := g.pointNodeMap[u].edges[i];
            var candidate := Add(cost[u], Fin(e.length));
            && Keeps(cost, key, parent, cost'[e.end := candidate], key'[e.end := Add(candidate, Fin(h(e.end)))],
                     parent'[e.end := u])
            && Lowers(g, h, u, cost, cost'[e.end := candidate], key'[e.end := Add(candidate, Fin(h(e.end)))],
                      parent'[e.end := u], open' + multiset{e.end})
  {
    var es := g.pointNodeMap[u].edges;
    var e := es[i];
    var v := e.end;
    assert e in es;
    var candidate := Add(cost[u], Fin(e.length));
    assert Le(StepCost(g, LengthWeight, u, v), Fin(e.length));
    AddMono(cost[u], StepCost(g, LengthWeight, u, v), cost[u], Fin(e.length));
    UpdateKeeps(cost, key, parent, cost', key', parent', u, v, candidate, Add(candidate, Fin(h(v))));
    UpdateLowers(g, h, u, cost, cost', key', parent', open', v, candidate);
  }

  /** The update queues the end once more, leaves `u` alone and keeps the
      first `i + 1` segments relaxed. */
  lemma LowersQueue(g: MapGraph, h: GeographicPoint -> real, u: GeographicPoint, i: nat,
                        cost: map<GeographicPoint, ExtReal>, key: map<GeographicPoint, ExtReal>,
                        parent: map<GeographicPoint, GeographicPoint>, open: multiset<GeographicPoint>,
                        cost': map<GeographicPoint, ExtReal>, key': map<GeographicPoint, ExtReal>,
                        parent': map<GeographicPoint, GeographicPoint>, open': multiset<GeographicPoint>)
    requires u in g.pointNodeMap && u in cost && cost[u].Fin?
    requires forall p :: p in key <==> p in cost
    requires i < |g.pointNodeMap[u].edges| && g.pointNodeMap[u].edges[i].end in cost
    requires g.pointNodeMap[u].edges[i].length > 0.0
    requires RelaxLoop(g, h, u, i, cost, key, parent, open, cost', key', parent', open')
    requires Lt(Add(cost[u], Fin(g.pointNodeMap[u].edges[i].length)), cost'[g.pointNodeMap[u].edges[i].end])
    ensures var e := g.pointNodeMap[u].edges[i];
            var candidate := Add(cost[u], Fin(e.length));
            && e.end != u
            && Requeues(cost, open, cost'[e.end := candidate], open' + multiset{e.end})
            && forall j | 0 <= j < i + 1 && g.pointNodeMap[u].edges[j].end in cost'[e.end := candidate] ::
                 Le(cost'[e.end := candidate][g.pointNodeMap[u].edges[j].end],
                    Add(cost[u], Fin(g.pointNodeMap[u].edges[j].length)))
  {
    var es := g.pointNodeMap[u].edges;
    var e := es[i];
    var v := e.end;
    var candidate := Add(cost[u], Fin(e.length));
    LeTrans(candidate, cost'[v], cost[v]);
    UpdateRequeues(cost, open, cost', open', v, candidate);
    LoweredPrefix(u, es, i, cost, cost');
  }

  /** Lowering the end of segment `i` keeps every one of the first `i + 1`
      segments relaxed. */
  lemma LoweredPrefix(u: GeographicPoint, es: seq<MapEdge>, i: nat,
                      cost: map<GeographicPoint, ExtReal>, cost': map<GeographicPoint, ExtReal>)
    requires u in cost && i < |es| && es[i].end in cost'
    requires Lt(Add(cost[u], Fin(es[i].length)), cost'[es[i].end])
    requires forall j | 0 <= j < i && es[j].end in cost' :: Le(cost'[es[j].end], Add(cost[u], Fin(es[j].length)))
    ensures var c := cost'[es[i].end := Add(cost[u], Fin(es[i].length))];
            forall j | 0 <= j < i + 1 && es[j].end in c :: Le(c[es[j].end], Add(cost[u], Fin(es[j].length)))
  {
    var v := es[i].end;
    var c := cost'[v := Add(cost[u], Fin(es[i].length))];
    forall j | 0 <= j < i + 1 && es[j].end in c
      ensures Le(c[es[j].end], Add(cost[u], Fin(es[j].length)))
    {
      if es[j].end == v && j < i {
        LeTrans(c[v], cost'[v], Add(cost[u], Fin(es[j].length)));
      }
    }
  }

  /** The inner loops of the search: every segment out of `u` is relaxed in
      turn, whether or not its end was visited before. */
  method Relax(g: MapGraph, h: GeographicPoint -> real, u: GeographicPoint,
               cost: map<GeographicPoint, ExtReal>, key: map<GeographicPoint, ExtReal>,
               parent: map<GeographicPoint, GeographicPoint>, open: multiset<GeographicPoint>)
    returns (cost': map<GeographicPoint, ExtReal>, key': map<GeographicPoint, ExtReal>,
             parent': map<GeographicPoint, GeographicPoint>, open': multiset<GeographicPoint>)
    requires u in g.pointNodeMap && u in cost && cost[u].Fin?
    requires forall p :: p in key <==> p in cost
    requires forall e | e in g.pointNodeMap[u].edges :: e.end in cost && e.length > 0.0
    ensures RelaxedFrom(g, h, u, cost, key, parent, open, cost', key', parent', open')
  {
    var es := g.pointNodeMap[u].edges;
    cost', key', parent', open' := cost, key, parent, open;
    for i := 0 to |es|
      invariant RelaxLoop(g, h, u, i, cost, key, parent, open, cost', key', parent', open')
    {
      assert es[i] in es;
      RelaxEdgeStep(g, h, u, i, cost, key, parent, open, cost', key', parent', open');
      var next := RelaxEdge(h, u, es[i], cost', key', parent', open');
      cost', key', parent', open' := next.0, next.1, next.2, next.3;
    }
    forall v | v in cost
      ensures Le(cost'[v], Add(cost[u], StepCost(g, LengthWeight, u, v)))
    {
      if StepCost(g, LengthWeight, u, v).Fin? {
        var j :| 0 <= j < |es| && es[j].end == v && LengthWeight(es[j]) == StepCost(g, LengthWeight, u, v);
      }
    }
  }

  /** The state before the first removal. */
  lemma InitInv(g: MapGraph, h: GeographicPoint -> real, start: GeographicPoint, goal: GeographicPoint,
                cost: map<GeographicPoint, ExtReal>, key: map<GeographicPoint, ExtReal>)
    requires Valid(g) && PositiveLengths(g) && start in g.pointNodeMap
    requires forall p :: p in cost <==> p in g.pointNodeMap
    requires forall p :: p in key <==> p in g.pointNodeMap
    requires forall p | p in cost :: cost[p] == if p == start then Fin(0.0) else Inf
    requires forall p | p in key :: key[p] == if p == start then Fin(0.0) else Inf
    ensures Inv(g, h, start, goal, cost, key, map[], multiset{start})
  {
  }

  /** The start keeps cost 0: a lowered cost lies strictly above the
      non-negative cost of the node relaxed from. */
  lemma StartKept(g: MapGraph, h: GeographicPoint -> real, start: GeographicPoint,
                  cost: map<GeographicPoint, ExtReal>, key: map<GeographicPoint, ExtReal>,
                  parent: map<GeographicPoint, GeographicPoint>, open: multiset<GeographicPoint>, u: GeographicPoint,
                  cost': map<GeographicPoint, ExtReal>, key': map<GeographicPoint, ExtReal>,
                  parent': map<GeographicPoint, GeographicPoint>, open': multiset<GeographicPoint>)
    requires start in cost && cost[start] == Fin(0.0) && start in key
    requires u in cost && NonNeg(cost[u])
    requires RelaxedFrom(g, h, u, cost, key, parent, open, cost', key', parent', open')
    ensures cost'[start] == cost[start] && key'[start] == key[start]
  {
  }

  lemma StepShape(g: MapGraph, h: GeographicPoint -> real, start: GeographicPoint,
                  cost: map<GeographicPoint, ExtReal>, key: map<GeographicPoint, ExtReal>,
                  parent: map<GeographicPoint, GeographicPoint>, open: multiset<GeographicPoint>, u: GeographicPoint,
                  cost': map<GeographicPoint, ExtReal>, key': map<GeographicPoint, ExtReal>,
                  parent': map<GeographicPoint, GeographicPoint>, open': multiset<GeographicPoint>)
    requires Shape(g, start, cost, key, open)
    requires u in open
    requires RelaxedFrom(g, h, u, cost, key, parent, open - multiset{u}, cost', key', parent', open')
    ensures Shape(g, start, cost', key', open')
  {
    StartKept(g, h, start, cost, key, parent, open - multiset{u}, u, cost', key', parent', open');
    forall v | v in cost'
      ensures NonNeg(cost'[v])
    {
      if cost'[v] != cost[v] {
        assert NonNeg(cost[u]) && cost[u].v < cost'[v].v;
      }
    }
    forall x | x in open'
      ensures x in cost' && cost'[x].Fin?
    {
      if x in open - multiset{u} {
        LeTrans(cost'[x], cost[x], Fin(cost[x].v));
      }
    }
  }

  lemma StepKeyed(g: MapGraph, h: GeographicPoint -> real, start: GeographicPoint,
                  cost: map<GeographicPoint, ExtReal>, key: map<GeographicPoint, ExtReal>,
                  parent: map<GeographicPoint, GeographicPoint>, open: multiset<GeographicPoint>, u: GeographicPoint,
                  cost': map<GeographicPoint, ExtReal>, key': map<GeographicPoint, ExtReal>,
                  parent': map<GeographicPoint, GeographicPoint>, open': multiset<GeographicPoint>)
    requires Keyed(h, start, cost, key)
    requires u in cost
    requires RelaxedFrom(g, h, u, cost, key, parent, open - multiset{u}, cost', key', parent', open')
    ensures Keyed(h, start, cost', key')
  {
  }

  lemma StepClosed(g: MapGraph, h: GeographicPoint -> real,
                   cost: map<GeographicPoint, ExtReal>, key: map<GeographicPoint, ExtReal>,
                   parent: map<GeographicPoint, GeographicPoint>, open: multiset<GeographicPoint>, u: GeographicPoint,
                   cost': map<GeographicPoint, ExtReal>, key': map<GeographicPoint, ExtReal>,
                   parent': map<GeographicPoint, GeographicPoint>, open': multiset<GeographicPoint>)
    requires Closed(g, cost, open)
    requires u in cost
    requires RelaxedFrom(g, h, u, cost, key, parent, open - multiset{u}, cost', key', parent', open')
    ensures Closed(g, cost', open')
  {
    forall x, y | x in cost' && cost'[x].Fin? && x !in open' && y in cost'
      ensures Le(cost'[y], Add(cost'[x], StepCost(g, LengthWeight, x, y)))
    {
      if x != u {
        assert cost'[x] == cost[x];
        assert x !in open - multiset{u};
        LeTrans(cost'[y], cost[y], Add(cost[x], StepCost(g, LengthWeight, x, y)));
      }
    }
  }

  lemma StepGoalOpen(g: MapGraph, h: GeographicPoint -> real, goal: GeographicPoint,
                     cost: map<GeographicPoint, ExtReal>, key: map<GeographicPoint, ExtReal>,
                     parent: map<GeographicPoint, GeographicPoint>, open: multiset<GeographicPoint>, u: GeographicPoint,
                     cost': map<GeographicPoint, ExtReal>, key': map<GeographicPoint, ExtReal>,
                     parent': map<GeographicPoint, GeographicPoint>, open': multiset<GeographicPoint>)
    requires GoalOpen(goal, cost, open)
    requires u in cost && u != goal
    requires RelaxedFrom(g, h, u, cost, key, parent, open - multiset{u}, cost', key', parent', open')
    ensures GoalOpen(goal, cost', open')
  {
    if goal in cost' && cost'[goal].Fin? && cost'[goal] == cost[goal] {
      assert goal in open - multiset{u};
    }
  }

  lemma StepParents(g: MapGraph, h: GeographicPoint -> real, start: GeographicPoint,
                    cost: map<GeographicPoint, ExtReal>, key: map<GeographicPoint, ExtReal>,
                    parent: map<GeographicPoint, GeographicPoint>, u: GeographicPoint,
                    cost': map<GeographicPoint, ExtReal>, key': map<GeographicPoint, ExtReal>,
                    parent': map<GeographicPoint, GeographicPoint>, open': multiset<GeographicPoint>)
    requires Parents(g, start, cost, parent)
    requires start in cost && cost[start] == Fin(0.0) && u in cost && NonNeg(cost[u])
    requires Keeps(cost, key, parent, cost', key', parent')
    requires Lowers(g, h, u, cost, cost', key', parent', open')
    ensures Parents(g, start, cost', parent')
  {
    forall v | v in parent'
      ensures && v in cost' && v != start && parent'[v] in cost' && cost'[v].Fin? && cost'[parent'[v]].Fin?
              && cost'[parent'[v]].v < cost'[v].v
              && Le(Add(cost'[parent'[v]], StepCost(g, LengthWeight, parent'[v], v)), cost'[v])
    {
      StepParentLinked(g, h, start, cost, key, parent, u, cost', key', parent', open', v);
    }
    forall v | v in cost' && v != start && cost'[v].Fin?
      ensures v in parent'
    {
      if cost'[v] == cost[v] {
        assert v in parent;
      }
    }
  }

  /** After relaxation a node with a parent still costs more than its parent,
      and at least the parent's cost plus the step between them. */
  lemma StepParentLinked(g: MapGraph, h: GeographicPoint -> real, start: GeographicPoint,
                         cost: map<GeographicPoint, ExtReal>, key: map<GeographicPoint, ExtReal>,
                         parent: map<GeographicPoint, GeographicPoint>, u: GeographicPoint,
                         cost': map<GeographicPoint, ExtReal>, key': map<GeographicPoint, ExtReal>,
                         parent': map<GeographicPoint, GeographicPoint>, open': multiset<GeographicPoint>,
                         v: GeographicPoint)
    requires Parents(g, start, cost, parent)
    requires start in cost && cost[start] == Fin(0.0) && u in cost && NonNeg(cost[u])
    requires Keeps(cost, key, parent, cost', key', parent')
    requires Lowers(g, h, u, cost, cost', key', parent', open')
    requires v in parent'
    ensures && v in cost' && v != start && parent'[v] in cost' && cost'[v].Fin? && cost'[parent'[v]].Fin?
            && cost'[parent'[v]].v < cost'[v].v
            && Le(Add(cost'[parent'[v]], StepCost(g, LengthWeight, parent'[v], v)), cost'[v])
  {
    if cost'[v] == cost[v] {
      var p := parent[v];
      assert Le(cost'[p], cost[p]);
      AddMono(cost'[p], StepCost(g, LengthWeight, p, v), cost[p], StepCost(g, LengthWeight, p, v));
    } else {
      assert Le(cost'[start], cost[start]);
    }
  }

  /** One iteration of the search loop keeps the invariant. */
  lemma Step(g: MapGraph, h: GeographicPoint -> real, start: GeographicPoint, goal: GeographicPoint,
             cost: map<GeographicPoint, ExtReal>, key: map<GeographicPoint, ExtReal>,
             parent: map<GeographicPoint, GeographicPoint>, open: multiset<GeographicPoint>, u: GeographicPoint,
             cost': map<GeographicPoint, ExtReal>, key': map<GeographicPoint, ExtReal>,
             parent': map<GeographicPoint, GeographicPoint>, open': multiset<GeographicPoint>)
    requires Inv(g, h, start, goal, cost, key, parent, open)
    requires u in open && u != goal && u in cost
    requires RelaxedFrom(g, h, u, cost, key, parent, open - multiset{u}, cost', key', parent', open')
    ensures Inv(g, h, start, goal, cost', key', parent', open')
  {
    StepShape(g, h, start, cost, key, parent, open, u, cost', key', parent', open');
    StepKeyed(g, h, start, cost, key, parent, open, u, cost', key', parent', open');
    StepClosed(g, h, cost, key, parent, open, u, cost', key', parent', open');
    StepGoalOpen(g, h, goal, cost, key, parent, open, u, cost', key', parent', open');
    StepParents(g, h, start, cost, key, parent, u, cost', key', parent', open');
  }

  /** The search loop, up to the removal of the goal, the exhaustion of the
      queue, or `fuel` removals. */
  method Explore(g: MapGraph, h: GeographicPoint -> real, start: GeographicPoint, goal: GeographicPoint, fuel: nat)
    returns (halt: Halt, cost: map<GeographicPoint, ExtReal>, key: map<GeographicPoint, ExtReal>,
             parent: map<GeographicPoint, GeographicPoint>, open: multiset<GeographicPoint>)
    requires Valid(g) && PositiveLengths(g) && start in g.pointNodeMap
    ensures Inv(g, h, start, goal, cost, key, parent, open)
    ensures halt == GoalReached ==> goal in open && forall x | x in open :: Le(key[goal], key[x])
    ensures halt == QueueEmpty ==> open == multiset{}
  {
    cost := map p | p in g.pointNodeMap :: if p == start then Fin(0.0) else Inf;
    key := map p | p in g.pointNodeMap :: if p == start then Fin(0.0) else Inf;
    parent, open := map[], multiset{start};
    InitInv(g, h, start, goal, cost, key);
    var steps := 0;
    while steps < fuel
      invariant Inv(g, h, start, goal, cost, key, parent, open)
      decreases fuel - steps
    {
      if open == multiset{} {
        return QueueEmpty, cost, key, parent, open;
      }
      var u := PopMin(open, key);
      if u == goal {
        return GoalReached, cost, key, parent, open;
      }
      assert forall e | e in g.pointNodeMap[u].edges :: e.end in cost && e.length > 0.0;
      var cost', key', parent', open' := Relax(g, h, u, cost, key, parent, open - multiset{u});
      Step(g, h, start, goal, cost, key, parent, open, u, cost', key', parent', open');
      cost, key, parent, open := cost', key', parent', open';
      steps := steps + 1;
    }
    halt := FuelSpent;
  }

  /** Every path of finite length from the start to the goal passes through
      a queued node whose recorded cost is no more than the length of the
      path up to it: following the path from the start, a node that is not
      queued has passed a cost no greater than the path's on to the next one,
      and the goal itself, once reached, is queued. */
  lemma FirstOpen(g: MapGraph, h: GeographicPoint -> real, start: GeographicPoint, goal: GeographicPoint,
                  cost: map<GeographicPoint, ExtReal>, key: map<GeographicPoint, ExtReal>,
                  parent: map<GeographicPoint, GeographicPoint>, open: multiset<GeographicPoint>,
                  p: seq<GeographicPoint>)
    returns (i: nat)
    requires Valid(g) && Shape(g, start, cost, key, open)
    requires Closed(g, cost, open) && GoalOpen(goal, cost, open)
    requires Connects(g, LengthWeight, p, start, goal)
    ensures i < |p| && p[i] in open
    ensures Reached(g, cost, p, i)
  {
    i := 0;
    assert p[..1] == [start];
    while p[i] !in open
      invariant Reached(g, cost, p, i)
      decreases |p| - i
    {
      NotLastWhenUnqueued(g, goal, cost, open, p, i);
      PassClosed(g, cost, open, p, i);
      i := i + 1;
    }
  }

  /** The cost recorded for the `i`-th node of `p` is no more than the length
      of the path up to it. */
  ghost predicate Reached(g: MapGraph, cost: map<GeographicPoint, ExtReal>, p: seq<GeographicPoint>, i: nat) {
    i < |p| && p[i] in cost && Le(cost[p[i]], PathCost(g, LengthWeight, p[..i + 1]))
  }

  /** A node of a path to the goal that is reached no later than the path
      and is not queued is not the goal. */
  lemma NotLastWhenUnqueued(g: MapGraph, goal: GeographicPoint, cost: map<GeographicPoint, ExtReal>,
                            open: multiset<GeographicPoint>, p: seq<GeographicPoint>, i: nat)
    requires GoalOpen(goal, cost, open)
    requires |p| >= 1 && p[|p| - 1] == goal && PathCost(g, LengthWeight, p).Fin?
    requires i < |p| && p[i] in cost && p[i] !in open
    requires Le(cost[p[i]], PathCost(g, LengthWeight, p[..i + 1]))
    ensures i + 1 < |p|
  {
    assert p[..|p|] == p;
  }

  /** A path walks on from a node that is not queued: the next node's cost
      is no more than the path's length up to it. */
  lemma PassClosed(g: MapGraph, cost: map<GeographicPoint, ExtReal>, open: multiset<GeographicPoint>,
                   p: seq<GeographicPoint>, i: nat)
    requires Valid(g) && forall v :: v in cost <==> v in g.pointNodeMap
    requires Closed(g, cost, open)
    requires PathCost(g, LengthWeight, p).Fin?
    requires i + 1 < |p| && p[i] in cost && p[i] !in open
    requires Le(cost[p[i]], PathCost(g, LengthWeight, p[..i + 1]))
    ensures p[i + 1] in cost && Le(cost[p[i + 1]], PathCost(g, LengthWeight, p[..i + 2]))
  {
    var x, y := p[i], p[i + 1];
    var step := StepCost(g, LengthWeight, x, y);
    var before := PathCost(g, LengthWeight, p[..i + 1]);
    PrefixCostFinite(g, LengthWeight, p, i);
    FiniteStepsOfFinitePath(g, LengthWeight, p, i + 1);
    FiniteStepIsEdge(g, LengthWeight, x, y);
    PrefixStep(g, LengthWeight, p, i + 1);
    assert PathCost(g, LengthWeight, p[..i + 2]) == Add(before, step);
    assert cost[x].Fin? && y in cost;
    assert Le(cost[y], Add(cost[x], step));
    AddMono(cost[x], step, before, step);
    LeTrans(cost[y], Add(cost[x], step), Add(before, step));
  }

  /** When the queue runs dry, no path of finite length leads from the start
      to the goal. */
  lemma Exhausted(g: MapGraph, h: GeographicPoint -> real, start: GeographicPoint, goal: GeographicPoint,
                  cost: map<GeographicPoint, ExtReal>, key: map<GeographicPoint, ExtReal>,
                  parent: map<GeographicPoint, GeographicPoint>)
    requires Inv(g, h, start, goal, cost, key, parent, multiset{})
    ensures forall p :: !Connects(g, LengthWeight, p, start, goal)
  {
    forall p | Connects(g, LengthWeight, p, start, goal)
      ensures false
    {
      var i := FirstOpen(g, h, start, goal, cost, key, parent, multiset{}, p);
    }
  }

  /** Through a queued node `p[i]` of a path to the goal, the node's
      priority is no more than the length of the whole path when the
      estimate is non-negative and admissible. */
  lemma PriorityBelowPath(g: MapGraph, h: GeographicPoint -> real, start: GeographicPoint, goal: GeographicPoint,
                          cost: map<GeographicPoint, ExtReal>, key: map<GeographicPoint, ExtReal>,
                          p: seq<GeographicPoint>, i: nat)
    requires start in cost && cost[start] == Fin(0.0) && start in key && key[start] == Fin(0.0)
    requires Keyed(h, start, cost, key)
    requires NonNegHeuristic(h) && Admissible(g, h, goal)
    requires i < |p| && p[i] in cost && p[i] in key && p[|p| - 1] == goal
    requires Le(cost[p[i]], PathCost(g, LengthWeight, p[..i + 1]))
    ensures Le(key[p[i]], PathCost(g, LengthWeight, p))
  {
    var x := p[i];
    var head := PathCost(g, LengthWeight, p[..i + 1]);
    var tail := PathCost(g, LengthWeight, p[i..]);
    KeyBelowPrefix(h, start, cost, key, x, head);
    HeuristicBelowSuffix(g, h, goal, p, i);
    AddMono(head, Fin(h(x)), head, tail);
    PathCostSplit(g, LengthWeight, p, i);
    LeTrans(key[x], Add(head, Fin(h(x))), PathCost(g, LengthWeight, p));
  }

  /** A priority is at most the estimate added to any bound on the node's cost. */
  lemma KeyBelowPrefix(h: GeographicPoint -> real, start: GeographicPoint,
                       cost: map<GeographicPoint, ExtReal>, key: map<GeographicPoint, ExtReal>,
                       x: GeographicPoint, head: ExtReal)
    requires start in cost && cost[start] == Fin(0.0) && start in key && key[start] == Fin(0.0)
    requires Keyed(h, start, cost, key) && NonNegHeuristic(h)
    requires x in cost && x in key && Le(cost[x], head)
    ensures Le(key[x], Add(head, Fin(h(x))))
  {
    assert Le(key[x], Add(cost[x], Fin(h(x))));
    AddMono(cost[x], Fin(h(x)), head, Fin(h(x)));
    LeTrans(key[x], Add(cost[x], Fin(h(x))), Add(head, Fin(h(x))));
  }

  /** An admissible estimate at a node of a path to the goal is at most the
      length of the rest of the path. */
  lemma HeuristicBelowSuffix(g: MapGraph, h: GeographicPoint -> real, goal: GeographicPoint,
                             p: seq<GeographicPoint>, i: nat)
    requires Admissible(g, h, goal)
    requires i < |p| && p[|p| - 1] == goal
    ensures Le(Fin(h(p[i])), PathCost(g, LengthWeight, p[i..]))
  {
    assert p[i..][0] == p[i] && p[i..][|p[i..]| - 1] == goal;
  }

  /** With a non-negative admissible estimate, the cost of the goal is a
      shortest length when the goal is removed: every path to the goal runs
      through a queued node whose priority bounds the path's length from
      below, and the goal's priority is least. */
  lemma GoalSettled(g: MapGraph, h: GeographicPoint -> real, start: GeographicPoint, goal: GeographicPoint,
                    cost: map<GeographicPoint, ExtReal>, key: map<GeographicPoint, ExtReal>,
                    parent: map<GeographicPoint, GeographicPoint>, open: multiset<GeographicPoint>)
    requires Inv(g, h, start, goal, cost, key, parent, open)
    requires goal in open && forall x | x in open :: Le(key[goal], key[x])
    requires NonNegHeuristic(h) && Admissible(g, h, goal)
    ensures Settled(g, LengthWeight, start, goal, cost[goal])
  {
    assert Le(cost[goal], key[goal]);
    forall p | |p| >= 1 && p[0] == start && p[|p| - 1] == goal
      ensures Le(cost[goal], PathCost(g, LengthWeight, p))
    {
      if PathCost(g, LengthWeight, p).Fin? {
        var i := FirstOpen(g, h, start, goal, cost, key, parent, open, p);
        PriorityBelowPath(g, h, start, goal, cost, key, p, i);
        LeTrans(key[goal], key[p[i]], PathCost(g, LengthWeight, p));
        LeTrans(cost[goal], key[goal], PathCost(g, LengthWeight, p));
      }
    }
  }

  /** The nodes of finite cost ranked by how many cost strictly less. */
  ghost function CostRank(cost: map<GeographicPoint, ExtReal>): map<GeographicPoint, nat> {
    map v | v in cost && cost[v].Fin? :: |set y | y in cost && cost[y].Fin? && cost[y].v < cost[v].v|
  }

  /** A parent costs strictly less than its child, so it ranks lower and the
      parent map leads back from every reached node to the start. */
  lemma ParentsRanked(g: MapGraph, start: GeographicPoint, cost: map<GeographicPoint, ExtReal>,
                      parent: map<GeographicPoint, GeographicPoint>)
    requires Parents(g, start, cost, parent)
    ensures forall v | v in CostRank(cost) && v != start ::
              v in parent && parent[v] in CostRank(cost) && CostRank(cost)[parent[v]] < CostRank(cost)[v]
  {
    var rank := CostRank(cost);
    forall v | v in rank && v != start
      ensures v in parent && parent[v] in rank && rank[parent[v]] < rank[v]
    {
      var p := parent[v];
      var below := set y | y in cost && cost[y].Fin? && cost[y].v < cost[p].v;
      var under := set y | y in cost && cost[y].Fin? && cost[y].v < cost[v].v;
      assert p in under && p !in below;
      Options.ProperSubsetSmaller(below, under);
    }
  }

  /** The path read off the parent map joins the start to the goal and is
      no longer than the goal's recorded cost. */
  lemma ParentRoute(g: MapGraph, h: GeographicPoint -> real, start: GeographicPoint, goal: GeographicPoint,
                    cost: map<GeographicPoint, ExtReal>, key: map<GeographicPoint, ExtReal>,
                    parent: map<GeographicPoint, GeographicPoint>, open: multiset<GeographicPoint>,
                    path: seq<GeographicPoint>)
    requires Inv(g, h, start, goal, cost, key, parent, open) && goal in open
    requires |path| >= 1 && path[0] == start && path[|path| - 1] == goal
    requires forall i | 0 < i < |path| :: path[i] != start && path[i] in parent && parent[path[i]] == path[i - 1]
    ensures Connects(g, LengthWeight, path, start, goal)
    ensures Le(PathCost(g, LengthWeight, path), cost[goal])
  {
    ParentPathCost(g, LengthWeight, parent, cost, path);
    assert cost[goal].Fin?;
  }

  /** A* by road length (`aStarSearch`, the heuristic abstracted as `h`):
      no route when an endpoint is not a node or when no path of finite
      length joins them; a route returned leads from the start to the goal
      along segments, and with a non-negative admissible heuristic it is a
      shortest one. */
  method Search(g: MapGraph, h: GeographicPoint -> real, start: GeographicPoint, goal: GeographicPoint, fuel: nat)
    returns (r: Outcome)
    requires Valid(g) && PositiveLengths(g)
    ensures start !in g.pointNodeMap || goal !in g.pointNodeMap ==> r == NoRoute
    ensures r == NoRoute && start in g.pointNodeMap && goal in g.pointNodeMap ==>
              forall p :: !Connects(g, LengthWeight, p, start, goal)
    ensures r.Route? ==> Connects(g, LengthWeight, r.path, start, goal)
    ensures r.Route? && NonNegHeuristic(h) && Admissible(g, h, goal) ==>
              forall p | |p| >= 1 && p[0] == start && p[|p| - 1] == goal ::
                Le(PathCost(g, LengthWeight, r.path), PathCost(g, LengthWeight, p))
  {
    if start !in g.pointNodeMap || goal !in g.pointNodeMap {
      return NoRoute;
    }
    var halt, cost, key, parent, open := Explore(g, h, start, goal, fuel);
    if halt == FuelSpent {
      return OutOfFuel;
    }
    if halt == QueueEmpty {
      Exhausted(g, h, start, goal, cost, key, parent);
      return NoRoute;
    }
    ParentsRanked(g, start, cost, parent);
    var path := ReconstructPath(parent, start, goal, CostRank(cost));
    ParentRoute(g, h, start, goal, cost, key, parent, open, path);
    if NonNegHeuristic(h) && Admissible(g, h, goal) {
      GoalSettled(g, h, start, goal, cost, key, parent, open);
      forall p | |p| >= 1 && p[0] == start && p[|p| - 1] == goal
        ensures Le(PathCost(g, LengthWeight, path), PathCost(g, LengthWeight, p))
      {
        LeTrans(PathCost(g, LengthWeight, path), cost[goal], PathCost(g, LengthWeight, p));
      }
    }
    r := Route(path);
  }
}
