/** Breadth-first search of the older engine (src/roadgraph/MapGraph.java,
    lines 186-281). The search records, for every location it discovers, the
    number of hops from the start; the route is then rebuilt backwards from
    the goal by looking, hop count by hop count, for a recorded location
    whose node has a segment into the current one, and finally reversed in
    place. */
module LegacyBfs {
  import opened Options
  import opened Geography
  import opened LegacyNode
  import opened LegacyGraph

  /** The node the search associates with `x`: the first node at `x`, or a
      fresh node without segments when there is none. */
  function Potential(g: Graph, x: GeographicPoint): (n: Node)
    ensures n.location == x
  {
    match NodeAt(g.nodes, x)
    case None => NewNode(x)
    case Some(n) => n
  }

  /** A step from `p` to `q` as the reconstruction tests it. */
  predicate HasEdge(g: Graph, p: GeographicPoint, q: GeographicPoint) {
    IsParent(Potential(g, p), NewNode(q))
  }

  /** `path` starts at `start`, ends at `goal` and takes a step at a time. */
  predicate IsRoute(g: Graph, path: seq<GeographicPoint>, start: GeographicPoint, goal: GeographicPoint) {
    && |path| >= 1
    && path[0] == start
    && path[|path| - 1] == goal
    && forall i | 0 < i < |path| :: HasEdge(g, path[i - 1], path[i])
  }

  ghost predicate Reachable(g: Graph, start: GeographicPoint, goal: GeographicPoint) {
    exists path :: IsRoute(g, path, start, goal)
  }

  /** Every destination of every segment: the only locations other than the
      start that the search can record. */
  ghost function Destinations(g: Graph): set<GeographicPoint> {
    set i, j | 0 <= i < |g.nodes| && 0 <= j < |g.nodes[i].edges| :: g.nodes[i].edges[j].destination
  }

  lemma DestinationRecorded(g: Graph, x: GeographicPoint, j: nat)
    requires j < |Potential(g, x).edges|
    ensures Potential(g, x).edges[j].destination in Destinations(g)
  {
    var k := IndexOf(g.nodes, x).value;
    assert Potential(g, x) == g.nodes[k];
  }

  /** The hop map records the start at 0 and every other location one hop
      above a recorded location (`disc`, its discoverer) that has a segment
      into it. */
  ghost predicate HopInv(g: Graph, start: GeographicPoint, hop: map<GeographicPoint, nat>,
                         disc: map<GeographicPoint, GeographicPoint>) {
    && start in hop && hop[start] == 0
    && forall p | p in hop && p != start ::
         && hop[p] >= 1
         && p in disc && disc[p] in hop
         && hop[disc[p]] == hop[p] - 1
         && HasEdge(g, disc[p], p)
  }

  /** Every segment out of `x` leads to a recorded location at most one hop
      above `x`. */
  ghost predicate ClosedAt(g: Graph, hop: map<GeographicPoint, nat>, x: GeographicPoint)
    requires x in hop
  {
    var es := Potential(g, x).edges;
    forall j | 0 <= j < |es| :: es[j].destination in hop && hop[es[j].destination] <= hop[x] + 1
  }

  /** Every queued location is recorded. */
  ghost predicate Queued(hop: map<GeographicPoint, nat>, que: seq<GeographicPoint>) {
    forall i | 0 <= i < |que| :: que[i] in hop
  }

  /** The queue is in non-decreasing hop order. */
  ghost predicate Ascending(hop: map<GeographicPoint, nat>, que: seq<GeographicPoint>)
    requires Queued(hop, que)
  {
    forall i, j | 0 <= i <= j < |que| :: hop[que[i]] <= hop[que[j]]
  }

  /** No recorded location is more than one hop above a queued one. */
  ghost predicate Within(hop: map<GeographicPoint, nat>, que: seq<GeographicPoint>)
    requires Queued(hop, que)
  {
    forall x, i | x in hop && 0 <= i < |que| :: hop[x] <= hop[que[i]] + 1
  }

  /** Every recorded location off the queue has been expanded. */
  ghost predicate Expanded(g: Graph, hop: map<GeographicPoint, nat>, que: seq<GeographicPoint>) {
    forall x | x in hop && x !in que :: ClosedAt(g, hop, x)
  }

  ghost predicate QueueInv(g: Graph, hop: map<GeographicPoint, nat>, que: seq<GeographicPoint>) {
    Queued(hop, que) && Ascending(hop, que) && Within(hop, que) && Expanded(g, hop, que)
  }

  /** What one expansion of `head` does to the hop map: recorded counts stay,
      and each newly recorded location is a destination of the head's
      segments, one hop above the head, discovered by the head and listed in
      `added`. */
  ghost predicate Extends(g: Graph, head: GeographicPoint,
                          hop: map<GeographicPoint, nat>, disc: map<GeographicPoint, GeographicPoint>,
                          hop': map<GeographicPoint, nat>, disc': map<GeographicPoint, GeographicPoint>,
                          added: seq<GeographicPoint>)
    requires head in hop
  {
    && (forall p | p in hop :: p in hop' && hop'[p] == hop[p])
    && (forall p | p in hop && p in disc :: p in disc' && disc'[p] == disc[p])
    && (forall p | p in hop' && p !in hop ::
          && hop'[p] == hop[head] + 1
          && p in disc' && disc'[p] == head
          && HasEdge(g, head, p)
          && p in Destinations(g))
    && (forall p :: p in added <==> p in hop' && p !in hop)
  }

  /** The inner loop of the search (lines 224-240): every destination of the
      head's segments that has no hop count yet gets the head's count plus
      one and joins the queue; recorded counts are never overwritten. After
      it, every destination of the head's segments is recorded. */
  method Expand(g: Graph, head: GeographicPoint, hop: map<GeographicPoint, nat>,
                ghost disc: map<GeographicPoint, GeographicPoint>)
    returns (hop': map<GeographicPoint, nat>, ghost disc': map<GeographicPoint, GeographicPoint>,
             added: seq<GeographicPoint>)
    requires head in hop
    requires forall x | x in hop :: hop[x] <= hop[head] + 1
    ensures Extends(g, head, hop, disc, hop', disc', added)
    ensures ClosedAt(g, hop', head)
  {
    var es := Potential(g, head).edges;
    hop', disc', added := hop, disc, [];
    for j := 0 to |es|
      invariant Extends(g, head, hop, disc, hop', disc', added)
      invariant forall k | 0 <= k < j :: es[k].destination in hop' && hop'[es[k].destination] <= hop[head] + 1
    {
      var d := es[j].destination;
      if d !in hop' {
        DestinationRecorded(g, head, j);
        hop' := hop'[d := hop'[head] + 1];
        disc' := disc'[d := head];
        added := added + [d];
      }
    }
  }

  lemma ExtendKeepsHops(g: Graph, start: GeographicPoint, head: GeographicPoint,
                        hop: map<GeographicPoint, nat>, disc: map<GeographicPoint, GeographicPoint>,
                        hop': map<GeographicPoint, nat>, disc': map<GeographicPoint, GeographicPoint>,
                        added: seq<GeographicPoint>)
    requires HopInv(g, start, hop, disc) && head in hop
    requires Extends(g, head, hop, disc, hop', disc', added)
    ensures HopInv(g, start, hop', disc')
  {
  }

  lemma ExtendKeepsOrder(hop: map<GeographicPoint, nat>, que: seq<GeographicPoint>,
                         hop': map<GeographicPoint, nat>, added: seq<GeographicPoint>)
    requires Queued(hop, que) && Ascending(hop, que) && Within(hop, que) && |que| > 0
    requires forall p | p in hop :: p in hop' && hop'[p] == hop[p]
    requires forall p | p in hop' && p !in hop :: hop'[p] == hop[que[0]] + 1
    requires forall p :: p in added <==> p in hop' && p !in hop
    ensures Queued(hop', que[1..] + added)
    ensures Ascending(hop', que[1..] + added)
  {
    var que' := que[1..] + added;
    forall i, j | 0 <= i <= j < |que'| ensures hop'[que'[i]] <= hop'[que'[j]] {
      if j < |que| - 1 {
        assert que'[i] == que[i + 1] && que'[j] == que[j + 1];
      } else if i < |que| - 1 {
        assert que'[i] == que[i + 1];
      }
    }
  }

  lemma ExtendKeepsWithin(hop: map<GeographicPoint, nat>, que: seq<GeographicPoint>,
                          hop': map<GeographicPoint, nat>, added: seq<GeographicPoint>)
    requires Queued(hop, que) && Ascending(hop, que) && Within(hop, que) && |que| > 0
    requires forall p | p in hop :: p in hop' && hop'[p] == hop[p]
    requires forall p | p in hop' && p !in hop :: hop'[p] == hop[que[0]] + 1
    requires forall p :: p in added <==> p in hop' && p !in hop
    requires Queued(hop', que[1..] + added)
    ensures Within(hop', que[1..] + added)
  {
    var que' := que[1..] + added;
    forall x, i | x in hop' && 0 <= i < |que'| ensures hop'[x] <= hop'[que'[i]] + 1 {
      if i < |que| - 1 {
        assert que'[i] == que[i + 1];
      }
    }
  }

  lemma ExtendKeepsExpanded(g: Graph, hop: map<GeographicPoint, nat>, que: seq<GeographicPoint>,
                            hop': map<GeographicPoint, nat>, added: seq<GeographicPoint>)
    requires Expanded(g, hop, que) && |que| > 0 && que[0] in hop'
    requires forall p | p in hop :: p in hop' && hop'[p] == hop[p]
    requires forall p :: p in added <==> p in hop' && p !in hop
    requires ClosedAt(g, hop', que[0])
    ensures Expanded(g, hop', que[1..] + added)
  {
    var que' := que[1..] + added;
    forall x | x in hop' && x !in que' ensures ClosedAt(g, hop', x) {
      if x != que[0] {
        assert x !in que;
        assert ClosedAt(g, hop, x);
      }
    }
  }

  /** Expanding the head of the queue and appending what it added keeps the
      queue invariant. */
  lemma ExtendKeepsQueue(g: Graph, hop: map<GeographicPoint, nat>, disc: map<GeographicPoint, GeographicPoint>,
                         que: seq<GeographicPoint>,
                         hop': map<GeographicPoint, nat>, disc': map<GeographicPoint, GeographicPoint>,
                         added: seq<GeographicPoint>)
    requires QueueInv(g, hop, que) && |que| > 0
    requires Extends(g, que[0], hop, disc, hop', disc', added)
    requires ClosedAt(g, hop', que[0])
    ensures QueueInv(g, hop', que[1..] + added)
  {
    ExtendKeepsOrder(hop, que, hop', added);
    ExtendKeepsWithin(hop, que, hop', added);
    ExtendKeepsExpanded(g, hop, que, hop', added);
  }

  /** The search measure: an expansion that records something shrinks the
      set of unrecorded candidates, and one that records nothing leaves the
      recorded set as it was. */
  lemma ExtendShrinks(g: Graph, head: GeographicPoint, universe: set<GeographicPoint>,
                      hop: map<GeographicPoint, nat>, disc: map<GeographicPoint, GeographicPoint>,
                      hop': map<GeographicPoint, nat>, disc': map<GeographicPoint, GeographicPoint>,
                      added: seq<GeographicPoint>)
    requires head in hop && Destinations(g) <= universe && hop.Keys <= universe
    requires Extends(g, head, hop, disc, hop', disc', added)
    ensures hop'.Keys <= universe
    ensures |added| > 0 ==> |universe - hop'.Keys| < |universe - hop.Keys|
    ensures |added| == 0 ==> hop'.Keys == hop.Keys
  {
    if |added| > 0 {
      assert added[0] in hop'.Keys - hop.Keys;
      ProperSubsetSmaller(universe - hop'.Keys, universe - hop.Keys);
    }
  }

  /** The outer loop (lines 207-241). Ends either with the goal recorded and
      no route to it shorter than its hop count, or with the goal unrecorded
      and every recorded location expanded. */
  method Explore(g: Graph, start: GeographicPoint, goal: GeographicPoint)
    returns (hop: map<GeographicPoint, nat>, ghost disc: map<GeographicPoint, GeographicPoint>)
    ensures HopInv(g, start, hop, disc)
    ensures goal in hop ==> forall path | IsRoute(g, path, start, goal) :: hop[goal] <= |path| - 1
    ensures goal !in hop ==> forall x | x in hop :: ClosedAt(g, hop, x)
  {
    hop, disc := map[start := 0], map[];
    var que := [start];
    ghost var universe := {start} + Destinations(g);
    while |que| > 0
      invariant HopInv(g, start, hop, disc)
      invariant QueueInv(g, hop, que)
      invariant goal in hop ==> goal in que
      invariant hop.Keys <= universe
      decreases |universe - hop.Keys|, |que|
    {
      var head := que[0];
      if head == goal {
        GoalNotFarther(g, start, hop, que);
        return;
      }
      var hop', disc', added := Expand(g, head, hop, disc);
      ExtendKeepsHops(g, start, head, hop, disc, hop', disc', added);
      ExtendKeepsQueue(g, hop, disc, que, hop', disc', added);
      ExtendShrinks(g, head, universe, hop, disc, hop', disc', added);
      hop, disc, que := hop', disc', que[1..] + added;
    }
  }

  /** Every route from the start to the head of the queue is at least as
      long as the head's hop count. */
  lemma GoalNotFarther(g: Graph, start: GeographicPoint, hop: map<GeographicPoint, nat>,
                       que: seq<GeographicPoint>)
    requires start in hop && hop[start] == 0
    requires QueueInv(g, hop, que) && |que| > 0
    ensures forall path | IsRoute(g, path, start, que[0]) :: hop[que[0]] <= |path| - 1
  {
    forall path | IsRoute(g, path, start, que[0]) ensures hop[que[0]] <= |path| - 1 {
      RouteNotShorter(g, start, hop, que, path);
    }
  }

  /** When the goal heads the queue, walking any route from the start stays
      among expanded locations, each at most as many hops as its index, until
      it meets a queued location; the queue's order then bounds the goal's
      count by the route's length. */
  lemma {:induction false} RouteNotShorter(g: Graph, start: GeographicPoint, hop: map<GeographicPoint, nat>,
                                           que: seq<GeographicPoint>, path: seq<GeographicPoint>)
    requires start in hop && hop[start] == 0
    requires QueueInv(g, hop, que) && |que| > 0
    requires IsRoute(g, path, start, que[0])
    ensures hop[que[0]] <= |path| - 1
  {
    var i := 0;
    while path[i] !in que
      invariant i < |path|
      invariant path[i] in hop && hop[path[i]] <= i
      decreases |path| - i
    {
      assert i < |path| - 1;
      assert HasEdge(g, path[i], path[i + 1]);
      var es := Potential(g, path[i]).edges;
      var k :| 0 <= k < |es| && es[k].destination == path[i + 1];
      assert ClosedAt(g, hop, path[i]);
      i := i + 1;
    }
    var q :| 0 <= q < |que| && que[q] == path[i];
  }

  /** Once every recorded location has been expanded, every location a route
      from the start reaches is recorded. */
  lemma {:induction false} ClosedHoldsRoutes(g: Graph, start: GeographicPoint, hop: map<GeographicPoint, nat>,
                                             goal: GeographicPoint, path: seq<GeographicPoint>)
    requires start in hop
    requires forall x | x in hop :: ClosedAt(g, hop, x)
    requires IsRoute(g, path, start, goal)
    ensures goal in hop
  {
    var i := 0;
    while i < |path| - 1
      invariant i < |path|
      invariant path[i] in hop
      decreases |path| - i
    {
      assert HasEdge(g, path[i], path[i + 1]);
      var es := Potential(g, path[i]).edges;
      var k :| 0 <= k < |es| && es[k].destination == path[i + 1];
      assert ClosedAt(g, hop, path[i]);
      i := i + 1;
    }
  }

  /** The reconstruction loop (lines 248-272): from the goal, repeatedly pick
      a recorded location one hop lower whose node has a segment into the
      current one. Such a location always exists (the current one's
      discoverer), so the loop ends, at the start, after `hop[goal]` steps. */
  method Backtrack(g: Graph, start: GeographicPoint, hop: map<GeographicPoint, nat>,
                   ghost disc: map<GeographicPoint, GeographicPoint>, goal: GeographicPoint)
    returns (path: seq<GeographicPoint>)
    requires HopInv(g, start, hop, disc)
    requires goal in hop
    ensures |path| == hop[goal] + 1
    ensures path[0] == goal && path[|path| - 1] == start
    ensures forall i | 0 <= i < |path| :: path[i] in hop && hop[path[i]] == hop[goal] - i
    ensures forall i | 0 < i < |path| :: HasEdge(g, path[i], path[i - 1])
  {
    path := [goal];
    var child := goal;
    var tmpHop := hop[goal];
    while tmpHop > 0
      invariant Trail(g, hop, goal, path, child, tmpHop)
      decreases tmpHop
    {
      assert disc[child] in hop && hop[disc[child]] == tmpHop - 1 && HasEdge(g, disc[child], child);
      var point :| point in hop && hop[point] == tmpHop - 1 && IsParent(Potential(g, point), NewNode(child));
      TrailExtend(g, hop, goal, path, child, tmpHop, point);
      path := path + [point];
      tmpHop := tmpHop - 1;
      child := point;
    }
  }

  /** The walk back so far: `path` leads from the goal down to `child`, whose
      hop count is `k`, one hop less at each location. */
  ghost predicate Trail(g: Graph, hop: map<GeographicPoint, nat>, goal: GeographicPoint,
                        path: seq<GeographicPoint>, child: GeographicPoint, k: nat) {
    && goal in hop && child in hop && hop[child] == k && k <= hop[goal]
    && |path| == hop[goal] - k + 1
    && path[0] == goal && path[|path| - 1] == child
    && (forall i | 0 <= i < |path| :: path[i] in hop && hop[path[i]] == hop[goal] - i)
    && (forall i | 0 < i < |path| :: HasEdge(g, path[i], path[i - 1]))
  }

  lemma TrailExtend(g: Graph, hop: map<GeographicPoint, nat>, goal: GeographicPoint,
                    path: seq<GeographicPoint>, child: GeographicPoint, k: nat, point: GeographicPoint)
    requires Trail(g, hop, goal, path, child, k) && k > 0
    requires point in hop && hop[point] == k - 1 && IsParent(Potential(g, point), NewNode(child))
    ensures Trail(g, hop, goal, path + [point], point, k - 1)
  {
    var path' := path + [point];
    forall i | 0 <= i < |path'| ensures path'[i] in hop && hop[path'[i]] == hop[goal] - i {
      if i < |path| {
        assert path'[i] == path[i];
      }
    }
    forall i | 0 < i < |path'| ensures HasEdge(g, path'[i], path'[i - 1]) {
      if i < |path| {
        assert path'[i] == path[i] && path'[i - 1] == path[i - 1];
      }
    }
  }


  /** The in-place reversal (lines 274-278): swap the i-th element from each
      end for i below half the length. */
  method Reverse(s: seq<GeographicPoint>) returns (r: seq<GeographicPoint>)
    ensures |r| == |s|
    ensures forall i | 0 <= i < |s| :: r[i] == s[|s| - 1 - i]
  {
    r := s;
    var n := |s|;
    for i := 0 to n / 2
      invariant |r| == n
      invariant forall j | 0 <= j < i :: r[j] == s[n - 1 - j] && r[n - 1 - j] == s[j]
      invariant forall j | i <= j < n - i :: r[j] == s[j]
    {
      var temp := r[i];
      r := r[i := r[n - 1 - i]];
      r := r[n - 1 - i := temp];
    }
  }

  /** Reading a backtracked chain from the end gives a route. */
  lemma ReversedIsRoute(g: Graph, start: GeographicPoint, goal: GeographicPoint,
                        backward: seq<GeographicPoint>, path: seq<GeographicPoint>)
    requires |backward| >= 1 && backward[0] == goal && backward[|backward| - 1] == start
    requires forall i | 0 < i < |backward| :: HasEdge(g, backward[i], backward[i - 1])
    requires |path| == |backward|
    requires forall i | 0 <= i < |backward| :: path[i] == backward[|backward| - 1 - i]
    ensures IsRoute(g, path, start, goal)
  {
    var n := |path|;
    forall i | 0 < i < n ensures HasEdge(g, path[i - 1], path[i]) {
      assert path[i - 1] == backward[n - i] && path[i] == backward[n - i - 1];
    }
  }

  /** `bfs`: no answer exactly when no route leads from the start to the
      goal; otherwise a route with the fewest steps. */
  method Bfs(g: Graph, start: GeographicPoint, goal: GeographicPoint)
    returns (r: Option<seq<GeographicPoint>>)
    ensures r.Some? <==> Reachable(g, start, goal)
    ensures r.Some? ==> IsRoute(g, r.value, start, goal)
    ensures r.Some? ==> forall path | IsRoute(g, path, start, goal) :: |r.value| <= |path|
  {
    var hop, disc := Explore(g, start, goal);
    if goal !in hop {
      forall path | IsRoute(g, path, start, goal) ensures false {
        ClosedHoldsRoutes(g, start, hop, goal, path);
      }
      return None;
    }
    var backward := Backtrack(g, start, hop, disc, goal);
    var path := Reverse(backward);
    ReversedIsRoute(g, start, goal, backward, path);
    return Some(path);
  }
}
