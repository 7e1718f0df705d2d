/** Breadth-first search of the current engine (MapGraph.java, bfs): nodes are
    marked visited when enqueued, each newly seen node records the node it was
    seen from, and the search stops when the goal is dequeued. */
module Bfs {
  import opened Options
  import opened Geography
  import opened RoadGraph
  import opened Routes

  /** `p` is a route of the graph from `s` to `t`: every location is a node and
      every step follows a segment. */
  ghost predicate IsRoute(g: MapGraph, p: seq<GeographicPoint>, s: GeographicPoint, t: GeographicPoint) {
    && |p| >= 1 && p[0] == s && p[|p| - 1] == t
    && (forall i | 0 <= i < |p| :: p[i] in g.pointNodeMap)
    && (forall i | 0 <= i < |p| - 1 :: p[i + 1] in Neighbors(g, p[i]))
  }

  ghost predicate Reachable(g: MapGraph, s: GeographicPoint, t: GeographicPoint) {
    exists p :: IsRoute(g, p, s, t)
  }

  /** The effect of expanding `u`: every neighbour not yet visited becomes
      visited, gets `u` as parent and hop count one more than `u`'s, and is
      listed once in `appended`, the nodes to enqueue; entries already present
      are left alone. */
  ghost predicate ExpandedBy(g: MapGraph, u: GeographicPoint,
                             visited: set<GeographicPoint>, parent: map<GeographicPoint, GeographicPoint>,
                             d: map<GeographicPoint, nat>,
                             visited': set<GeographicPoint>, parent': map<GeographicPoint, GeographicPoint>,
                             appended: seq<GeographicPoint>, d': map<GeographicPoint, nat>)
    requires u in g.pointNodeMap && u in d
  {
    && visited' == visited + Neighbors(g, u)
    && (forall v :: v in parent' <==> v in parent || (v in visited' && v !in visited))
    && (forall v | v in parent :: parent'[v] == parent[v])
    && (forall v | v in visited' && v !in visited :: parent'[v] == u)
    && (forall v :: v in d' <==> v in d || (v in visited' && v !in visited))
    && (forall v | v in d :: d'[v] == d[v])
    && (forall v | v in visited' && v !in visited :: d'[v] == d[u] + 1)
    && (forall i | 0 <= i < |appended| :: appended[i] in visited' && appended[i] !in visited)
    && (forall v | v in visited' && v !in visited :: v in appended)
    && (forall i, j | 0 <= i < j < |appended| :: appended[i] != appended[j])
    && (visited' == visited ==> appended == [])
  }

  /** The state of the loop over `u`'s neighbours once those outside `todo`
      have been looked at: `added` are the newly visited ones, in the order
      `appended` lists them. */
  ghost predicate Discovered(g: MapGraph, u: GeographicPoint, visited: set<GeographicPoint>,
                             parent: map<GeographicPoint, GeographicPoint>, d: map<GeographicPoint, nat>,
                             todo: set<GeographicPoint>, visited': set<GeographicPoint>,
                             parent': map<GeographicPoint, GeographicPoint>, d': map<GeographicPoint, nat>,
                             appended: seq<GeographicPoint>, added: set<GeographicPoint>)
    requires u in g.pointNodeMap && u in d
  {
    && todo <= Neighbors(g, u)
    && (forall v :: v in visited' <==> v in visited || v in added)
    && (forall v :: v in added <==> v !in visited && v in Neighbors(g, u) && v !in todo)
    && (forall v :: v in parent' <==> v in parent || v in added)
    && (forall v | v in parent :: parent'[v] == parent[v])
    && (forall v | v in added :: parent'[v] == u)
    && (forall v :: v in d' <==> v in d || v in added)
    && (forall v | v in d :: d'[v] == d[v])
    && (forall v | v in added :: d'[v] == d[u] + 1)
    && (forall i | 0 <= i < |appended| :: appended[i] in added)
    && (forall v | v in added :: v in appended)
    && (forall i, j | 0 <= i < j < |appended| :: appended[i] != appended[j])
    && (added == {} ==> appended == [])
  }

  lemma DiscoverNew(g: MapGraph, u: GeographicPoint, visited: set<GeographicPoint>,
                    parent: map<GeographicPoint, GeographicPoint>, d: map<GeographicPoint, nat>,
                    todo: set<GeographicPoint>, visited': set<GeographicPoint>,
                    parent': map<GeographicPoint, GeographicPoint>, d': map<GeographicPoint, nat>,
                    appended: seq<GeographicPoint>, added: set<GeographicPoint>, v: GeographicPoint)
    requires u in g.pointNodeMap && u in d
    requires parent.Keys <= visited && d.Keys == visited
    requires Discovered(g, u, visited, parent, d, todo, visited', parent', d', appended, added)
    requires v in todo && v !in visited'
    ensures Discovered(g, u, visited, parent, d, todo - {v}, visited' + {v}, parent'[v := u],
                       d'[v := d[u] + 1], appended + [v], added + {v})
  {
  }

  lemma DiscoverOld(g: MapGraph, u: GeographicPoint, visited: set<GeographicPoint>,
                    parent: map<GeographicPoint, GeographicPoint>, d: map<GeographicPoint, nat>,
                    todo: set<GeographicPoint>, visited': set<GeographicPoint>,
                    parent': map<GeographicPoint, GeographicPoint>, d': map<GeographicPoint, nat>,
                    appended: seq<GeographicPoint>, added: set<GeographicPoint>, v: GeographicPoint)
    requires u in g.pointNodeMap && u in d
    requires Discovered(g, u, visited, parent, d, todo, visited', parent', d', appended, added)
    requires v in todo && v in visited'
    ensures Discovered(g, u, visited, parent, d, todo - {v}, visited', parent', d', appended, added)
  {
  }

  /** The inner loop over the neighbour set of `u`, in whatever order the set
      yields its elements: a neighbour not seen before is marked visited, gets
      `u` as its parent and is enqueued; nothing recorded before changes. */
  method ExpandBfs(g: MapGraph, u: GeographicPoint, visited: set<GeographicPoint>,
                   parent: map<GeographicPoint, GeographicPoint>, ghost d: map<GeographicPoint, nat>)
    returns (visited': set<GeographicPoint>, parent': map<GeographicPoint, GeographicPoint>,
             appended: seq<GeographicPoint>, ghost d': map<GeographicPoint, nat>)
    requires u in g.pointNodeMap && u in d
    requires parent.Keys <= visited && d.Keys == visited
    ensures visited' == visited + Neighbors(g, u)
    ensures ExpandedBy(g, u, visited, parent, d, visited', parent', appended, d')
  {
    var todo := Neighbors(g, u);
    appended := [];
    ghost var added: set<GeographicPoint> := {};
    visited', parent', d' := visited, parent, d;
    while todo != {}
      invariant Discovered(g, u, visited, parent, d, todo, visited', parent', d', appended, added)
      decreases |todo|
    {
      var v :| v in todo;
      if v !in visited' {
        DiscoverNew(g, u, visited, parent, d, todo, visited', parent', d', appended, added, v);
        visited' := visited' + {v};
        parent' := parent'[v := u];
        d' := d'[v := d[u] + 1];
        appended := appended + [v];
        added := added + {v};
      } else {
        DiscoverOld(g, u, visited, parent, d, todo, visited', parent', d', appended, added, v);
      }
      todo := todo - {v};
    }
    DiscoveredAll(g, u, visited, parent, d, visited', parent', d', appended, added);
  }

  /** Once every neighbour has been looked at, the loop state is the effect of
      expanding `u`. */
  lemma DiscoveredAll(g: MapGraph, u: GeographicPoint, visited: set<GeographicPoint>,
                      parent: map<GeographicPoint, GeographicPoint>, d: map<GeographicPoint, nat>,
                      visited': set<GeographicPoint>, parent': map<GeographicPoint, GeographicPoint>,
                      d': map<GeographicPoint, nat>, appended: seq<GeographicPoint>, added: set<GeographicPoint>)
    requires u in g.pointNodeMap && u in d
    requires Discovered(g, u, visited, parent, d, {}, visited', parent', d', appended, added)
    ensures visited' == visited + Neighbors(g, u)
    ensures ExpandedBy(g, u, visited, parent, d, visited', parent', appended, d')
  {
    assert added == visited' - visited;
  }

  /** The loop invariant of the search, in five parts. `popped` holds the
      nodes already dequeued and `d` the hop count recorded for each visited
      node. */
  ghost predicate BfsInv(g: MapGraph, start: GeographicPoint, goal: GeographicPoint,
                         visited: set<GeographicPoint>, parent: map<GeographicPoint, GeographicPoint>,
                         queue: seq<GeographicPoint>, d: map<GeographicPoint, nat>, popped: set<GeographicPoint>)
  {
    && Valid(g)
    && visited <= g.pointNodeMap.Keys && d.Keys == visited
    && start in visited && d[start] == 0
    && popped <= visited
    && goal !in popped
    && QueueInv(visited, queue, popped)
    && ParentInv(g, start, visited, parent, d, popped)
    && OrderInv(queue, d, popped)
    && ClosedInv(g, visited, d, popped)
  }

  /** The queue holds, without repetition, exactly the visited nodes not yet dequeued. */
  ghost predicate QueueInv(visited: set<GeographicPoint>, queue: seq<GeographicPoint>, popped: set<GeographicPoint>) {
    && (forall i | 0 <= i < |queue| :: queue[i] in visited && queue[i] !in popped)
    && (forall v | v in visited :: v in popped || v in queue)
    && (forall i, j | 0 <= i < j < |queue| :: queue[i] != queue[j])
  }

  /** Every visited node but the start has a dequeued parent one hop closer. */
  ghost predicate ParentInv(g: MapGraph, start: GeographicPoint, visited: set<GeographicPoint>,
                            parent: map<GeographicPoint, GeographicPoint>, d: map<GeographicPoint, nat>,
                            popped: set<GeographicPoint>)
    requires popped <= g.pointNodeMap.Keys && popped <= d.Keys
  {
    && parent.Keys == visited - {start}
    && (forall v | v in parent :: parent[v] in popped && v in d && v in Neighbors(g, parent[v]) && d[v] == d[parent[v]] + 1)
  }

  /** Hop counts along the queue never drop and span at most one level, and
      no dequeued node has a larger count than a queued one. */
  ghost predicate OrderInv(queue: seq<GeographicPoint>, d: map<GeographicPoint, nat>, popped: set<GeographicPoint>) {
    && (forall i | 0 <= i < |queue| :: queue[i] in d)
    && popped <= d.Keys
    && (forall i, j | 0 <= i < j < |queue| :: d[queue[i]] <= d[queue[j]])
    && (forall i | 0 <= i < |queue| :: d[queue[i]] <= d[queue[0]] + 1)
    && (forall x, i | x in popped && 0 <= i < |queue| :: d[x] <= d[queue[i]])
  }

  /** Every neighbour of a dequeued node is visited, at most one hop further. */
  ghost predicate ClosedInv(g: MapGraph, visited: set<GeographicPoint>, d: map<GeographicPoint, nat>,
                            popped: set<GeographicPoint>)
    requires popped <= g.pointNodeMap.Keys && popped <= d.Keys && visited <= d.Keys
  {
    forall x, y | x in popped && y in Neighbors(g, x) :: y in visited && d[y] <= d[x] + 1
  }

  lemma BfsInit(g: MapGraph, start: GeographicPoint, goal: GeographicPoint)
    requires Valid(g) && start in g.pointNodeMap
    ensures BfsInv(g, start, goal, {start}, map[], [start], map[start := 0], {})
  {
  }

  lemma StepQueue(visited: set<GeographicPoint>, queue: seq<GeographicPoint>, popped: set<GeographicPoint>,
                  visited': set<GeographicPoint>, appended: seq<GeographicPoint>)
    requires QueueInv(visited, queue, popped) && popped <= visited && queue != []
    requires visited <= visited'
    requires forall i | 0 <= i < |appended| :: appended[i] in visited' - visited
    requires forall v | v in visited' - visited :: v in appended
    requires forall i, j | 0 <= i < j < |appended| :: appended[i] != appended[j]
    ensures QueueInv(visited', queue[1..] + appended, popped + {queue[0]})
  {
    var u := queue[0];
    var q1 := queue[1..];
    var queue' := q1 + appended;
    var popped' := popped + {u};
    forall i | 0 <= i < |queue'|
      ensures queue'[i] in visited' && queue'[i] !in popped'
    {
      if i < |q1| {
        assert queue'[i] == queue[i + 1];
      } else {
        assert queue'[i] == appended[i - |q1|];
      }
    }
    forall v | v in visited'
      ensures v in popped' || v in queue'
    {
      if v in visited' - visited {
        var k :| 0 <= k < |appended| && appended[k] == v;
        assert queue'[|q1| + k] == v;
      } else if v != u && v !in popped {
        var k :| 0 <= k < |queue| && queue[k] == v;
        assert queue'[k - 1] == v;
      }
    }
    forall i, j | 0 <= i < j < |q1| ensures q1[i] != q1[j] {
      assert q1[i] == queue[i + 1] && q1[j] == queue[j + 1];
    }
    forall i, j | 0 <= i < |q1| && 0 <= j < |appended| ensures q1[i] != appended[j] {
      assert q1[i] == queue[i + 1];
    }
    ConcatDistinct(q1, appended);
  }

  /** Two repetition-free sequences with no common element concatenate to a
      repetition-free sequence. */
  lemma ConcatDistinct<T>(a: seq<T>, b: seq<T>)
    requires forall i, j | 0 <= i < j < |a| :: a[i] != a[j]
    requires forall i, j | 0 <= i < j < |b| :: b[i] != b[j]
    requires forall i, j | 0 <= i < |a| && 0 <= j < |b| :: a[i] != b[j]
    ensures forall i, j | 0 <= i < j < |a + b| :: (a + b)[i] != (a + b)[j]
  {
    forall i, j | 0 <= i < j < |a + b| ensures (a + b)[i] != (a + b)[j] {
      if j < |a| {
        assert (a + b)[i] == a[i] && (a + b)[j] == a[j];
      } else if i < |a| {
        assert (a + b)[i] == a[i] && (a + b)[j] == b[j - |a|];
      } else {
        assert (a + b)[i] == b[i - |a|] && (a + b)[j] == b[j - |a|];
      }
    }
  }

  lemma StepOrder(queue: seq<GeographicPoint>, d: map<GeographicPoint, nat>, popped: set<GeographicPoint>,
                  d': map<GeographicPoint, nat>, appended: seq<GeographicPoint>)
    requires OrderInv(queue, d, popped) && queue != []
    requires forall v | v in d :: v in d' && d'[v] == d[v]
    requires forall i | 0 <= i < |appended| :: appended[i] in d' && d'[appended[i]] == d[queue[0]] + 1
    ensures OrderInv(queue[1..] + appended, d', popped + {queue[0]})
  {
    var u := queue[0];
    var q1 := queue[1..];
    var queue' := q1 + appended;
    forall i | 0 <= i < |queue'|
      ensures queue'[i] in d' && d[u] <= d'[queue'[i]] <= d[u] + 1
    {
      if i < |q1| {
        assert queue'[i] == queue[i + 1];
      } else {
        assert queue'[i] == appended[i - |q1|];
      }
    }
    forall i, j | 0 <= i < j < |queue'|
      ensures d'[queue'[i]] <= d'[queue'[j]]
    {
      if j < |q1| {
        assert queue'[i] == queue[i + 1] && queue'[j] == queue[j + 1];
      } else if i < |q1| {
        assert queue'[i] == queue[i + 1] && queue'[j] == appended[j - |q1|];
      } else {
        assert queue'[i] == appended[i - |q1|] && queue'[j] == appended[j - |q1|];
      }
    }
  }

  lemma StepClosed(g: MapGraph, visited: set<GeographicPoint>, queue: seq<GeographicPoint>,
                   d: map<GeographicPoint, nat>, popped: set<GeographicPoint>,
                   visited': set<GeographicPoint>, d': map<GeographicPoint, nat>)
    requires popped <= g.pointNodeMap.Keys && popped <= d.Keys && visited <= d.Keys
    requires ClosedInv(g, visited, d, popped) && OrderInv(queue, d, popped) && QueueInv(visited, queue, popped)
    requires queue != [] && queue[0] in g.pointNodeMap
    requires visited' == visited + Neighbors(g, queue[0])
    requires forall v | v in d :: v in d' && d'[v] == d[v]
    requires forall v | v in visited' - visited :: v in d' && d'[v] == d[queue[0]] + 1
    ensures popped + {queue[0]} <= d'.Keys && visited' <= d'.Keys
    ensures ClosedInv(g, visited', d', popped + {queue[0]})
  {
    var u := queue[0];
    forall y | y in Neighbors(g, u)
      ensures y in visited' && d'[y] <= d'[u] + 1
    {
      if y in visited && y !in popped {
        var k :| 0 <= k < |queue| && queue[k] == y;
      }
    }
  }

  lemma StepParent(g: MapGraph, start: GeographicPoint, visited: set<GeographicPoint>,
                   parent: map<GeographicPoint, GeographicPoint>, d: map<GeographicPoint, nat>,
                   popped: set<GeographicPoint>, u: GeographicPoint,
                   visited': set<GeographicPoint>, parent': map<GeographicPoint, GeographicPoint>,
                   d': map<GeographicPoint, nat>)
    requires popped <= g.pointNodeMap.Keys && popped <= d.Keys && u in g.pointNodeMap && u in d
    requires start in visited && d.Keys == visited
    requires ParentInv(g, start, visited, parent, d, popped)
    requires visited' == visited + Neighbors(g, u)
    requires forall v :: v in parent' <==> v in parent || (v in visited' && v !in visited)
    requires forall v | v in parent :: parent'[v] == parent[v]
    requires forall v | v in visited' && v !in visited :: parent'[v] == u
    requires forall v :: v in d' <==> v in d || (v in visited' && v !in visited)
    requires forall v | v in d :: d'[v] == d[v]
    requires forall v | v in visited' && v !in visited :: d'[v] == d[u] + 1
    ensures popped + {u} <= d'.Keys
    ensures ParentInv(g, start, visited', parent', d', popped + {u})
  {
    assert parent'.Keys == visited' - {start};
  }

  /** Dequeuing a node other than the goal, expanding it and enqueuing the
      newly seen neighbours keeps the invariant. */
  lemma BfsStep(g: MapGraph, start: GeographicPoint, goal: GeographicPoint,
                 visited: set<GeographicPoint>, parent: map<GeographicPoint, GeographicPoint>,
                 queue: seq<GeographicPoint>, d: map<GeographicPoint, nat>, popped: set<GeographicPoint>,
                 visited': set<GeographicPoint>, parent': map<GeographicPoint, GeographicPoint>,
                 appended: seq<GeographicPoint>, d': map<GeographicPoint, nat>)
    requires BfsInv(g, start, goal, visited, parent, queue, d, popped)
    requires queue != [] && queue[0] != goal
    requires ExpandedBy(g, queue[0], visited, parent, d, visited', parent', appended, d')
    ensures BfsInv(g, start, goal, visited', parent', queue[1..] + appended, d', popped + {queue[0]})
  {
    StepLine(g, start, goal, visited, parent, queue, d, popped, visited', parent', appended, d');
    StepBook(g, start, goal, visited, parent, queue, d, popped, visited', parent', appended, d');
    StepGraph(g, start, goal, visited, parent, queue, d, popped, visited', parent', appended, d');
    StepParents(g, start, goal, visited, parent, queue, d, popped, visited', parent', appended, d');
  }

  /** The queue half of a step: the queue and hop-order invariants. */
  lemma StepLine(g: MapGraph, start: GeographicPoint, goal: GeographicPoint,
                 visited: set<GeographicPoint>, parent: map<GeographicPoint, GeographicPoint>,
                 queue: seq<GeographicPoint>, d: map<GeographicPoint, nat>, popped: set<GeographicPoint>,
                 visited': set<GeographicPoint>, parent': map<GeographicPoint, GeographicPoint>,
                 appended: seq<GeographicPoint>, d': map<GeographicPoint, nat>)
    requires BfsInv(g, start, goal, visited, parent, queue, d, popped)
    requires queue != [] && queue[0] != goal
    requires ExpandedBy(g, queue[0], visited, parent, d, visited', parent', appended, d')
    ensures QueueInv(visited', queue[1..] + appended, popped + {queue[0]})
    ensures OrderInv(queue[1..] + appended, d', popped + {queue[0]})
  {
    StepQueue(visited, queue, popped, visited', appended);
    StepOrder(queue, d, popped, d', appended);
  }

  /** The bookkeeping part of a step: visited nodes stay in the graph and
      carry hop counts, the start keeps count 0 and the goal is not dequeued. */
  lemma StepBook(g: MapGraph, start: GeographicPoint, goal: GeographicPoint,
                 visited: set<GeographicPoint>, parent: map<GeographicPoint, GeographicPoint>,
                 queue: seq<GeographicPoint>, d: map<GeographicPoint, nat>, popped: set<GeographicPoint>,
                 visited': set<GeographicPoint>, parent': map<GeographicPoint, GeographicPoint>,
                 appended: seq<GeographicPoint>, d': map<GeographicPoint, nat>)
    requires BfsInv(g, start, goal, visited, parent, queue, d, popped)
    requires queue != [] && queue[0] != goal
    requires ExpandedBy(g, queue[0], visited, parent, d, visited', parent', appended, d')
    ensures visited' <= g.pointNodeMap.Keys && d'.Keys == visited'
    ensures start in visited' && d'[start] == 0
    ensures popped + {queue[0]} <= visited' && goal !in popped + {queue[0]}
  {
    assert Neighbors(g, queue[0]) <= g.pointNodeMap.Keys;
    assert visited <= visited';
    assert d'.Keys == visited' by {
      forall v ensures v in d' <==> v in visited' {
        assert v in d <==> v in visited;
      }
    }
  }

  /** After a step every neighbour of a dequeued node is visited, at most one
      hop further. */
  lemma StepGraph(g: MapGraph, start: GeographicPoint, goal: GeographicPoint,
                  visited: set<GeographicPoint>, parent: map<GeographicPoint, GeographicPoint>,
                  queue: seq<GeographicPoint>, d: map<GeographicPoint, nat>, popped: set<GeographicPoint>,
                  visited': set<GeographicPoint>, parent': map<GeographicPoint, GeographicPoint>,
                  appended: seq<GeographicPoint>, d': map<GeographicPoint, nat>)
    requires BfsInv(g, start, goal, visited, parent, queue, d, popped)
    requires queue != [] && queue[0] != goal
    requires ExpandedBy(g, queue[0], visited, parent, d, visited', parent', appended, d')
    requires visited' <= g.pointNodeMap.Keys && d'.Keys == visited' && popped + {queue[0]} <= visited'
    ensures ClosedInv(g, visited', d', popped + {queue[0]})
  {
    StepClosed(g, visited, queue, d, popped, visited', d');
  }

  /** The parent part of a step. */
  lemma StepParents(g: MapGraph, start: GeographicPoint, goal: GeographicPoint,
                    visited: set<GeographicPoint>, parent: map<GeographicPoint, GeographicPoint>,
                    queue: seq<GeographicPoint>, d: map<GeographicPoint, nat>, popped: set<GeographicPoint>,
                    visited': set<GeographicPoint>, parent': map<GeographicPoint, GeographicPoint>,
                    appended: seq<GeographicPoint>, d': map<GeographicPoint, nat>)
    requires BfsInv(g, start, goal, visited, parent, queue, d, popped)
    requires queue != [] && queue[0] != goal
    requires ExpandedBy(g, queue[0], visited, parent, d, visited', parent', appended, d')
    ensures popped + {queue[0]} <= g.pointNodeMap.Keys && popped + {queue[0]} <= d'.Keys
    ensures ParentInv(g, start, visited', parent', d', popped + {queue[0]})
  {
    StepParent(g, start, visited, parent, d, popped, queue[0], visited', parent', d');
  }

  /** Every location of a route from the start that runs through dequeued nodes
      only before index `i` is visited at index `i`, with at most `i` hops. */
  lemma {:induction false} HopsAlongRoute(g: MapGraph, start: GeographicPoint, goal: GeographicPoint,
                                          visited: set<GeographicPoint>, parent: map<GeographicPoint, GeographicPoint>,
                                          queue: seq<GeographicPoint>, d: map<GeographicPoint, nat>,
                                          popped: set<GeographicPoint>, p: seq<GeographicPoint>, i: nat)
    requires BfsInv(g, start, goal, visited, parent, queue, d, popped)
    requires i < |p| && p[0] == start
    requires forall k | 0 <= k < |p| - 1 :: p[k] in g.pointNodeMap && p[k + 1] in Neighbors(g, p[k])
    requires forall j | 0 <= j < i :: p[j] in popped
    ensures p[i] in visited && d[p[i]] <= i
  {
    if i > 0 {
      HopsAlongRoute(g, start, goal, visited, parent, queue, d, popped, p, i - 1);
    }
  }

  /** When the goal is at the head of the queue, no route to it is shorter
      than its recorded hop count. */
  lemma BfsMinimal(g: MapGraph, start: GeographicPoint, goal: GeographicPoint,
                   visited: set<GeographicPoint>, parent: map<GeographicPoint, GeographicPoint>,
                   queue: seq<GeographicPoint>, d: map<GeographicPoint, nat>, popped: set<GeographicPoint>,
                   p: seq<GeographicPoint>)
    requires BfsInv(g, start, goal, visited, parent, queue, d, popped)
    requires queue != [] && queue[0] == goal
    requires IsRoute(g, p, start, goal)
    ensures d[goal] + 1 <= |p|
  {
    var i := FirstIndex(p, x => x !in popped);
    HopsAlongRoute(g, start, goal, visited, parent, queue, d, popped, p, i);
    var k :| 0 <= k < |queue| && queue[k] == p[i];
    assert d[queue[0]] <= d[queue[k]];
  }

  /** When the queue runs empty, the goal cannot be reached. */
  lemma BfsExhausted(g: MapGraph, start: GeographicPoint, goal: GeographicPoint,
                     visited: set<GeographicPoint>, parent: map<GeographicPoint, GeographicPoint>,
                     d: map<GeographicPoint, nat>, popped: set<GeographicPoint>)
    requires BfsInv(g, start, goal, visited, parent, [], d, popped)
    ensures !Reachable(g, start, goal)
  {
    if p :| IsRoute(g, p, start, goal) {
      var i := FirstIndex(p, x => x !in popped);
      HopsAlongRoute(g, start, goal, visited, parent, [], d, popped, p, i);
    }
  }

  /** A route read off the parent map has as many hops as recorded for its end. */
  lemma {:induction false} ParentRouteHops(g: MapGraph, start: GeographicPoint, goal: GeographicPoint,
                                           visited: set<GeographicPoint>, parent: map<GeographicPoint, GeographicPoint>,
                                           queue: seq<GeographicPoint>, d: map<GeographicPoint, nat>,
                                           popped: set<GeographicPoint>, path: seq<GeographicPoint>, k: nat)
    requires BfsInv(g, start, goal, visited, parent, queue, d, popped)
    requires k < |path| && path[0] == start
    requires forall i | 0 < i < |path| :: path[i] in parent && parent[path[i]] == path[i - 1]
    ensures path[k] in visited && d[path[k]] == k
    ensures k > 0 ==> path[k] in Neighbors(g, path[k - 1])
  {
    if k > 0 {
      ParentRouteHops(g, start, goal, visited, parent, queue, d, popped, path, k - 1);
    }
  }

  /** The recorded hop counts rank the parent map: each parent step goes one hop down. */
  lemma ParentRanks(g: MapGraph, start: GeographicPoint, goal: GeographicPoint,
                    visited: set<GeographicPoint>, parent: map<GeographicPoint, GeographicPoint>,
                    queue: seq<GeographicPoint>, d: map<GeographicPoint, nat>, popped: set<GeographicPoint>)
    requires BfsInv(g, start, goal, visited, parent, queue, d, popped)
    requires queue != [] && queue[0] == goal
    ensures goal in d
    ensures forall v | v in d && v != start :: v in parent && parent[v] in d && d[parent[v]] < d[v]
  {
  }

  /** The route read off the parent map once the goal is dequeued is a route
      of the graph, and no route from start to goal is shorter. */
  lemma BfsRouteFound(g: MapGraph, start: GeographicPoint, goal: GeographicPoint,
                      visited: set<GeographicPoint>, parent: map<GeographicPoint, GeographicPoint>,
                      queue: seq<GeographicPoint>, d: map<GeographicPoint, nat>, popped: set<GeographicPoint>,
                      path: seq<GeographicPoint>)
    requires BfsInv(g, start, goal, visited, parent, queue, d, popped)
    requires queue != [] && queue[0] == goal
    requires |path| >= 1 && path[0] == start && path[|path| - 1] == goal
    requires forall i | 0 < i < |path| :: path[i] in parent && parent[path[i]] == path[i - 1]
    ensures IsRoute(g, path, start, goal)
    ensures forall q | IsRoute(g, q, start, goal) :: |path| <= |q|
  {
    forall k | 0 <= k < |path|
      ensures path[k] in g.pointNodeMap && d[path[k]] == k
      ensures k > 0 ==> path[k] in Neighbors(g, path[k - 1])
    {
      ParentRouteHops(g, start, goal, visited, parent, queue, d, popped, path, k);
    }
    forall q | IsRoute(g, q, start, goal)
      ensures |path| <= |q|
    {
      BfsMinimal(g, start, goal, visited, parent, queue, d, popped, q);
    }
  }

  /** Each round either visits a new node or shortens the queue. */
  lemma Progress(nodes: set<GeographicPoint>, visited: set<GeographicPoint>, visited': set<GeographicPoint>,
                 queue: seq<GeographicPoint>, appended: seq<GeographicPoint>)
    requires visited <= visited' <= nodes && queue != []
    requires visited' == visited ==> appended == []
    ensures |nodes - visited'| <= |nodes - visited|
    ensures |nodes - visited'| == |nodes - visited| ==> |queue[1..] + appended| < |queue|
  {
    if visited' != visited {
      ProperSubsetSmaller(nodes - visited', nodes - visited);
    }
  }

  /** The main loop: dequeue, stop at the goal, otherwise expand. It ends
      with the goal at the head of the queue or with the queue empty. */
  method Explore(g: MapGraph, start: GeographicPoint, goal: GeographicPoint)
    returns (found: bool, parent: map<GeographicPoint, GeographicPoint>, queue: seq<GeographicPoint>,
             visited: set<GeographicPoint>, ghost d: map<GeographicPoint, nat>, ghost popped: set<GeographicPoint>)
    requires Valid(g) && start in g.pointNodeMap
    ensures BfsInv(g, start, goal, visited, parent, queue, d, popped)
    ensures found ==> queue != [] && queue[0] == goal
    ensures !found ==> queue == []
  {
    parent := map[];
    queue := [start];
    visited := {start};
    d := map[start := 0];
    popped := {};
    BfsInit(g, start, goal);
    found := false;
    while queue != []
      invariant BfsInv(g, start, goal, visited, parent, queue, d, popped)
      invariant !found
      decreases |g.pointNodeMap.Keys - visited|, |queue|
    {
      var u := queue[0];
      if u == goal {
        found := true;
        break;
      }
      var visited', parent', appended, d' := ExpandBfs(g, u, visited, parent, d);
      BfsStep(g, start, goal, visited, parent, queue, d, popped, visited', parent', appended, d');
      Progress(g.pointNodeMap.Keys, visited, visited', queue, appended);
      visited, parent, queue, d, popped := visited', parent', queue[1..] + appended, d', popped + {u};
    }
  }

  /** The search. `None` is the source's `null`: an absent start or goal, or a
      goal that cannot be reached. Otherwise the route runs from start to goal
      along segments and has the fewest hops of all such routes. */
  method Search(g: MapGraph, start: GeographicPoint, goal: GeographicPoint)
    returns (r: Option<seq<GeographicPoint>>)
    requires Valid(g)
    ensures !IsNode(g, start) || !IsNode(g, goal) ==> r.None?
    ensures IsNode(g, start) && IsNode(g, goal) ==> (r.Some? <==> Reachable(g, start, goal))
    ensures r.Some? ==> IsRoute(g, r.value, start, goal)
    ensures r.Some? ==> forall q | IsRoute(g, q, start, goal) :: |r.value| <= |q|
  {
    if start !in g.pointNodeMap || goal !in g.pointNodeMap {
      return None;
    }
    var found, parent, queue, visited, d, popped := Explore(g, start, goal);
    if !found {
      BfsExhausted(g, start, goal, visited, parent, d, popped);
      return None;
    }
    ParentRanks(g, start, goal, visited, parent, queue, d, popped);
    var path := ReconstructPath(parent, start, goal, d);
    BfsRouteFound(g, start, goal, visited, parent, queue, d, popped, path);
    return Some(path);
  }
}
