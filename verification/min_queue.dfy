/** The priority queues of the weighted searches: a multiset of locations
    whose priorities are read from a map at removal time, so a location whose
    priority dropped after it was queued is ordered by its current priority. */
module MinQueue {
  import opened ExtReals
  import opened Geography

  /** A non-empty finite set has an element of least priority. */
  lemma {:induction false} LeastExists(s: set<GeographicPoint>, key: map<GeographicPoint, ExtReal>)
    requires s != {}
    requires forall x | x in s :: x in key
    ensures exists u :: u in s && forall x | x in s :: Le(key[u], key[x])
    decreases |s|
  {
    var y :| y in s;
    if s == {y} {
      assert forall x | x in s :: x == y;
      assert forall x | x in s :: Le(key[y], key[x]);
    } else {
      var rest := s - {y};
      LeastExists(rest, key);
      var u :| u in rest && forall x | x in rest :: Le(key[u], key[x]);
      if Lt(key[y], key[u]) {
        forall x | x in s
          ensures Le(key[y], key[x])
        {
          if x != y {
            assert x in rest;
            LeTrans(key[y], key[u], key[x]);
          }
        }
      } else {
        forall x | x in s
          ensures Le(key[u], key[x])
        {
          if x != y {
            assert x in rest;
          }
        }
        assert u in s;
      }
    }
  }

  /** Removal from the priority queue: some queued location of least current
      priority; among several of equal priority the choice is not fixed. */
  method PopMin(open: multiset<GeographicPoint>, key: map<GeographicPoint, ExtReal>) returns (u: GeographicPoint)
    requires open != multiset{}
    requires forall x | x in open :: x in key
    ensures u in open
    ensures forall x | x in open :: Le(key[u], key[x])
  {
    var s := set x | x in open;
    assert s != {} by {
      var y :| y in open;
      assert y in s;
    }
    LeastExists(s, key);
    u :| u in open && forall x | x in open :: Le(key[u], key[x]);
  }

  /** A relaxation only adds queue entries, and only for locations whose
      priority source `cost` was lowered. */
  ghost predicate Requeues(cost: map<GeographicPoint, ExtReal>, open: multiset<GeographicPoint>,
                           cost': map<GeographicPoint, ExtReal>, open': multiset<GeographicPoint>)
    requires forall p :: p in cost' <==> p in cost
  {
    && (forall x | x in open :: x in open')
    && (forall x | x in open' :: x in open || (x in cost && cost'[x] != cost[x]))
  }

  /** Lowering the cost of `v` and queueing it again keeps `Requeues`. */
  lemma UpdateRequeues(cost: map<GeographicPoint, ExtReal>, open: multiset<GeographicPoint>,
                        cost': map<GeographicPoint, ExtReal>, open': multiset<GeographicPoint>,
                        v: GeographicPoint, candidate: ExtReal)
    requires forall p :: p in cost' <==> p in cost
    requires Requeues(cost, open, cost', open')
    requires v in cost && Lt(candidate, cost[v])
    ensures Requeues(cost, open, cost'[v := candidate], open' + multiset{v})
  {
  }
}
