/** Travel-time weights of road segments (MapGraph.java, roadTypeSpeedLimitMapping
    and getRoadWeight). */
module RoadWeights {
  import opened ExtReals
  import opened Geography
  import opened RoadGraph
  import opened Routes

  /** Speed limit in km/h of a road type; an unknown type gets 0. */
  function SpeedLimit(roadType: string): (speed: real)
    ensures speed >= 0.0
    ensures speed > 0.0 <==> roadType in {"city street", "residential", "connector"}
  {
    if roadType == "city street" then 80.0
    else if roadType == "residential" then 60.0
    else if roadType == "connector" then 40.0
    else 0.0
  }

  /** Division of a length by a speed as the engine's double arithmetic does it
      when the result is used as a cost: dividing by zero gives +infinity. */
  function Quotient(length: real, speed: real): (r: ExtReal)
    ensures r.Inf? <==> speed == 0.0
    ensures r.Fin? ==> r.v * speed == length
  {
    if speed == 0.0 then Inf else Fin(length / speed)
  }

  /** The weight as the code computes it: the "walk" case has no break and
      falls into the "flight" case, so walking is priced at flight speed. */
  function RoadWeightAsWritten(edge: MapEdge, mode: string): (w: ExtReal)
    ensures mode == "walk" ==> w.Fin? && w.v * 900.0 == edge.length
    ensures mode != "walk" ==> w == RoadWeight(edge, mode)
  {
    if mode == "bus" || mode == "car" then Quotient(edge.length, SpeedLimit(edge.roadType))
    else if mode == "walk" then Quotient(edge.length, 900.0)
    else if mode == "flight" then Quotient(edge.length, 900.0)
    else Inf
  }

  /** The weight the per-mode comments describe: walking at 7.2 km/h. */
  function RoadWeight(edge: MapEdge, mode: string): (w: ExtReal)
    ensures mode == "car" || mode == "bus" ==>
              && (w.Inf? <==> SpeedLimit(edge.roadType) == 0.0)
              && (w.Fin? ==> w.v * SpeedLimit(edge.roadType) == edge.length)
    ensures mode == "walk" ==> w.Fin? && w.v * 7.2 == edge.length
    ensures mode == "flight" ==> w.Fin? && w.v * 900.0 == edge.length
    ensures mode !in {"car", "bus", "walk", "flight"} ==> w.Inf?
  {
    if mode == "bus" || mode == "car" then Quotient(edge.length, SpeedLimit(edge.roadType))
    else if mode == "walk" then Quotient(edge.length, 7.2)
    else if mode == "flight" then Quotient(edge.length, 900.0)
    else Inf
  }

  /** The segment weighting the travel-time search uses for one means of
      transport: the weight as the code computes it. */
  function TravelWeight(mode: string): MapEdge -> ExtReal {
    e => RoadWeightAsWritten(e, mode)
  }

  /** The segment weighting the per-mode comments describe. */
  function IntendedWeight(mode: string): MapEdge -> ExtReal {
    e => RoadWeight(e, mode)
  }

  /** How many times the intended weight exceeds the weight as written:
      900 / 7.2 for walking, and 1 for every other means of transport. */
  function WalkFactor(mode: string): (k: real)
    ensures k > 0.0
  {
    if mode == "walk" then 125.0 else 1.0
  }

  /** The intended weighting is the weighting as written scaled by a
      positive factor. */
  lemma IntendedIsScaled(mode: string)
    ensures ScaledWeights(TravelWeight(mode), IntendedWeight(mode), WalkFactor(mode))
  {
    forall e ensures IntendedWeight(mode)(e) == Scale(WalkFactor(mode), TravelWeight(mode)(e)) {
      if mode == "walk" {
        assert e.length / 7.2 == 125.0 * (e.length / 900.0);
      } else {
        assert Scale(1.0, RoadWeight(e, mode)) == RoadWeight(e, mode);
      }
    }
  }

  /** Every path costs `WalkFactor(mode)` times as much under the intended
      weighting as under the weighting as written. */
  lemma IntendedCostScales(g: MapGraph, mode: string, p: seq<GeographicPoint>)
    ensures PathCost(g, IntendedWeight(mode), p) == Scale(WalkFactor(mode), PathCost(g, TravelWeight(mode), p))
  {
    IntendedIsScaled(mode);
    ScaledPathCost(g, TravelWeight(mode), IntendedWeight(mode), WalkFactor(mode), p);
  }

  /** The weights of the two definitions agree on every mode but "walk". */
  lemma WeightsAgreeExceptWalk(edge: MapEdge, mode: string)
    ensures mode != "walk" ==> RoadWeightAsWritten(edge, mode) == RoadWeight(edge, mode)
    ensures mode == "walk" ==> RoadWeightAsWritten(edge, mode) == RoadWeight(edge, "flight")
  {
  }

  /** Car and bus take the length over the road type's speed limit; a known
      road type gives a finite weight, an unknown one an infinite weight. */
  lemma CarBusWeight(edge: MapEdge, mode: string)
    requires mode == "car" || mode == "bus"
    ensures edge.roadType == "city street" ==> RoadWeight(edge, mode) == Fin(edge.length / 80.0)
    ensures edge.roadType == "residential" ==> RoadWeight(edge, mode) == Fin(edge.length / 60.0)
    ensures edge.roadType == "connector" ==> RoadWeight(edge, mode) == Fin(edge.length / 40.0)
    ensures RoadWeight(edge, mode).Inf? <==> edge.roadType !in {"city street", "residential", "connector"}
  {
  }

  /** Any mode other than car, bus, walk and flight makes every road impassable. */
  lemma UnknownModeIsImpassable(edge: MapEdge, mode: string)
    requires mode !in {"car", "bus", "walk", "flight"}
    ensures RoadWeight(edge, mode).Inf? && RoadWeightAsWritten(edge, mode).Inf?
  {
  }

  /** The fall-through exhibited: a 7.2 km city street walked in one hour by
      the intended definition costs 0.008 hours as written. */
  lemma WalkFallsThrough()
    ensures RoadWeightAsWritten(MapEdge("", "city street", GeographicPoint(0.0, 0.0), GeographicPoint(0.0, 0.0), 7.2), "walk") == Fin(0.008)
    ensures RoadWeight(MapEdge("", "city street", GeographicPoint(0.0, 0.0), GeographicPoint(0.0, 0.0), 7.2), "walk") == Fin(1.0)
  {
  }

  /** Walking is intended to cost length / 7.2 hours on every road type, and
      flight length / 900. */
  lemma WalkAndFlightIgnoreRoadType(edge: MapEdge)
    ensures RoadWeight(edge, "walk") == Fin(edge.length / 7.2)
    ensures RoadWeight(edge, "flight") == Fin(edge.length / 900.0)
    ensures edge.length > 0.0 ==> Lt(RoadWeight(edge, "flight"), RoadWeight(edge, "walk"))
  {
  }

  /** A path leads somewhere at finite cost under one weighting exactly when
      it does under the other. */
  lemma ConnectsAgree(g: MapGraph, mode: string, p: seq<GeographicPoint>, s: GeographicPoint, t: GeographicPoint)
    ensures Connects(g, IntendedWeight(mode), p, s, t) <==> Connects(g, TravelWeight(mode), p, s, t)
  {
    IntendedCostScales(g, mode, p);
  }
}
