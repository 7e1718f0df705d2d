/** Geographic points: the intersections' keys. Equality is by the exact
    coordinate pair, as for the Java point class the graph keys its map by. */
module Geography {

  datatype GeographicPoint = GeographicPoint(latitude: real, longitude: real)
}
