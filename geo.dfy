/** Points in raw degrees and the planar distance the clustering uses. */
module Geo {
  /** A [latitude, longitude] pair in degrees. */
  datatype Coord = Coord(lat: real, lon: real)

  /** Squared planar distance in raw degrees of latitude and longitude (not geodesic). */
  function SqDist(a: Coord, b: Coord): real
  {
    (a.lat - b.lat) * (a.lat - b.lat) + (a.lon - b.lon) * (a.lon - b.lon)
  }

  /** `a` lies within distance `eps` of `b`; squaring both sides avoids a square root. */
  predicate Within(a: Coord, b: Coord, eps: real)
  {
    SqDist(a, b) <= eps * eps
  }

  lemma WithinSelf(a: Coord, eps: real)
    ensures Within(a, a, eps)
  {
    assert eps * eps >= 0.0;
  }

  lemma WithinSymmetric(a: Coord, b: Coord, eps: real)
    ensures Within(a, b, eps) == Within(b, a, eps)
  {
    var x, y := a.lat - b.lat, a.lon - b.lon;
    assert (b.lat - a.lat) * (b.lat - a.lat) == x * x;
    assert (b.lon - a.lon) * (b.lon - a.lon) == y * y;
  }
}
