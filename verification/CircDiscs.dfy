/** Discs on the sphere, over an abstract metric. */
module CircDiscs {
  import opened Common

  datatype Geo = Geo(lon: real, lat: real)

  datatype Disc = Disc(center: Geo, radius: real)

  type Distance = (Geo, Geo) -> real

  ghost predicate IsMetric(dist: Distance) {
    && (forall a, b :: 0.0 <= dist(a, b) == dist(b, a) < FLT_MAX)
    && (forall a :: dist(a, a) == 0.0)
    && (forall a, b, c :: dist(a, c) <= dist(a, b) + dist(b, c))
  }

  lemma Triangle(dist: Distance, a: Geo, b: Geo, c: Geo)
    requires IsMetric(dist)
    ensures dist(a, c) <= dist(a, b) + dist(b, c)
    ensures 0.0 <= dist(a, b) == dist(b, a) < FLT_MAX
    ensures dist(b, b) == 0.0
  {
  }

  /** Every point of the other disc lies in `d`, going by centers and radii. */
  predicate Covers(dist: Distance, d: Disc, other: Disc) {
    dist(d.center, other.center) + other.radius <= d.radius
  }

  lemma CoversTrans(dist: Distance, a: Disc, b: Disc, c: Disc)
    requires IsMetric(dist) && Covers(dist, a, b) && Covers(dist, b, c)
    ensures Covers(dist, a, c)
  {
    Triangle(dist, a.center, b.center, c.center);
  }
}
