/** Plane geometry of the detections: the Euclidean `distance` of
    src/util.py compared through its square, and centroids. */
module Geometry {
  import opened Seqs
  import opened Numeric

  datatype Point = Point(x: real, y: real)

  /** The square of `distance`: every comparison the tracker makes between
      distances, or against a non-negative length, can be decided on it. */
  function Dist2(a: Point, b: Point): real
  {
    Sq(a.x - b.x) + Sq(a.y - b.y)
  }

  /** `distance(a, b) <= limit`, decided without a square root. */
  predicate Within(a: Point, b: Point, limit: real)
  {
    limit >= 0.0 && Dist2(a, b) <= Sq(limit)
  }

  /** `distance(a, b) > limit`. */
  predicate Beyond(a: Point, b: Point, limit: real)
  {
    !Within(a, b, limit)
  }

  /** The mean X and mean Y of a non-empty set of points. */
  function Centroid(ps: seq<Point>): Point
    requires |ps| > 0
  {
    Point(Mean(Map(ps, (p: Point) => p.x)), Mean(Map(ps, (p: Point) => p.y)))
  }

  lemma SquareGrows(u: real, v: real)
    requires v >= 0.0 && u > v
    ensures Sq(u) > Sq(v)
  {
    MulPositive(u - v, u + v);
    assert Mul(u - v, u + v) == Sq(u) - Sq(v);
  }

  /** For non-negative values, comparing squares is comparing the values. */
  lemma SquareMonotone(u: real, v: real)
    requires u >= 0.0 && v >= 0.0
    ensures u <= v <==> Sq(u) <= Sq(v)
  {
    if u < v {
      SquareGrows(v, u);
    } else if v < u {
      SquareGrows(u, v);
    }
  }

  lemma SquareSwap(p: real, q: real)
    ensures Sq(p - q) == Sq(q - p)
  {
    assert (p - q) * (p - q) == (q - p) * (q - p);
  }

  /** `distance` is non-negative and symmetric, and it is zero exactly when
      the two points coincide. */
  lemma DistanceLaws(a: Point, b: Point)
    ensures Dist2(a, b) >= 0.0
    ensures Dist2(a, b) == Dist2(b, a)
    ensures Dist2(a, b) == 0.0 <==> a == b
  {
    SquarePositive(a.x - b.x);
    SquarePositive(a.y - b.y);
    SquareSwap(a.x, b.x);
    SquareSwap(a.y, b.y);
  }

  /** Deciding on squares agrees with comparing the square root itself:
      for the non-negative root d of Dist2, `d <= limit` holds exactly when
      `Within` does. */
  lemma WithinMatchesDistance(a: Point, b: Point, limit: real, d: real)
    requires d >= 0.0 && Sq(d) == Dist2(a, b)
    ensures Within(a, b, limit) <==> d <= limit
  {
    if limit >= 0.0 {
      SquareMonotone(d, limit);
    }
  }
}
