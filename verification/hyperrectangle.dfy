/** Classification of a point against a rectangle, the outward normal of the
    nearest edge or corner, and the circle-versus-rectangle test used for
    agent-feature collisions. */
module Hyperrectangle {
  import opened Geometry
  import opened Wrappers

  /** A side mask: which of the four half-planes beyond the edges a point
      lies in. */
  datatype Sides = Sides(north: bool, east: bool, south: bool, west: bool)

  function Union(a: Sides, b: Sides): Sides {
    Sides(a.north || b.north, a.east || b.east, a.south || b.south, a.west || b.west)
  }

  const NoSide: Sides := Sides(false, false, false, false)
  const SideN: Sides := Sides(true, false, false, false)
  const SideE: Sides := Sides(false, true, false, false)
  const SideS: Sides := Sides(false, false, true, false)
  const SideW: Sides := Sides(false, false, false, true)

  const CornerNE: Sides := Union(SideN, SideE)
  const CornerSE: Sides := Union(SideS, SideE)
  const CornerSW: Sides := Union(SideS, SideW)
  const CornerNW: Sides := Union(SideN, SideW)

  /** The half-planes beyond the edges of `r` that `v` lies in; a point on an
      edge counts as beyond it. */
  function SideMask(r: Rect, v: Vec): Sides {
    Union(Union(Union(
      if v.y - r.max.y >= 0.0 then SideN else NoSide,
      if r.min.y - v.y >= 0.0 then SideS else NoSide),
      if v.x - r.max.x >= 0.0 then SideE else NoSide),
      if r.min.x - v.x >= 0.0 then SideW else NoSide)
  }

  /** The square of a non-negative offset; a negative offset contributes nothing. */
  function Excess(d: real): real {
    if d >= 0.0 then Sq(d) else 0.0
  }

  /** The squared distance accumulated edge by edge. */
  function SqDistance(r: Rect, v: Vec): real {
    Excess(v.y - r.max.y) + Excess(r.min.y - v.y) + Excess(v.x - r.max.x) + Excess(r.min.x - v.x)
  }

  /** The direction from `corner` to `v`, or the corner's diagonal when `v`
      sits on the corner. */
  function FromCorner(v: Vec, corner: Vec, diagonal: Vec): Vec {
    var n := Sub(v, corner);
    if n == Zero then diagonal else n
  }

  /** The squared distance to the nearest edge or corner and the outward
      direction there. */
  datatype Bearing = Bearing(sqDistance: real, direction: Vec)

  /** The eight masks `Normal` handles: one side, or two adjacent sides. */
  predicate Classified(d: Sides) {
    d in {SideN, SideE, SideS, SideW, CornerNE, CornerSE, CornerSW, CornerNW}
  }

  /** The squared distance from `v` to the rectangle and the outward
      direction of the edge or corner nearest to it; a point strictly
      inside is outside every half-plane and fails. */
  function Normal(r: Rect, v: Vec): (n: Result<Bearing>)
    ensures n.Success? <==> Classified(SideMask(r, v))
    ensures n.Failure? ==> n.error == InvalidDomain
    ensures n.Success? ==> n.value.sqDistance >= 0.0
  {
    var d := SqDistance(r, v);
    var domain := SideMask(r, v);
    if domain == SideN then Success(Bearing(d, Vec(0.0, 1.0)))
    else if domain == SideE then Success(Bearing(d, Vec(1.0, 0.0)))
    else if domain == SideS then Success(Bearing(d, Vec(0.0, -1.0)))
    else if domain == SideW then Success(Bearing(d, Vec(-1.0, 0.0)))
    else if domain == CornerNE then Success(Bearing(d, FromCorner(v, r.max, Vec(1.0, 1.0))))
    else if domain == CornerSE then Success(Bearing(d, FromCorner(v, Vec(r.max.x, r.min.y), Vec(1.0, -1.0))))
    else if domain == CornerSW then Success(Bearing(d, FromCorner(v, r.min, Vec(-1.0, -1.0))))
    else if domain == CornerNW then Success(Bearing(d, FromCorner(v, Vec(r.min.x, r.max.y), Vec(-1.0, 1.0))))
    else Failure(InvalidDomain)
  }

  /** On a rectangle of positive extent, `Normal` fails exactly on the points
      strictly inside it; boundary points are classified. */
  lemma NormalFailsIffInside(r: Rect, v: Vec)
    requires r.min.x < r.max.x && r.min.y < r.max.y
    ensures Normal(r, v).Failure? <==> r.min.x < v.x < r.max.x && r.min.y < v.y < r.max.y
  {
  }

  /** The distance `Normal` reports is the distance to the nearest point of
      the rectangle. */
  lemma NormalDistanceIsNearest(r: Rect, v: Vec)
    requires WellFormed(r) && Normal(r, v).Success?
    ensures Normal(r, v).value.sqDistance == SqDist(v, ClosestPoint(r, v))
  {
    AxisExcess(v.y, r.min.y, r.max.y);
    AxisExcess(v.x, r.min.x, r.max.x);
  }

  /** Along one axis the two edge excesses add up to the squared offset from
      the clamped coordinate. */
  lemma AxisExcess(t: real, lo: real, hi: real)
    requires lo <= hi
    ensures Excess(t - hi) + Excess(lo - t) == Sq(t - Clamp(t, lo, hi))
  {
    if t < lo {
      SqNeg(lo - t);
    }
  }

  /** The normal is never zero, and the point lies on its outer side of every
      point of the rectangle. */
  lemma NormalPointsOutward(r: Rect, v: Vec, q: Vec)
    requires Normal(r, v).Success? && In(r, q)
    ensures Normal(r, v).value.direction != Zero
    ensures Dot(Normal(r, v).value.direction, Sub(v, q)) >= 0.0
  {
    var n := Normal(r, v).value.direction;
    var u := Sub(v, q);
    var d := SideMask(r, v);
    SameSignProduct(n.x, u.x);
    SameSignProduct(n.y, u.y);
  }

  /** Beyond the north-east corner both components of the direction are
      non-negative. */
  lemma NormalNorthEastQuadrant(r: Rect, v: Vec)
    requires SideMask(r, v) == CornerNE
    ensures Normal(r, v).Success?
    ensures Normal(r, v).value.direction.x >= 0.0 && Normal(r, v).value.direction.y >= 0.0
  {
  }

  lemma SameSignProduct(a: real, b: real)
    ensures (a >= 0.0 && b >= 0.0) || (a <= 0.0 && b <= 0.0) ==> a * b >= 0.0
  {
  }

  /** The square [0, 10] x [0, 10] of the table tests. */
  const Square: Rect := Rect(Vec(0.0, 0.0), Vec(10.0, 10.0))

  /** The edge cases of the normal's table test: axis normals at distance 10. */
  lemma NormalEdgeExamples()
    ensures Normal(Square, Vec(5.0, 20.0)) == Success(Bearing(100.0, Vec(0.0, 1.0)))
    ensures Normal(Square, Vec(5.0, -10.0)) == Success(Bearing(100.0, Vec(0.0, -1.0)))
    ensures Normal(Square, Vec(20.0, 5.0)) == Success(Bearing(100.0, Vec(1.0, 0.0)))
    ensures Normal(Square, Vec(-10.0, 5.0)) == Success(Bearing(100.0, Vec(-1.0, 0.0)))
    ensures Normal(Square, Vec(5.0, 5.0)) == Failure(InvalidDomain)
  {
    assert SideMask(Square, Vec(5.0, 20.0)) == SideN;
    assert SideMask(Square, Vec(5.0, -10.0)) == SideS;
    assert SideMask(Square, Vec(20.0, 5.0)) == SideE;
    assert SideMask(Square, Vec(-10.0, 5.0)) == SideW;
    assert SideMask(Square, Vec(5.0, 5.0)) == NoSide;
  }

  /** The corner cases of the normal's table test away from the corner, with
      directions before scaling to unit length. */
  lemma NormalCornerExamples()
    ensures Normal(Square, Vec(20.0, 20.0)) == Success(Bearing(200.0, Vec(10.0, 10.0)))
    ensures Normal(Square, Vec(20.0, 10.0)) == Success(Bearing(100.0, Vec(10.0, 0.0)))
  {
    assert SideMask(Square, Vec(20.0, 20.0)) == CornerNE;
    assert SideMask(Square, Vec(20.0, 10.0)) == CornerNE;
  }

  /** On a corner of a rectangle of positive extent the distance is zero and
      the direction falls back to the corner's diagonal. */
  lemma NormalOnCornerIsDiagonal(r: Rect)
    requires r.min.x < r.max.x && r.min.y < r.max.y
    ensures Normal(r, r.max) == Success(Bearing(0.0, Vec(1.0, 1.0)))
    ensures Normal(r, Vec(r.max.x, r.min.y)) == Success(Bearing(0.0, Vec(1.0, -1.0)))
    ensures Normal(r, r.min) == Success(Bearing(0.0, Vec(-1.0, -1.0)))
    ensures Normal(r, Vec(r.min.x, r.max.y)) == Success(Bearing(0.0, Vec(-1.0, 1.0)))
  {
    OnCorner(r, r.max, CornerNE, Vec(1.0, 1.0));
    OnCorner(r, Vec(r.max.x, r.min.y), CornerSE, Vec(1.0, -1.0));
    OnCorner(r, r.min, CornerSW, Vec(-1.0, -1.0));
    OnCorner(r, Vec(r.min.x, r.max.y), CornerNW, Vec(-1.0, 1.0));
  }

  lemma OnCorner(r: Rect, v: Vec, corner: Sides, diagonal: Vec)
    requires r.min.x < r.max.x && r.min.y < r.max.y
    requires v.x == r.min.x || v.x == r.max.x
    requires v.y == r.min.y || v.y == r.max.y
    requires corner == Union(if v.y == r.max.y then SideN else SideS, if v.x == r.max.x then SideE else SideW)
    requires diagonal == Vec(if v.x == r.max.x then 1.0 else -1.0, if v.y == r.max.y then 1.0 else -1.0)
    ensures Normal(r, v) == Success(Bearing(0.0, diagonal))
  {
    assert SideMask(r, v) == corner;
    assert SqDistance(r, v) == 0.0;
  }

  /** Whether `p` lies within `radius` of the vertical band over the
      rectangle's x-range or of the horizontal band over its y-range. */
  predicate NearBands(r: Rect, p: Vec, radius: real) {
    || Sq(p.x - Clamp(p.x, r.min.x, r.max.x)) <= Sq(radius)
    || Sq(p.y - Clamp(p.y, r.min.y, r.max.y)) <= Sq(radius)
  }

  /** Along one axis, closeness to an end of `[lo, hi]` bounds the offset
      from the whole interval. */
  lemma BandBound(t: real, lo: real, hi: real, e: real, bound: real)
    requires lo <= hi && (e == lo || e == hi)
    ensures Sq(t - e) <= bound ==> Sq(t - Clamp(t, lo, hi)) <= bound
  {
    SqNeg(t - e);
    if t < lo && e == hi {
      SqMono(lo - t, hi - t);
      SqNeg(lo - t);
      SqNeg(hi - t);
    } else if t > hi && e == lo {
      SqMono(t - hi, t - lo);
    }
  }

  /** A corner of the rectangle inside the disc puts the centre near both bands. */
  lemma CornerNearBands(r: Rect, p: Vec, radius: real, c: Vec)
    requires WellFormed(r) && (c.x == r.min.x || c.x == r.max.x) && (c.y == r.min.y || c.y == r.max.y)
    requires InDisc(p, radius, c)
    ensures NearBands(r, p, radius)
  {
    SqNeg(c.y - p.y);
    SqNeg(c.x - p.x);
    assert Sq(p.x - c.x) <= Sq(radius);
    BandBound(p.x, r.min.x, r.max.x, c.x, Sq(radius));
  }

  /** An edge line parallel to the y-axis at `e` that meets the disc puts
      the centre near the vertical band. */
  lemma VerticalLineNearBands(r: Rect, p: Vec, radius: real, origin: Vec, dir: Vec)
    requires WellFormed(r) && (origin.x == r.min.x || origin.x == r.max.x)
    requires dir == Vec(0.0, 1.0) || dir == Vec(0.0, -1.0)
    requires LineMeetsCircle(origin, dir, p, radius)
    ensures NearBands(r, p, radius)
  {
    UnitLine(origin, dir, p, radius, p.x - origin.x);
    BandBound(p.x, r.min.x, r.max.x, origin.x, Sq(radius));
  }

  /** An edge line parallel to the x-axis that meets the disc puts the
      centre near the horizontal band. */
  lemma HorizontalLineNearBands(r: Rect, p: Vec, radius: real, origin: Vec, dir: Vec)
    requires WellFormed(r) && (origin.y == r.min.y || origin.y == r.max.y)
    requires dir == Vec(1.0, 0.0) || dir == Vec(-1.0, 0.0)
    requires LineMeetsCircle(origin, dir, p, radius)
    ensures NearBands(r, p, radius)
  {
    UnitLine(origin, dir, p, radius, p.y - origin.y);
    BandBound(p.y, r.min.y, r.max.y, origin.y, Sq(radius));
  }

  /** Each condition the circle test accepts puts the centre near one of
      the two bands of a well-formed rectangle. */
  lemma AcceptedNearBands(r: Rect, p: Vec, radius: real)
    ensures WellFormed(r) && In(r, p) ==> NearBands(r, p, radius)
    ensures WellFormed(r) && (InDisc(p, radius, r.min) || InDisc(p, radius, Vec(r.min.x, r.max.y))
                               || InDisc(p, radius, r.max) || InDisc(p, radius, Vec(r.max.x, r.min.y)))
            ==> NearBands(r, p, radius)
    ensures WellFormed(r) && (LineMeetsCircle(r.min, Vec(0.0, 1.0), p, radius)
                               || LineMeetsCircle(Vec(r.min.x, r.max.y), Vec(1.0, 0.0), p, radius)
                               || LineMeetsCircle(r.max, Vec(0.0, -1.0), p, radius)
                               || LineMeetsCircle(Vec(r.max.x, r.min.y), Vec(-1.0, 0.0), p, radius))
            ==> NearBands(r, p, radius)
  {
    if !WellFormed(r) {
      return;
    }
    if In(r, p) {
      SqNeg(radius);
      assert Sq(p.x - Clamp(p.x, r.min.x, r.max.x)) == 0.0;
    }
    if InDisc(p, radius, r.min) {
      CornerNearBands(r, p, radius, r.min);
    }
    if InDisc(p, radius, Vec(r.min.x, r.max.y)) {
      CornerNearBands(r, p, radius, Vec(r.min.x, r.max.y));
    }
    if InDisc(p, radius, r.max) {
      CornerNearBands(r, p, radius, r.max);
    }
    if InDisc(p, radius, Vec(r.max.x, r.min.y)) {
      CornerNearBands(r, p, radius, Vec(r.max.x, r.min.y));
    }
    if LineMeetsCircle(r.min, Vec(0.0, 1.0), p, radius) {
      VerticalLineNearBands(r, p, radius, r.min, Vec(0.0, 1.0));
    }
    if LineMeetsCircle(r.max, Vec(0.0, -1.0), p, radius) {
      VerticalLineNearBands(r, p, radius, r.max, Vec(0.0, -1.0));
    }
    if LineMeetsCircle(Vec(r.min.x, r.max.y), Vec(1.0, 0.0), p, radius) {
      HorizontalLineNearBands(r, p, radius, Vec(r.min.x, r.max.y), Vec(1.0, 0.0));
    }
    if LineMeetsCircle(Vec(r.max.x, r.min.y), Vec(-1.0, 0.0), p, radius) {
      HorizontalLineNearBands(r, p, radius, Vec(r.max.x, r.min.y), Vec(-1.0, 0.0));
    }
  }

  /** Centre in the rectangle, then a corner in the circle, then an edge line
      meeting the circle. Because the edge checks use whole lines, a hit
      only places the centre near one of the rectangle's two bands. */
  function IntersectCircle(r: Rect, p: Vec, radius: real): (hit: bool)
    ensures In(r, p) ==> hit
    ensures WellFormed(r) && hit ==> NearBands(r, p, radius)
  {
    AcceptedNearBands(r, p, radius);
    if In(r, p) then true
    else if InDisc(p, radius, r.min) then true
    else if InDisc(p, radius, Vec(r.min.x, r.max.y)) then true
    else if InDisc(p, radius, r.max) then true
    else if InDisc(p, radius, Vec(r.max.x, r.min.y)) then true
    else if LineMeetsCircle(r.min, Vec(0.0, 1.0), p, radius) then true
    else if LineMeetsCircle(Vec(r.min.x, r.max.y), Vec(1.0, 0.0), p, radius) then true
    else if LineMeetsCircle(r.max, Vec(0.0, -1.0), p, radius) then true
    else if LineMeetsCircle(Vec(r.max.x, r.min.y), Vec(-1.0, 0.0), p, radius) then true
    else false
  }

  /** Every disc that really meets the rectangle is reported. */
  lemma IntersectCircleNoFalseNegatives(r: Rect, p: Vec, radius: real)
    requires WellFormed(r) && DiscMeetsRect(r, p, radius)
    ensures IntersectCircle(r, p, radius)
  {
    DiscMeetsRectIff(r, p, radius);
    var cp := ClosestPoint(r, p);
    if In(r, p) {
    } else if cp == r.min || cp == r.max || cp == Vec(r.min.x, r.max.y) || cp == Vec(r.max.x, r.min.y) {
    } else if cp.x == r.min.x {
      VerticalEdge(r.min, Vec(0.0, 1.0), p, radius, cp);
    } else if cp.x == r.max.x {
      VerticalEdge(r.max, Vec(0.0, -1.0), p, radius, cp);
    } else if cp.y == r.max.y {
      HorizontalEdge(Vec(r.min.x, r.max.y), Vec(1.0, 0.0), p, radius, cp);
    } else {
      assert cp.y == r.min.y;
      HorizontalEdge(Vec(r.max.x, r.min.y), Vec(-1.0, 0.0), p, radius, cp);
    }
  }

  /** A disc holding a point level with its centre on a vertical line meets that line. */
  lemma VerticalEdge(origin: Vec, dir: Vec, p: Vec, radius: real, cp: Vec)
    requires dir == Vec(0.0, 1.0) || dir == Vec(0.0, -1.0)
    requires cp.x == origin.x && cp.y == p.y && InDisc(p, radius, cp)
    ensures LineMeetsCircle(origin, dir, p, radius)
  {
    SqNeg(cp.x - p.x);
    UnitLine(origin, dir, p, radius, p.x - origin.x);
  }

  /** A disc holding a point plumb with its centre on a horizontal line meets that line. */
  lemma HorizontalEdge(origin: Vec, dir: Vec, p: Vec, radius: real, cp: Vec)
    requires dir == Vec(1.0, 0.0) || dir == Vec(-1.0, 0.0)
    requires cp.y == origin.y && cp.x == p.x && InDisc(p, radius, cp)
    ensures LineMeetsCircle(origin, dir, p, radius)
  {
    SqNeg(cp.y - p.y);
    UnitLine(origin, dir, p, radius, p.y - origin.y);
  }

  /** The edge tests use whole lines, so a disc beside the extension of an
      edge is reported although it misses the rectangle. */
  lemma IntersectCircleOverApproximates()
    ensures IntersectCircle(Square, Vec(12.0, 100.0), 3.0)
    ensures !DiscMeetsRect(Square, Vec(12.0, 100.0), 3.0)
  {
    DiscMeetsRectIff(Square, Vec(12.0, 100.0), 3.0);
  }

  /** The cases of the circle test's table test. */
  lemma IntersectCircleExamples()
    ensures IntersectCircle(Square, Vec(5.0, 5.0), 1.0)
    ensures IntersectCircle(Square, Vec(-1.0, -1.0), 2.0)
    ensures IntersectCircle(Square, Vec(-1.0, 5.0), 2.0)
    ensures !IntersectCircle(Square, Vec(12.0, 12.0), 1.0)
  {
  }
}
