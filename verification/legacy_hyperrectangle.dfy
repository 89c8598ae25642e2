/** The older copy of the rectangle helpers: the normal without its distance,
    and the circle test under the name `CollideCircle`. Each is defined on its
    own and shown to agree with the newer copy. */
module LegacyHyperrectangle {
  import opened Geometry
  import opened Wrappers
  import H = Hyperrectangle

  /** The outward direction at the nearest edge or corner of `r`. */
  function Normal(r: Rect, v: Vec): (n: Result<Vec>)
    ensures n.Success? <==> H.Normal(r, v).Success?
    ensures n.Success? ==> n.value == H.Normal(r, v).value.direction
    ensures n.Failure? ==> n.error == InvalidDomain
  {
    var domain := H.SideMask(r, v);
    if domain == H.SideN then Success(Vec(0.0, 1.0))
    else if domain == H.SideE then Success(Vec(1.0, 0.0))
    else if domain == H.SideS then Success(Vec(0.0, -1.0))
    else if domain == H.SideW then Success(Vec(-1.0, 0.0))
    else if domain == H.CornerNE then Success(H.FromCorner(v, r.max, Vec(1.0, 1.0)))
    else if domain == H.CornerSE then Success(H.FromCorner(v, Vec(r.max.x, r.min.y), Vec(1.0, -1.0)))
    else if domain == H.CornerSW then Success(H.FromCorner(v, r.min, Vec(-1.0, -1.0)))
    else if domain == H.CornerNW then Success(H.FromCorner(v, Vec(r.min.x, r.max.y), Vec(-1.0, 1.0)))
    else Failure(InvalidDomain)
  }

  /** Centre in the rectangle, then a corner in the circle, then an edge line
      meeting the circle; the same decision as the newer `IntersectCircle`. */
  function CollideCircle(r: Rect, p: Vec, radius: real): (hit: bool)
    ensures hit == H.IntersectCircle(r, p, radius)
  {
    if In(r, p) then true
    else if InDisc(p, radius, r.min) || InDisc(p, radius, Vec(r.min.x, r.max.y))
         || InDisc(p, radius, r.max) || InDisc(p, radius, Vec(r.max.x, r.min.y)) then true
    else if LineMeetsCircle(r.min, Vec(0.0, 1.0), p, radius) then true
    else if LineMeetsCircle(Vec(r.min.x, r.max.y), Vec(1.0, 0.0), p, radius) then true
    else if LineMeetsCircle(r.max, Vec(0.0, -1.0), p, radius) then true
    else LineMeetsCircle(Vec(r.max.x, r.min.y), Vec(-1.0, 0.0), p, radius)
  }

  /** Like the newer test, the older one reports every disc that really
      meets the rectangle. */
  lemma CollideCircleNoFalseNegatives(r: Rect, p: Vec, radius: real)
    requires WellFormed(r) && DiscMeetsRect(r, p, radius)
    ensures CollideCircle(r, p, radius)
  {
    H.IntersectCircleNoFalseNegatives(r, p, radius);
  }
}
