/** The two-dimensional primitives the core consumes: vectors, polar
    headings and axis-aligned rectangles. Coordinates are exact reals;
    lengths are compared squared, so no square root is taken. */
module Geometry {

  datatype Vec = Vec(x: real, y: real)

  /** A polar vector: magnitude and angle from the positive X-axis. */
  datatype Polar = Polar(r: real, theta: real)

  /** An axis-aligned rectangle given by its lower-left and upper-right corners. */
  datatype Rect = Rect(min: Vec, max: Vec)

  const Zero: Vec := Vec(0.0, 0.0)

  function Sq(t: real): real {
    t * t
  }

  function Sub(a: Vec, b: Vec): Vec {
    Vec(a.x - b.x, a.y - b.y)
  }

  function Dot(a: Vec, b: Vec): real {
    a.x * b.x + a.y * b.y
  }

  function Cross(a: Vec, b: Vec): real {
    a.x * b.y - a.y * b.x
  }

  /** The squared distance between two points. */
  function SqDist(a: Vec, b: Vec): real {
    Sq(a.x - b.x) + Sq(a.y - b.y)
  }

  predicate WellFormed(r: Rect) {
    r.min.x <= r.max.x && r.min.y <= r.max.y
  }

  /** Membership, boundary included. */
  predicate In(r: Rect, p: Vec) {
    r.min.x <= p.x <= r.max.x && r.min.y <= p.y <= r.max.y
  }

  /** Two rectangles are disjoint when they are separated along some axis;
      rectangles that only touch are not disjoint. */
  predicate Disjoint(r: Rect, s: Rect) {
    r.min.x > s.max.x || s.min.x > r.max.x || r.min.y > s.max.y || s.min.y > r.max.y
  }

  /** Membership in the closed disc of centre `c` and radius `radius`. */
  predicate InDisc(c: Vec, radius: real, p: Vec) {
    SqDist(p, c) <= Sq(radius)
  }

  /** Whether the infinite line through `origin` along `dir` meets the closed
      disc of centre `c` and radius `radius`: the distance from the centre to
      the line is at most the radius. */
  predicate LineMeetsCircle(origin: Vec, dir: Vec, c: Vec, radius: real) {
    Sq(Cross(Sub(c, origin), dir)) <= Sq(radius) * Dot(dir, dir)
  }

  /** Along a unit direction, the line test compares the offset across the
      line with the radius. */
  lemma UnitLine(origin: Vec, dir: Vec, c: Vec, radius: real, offset: real)
    requires Dot(dir, dir) == 1.0
    requires Cross(Sub(c, origin), dir) == offset || Cross(Sub(c, origin), dir) == -offset
    ensures LineMeetsCircle(origin, dir, c, radius) <==> Sq(offset) <= Sq(radius)
  {
    assert Sq(Cross(Sub(c, origin), dir)) == Sq(offset);
  }

  /** The square of half-width `radius` centred on `c`. */
  function Centred(c: Vec, radius: real): (b: Rect)
    ensures b.min.x + b.max.x == 2.0 * c.x && b.min.y + b.max.y == 2.0 * c.y
    ensures b.max.x - b.min.x == 2.0 * radius && b.max.y - b.min.y == 2.0 * radius
  {
    Rect(Vec(c.x - radius, c.y - radius), Vec(c.x + radius, c.y + radius))
  }

  function Clamp(t: real, lo: real, hi: real): real {
    if t < lo then lo else if t > hi then hi else t
  }

  /** The point of `r` nearest to `p`. */
  function ClosestPoint(r: Rect, p: Vec): (q: Vec)
    requires WellFormed(r)
    ensures In(r, q)
    ensures In(r, p) ==> q == p
  {
    Vec(Clamp(p.x, r.min.x, r.max.x), Clamp(p.y, r.min.y, r.max.y))
  }

  /** The exact overlap of a closed disc and a rectangle. */
  ghost predicate DiscMeetsRect(r: Rect, c: Vec, radius: real) {
    exists q :: In(r, q) && InDisc(c, radius, q)
  }

  lemma SqMono(a: real, b: real)
    requires 0.0 <= a <= b
    ensures Sq(a) <= Sq(b)
  {
    var aa, ab, bb := a * a, a * b, b * b;
    assert aa <= ab;
    assert ab <= bb;
  }

  lemma SqStrict(a: real, b: real)
    requires 0.0 <= a < b
    ensures Sq(a) < Sq(b)
  {
    var aa, ab, bb := a * a, a * b, b * b;
    assert aa <= ab;
    assert ab < bb;
  }

  lemma SqNeg(a: real)
    ensures Sq(-a) == Sq(a) && Sq(a) >= 0.0
  {
  }

  lemma ClampIsNearest(t: real, lo: real, hi: real, s: real)
    requires lo <= s <= hi
    ensures Sq(t - Clamp(t, lo, hi)) <= Sq(t - s)
  {
    var c := Clamp(t, lo, hi);
    if t < lo {
      SqMono(c - t, s - t);
      SqNeg(t - c);
      SqNeg(t - s);
    } else if t > hi {
      SqMono(t - c, t - s);
    } else {
      SqNeg(t - s);
    }
  }

  /** No point of the rectangle is nearer to `p` than `ClosestPoint(r, p)`. */
  lemma ClosestPointIsClosest(r: Rect, p: Vec, q: Vec)
    requires WellFormed(r) && In(r, q)
    ensures SqDist(ClosestPoint(r, p), p) <= SqDist(q, p)
  {
    var cp := ClosestPoint(r, p);
    ClampIsNearest(p.x, r.min.x, r.max.x, q.x);
    ClampIsNearest(p.y, r.min.y, r.max.y, q.y);
    SqNeg(cp.x - p.x);
    SqNeg(cp.y - p.y);
    SqNeg(q.x - p.x);
    SqNeg(q.y - p.y);
  }

  /** A disc meets a rectangle exactly when the rectangle's nearest point lies in the disc. */
  lemma DiscMeetsRectIff(r: Rect, c: Vec, radius: real)
    requires WellFormed(r)
    ensures DiscMeetsRect(r, c, radius) <==> InDisc(c, radius, ClosestPoint(r, c))
  {
    if DiscMeetsRect(r, c, radius) {
      var q :| In(r, q) && InDisc(c, radius, q);
      ClosestPointIsClosest(r, c, q);
    }
  }

  /** The centred square of half-width `radius` encloses the disc of that radius. */
  lemma CentredEnclosesDisc(c: Vec, radius: real, p: Vec)
    requires radius >= 0.0 && InDisc(c, radius, p)
    ensures In(Centred(c, radius), p)
  {
    SqNeg(p.x - c.x);
    SqNeg(p.y - c.y);
    AbsBound(p.x - c.x, radius);
    AbsBound(p.y - c.y, radius);
  }

  lemma AbsBound(d: real, radius: real)
    requires radius >= 0.0 && Sq(d) <= Sq(radius)
    ensures -radius <= d <= radius
  {
    if d > radius {
      SqStrict(radius, d);
    } else if -d > radius {
      SqStrict(radius, -d);
      SqNeg(d);
    }
  }

  lemma SqProduct(s: real, t: real)
    ensures Sq(s * t) == Sq(s) * Sq(t)
  {
    var st := s * t;
    assert st * st == (s * s) * (t * t);
  }

  lemma SqSum(s: real, t: real)
    ensures Sq(s + t) == Sq(s) + Sq(t) + 2.0 * (s * t)
  {
  }

  /** Cauchy-Schwarz in the plane, through Lagrange's identity. */
  lemma CauchySchwarz(ux: real, uy: real, vx: real, vy: real)
    ensures Sq(ux * vx + uy * vy) <= (Sq(ux) + Sq(uy)) * (Sq(vx) + Sq(vy))
  {
    var a, b, c, d := ux * vx, uy * vy, ux * vy, uy * vx;
    SqProduct(ux, vx);
    SqProduct(uy, vy);
    SqProduct(ux, vy);
    SqProduct(uy, vx);
    assert a * b == c * d;
    SqSum(a, b);
    SqSum(c, -d);
    SqNeg(c - d);
  }

  lemma MulMono(u: real, v: real, s: real, t: real)
    requires 0.0 <= u <= s && 0.0 <= v <= t
    ensures u * v <= s * t
  {
    var uv, sv, st := u * v, s * v, s * t;
    assert uv <= sv;
    assert sv <= st;
  }

  lemma SqDistSymmetric(p: Vec, q: Vec)
    ensures SqDist(p, q) == SqDist(q, p) && SqDist(p, q) >= 0.0
  {
    SqNeg(p.x - q.x);
    SqNeg(p.y - q.y);
  }

  /** Two vectors of lengths at most `ra` and `rb` have a dot product at most `ra * rb`. */
  lemma DotBound(ux: real, uy: real, vx: real, vy: real, ra: real, rb: real)
    requires ra >= 0.0 && rb >= 0.0
    requires Sq(ux) + Sq(uy) <= Sq(ra) && Sq(vx) + Sq(vy) <= Sq(rb)
    ensures ux * vx + uy * vy <= ra * rb
  {
    var u, v := Sq(ux) + Sq(uy), Sq(vx) + Sq(vy);
    SqNeg(ux);
    SqNeg(uy);
    SqNeg(vx);
    SqNeg(vy);
    CauchySchwarz(ux, uy, vx, vy);
    MulMono(u, v, Sq(ra), Sq(rb));
    SqProduct(ra, rb);
    AbsBound(ux * vx + uy * vy, ra * rb);
  }

  lemma SumSq(ux: real, uy: real, vx: real, vy: real)
    ensures Sq(ux + vx) + Sq(uy + vy)
         == (Sq(ux) + Sq(uy)) + (Sq(vx) + Sq(vy)) + 2.0 * (ux * vx + uy * vy)
  {
    SqSum(ux, vx);
    SqSum(uy, vy);
  }

  /** Two closed discs sharing a point have centres at most the sum of the
      radii apart (the triangle inequality, squared). */
  lemma DiscsMeet(a: Vec, ra: real, b: Vec, rb: real, q: Vec)
    requires ra >= 0.0 && rb >= 0.0
    requires InDisc(a, ra, q) && InDisc(b, rb, q)
    ensures SqDist(a, b) <= Sq(ra + rb)
  {
    SqDistSymmetric(q, a);
    var ux, uy, vx, vy := a.x - q.x, a.y - q.y, q.x - b.x, q.y - b.y;
    assert Sq(ux) + Sq(uy) <= Sq(ra);
    assert Sq(vx) + Sq(vy) <= Sq(rb);
    DotBound(ux, uy, vx, vy, ra, rb);
    SumSq(ux, uy, vx, vy);
    SqSum(ra, rb);
    assert a.x - b.x == ux + vx && a.y - b.y == uy + vy;
  }

  /** `Sq(s * x) + Sq(s * y)` is `Sq(s)` times `Sq(x) + Sq(y)`. */
  lemma ScaledPair(s: real, x: real, y: real)
    ensures Sq(s * x) + Sq(s * y) == Sq(s) * (Sq(x) + Sq(y))
  {
    SqProduct(s, x);
    SqProduct(s, y);
  }

  /** Moving from `c` towards `e` by the fraction `k` stays within
      `k * w` of `c` when `e` is within `w` of `c`. */
  lemma ScaledInDisc(c: Vec, e: Vec, k: real, w: real)
    requires k >= 0.0 && w >= 0.0 && SqDist(c, e) <= Sq(w)
    ensures InDisc(c, k * w, Vec(c.x + k * (e.x - c.x), c.y + k * (e.y - c.y)))
  {
    var dx, dy := e.x - c.x, e.y - c.y;
    var p := Vec(c.x + k * dx, c.y + k * dy);
    SqDistSymmetric(c, e);
    assert p.x - c.x == k * dx && p.y - c.y == k * dy;
    ScaledPair(k, dx, dy);
    assert SqDist(p, c) == Sq(k) * SqDist(e, c);
    SqNeg(k);
    MulMono(Sq(k), SqDist(e, c), Sq(k), Sq(w));
    SqProduct(k, w);
  }

  /** How far along the segment from the centre of a disc of radius `ra`
      to the centre of one of radius `rb` the discs touch. */
  function Fraction(ra: real, rb: real): real
    requires ra + rb > 0.0
  {
    ra / (ra + rb)
  }

  /** The fraction and its complement are non-negative and scale the sum of
      the radii back to each radius. */
  lemma FractionScales(ra: real, rb: real)
    requires ra >= 0.0 && rb >= 0.0 && ra + rb > 0.0
    ensures Fraction(ra, rb) >= 0.0 && 1.0 - Fraction(ra, rb) >= 0.0
    ensures Fraction(ra, rb) * (ra + rb) == ra && (1.0 - Fraction(ra, rb)) * (ra + rb) == rb
  {
    var w, t := ra + rb, Fraction(ra, rb);
    assert t * w == ra;
    assert (1.0 - t) * w == w - t * w;
    assert (rb / w) * w == rb;
    Cancel(1.0 - t, rb / w, w);
  }

  lemma Cancel(x: real, y: real, w: real)
    requires w > 0.0 && x * w == y * w
    ensures x == y
  {
    assert (x - y) * w == 0.0;
  }

  /** A point a fraction `t` of the way from `a` to `b` is a fraction
      `1 - t` of the way from `b` to `a`. */
  lemma Between(a: Vec, b: Vec, t: real, s: real)
    requires s == 1.0 - t
    ensures Vec(a.x + t * (b.x - a.x), a.y + t * (b.y - a.y))
         == Vec(b.x + s * (a.x - b.x), b.y + s * (a.y - b.y))
  {
    Interpolate(a.x, b.x, t, s);
    Interpolate(a.y, b.y, t, s);
  }

  lemma Interpolate(u: real, v: real, t: real, s: real)
    requires s == 1.0 - t
    ensures u + t * (v - u) == v + s * (u - v)
  {
    var tv, tu := t * v, t * u;
    assert t * (v - u) == tv - tu;
    assert s * (u - v) == (u - v) - (tu - tv);
  }

  /** The point dividing the segment from `a` to `b` in the ratio `ra : rb`;
      `a` itself when both radii are zero. */
  function Contact(a: Vec, ra: real, b: Vec, rb: real): Vec {
    if ra + rb <= 0.0 then a
    else
      var t := Fraction(ra, rb);
      Vec(a.x + t * (b.x - a.x), a.y + t * (b.y - a.y))
  }

  /** When the centres are at most `ra + rb` apart, the contact point lies
      in both discs. */
  lemma DiscsTouch(a: Vec, ra: real, b: Vec, rb: real)
    requires ra >= 0.0 && rb >= 0.0 && SqDist(a, b) <= Sq(ra + rb)
    ensures InDisc(a, ra, Contact(a, ra, b, rb)) && InDisc(b, rb, Contact(a, ra, b, rb))
  {
    SqDistSymmetric(a, b);
    if ra + rb == 0.0 {
      SqNeg(a.x - b.x);
      SqNeg(a.y - b.y);
      AbsBound(a.x - b.x, 0.0);
      AbsBound(a.y - b.y, 0.0);
      assert a == b;
    } else {
      var t := Fraction(ra, rb);
      FractionScales(ra, rb);
      ScaledInDisc(a, b, t, ra + rb);
      ScaledInDisc(b, a, 1.0 - t, ra + rb);
      Between(a, b, t, 1.0 - t);
    }
  }
}
