/** The mobile agent record: kinematic state, collision radius and flags. Its
    bounding box is derived from the current position and radius. */
module Agent {
  import opened Geometry
  import opened Ids
  import opened Wrappers
  import Flags

  /** Construction options; the store overwrites `id` with its own counter. */
  datatype O = O(
    id: Id,
    position: Vec,
    velocity: Vec,
    targetVelocity: Vec,
    heading: Polar,
    radius: real,
    maxVelocity: real,
    maxAngularVelocity: real,
    maxAcceleration: real,
    flags: bv64)

  /** An agent; each field is read back unchanged by its getter. `velocity`
      is the tick-to-tick velocity, `heading` a unit polar vector. */
  datatype A = A(
    id: Id,
    position: Vec,
    velocity: Vec,
    targetVelocity: Vec,
    heading: Polar,
    radius: real,
    maxVelocity: real,
    maxAngularVelocity: real,
    maxAcceleration: real,
    flags: bv64)

  /** What the getters of `a` report, gathered as construction options. */
  function Options(a: A): O {
    O(a.id, a.position, a.velocity, a.targetVelocity, a.heading, a.radius,
      a.maxVelocity, a.maxAngularVelocity, a.maxAcceleration, a.flags)
  }

  /** Builds an agent from its options; an invalid flag mask is refused. */
  function New(o: O): (r: Result<A>)
    ensures r.Success? <==> Flags.Validate(o.flags)
    ensures r.Failure? ==> r.error == InvalidEntity
    ensures r.Success? ==> Options(r.value) == o
  {
    if !Flags.Validate(o.flags) then Failure(InvalidEntity)
    else Success(A(o.id, o.position, o.velocity, o.targetVelocity, o.heading, o.radius,
                   o.maxVelocity, o.maxAngularVelocity, o.maxAcceleration, o.flags))
  }

  /** Every agent with a valid mask is rebuilt exactly from what its getters report. */
  lemma NewFromOptions(a: A)
    requires Flags.Validate(a.flags)
    ensures New(Options(a)) == Success(a)
  {
  }

  function SetID(a: A, x: Id): (r: A)
    ensures r.id == x && r.(id := a.id) == a
  {
    a.(id := x)
  }

  function SetPosition(a: A, v: Vec): (r: A)
    ensures r.position == v && r.(position := a.position) == a
  {
    a.(position := v)
  }

  function SetVelocity(a: A, v: Vec): (r: A)
    ensures r.velocity == v && r.(velocity := a.velocity) == a
  {
    a.(velocity := v)
  }

  function SetTargetVelocity(a: A, v: Vec): (r: A)
    ensures r.targetVelocity == v && r.(targetVelocity := a.targetVelocity) == a
  {
    a.(targetVelocity := v)
  }

  function SetHeading(a: A, h: Polar): (r: A)
    ensures r.heading == h && r.(heading := a.heading) == a
  {
    a.(heading := h)
  }

  /** Stores any mask; the mask is not validated again. */
  function SetFlags(a: A, f: bv64): (r: A)
    ensures r.flags == f && r.(flags := a.flags) == a
  {
    a.(flags := f)
  }

  /** The bounding box, computed afresh from the current position and radius:
      centred on the position, of half-width the radius, enclosing the disc. */
  function AABB(a: A): (b: Rect)
    ensures b.min.x + b.max.x == 2.0 * a.position.x && b.min.y + b.max.y == 2.0 * a.position.y
    ensures b.max.x - b.min.x == 2.0 * a.radius && b.max.y - b.min.y == 2.0 * a.radius
    ensures a.radius >= 0.0 ==> forall p :: InDisc(a.position, a.radius, p) ==> In(b, p)
  {
    var b := Centred(a.position, a.radius);
    assert a.radius >= 0.0 ==> forall p :: InDisc(a.position, a.radius, p) ==> In(b, p) by {
      if a.radius >= 0.0 {
        forall p | InDisc(a.position, a.radius, p) ensures In(b, p) {
          CentredEnclosesDisc(a.position, a.radius, p);
        }
      }
    }
    b
  }

  /** Moving an agent translates its box by the displacement; the other
      setters leave the box where it was. */
  lemma AABBTracksPosition(a: A, v: Vec, w: Vec, h: Polar, f: bv64, x: Id)
    ensures AABB(SetPosition(a, v)).min == Vec(AABB(a).min.x + (v.x - a.position.x), AABB(a).min.y + (v.y - a.position.y))
    ensures AABB(SetPosition(a, v)).max == Vec(AABB(a).max.x + (v.x - a.position.x), AABB(a).max.y + (v.y - a.position.y))
    ensures AABB(SetVelocity(a, w)) == AABB(a) && AABB(SetTargetVelocity(a, w)) == AABB(a)
    ensures AABB(SetHeading(a, h)) == AABB(a) && AABB(SetFlags(a, f)) == AABB(a) && AABB(SetID(a, x)) == AABB(a)
  {
  }

  /** A valid agent can be given an invalid mask after construction. */
  lemma SetFlagsSkipsValidation(a: A)
    requires Flags.Validate(a.flags)
    ensures !Flags.Validate(SetFlags(a, Flags.FTerrainAir).flags)
  {
  }
}
