/** The projectile record: like an agent's kinematic state plus a target
    position, with a mask that must carry the projectile size class. */
module Projectile {
  import opened Geometry
  import opened Ids
  import opened Wrappers
  import Flags

  /** Construction options; a projectile gets its identity later through `SetID`. */
  datatype O = O(
    position: Vec,
    targetPosition: Vec,
    velocity: Vec,
    targetVelocity: Vec,
    heading: Polar,
    radius: real,
    flags: bv64)

  datatype P = P(
    id: Id,
    position: Vec,
    targetPosition: Vec,
    velocity: Vec,
    targetVelocity: Vec,
    heading: Polar,
    radius: real,
    flags: bv64)

  /** A projectile mask names the projectile size class and no other, and
      passes the common terrain check. */
  function Validate(f: bv64): (ok: bool)
    ensures ok <==> f & Flags.SizeCheck == Flags.FSizeProjectile && Flags.OccupiesAccessible(f)
  {
    if f & Flags.FSizeProjectile == 0 then false else Flags.Validate(f)
  }

  /** What the getters of `p` report, gathered as construction options. */
  function Options(p: P): O {
    O(p.position, p.targetPosition, p.velocity, p.targetVelocity, p.heading, p.radius, p.flags)
  }

  /** Builds a projectile with the default identity 0; an invalid mask is refused. */
  function New(o: O): (r: Result<P>)
    ensures r.Success? <==> Validate(o.flags)
    ensures r.Failure? ==> r.error == InvalidEntity
    ensures r.Success? ==> Options(r.value) == o && r.value.id == 0
  {
    if !Validate(o.flags) then Failure(InvalidEntity)
    else Success(P(0, o.position, o.targetPosition, o.velocity, o.targetVelocity, o.heading, o.radius, o.flags))
  }

  /** A projectile with a valid mask is rebuilt from its getters, up to its identity. */
  lemma NewFromOptions(p: P)
    requires Validate(p.flags)
    ensures New(Options(p)) == Success(SetID(p, 0))
  {
  }

  function SetID(p: P, x: Id): (r: P)
    ensures r.id == x && r.(id := p.id) == p
  {
    p.(id := x)
  }

  function SetPosition(p: P, v: Vec): (r: P)
    ensures r.position == v && r.(position := p.position) == p
  {
    p.(position := v)
  }

  function SetTargetPosition(p: P, v: Vec): (r: P)
    ensures r.targetPosition == v && r.(targetPosition := p.targetPosition) == p
  {
    p.(targetPosition := v)
  }

  function SetVelocity(p: P, v: Vec): (r: P)
    ensures r.velocity == v && r.(velocity := p.velocity) == p
  {
    p.(velocity := v)
  }

  function SetTargetVelocity(p: P, v: Vec): (r: P)
    ensures r.targetVelocity == v && r.(targetVelocity := p.targetVelocity) == p
  {
    p.(targetVelocity := v)
  }

  function SetHeading(p: P, h: Polar): (r: P)
    ensures r.heading == h && r.(heading := p.heading) == p
  {
    p.(heading := h)
  }

  /** Stores any mask; the mask is not validated again. */
  function SetFlags(p: P, f: bv64): (r: P)
    ensures r.flags == f && r.(flags := p.flags) == p
  {
    p.(flags := f)
  }

  /** The bounding box, centred on the current position with half-width the radius. */
  function AABB(p: P): (b: Rect)
    ensures b.min.x + b.max.x == 2.0 * p.position.x && b.min.y + b.max.y == 2.0 * p.position.y
    ensures b.max.x - b.min.x == 2.0 * p.radius && b.max.y - b.min.y == 2.0 * p.radius
    ensures p.radius >= 0.0 ==> forall q :: InDisc(p.position, p.radius, q) ==> In(b, q)
  {
    var b := Centred(p.position, p.radius);
    assert p.radius >= 0.0 ==> forall q :: InDisc(p.position, p.radius, q) ==> In(b, q) by {
      if p.radius >= 0.0 {
        forall q | InDisc(p.position, p.radius, q) ensures In(b, q) {
          CentredEnclosesDisc(p.position, p.radius, q);
        }
      }
    }
    b
  }

  /** A mask without the projectile bit is refused whatever else it holds;
      with the bit, the common validator decides. */
  lemma ValidateCases(f: bv64)
    ensures f & Flags.FSizeProjectile == 0 ==> !Validate(f)
    ensures f & Flags.FSizeProjectile != 0 ==> (Validate(f) <==> Flags.Validate(f))
    ensures !Validate(Flags.FSizeProjectile | Flags.FSizeSmall)
    ensures Validate(Flags.FSizeProjectile | Flags.FTerrainAccessibleAir | Flags.FTerrainAir)
  {
  }

  /** A valid projectile can be given an invalid mask after construction. */
  lemma SetFlagsSkipsValidation(p: P)
    requires Validate(p.flags)
    ensures !Validate(SetFlags(p, Flags.FNone).flags)
  {
  }
}
