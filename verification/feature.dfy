/** The static terrain feature: a stored rectangle with flags and a team,
    whose mask may carry no size class. */
module Feature {
  import opened Geometry
  import opened Ids
  import opened Wrappers
  import Flags

  /** Construction options: the rectangle's corners, the mask and the team. */
  datatype O = O(min: Vec, max: Vec, flags: bv64, team: Team)

  datatype F = F(id: Id, aabb: Rect, flags: bv64, team: Team)

  /** A feature mask carries no size class and passes the common terrain check. */
  function Validate(f: bv64): (ok: bool)
    ensures ok <==> f & Flags.SizeCheck == 0 && Flags.OccupiesAccessible(f)
  {
    if f & Flags.SizeCheck != 0 then false else Flags.Validate(f)
  }

  /** The stored rectangle, returned as a copy. */
  function AABB(f: F): Rect {
    f.aabb
  }

  /** What the getters of `f` report, gathered as construction options. */
  function Options(f: F): O {
    O(AABB(f).min, AABB(f).max, f.flags, f.team)
  }

  /** Builds a feature with the default identity 0 over the given corners;
      an invalid mask is refused. The corners are not checked for order. */
  function New(o: O): (r: Result<F>)
    ensures r.Success? <==> Validate(o.flags)
    ensures r.Failure? ==> r.error == InvalidEntity
    ensures r.Success? ==> Options(r.value) == o && r.value.id == 0
  {
    if !Validate(o.flags) then Failure(InvalidEntity)
    else Success(F(0, Rect(o.min, o.max), o.flags, o.team))
  }

  /** A feature with a valid mask is rebuilt from its getters, up to its identity. */
  lemma NewFromOptions(f: F)
    requires Validate(f.flags)
    ensures New(Options(f)) == Success(SetID(f, 0))
  {
  }

  function SetID(f: F, x: Id): (r: F)
    ensures r.id == x && r.(id := f.id) == f
  {
    f.(id := x)
  }

  /** Stores any mask; the mask is not validated again. */
  function SetFlags(f: F, g: bv64): (r: F)
    ensures r.flags == g && r.(flags := f.flags) == f
  {
    f.(flags := g)
  }

  /** The box a feature reports is the one given at construction, and
      neither setter moves it. */
  lemma AABBFixedAtConstruction(o: O, x: Id, g: bv64)
    requires Validate(o.flags)
    ensures var f := New(o).value;
            && AABB(f) == Rect(o.min, o.max)
            && AABB(SetID(f, x)) == AABB(f)
            && AABB(SetFlags(f, g)) == AABB(f)
  {
  }

  /** Any size class makes a mask invalid for a feature; without one, the
      common validator decides. */
  lemma ValidateCases(f: bv64)
    ensures f & Flags.SizeCheck != 0 ==> !Validate(f)
    ensures f & Flags.SizeCheck == 0 ==> (Validate(f) <==> Flags.Validate(f))
    ensures !Validate(Flags.FSizeLarge | Flags.FTerrainAccessibleLand | Flags.FTerrainLand)
    ensures Validate(Flags.FTerrainAccessibleLand | Flags.FTerrainLand)
  {
  }
}
