/** The entity classification mask: size class, terrain accessibility and
    terrain occupancy bits, and the validator applied at construction. */
module Flags {

  const FNone: bv64 := 0

  // Size classes; at most one may be set.
  const FSizeProjectile: bv64 := 1 << 1
  const FSizeSmall: bv64 := 1 << 2
  const FSizeMedium: bv64 := 1 << 3
  const FSizeLarge: bv64 := 1 << 4

  // The layers an entity is able to occupy.
  const FTerrainAccessibleAir: bv64 := 1 << 5
  const FTerrainAccessibleLand: bv64 := 1 << 6
  const FTerrainAccessibleSea: bv64 := 1 << 7

  // The layer an entity currently occupies.
  const FTerrainAir: bv64 := 1 << 8
  const FTerrainLand: bv64 := 1 << 9
  const FTerrainSea: bv64 := 1 << 10

  const TerrainAirCheck: bv64 := FTerrainAccessibleAir | FTerrainAir
  const TerrainLandCheck: bv64 := FTerrainAccessibleLand | FTerrainLand
  const TerrainSeaCheck: bv64 := FTerrainAccessibleSea | FTerrainSea

  const SizeCheck: bv64 := FSizeProjectile | FSizeSmall | FSizeMedium | FSizeLarge

  /** Every named flag, in declaration order. */
  const Named: seq<bv64> := [
    FSizeProjectile, FSizeSmall, FSizeMedium, FSizeLarge,
    FTerrainAccessibleAir, FTerrainAccessibleLand, FTerrainAccessibleSea,
    FTerrainAir, FTerrainLand, FTerrainSea
  ]

  function Bit(m: bv64, f: bv64): nat {
    if m & f != 0 then 1 else 0
  }

  /** How many size classes `m` claims. */
  function SizeCount(m: bv64): nat {
    Bit(m, FSizeProjectile) + Bit(m, FSizeSmall) + Bit(m, FSizeMedium) + Bit(m, FSizeLarge)
  }

  /** The size part of `m` is empty or a single size class. */
  predicate SingleSize(m: bv64) {
    m & SizeCheck in {FNone, FSizeProjectile, FSizeSmall, FSizeMedium, FSizeLarge}
  }

  /** Every layer `m` occupies is a layer it may access. */
  predicate OccupiesAccessible(m: bv64) {
    && (m & FTerrainAir != 0 ==> m & FTerrainAccessibleAir != 0)
    && (m & FTerrainLand != 0 ==> m & FTerrainAccessibleLand != 0)
    && (m & FTerrainSea != 0 ==> m & FTerrainAccessibleSea != 0)
  }

  /** Rejects a mask with several size classes, or with an occupied layer
      that is not accessible. Several occupied layers are not rejected. */
  function Validate(m: bv64): (ok: bool)
    ensures ok <==> SingleSize(m) && OccupiesAccessible(m)
  {
    SizeCountAtMostOne(m);
    OccupancyChecks(m);
    if SizeCount(m) > 1 then false
    else if m & TerrainAirCheck == FTerrainAir then false
    else if m & TerrainLandCheck == FTerrainLand then false
    else if m & TerrainSeaCheck == FTerrainSea then false
    else true
  }

  lemma SizeCountAtMostOne(m: bv64)
    ensures SizeCount(m) <= 1 <==> SingleSize(m)
  {
    var p, s, md, l := m & FSizeProjectile, m & FSizeSmall, m & FSizeMedium, m & FSizeLarge;
    assert m & SizeCheck == p | s | md | l;
    assert p == 0 || p == FSizeProjectile;
    assert s == 0 || s == FSizeSmall;
    assert md == 0 || md == FSizeMedium;
    assert l == 0 || l == FSizeLarge;
  }

  lemma OccupancyChecks(m: bv64)
    ensures m & TerrainAirCheck == FTerrainAir <==> m & FTerrainAir != 0 && m & FTerrainAccessibleAir == 0
    ensures m & TerrainLandCheck == FTerrainLand <==> m & FTerrainLand != 0 && m & FTerrainAccessibleLand == 0
    ensures m & TerrainSeaCheck == FTerrainSea <==> m & FTerrainSea != 0 && m & FTerrainAccessibleSea == 0
  {
  }

  /** The named flags are distinct single bits, each the next power of two
      after `FNone`. */
  lemma NamedFlagsAreDistinctBits()
    ensures FNone == 0
    ensures forall i :: 0 <= i < |Named| ==> Named[i] == 1 << (i + 1)
    ensures forall i, j :: 0 <= i < j < |Named| ==> Named[i] & Named[j] == 0
  {
  }

  /** Two distinct size classes together are always rejected. */
  lemma TwoSizesInvalid(m: bv64, f: bv64, g: bv64)
    requires f in {FSizeProjectile, FSizeSmall, FSizeMedium, FSizeLarge}
    requires g in {FSizeProjectile, FSizeSmall, FSizeMedium, FSizeLarge}
    requires f != g && m & f != 0 && m & g != 0
    ensures !Validate(m)
  {
  }

  /** Occupying a layer without its accessibility bit is always rejected. */
  lemma OccupancyWithoutAccessInvalid(m: bv64, occupy: bv64, access: bv64)
    requires (occupy, access) in {(FTerrainAir, FTerrainAccessibleAir),
                                  (FTerrainLand, FTerrainAccessibleLand),
                                  (FTerrainSea, FTerrainAccessibleSea)}
    requires m & occupy != 0 && m & access == 0
    ensures !Validate(m)
  {
  }

  /** Granting access to a layer keeps a valid mask valid. */
  lemma GrantKeepsValid(m: bv64, f: bv64)
    requires Validate(m)
    requires f == FTerrainAccessibleAir || f == FTerrainAccessibleLand || f == FTerrainAccessibleSea
    ensures Validate(m | f)
  {
    assert (m | f) & SizeCheck == m & SizeCheck;
  }

  /** Leaving a layer keeps a valid mask valid. */
  lemma LeaveKeepsValid(m: bv64, f: bv64)
    requires Validate(m)
    requires f == FTerrainAir || f == FTerrainLand || f == FTerrainSea
    ensures Validate(m & !f)
  {
    assert (m & !f) & SizeCheck == m & SizeCheck;
  }

  /** The validator does not limit an entity to one occupied layer: a valid
      mask may be made to occupy two, or all three, layers at once, as long
      as each occupied layer is also accessible. */
  lemma SeveralLayersAccepted(m: bv64)
    requires Validate(m)
    ensures var two := m | TerrainAirCheck | TerrainLandCheck;
            Validate(two) && two & FTerrainAir != 0 && two & FTerrainLand != 0
    ensures var three := m | TerrainAirCheck | TerrainLandCheck | TerrainSeaCheck;
            Validate(three) && three & FTerrainAir != 0 && three & FTerrainLand != 0 && three & FTerrainSea != 0
  {
    assert (m | TerrainAirCheck | TerrainLandCheck) & SizeCheck == m & SizeCheck;
    assert (m | TerrainAirCheck | TerrainLandCheck | TerrainSeaCheck) & SizeCheck == m & SizeCheck;
  }

  /** The cases of the validator's table test. */
  lemma ValidateExamples()
    ensures Validate(FNone)
    ensures Validate(FSizeProjectile) && Validate(FSizeSmall)
    ensures Validate(FSizeMedium) && Validate(FSizeLarge)
    ensures !Validate(FSizeProjectile | FSizeSmall)
    ensures !Validate(FSizeProjectile | FSizeSmall | FSizeMedium | FSizeLarge)
    ensures Validate(FTerrainAccessibleAir | FTerrainAir)
    ensures !Validate(FTerrainAir)
    ensures Validate(TerrainAirCheck | TerrainLandCheck | TerrainSeaCheck)
  {
  }
}
