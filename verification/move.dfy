/** Move-mode flags of an agent: seek and arrival exclude each other, the
    avoidance and flocking behaviours combine freely. */
module Move {

  const FNone: bv64 := 0

  const FAvoidance: bv64 := 1 << 1
  const FSeek: bv64 := 1 << 2
  const FArrival: bv64 := 1 << 3
  const FAlignment: bv64 := 1 << 4
  const FCoherence: bv64 := 1 << 5
  const FSeparation: bv64 := 1 << 6

  /** The three flocking behaviours together. */
  const FFlocking: bv64 := FAlignment | FCoherence | FSeparation

  /** Rejects exactly the masks that both seek and arrive. */
  function Validate(f: bv64): (ok: bool)
    ensures ok <==> f & FSeek == 0 || f & FArrival == 0
  {
    if f & FSeek == FSeek && f & FArrival == FArrival then false else true
  }

  /** Bits other than seek and arrival, set or cleared, never change validity;
      in particular the flocking and avoidance bits never do. */
  lemma OtherBitsIrrelevant(f: bv64, g: bv64)
    requires g & (FSeek | FArrival) == 0
    ensures Validate(f | g) == Validate(f)
    ensures Validate(f & !g) == Validate(f)
  {
  }

  /** A mask has a flocking bit exactly when it has alignment, coherence or separation. */
  lemma FlockingIsUnion(f: bv64)
    ensures f & FFlocking != 0 <==> f & FAlignment != 0 || f & FCoherence != 0 || f & FSeparation != 0
    ensures FFlocking & (FAvoidance | FSeek | FArrival) == 0
  {
  }

  lemma ValidateExamples()
    ensures Validate(FNone) && Validate(FSeek) && Validate(FArrival)
    ensures Validate(FSeek | FFlocking | FAvoidance)
    ensures !Validate(FSeek | FArrival)
  {
  }
}
