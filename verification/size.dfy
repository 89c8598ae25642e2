/** The size enumeration of an agent; `FNone` is not a size. */
module Size {

  const FNone: bv64 := 0
  const FSmall: bv64 := 1
  const FMedium: bv64 := 2
  const FLarge: bv64 := 3

  /** Accepts every value above `FNone`, including values past `FLarge`. */
  function Validate(f: bv64): (ok: bool)
    ensures ok <==> f != FNone
  {
    f > FNone
  }

  lemma SizesOrdered()
    ensures FNone < FSmall < FMedium < FLarge
    ensures !Validate(FNone)
    ensures Validate(FSmall) && Validate(FMedium) && Validate(FLarge)
    ensures Validate(FLarge + 1)
  {
  }
}
