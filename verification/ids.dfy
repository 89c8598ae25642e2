/** Identities and team tags shared by every entity class. */
module Ids {

  /** Identities are unsigned 64-bit integers. */
  const IdLimit: int := 0x1_0000_0000_0000_0000

  type Id = x: int | 0 <= x < IdLimit

  /** The successor of a 64-bit counter, wrapping to zero past the top. */
  function Next(c: Id): (n: Id)
    ensures c + 1 < IdLimit ==> n == c + 1
    ensures c + 1 == IdLimit ==> n == 0
  {
    (c + 1) % IdLimit
  }

  /** Teams are opaque 8-bit tags compared only for equality. */
  type Team = t: int | 0 <= t < 256
}
