/** Arithmetic shared by the models. */
module Arithmetic {

  /** One more than the largest 32-bit word. */
  const TWO32 := 0x1_0000_0000

  function Abs(a: int): nat { if a < 0 then -a else a }
  function Min(a: int, b: int): int { if a < b then a else b }
  function Max(a: int, b: int): int { if a > b then a else b }

  /** A multiple of `p` other than 0 is at least `p` away from 0. */
  lemma MulBounds(k: int, p: nat)
    ensures k >= 1 ==> k * p >= p
    ensures k <= -1 ==> k * p <= -(p as int)
  {
  }

  lemma SmallMod(x: nat)
    requires x < TWO32
    ensures x % TWO32 == x
  {
  }

  /** Whole turns make no difference in 32 bits. */
  lemma ShiftMod(x: int, q: int)
    ensures (x + TWO32 * q) % TWO32 == x % TWO32
  {
  }

  /** A number cut to 32 bits. */
  function Word32(x: nat): (w: nat)
    ensures w < TWO32
  {
    x % TWO32
  }
}
