/** Powers of two, for the shifts and masks of the C and Python sources. A left shift
    `1 << n` is `Pow2(n)`, and for a non-negative divisor `x >> n` is `x / Pow2(n)`, which
    floors like Python's shift (and like C's on the unsigned values it is used on here). */
module Bits {
  function Pow2(n: nat): (p: nat)
    ensures p >= 1
  {
    if n == 0 then 1 else 2 * Pow2(n - 1)
  }

  lemma Pow2Add(a: nat, b: nat)
    ensures Pow2(a + b) == Pow2(a) * Pow2(b)
    decreases a
  {
    if a > 0 {
      Pow2Add(a - 1, b);
    }
  }
}
