/** Octets, the optional-value wrapper, and the right shift the encoder uses to read bits. */
module Bytes {

  /** One octet: the unsigned value of one `char` of the payload, or one byte of the image file. */
  type byte = b: int | 0 <= b < 256

  datatype Option<T> = None | Some(value: T)

  /** 2 to the power i. */
  function Pow2(i: nat): (p: nat)
    ensures p >= 1
  {
    if i == 0 then 1 else 2 * Pow2(i - 1)
  }

  /** `n >> i` on a non-negative value: i halvings. */
  function Shr(n: nat, i: nat): nat
  {
    if i == 0 then n else Shr(n, i - 1) / 2
  }

  /** `(n >> i) & 1`: bit i of n, bit 0 being the least significant. */
  predicate BitSet(n: nat, i: nat)
  {
    Shr(n, i) % 2 == 1
  }

  /** Shifting a value below 2^(m+i) right by i leaves a value below 2^m. */
  lemma {:induction false} ShrBelow(n: nat, i: nat, m: nat)
    requires n < Pow2(m + i)
    ensures Shr(n, i) < Pow2(m)
  {
    if i > 0 {
      ShrBelow(n, i - 1, m + 1);
    }
  }
}
