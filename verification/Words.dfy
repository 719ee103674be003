/** Byte strings, digests and the binary arithmetic that places tree splits. */
module Words {

  type Byte = b: int | 0 <= b < 256
  type Bytes = seq<Byte>
  /** The largest batch of records or digests. */
  const MAX_BATCH: nat := 4096

  type Digest = d: Bytes | |d| == 32 witness seq(32, _ => 0)

  function Pow2(e: nat): (p: nat)
    ensures p >= 1
  {
    if e == 0 then 1 else 2 * Pow2(e - 1)
  }

  function BitLength(n: nat): nat
  {
    if n == 0 then 0 else 1 + BitLength(n / 2)
  }

  lemma {:induction false} BitLengthBounds(n: nat, e: nat)
    ensures BitLength(n) <= e <==> n < Pow2(e)
  {
    if n != 0 && e != 0 {
      BitLengthBounds(n / 2, e - 1);
    }
  }

  /** The largest power of two strictly below `n`. */
  function Split(n: nat): (k: nat)
    requires n >= 2
    ensures 0 < k < n <= 2 * k
  {
    if n == 2 then 1 else 2 * Split((n + 1) / 2)
  }

  /** The shift by a bit length with which the tree builder computes it. */
  lemma {:induction false} SplitByShift(n: nat)
    requires n >= 2
    ensures BitLength(n - 1) >= 1 && Split(n) == Pow2(BitLength(n - 1) - 1)
  {
    if n > 2 {
      assert (n + 1) / 2 - 1 == (n - 1) / 2;
      SplitByShift((n + 1) / 2);
    }
  }

  lemma {:induction false} SplitAt(e: nat, r: nat)
    requires 0 < r <= Pow2(e)
    ensures Split(Pow2(e) + r) == Pow2(e)
  {
    if e > 0 {
      assert (Pow2(e) + r + 1) / 2 == Pow2(e - 1) + (r + 1) / 2;
      SplitAt(e - 1, (r + 1) / 2);
    }
  }
}
