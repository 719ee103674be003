/** One wave of signatures: work split over workers in strides, with the keys of many items signed together. */
module Waves {
  import M = Modular

  /** How many indices below `wave` a stride from `k` visits. */
  function StrideCount(wave: nat, k: nat, step: nat): nat
    requires step > 0
  {
    if wave == 0 then 0 else StrideCount(wave - 1, k, step) + if (wave - 1) % step == k then 1 else 0
  }

  /** The planned count of a key is exact. */
  lemma {:induction false} StrideCountExact(wave: nat, k: nat, step: nat)
    requires k < step
    ensures StrideCount(wave, k, step) == (wave + step - 1 - k) / step
  {
    if wave == 0 {
      Quotient(step - 1 - k, step, 0, step - 1 - k);
    } else {
      StrideCountExact(wave - 1, k, step);
      var q, r := (wave - 1) / step, (wave - 1) % step;
      assert wave - 1 == q * step + r;
      if r > k {
        assert (q + 1) * step == q * step + step;
        Quotient(wave - 1 + step - 1 - k, step, q + 1, r - 1 - k);
        Quotient(wave + step - 1 - k, step, q + 1, r - k);
      } else if r == k {
        assert (q + 1) * step == q * step + step;
        Quotient(wave - 1 + step - 1 - k, step, q, step - 1);
        Quotient(wave + step - 1 - k, step, q + 1, 0);
      } else {
        Quotient(wave - 1 + step - 1 - k, step, q, r + step - 1 - k);
        Quotient(wave + step - 1 - k, step, q, r + step - k);
      }
    }
  }

  lemma Quotient(x: int, d: int, q: int, r: int)
    requires d > 0 && x == q * d + r && 0 <= r < d
    ensures x / d == q
  {
    M.Remainder(d, q, r);
    var e := q - x / d;
    assert x == x / d * d + x % d;
    assert e * d == q * d - x / d * d == 0 && -e * d == -(e * d);
    if e > 0 {
      M.AtLeast(e, d);
    } else if e < 0 {
      M.AtLeast(-e, d);
    }
  }

  /** The indices whose key is marked. */
  function MarkedCount(wave: nat, marked: seq<bool>): nat
    requires marked != []
  {
    if wave == 0 then 0 else MarkedCount(wave - 1, marked) + if marked[(wave - 1) % |marked|] then 1 else 0
  }

  lemma {:induction false} MarkOne(wave: nat, marked: seq<bool>, k: nat)
    requires k < |marked| && !marked[k]
    ensures MarkedCount(wave, marked[k := true]) == MarkedCount(wave, marked) + StrideCount(wave, k, |marked|)
  {
    if wave > 0 {
      MarkOne(wave - 1, marked, k);
    }
  }

  lemma {:induction false} MarkNone(wave: nat, marked: seq<bool>)
    requires marked != [] && forall k | 0 <= k < |marked| :: !marked[k]
    ensures MarkedCount(wave, marked) == 0
  {
    if wave > 0 {
      MarkNone(wave - 1, marked);
    }
  }

  /** Mark the keys with enough items, and count the items they have per wave. */
  method Plan(wave: nat, keys: nat, hybrid: bool) returns (marked: seq<bool>, perWave: nat)
    requires keys > 0
    ensures |marked| == keys && forall k | 0 <= k < keys :: marked[k] <==> hybrid && StrideCount(wave, k, keys) >= 64
    ensures perWave == MarkedCount(wave, marked)
  {
    marked, perWave := seq(keys, _ => false), 0;
    MarkNone(wave, marked);
    for k := 0 to keys
      invariant |marked| == keys && forall j | k <= j < keys :: !marked[j]
      invariant forall j | 0 <= j < k :: marked[j] <==> hybrid && StrideCount(wave, j, keys) >= 64
      invariant perWave == MarkedCount(wave, marked)
    {
      StrideCountExact(wave, k, keys);
      var count := (wave + keys - 1 - k) / keys;
      if hybrid && count >= 64 {
        MarkOne(wave, marked, k);
        marked := marked[k := true];
        perWave := perWave + count;
      }
    }
  }

  // ----- Strided writes

  /** Stepping by the stride from `start` visits exactly the indices with its remainder. */
  lemma StrideSteps(i: nat, w: nat, step: nat)
    requires step > 0 && i % step == w
    ensures (i + step) % step == w && forall j | i < j < i + step :: j % step != w
  {
    var q := i / step;
    assert i == q * step + w;
    assert (q + 1) * step == q * step + step;
    M.Remainder(step, q + 1, w);
    forall j | i < j < i + step
      ensures j % step != w
    {
      if j < (q + 1) * step {
        M.Remainder(step, q, j - q * step);
      } else {
        M.Remainder(step, q + 1, j - (q + 1) * step);
      }
    }
  }

  /** Which items a worker signs itself, and how often each item was written. */
  predicate Mine(i: nat, w: nat, active: nat, marked: seq<bool>)
    requires active > 0 && marked != []
  {
    i % active == w && !marked[i % |marked|]
  }

  /** One worker's share of the signing phase: its stride, except the items of marked keys. */
  method SignShare<D, S>(w: nat, active: nat, marked: seq<bool>, digests: seq<D>, sign: (nat, D) -> S,
                         signatures: array<S>, writes: array<nat>)
    requires w < active && marked != [] && signatures.Length == writes.Length == |digests|
    requires (writes as object) != (signatures as object)
    modifies signatures, writes
    ensures forall i | 0 <= i < signatures.Length ::
              if Mine(i, w, active, marked)
              then signatures[i] == sign(i % |marked|, digests[i]) && writes[i] == old(writes[i]) + 1
              else signatures[i] == old(signatures[i]) && writes[i] == old(writes[i])
  {
    var i := w;
    M.Remainder(active, 0, w);
    while i < signatures.Length
      invariant i % active == w
      invariant forall j | 0 <= j < signatures.Length ::
                  if j < i && Mine(j, w, active, marked)
                  then signatures[j] == sign(j % |marked|, digests[j]) && writes[j] == old(writes[j]) + 1
                  else signatures[j] == old(signatures[j]) && writes[j] == old(writes[j])
      invariant forall j | i - active < j < i && j >= 0 :: j % active != w
    {
      if !marked[i % |marked|] {
        signatures[i] := sign(i % |marked|, digests[i]);
        writes[i] := writes[i] + 1;
      }
      StrideSteps(i, w, active);
      i := i + active;
    }
  }

  /** The signing phase of the pool: every worker does its share, in any order. */
  method SignShares<D, S>(order: seq<nat>, active: nat, marked: seq<bool>, digests: seq<D>, sign: (nat, D) -> S,
                          signatures: array<S>, writes: array<nat>)
    requires 0 < active && marked != [] && signatures.Length == writes.Length == |digests|
    requires (writes as object) != (signatures as object)
    requires IsOrder(order, active)
    modifies signatures, writes
    ensures forall i | 0 <= i < signatures.Length ::
              if !marked[i % |marked|]
              then signatures[i] == sign(i % |marked|, digests[i]) && writes[i] == old(writes[i]) + 1
              else signatures[i] == old(signatures[i]) && writes[i] == old(writes[i])
  {
    for t := 0 to |order|
      invariant forall i | 0 <= i < signatures.Length ::
                  if i % active in order[..t] && !marked[i % |marked|]
                  then signatures[i] == sign(i % |marked|, digests[i]) && writes[i] == old(writes[i]) + 1
                  else signatures[i] == old(signatures[i]) && writes[i] == old(writes[i])
    {
      assert order[t] in order;
      SignShare(order[t], active, marked, digests, sign, signatures, writes);
      NewInOrder(order, active, t);
    }
    assert order[..|order|] == order;
  }

  /** Every worker, each once. */
  predicate IsOrder(order: seq<nat>, active: nat) {
    && (forall w: nat | w < active :: w in order) && (forall w | w in order :: w < active)
    && forall s, t | 0 <= s < t < |order| :: order[s] != order[t]
  }

  lemma NewInOrder(order: seq<nat>, active: nat, t: nat)
    requires IsOrder(order, active) && t < |order|
    ensures order[t] !in order[..t] && forall w :: w in order[..t + 1] <==> w in order[..t] || w == order[t]
  {
    assert order[..t + 1] == order[..t] + [order[t]];
  }

  // ----- Gathering and scattering the items of a marked key

  /** The digests at k, k + step, k + 2 * step, ... */
  function Stride<D>(digests: seq<D>, k: nat, step: nat): seq<D>
    requires step > 0
    decreases |digests| - k
  {
    if k >= |digests| then [] else [digests[k]] + Stride(digests, k + step, step)
  }

  /** The gathered batch has the planned size. */
  lemma {:induction false} StrideLength<D>(digests: seq<D>, k: nat, step: nat)
    requires step > 0 && k < |digests| + step
    ensures |Stride(digests, k, step)| == (|digests| + step - 1 - k) / step
    decreases |digests| + step - k
  {
    var x := |digests| + step - 1 - k;
    if k < |digests| {
      StrideLength(digests, k + step, step);
      var q, r := (x - step) / step, (x - step) % step;
      assert x - step == q * step + r;
      assert (q + 1) * step == q * step + step;
      Quotient(x, step, q + 1, r);
    } else {
      Quotient(x, step, 0, x);
    }
  }

  lemma AppendNext<D>(h: seq<D>, d: D, rest: seq<D>)
    ensures (h + [d]) + rest == h + ([d] + rest)
  {
  }

  method Gather<D>(k: nat, step: nat, digests: seq<D>) returns (h: seq<D>)
    requires step > 0
    ensures h == Stride(digests, k, step)
  {
    h := [];
    var i := k;
    while i < |digests|
      invariant h + Stride(digests, i, step) == Stride(digests, k, step)
    {
      AppendNext(h, digests[i], Stride(digests, i + step, step));
      h := h + [digests[i]];
      i := i + step;
    }
  }

  /** Whether `out` holds the signatures of the stride from `i` on, starting at `j`. */
  predicate Signs<D, S(==)>(k: nat, step: nat, digests: seq<D>, sign: (nat, D) -> S, i: nat, out: seq<S>, j: nat)
    requires step > 0
  {
    var h := Stride(digests, i, step);
    |out| == j + |h| && forall t | 0 <= t < |h| :: out[j + t] == sign(k, h[t])
  }

  lemma SignsNext<D, S>(k: nat, step: nat, digests: seq<D>, sign: (nat, D) -> S, i: nat, out: seq<S>, j: nat)
    requires step > 0 && i < |digests| && Signs(k, step, digests, sign, i, out, j)
    ensures j < |out| && out[j] == sign(k, digests[i]) && Signs(k, step, digests, sign, i + step, out, j + 1)
  {
    var h, rest := Stride(digests, i, step), Stride(digests, i + step, step);
    assert h[0] == digests[i] && out[j + 0] == sign(k, h[0]);
    forall t | 0 <= t < |rest|
      ensures out[j + 1 + t] == sign(k, rest[t])
    {
      assert rest[t] == h[1 + t];
      assert out[j + (1 + t)] == sign(k, h[1 + t]);
    }
  }

  /** Put the signatures of one key back to the items they belong to. */
  method Scatter<D, S>(k: nat, step: nat, digests: seq<D>, sign: (nat, D) -> S, out: seq<S>, signatures: array<S>, writes: array<nat>)
    requires k < step && signatures.Length == writes.Length == |digests| && (writes as object) != (signatures as object)
    requires Signs(k, step, digests, sign, k, out, 0)
    modifies signatures, writes
    ensures forall i | 0 <= i < |digests| ::
              if i % step == k then signatures[i] == sign(k, digests[i]) && writes[i] == old(writes[i]) + 1
              else signatures[i] == old(signatures[i]) && writes[i] == old(writes[i])
  {
    hide Signs;
    var i, j := k, 0;
    M.Remainder(step, 0, k);
    while i < |digests|
      invariant i % step == k && Signs(k, step, digests, sign, i, out, j)
      invariant forall m | i - step < m < i && m >= 0 :: m % step != k
      invariant forall m | 0 <= m < |digests| ::
                  if m < i && m % step == k then signatures[m] == sign(k, digests[m]) && writes[m] == old(writes[m]) + 1
                  else signatures[m] == old(signatures[m]) && writes[m] == old(writes[m])
    {
      SignsNext(k, step, digests, sign, i, out, j);
      signatures[i] := out[j];
      writes[i] := writes[i] + 1;
      StrideSteps(i, k, step);
      i, j := i + step, j + 1;
    }
  }

  /** One wave: every item is signed and written exactly once, under its own key and over its own digest. */
  method SignWave<D, S>(order: seq<nat>, active: nat, marked: seq<bool>, digests: seq<D>, cpu: (nat, D) -> S, gpu: (nat, D) -> S,
                        signatures: array<S>, writes: array<nat>)
    requires 0 < active && marked != [] && signatures.Length == writes.Length == |digests|
    requires (writes as object) != (signatures as object) && IsOrder(order, active)
    modifies signatures, writes
    ensures forall i | 0 <= i < |digests| ::
              && writes[i] == old(writes[i]) + 1
              && var k := i % |marked|; signatures[i] == if marked[k] then gpu(k, digests[i]) else cpu(k, digests[i])
  {
    var keys := |marked|;
    SignShares(order, active, marked, digests, cpu, signatures, writes);
    for k := 0 to keys
      invariant forall i | 0 <= i < |digests| && !marked[i % keys] ::
                  signatures[i] == cpu(i % keys, digests[i]) && writes[i] == old(writes[i]) + 1
      invariant forall i | 0 <= i < |digests| && marked[i % keys] && i % keys < k ::
                  signatures[i] == gpu(i % keys, digests[i]) && writes[i] == old(writes[i]) + 1
      invariant forall i | 0 <= i < |digests| && marked[i % keys] && i % keys >= k :: writes[i] == old(writes[i])
    {
      if marked[k] {
        var h := Gather(k, keys, digests);
        var out := seq(|h|, j requires 0 <= j < |h| => gpu(k, h[j]));
        Scatter(k, keys, digests, gpu, out, signatures, writes);
      }
    }
  }
}
