/** The Merkle tree hash as section 2.1.1 of RFC 9162 writes it, over the bytes that are hashed. */
module TreeHash {
  import opened Words
  import opened Receipts
  import Merkle

  /** The largest power of two below `n`, found upwards from 2^e. */
  function PowerBelow(n: nat, e: nat): (k: nat)
    requires Pow2(e) < n
    ensures Pow2(e) <= k < n <= 2 * k
    ensures exists f: nat :: k == Pow2(f)
    decreases n - Pow2(e)
  {
    if Pow2(e + 1) < n then PowerBelow(n, e + 1) else Pow2(e)
  }

  /** A leaf is hashed behind a zero byte, a node behind a one and with its left half first. */
  function TreeHash(sha: Bytes -> Digest, records: seq<Bytes>): Digest
    requires records != []
    decreases |records|
  {
    if |records| == 1 then sha([0] + records[0])
    else
      var k := PowerBelow(|records|, 0);
      sha([1] + TreeHash(sha, records[..k]) + TreeHash(sha, records[k..]))
  }

  lemma {:induction false} PowersDiffer(a: nat, b: nat)
    requires a < b
    ensures 2 * Pow2(a) <= Pow2(b)
  {
    if a + 1 < b {
      PowersDiffer(a, b - 1);
    }
  }

  lemma OnlyPower(n: nat, a: nat, b: nat)
    requires Pow2(a) < n <= 2 * Pow2(a) && Pow2(b) < n <= 2 * Pow2(b)
    ensures a == b
  {
    hide Pow2;
    if a < b {
      PowersDiffer(a, b);
    } else if b < a {
      PowersDiffer(b, a);
    }
  }

  lemma SplitIsPowerBelow(n: nat)
    requires n >= 2
    ensures Split(n) == PowerBelow(n, 0)
  {
    assert Pow2(0) == 1;
    hide Pow2, BitLength, Split, PowerBelow;
    SplitByShift(n);
    var a := BitLength(n - 1) - 1;
    var k := Split(n);
    assert k == Pow2(a) && k < n <= 2 * k;
    var below := PowerBelow(n, 0);
    assert below < n <= 2 * below;
    var b: nat :| below == Pow2(b);
    OnlyPower(n, a, b);
  }

  lemma Hashes(sha: Bytes -> Digest, record: Bytes, left: Digest, right: Digest)
    ensures Tree(sha).leaf(record) == sha([0] + record) && Tree(sha).node(left, right) == sha([1] + left + right)
  {
  }

  lemma RootHalves(h: Merkle.Hasher<Digest>, records: seq<Bytes>, start: nat, size: nat)
    requires size > 1 && start + size <= |records|
    ensures var k := Split(size);
            Merkle.Root(h, records, start, size)
            == h.node(Merkle.Root(h, records, start, k), Merkle.Root(h, records, start + k, size - k))
  {
  }

  lemma HashHalves(sha: Bytes -> Digest, records: seq<Bytes>)
    requires |records| > 1
    ensures var k := PowerBelow(|records|, 0);
            TreeHash(sha, records) == sha([1] + TreeHash(sha, records[..k]) + TreeHash(sha, records[k..]))
  {
  }

  lemma OneRecord(sha: Bytes -> Digest, records: seq<Bytes>, start: nat)
    requires start < |records|
    ensures Merkle.Root(Tree(sha), records, start, 1) == TreeHash(sha, [records[start]])
  {
  }

  lemma {:induction false} RangeHash(sha: Bytes -> Digest, records: seq<Bytes>, start: nat, size: nat)
    requires size > 0 && start + size <= |records|
    ensures Merkle.Root(Tree(sha), records, start, size) == TreeHash(sha, records[start..start + size])
    decreases size
  {
    hide *;
    var range := records[start..start + size];
    if size == 1 {
      assert range == [records[start]];
      OneRecord(sha, records, start);
    } else {
      var k := Split(size);
      SplitIsPowerBelow(size);
      RangeHash(sha, records, start, k);
      RangeHash(sha, records, start + k, size - k);
      assert range[..k] == records[start..start + k] && range[k..] == records[start + k..start + k + (size - k)];
      RootHalves(Tree(sha), records, start, size);
      HashHalves(sha, range);
      Hashes(sha, [], TreeHash(sha, range[..k]), TreeHash(sha, range[k..]));
    }
  }

  /** The signed root is that hash of all records. */
  lemma RootIsTreeHash(sha: Bytes -> Digest, records: seq<Bytes>)
    requires records != []
    ensures RootOf(sha, records) == TreeHash(sha, records)
  {
    RangeHash(sha, records, 0, |records|);
    assert records[0..|records|] == records;
  }
}
