/** Signed record roots, per-record receipts, and the verifier with its cache of opened roots. */
module Receipts {
  import opened Options
  import opened Words
  import opened Base64Url
  import opened Json
  import opened Jws
  import Merkle

  const MAX_RECEIPT_BYTES: nat := 4096
  const MAX_MANIFEST_BYTES: nat := 2048
  const CACHE_LIMIT: nat := 8

  /** The domain-separated leaf and node hashes. */
  function Tree(sha: Bytes -> Digest): Merkle.Hasher<Digest> {
    Merkle.Hasher(record => sha([0] + record), (left, right) => sha([1] + left + right))
  }

  /** The two hash inputs behind a meeting of leaves or nodes. */
  function HashInputs(m: Merkle.Meeting<Digest>): (Bytes, Bytes) {
    match m
    case Leaves(a, b) => ([0] + a, [0] + b)
    case Nodes(a1, a2, b1, b2) => ([1] + a1 + a2, [1] + b1 + b2)
  }

  /** A meeting is a collision of the hash itself: two different inputs with one digest. */
  lemma MeetingIsCollision(sha: Bytes -> Digest, m: Merkle.Meeting<Digest>)
    requires Merkle.Collides(Tree(sha), m)
    ensures HashInputs(m).0 != HashInputs(m).1 && sha(HashInputs(m).0) == sha(HashInputs(m).1)
  {
    var (x, y) := HashInputs(m);
    match m
    case Leaves(a, b) =>
      assert x[1..] == a && y[1..] == b;
    case Nodes(a1, a2, b1, b2) =>
      assert x[1..33] == a1 && x[33..] == a2 && y[1..33] == b1 && y[33..] == b2;
  }

  // ----- Sealing

  datatype Sealed = Sealed(manifest: string, paths: seq<seq<Digest>>)

  /** The signed payload: profile, context, record count and root. */
  function RootPayload(context: string, count: nat, root: Digest): Bytes {
    Ascii(Text(SignedRoot(context, count, B64(root))))
  }

  function RootOf(sha: Bytes -> Digest, records: seq<Bytes>): Digest
    requires records != []
  {
    Merkle.Root(Tree(sha), records, 0, |records|)
  }

  ghost function Paths(sha: Bytes -> Digest, records: seq<Bytes>): seq<seq<Digest>> {
    seq(|records|, i requires 0 <= i < |records| => Merkle.Path(Tree(sha), records, 0, |records|, i))
  }

  /** The sealed batch, or nothing when the inputs are out of bounds or the signer fails. */
  ghost function SealSpec(sha: Bytes -> Digest, records: seq<Bytes>, context: string, keyId: string, sign: Signer): Option<Sealed> {
    if !(IsLabel(context) && IsLabel(keyId) && Admissible(records) && records != []) then None
    else
      var tokens :- SignEs256(sha, [RootPayload(context, |records|, RootOf(sha, records))], keyId, sign);
      Some(Sealed(tokens[0], Paths(sha, records)))
  }

  method SealRecords(sha: Bytes -> Digest, records: seq<Bytes>, context: string, keyId: string, sign: Signer)
    returns (r: Option<Sealed>)
    ensures r == SealSpec(sha, records, context, keyId, sign)
  {
    if !(IsLabel(context) && IsLabel(keyId) && Admissible(records) && records != []) {
      return None;
    }
    var root, paths := Merkle.Tree(Tree(sha), records);
    assert paths == Paths(sha, records);
    var tokens := SignEs256(sha, [RootPayload(context, |records|, root)], keyId, sign);
    if tokens.None? {
      return None;
    }
    return Some(Sealed(tokens.value[0], paths));
  }

  /** One proof as canonical JSON bytes. */
  function ReceiptBytes(batch: Sealed, index: nat, includeManifest: bool): Option<Bytes> {
    if index >= |batch.paths| then None
    else
      Some(Ascii(Text(Receipt(index, DigestTexts(batch.paths[index]), if includeManifest then Some(batch.manifest) else None))))
  }

  // ----- Verifying

  /** What the consumer fixes: the expected key id and export context. */
  datatype Trust = Trust(keyId: string, context: string)

  function ReadRoot(env: Services, trust: Trust, token: string): (r: Option<(Digest, nat)>)
    ensures r.Some? ==> 1 <= r.value.1 <= MAX_BATCH
  {
    var payload :- OpenToken(env, trust.keyId, MAX_MANIFEST_BYTES, token);
    :- Check(payload.Keys == {"profile", "context", "count", "root"});
    :- Check(payload["profile"] == Str(RECEIPT_PROFILE) && payload["context"] == Str(trust.context));
    var count := payload["count"];
    :- Check(count.Int? && 1 <= count.number <= MAX_BATCH);
    var root :- ReadDigest(payload["root"]);
    Some((root, count.number))
  }

  /** The proof a receipt carries and the token it is to be checked under. */
  function ReadReceipt(env: Services, receipt: Bytes, expectedIndex: int, manifest: Option<string>)
    : Option<(seq<Digest>, string)>
  {
    var value :- env.parse(receipt);
    :- Check(value.Obj?);
    var item := value.fields;
    :- Check(item.Keys == if manifest.Some? then {"index", "path"} else {"manifest", "index", "path"});
    :- Check(item["index"] == Int(expectedIndex));
    var proof := item["path"];
    :- Check(proof.Arr? && |proof.items| <= Merkle.MAX_PROOF_NODES);
    var path :- ReadDigests(proof.items);
    :- Check(manifest.Some? || item["manifest"].Str?);
    Some((path, if manifest.Some? then manifest.value else item["manifest"].text))
  }

  predicate InBounds(record: Bytes, receipt: Bytes, expectedIndex: int) {
    |record| <= MAX_PAYLOAD && |receipt| <= MAX_RECEIPT_BYTES && 0 <= expectedIndex < MAX_BATCH
  }

  /** The verdict without any cache. */
  predicate VerifySpec(env: Services, trust: Trust, record: Bytes, receipt: Bytes, expectedIndex: int, manifest: Option<string>) {
    && InBounds(record, receipt, expectedIndex)
    && var read := ReadReceipt(env, receipt, expectedIndex, manifest);
    && read.Some?
    && var signed := ReadRoot(env, trust, read.value.1);
    && signed.Some?
    && expectedIndex < signed.value.1
    && Merkle.Accepts(Tree(env.sha), expectedIndex, signed.value.1, read.value.0,
                      Tree(env.sha).leaf(record), signed.value.0)
  }

  // ----- The cache as an order of tokens, least recently used first

  function Without<T(==)>(s: seq<T>, x: T): seq<T> {
    if s == [] then [] else if s[0] == x then Without(s[1..], x) else [s[0]] + Without(s[1..], x)
  }

  /** The order after one use of a token: an opened token moves to the end, a ninth one evicts the first. */
  function Touch(order: seq<string>, token: string, opens: bool): seq<string> {
    if token in order then Without(order, token) + [token]
    else if !opens then order
    else if |order| < CACHE_LIMIT then order + [token]
    else order[1..] + [token]
  }

  predicate Distinct<T(==)>(s: seq<T>) {
    forall i, j | 0 <= i < j < |s| :: s[i] != s[j]
  }

  /** All distinct tokens of a history, ordered by their last use. */
  function Recency(history: seq<string>): seq<string> {
    if history == [] then []
    else
      var last := history[|history| - 1];
      Without(Recency(history[..|history| - 1]), last) + [last]
  }

  function LastOf<T>(s: seq<T>, n: nat): seq<T> {
    if |s| <= n then s else s[|s| - n..]
  }

  /** The uses of a history that open. */
  function Opening(history: seq<string>, opens: string -> bool): seq<string> {
    if history == [] then []
    else
      var last := history[|history| - 1];
      Opening(history[..|history| - 1], opens) + if opens(last) then [last] else []
  }

  /** The order after a whole history, starting empty. */
  function Touches(history: seq<string>, opens: string -> bool): seq<string> {
    if history == [] then []
    else
      var last := history[|history| - 1];
      Touch(Touches(history[..|history| - 1], opens), last, opens(last))
  }

  lemma {:induction false} WithoutProperties<T>(s: seq<T>, x: T)
    ensures forall y :: y in Without(s, x) <==> y in s && y != x
    ensures x !in s ==> Without(s, x) == s
    ensures Distinct(s) ==> Distinct(Without(s, x))
    ensures Distinct(s) && x in s ==> |Without(s, x)| == |s| - 1
  {
    if s != [] {
      var rest := s[1..];
      WithoutProperties(rest, x);
      assert s == [s[0]] + rest;
      if Distinct(s) {
        assert forall j | 0 <= j < |rest| :: rest[j] == s[j + 1] != s[0];
        assert s[0] !in rest;
        forall i, j | 0 <= i < j < |rest|
          ensures rest[i] != rest[j]
        {
          assert s[i + 1] != s[j + 1];
        }
      }
    }
  }

  lemma AppendNew<T>(s: seq<T>, x: T)
    requires Distinct(s) && x !in s
    ensures Distinct(s + [x]) && forall y :: y in s + [x] <==> y in s || y == x
  {
  }

  lemma DropFirst<T>(s: seq<T>)
    requires Distinct(s) && s != []
    ensures Distinct(s[1..]) && forall y :: y in s[1..] <==> y in s && y != s[0]
  {
    assert forall y :: y in s <==> y == s[0] || y in s[1..];
  }

  lemma {:induction false} WithoutConcat<T>(s: seq<T>, t: seq<T>, x: T)
    ensures Without(s + t, x) == Without(s, x) + Without(t, x)
  {
    if s == [] {
      assert s + t == t;
    } else {
      WithoutConcat(s[1..], t, x);
      assert (s + t)[1..] == s[1..] + t && (s + t)[0] == s[0];
      if s[0] != x {
        assert Without(s + t, x) == [s[0]] + (Without(s[1..], x) + Without(t, x));
      }
    }
  }

  lemma LastOfSuffix<T>(early: seq<T>, late: seq<T>, n: nat)
    requires |late| == n || (|late| < n && early == [])
    ensures LastOf(early + late, n) == late
  {
    assert (early + late)[|early|..] == late;
  }

  lemma TouchOnSuffix(early: seq<string>, kept: seq<string>, token: string)
    requires Distinct(kept) && (|kept| == CACHE_LIMIT || (|kept| < CACHE_LIMIT && early == []))
    ensures Touch(kept, token, true) == LastOf(early + (Without(kept, token) + [token]), CACHE_LIMIT)
  {
    WithoutProperties(kept, token);
    if token in kept || |kept| < CACHE_LIMIT {
      LastOfSuffix(early, Without(kept, token) + [token], CACHE_LIMIT);
    } else {
      assert early + (kept + [token]) == (early + [kept[0]]) + (kept[1..] + [token]);
      LastOfSuffix(early + [kept[0]], kept[1..] + [token], CACHE_LIMIT);
    }
  }

  /** One use of an opening token keeps the order equal to the last eight of the recency order. */
  lemma TouchKeepsLast(recency: seq<string>, token: string)
    requires Distinct(recency)
    ensures Touch(LastOf(recency, CACHE_LIMIT), token, true) == LastOf(Without(recency, token) + [token], CACHE_LIMIT)
  {
    var kept := LastOf(recency, CACHE_LIMIT);
    var early := recency[..|recency| - |kept|];
    assert recency == early + kept;
    WithoutConcat(early, kept, token);
    var early' := Without(early, token);
    assert Without(recency, token) + [token] == early' + (Without(kept, token) + [token]);
    TouchOnSuffix(early', kept, token);
  }

  lemma {:induction false} RecencyDistinct(history: seq<string>)
    ensures Distinct(Recency(history))
    ensures forall t :: t in Recency(history) <==> t in history
  {
    if history != [] {
      var init, last := history[..|history| - 1], history[|history| - 1];
      RecencyDistinct(init);
      WithoutProperties(Recency(init), last);
      assert history == init + [last];
    }
  }

  /** After any history the cache holds exactly the last eight distinct opening tokens, in order of last use. */
  lemma {:induction false} CacheIsLeastRecentlyUsed(history: seq<string>, opens: string -> bool)
    ensures Touches(history, opens) == LastOf(Recency(Opening(history, opens)), 8)
  {
    if history != [] {
      var init, last := history[..|history| - 1], history[|history| - 1];
      CacheIsLeastRecentlyUsed(init, opens);
      var used := Opening(init, opens);
      RecencyDistinct(used);
      if opens(last) {
        TouchKeepsLast(Recency(used), last);
        assert (used + [last])[..|used|] == used;
      } else {
        OpeningOpens(init, opens);
        assert last !in Recency(used);
        assert Opening(history, opens) == used;
      }
    }
  }

  lemma {:induction false} OpeningOpens(history: seq<string>, opens: string -> bool)
    ensures forall t | t in Opening(history, opens) :: opens(t)
  {
    if history != [] {
      OpeningOpens(history[..|history| - 1], opens);
    }
  }

  // ----- The verifier

  /** A consumer with fixed trust, caching the roots of up to eight opened tokens. */
  class ReceiptVerifier {
    const env: Services
    const trust: Trust
    var order: seq<string>
    var roots: map<string, (Digest, nat)>

    /** Exactly the ordered tokens are cached, and each entry is what a full check of its token yields. */
    ghost predicate Valid()
      reads this
    {
      && |order| <= CACHE_LIMIT && Distinct(order)
      && (forall t :: t in order <==> t in roots)
      && forall t | t in roots :: ReadRoot(env, trust, t) == Some(roots[t])
    }

    constructor (env: Services, trust: Trust)
      ensures Valid() && order == [] && this.env == env && this.trust == trust
    {
      this.env, this.trust := env, trust;
      order, roots := [], map[];
    }

    /** The root and count signed under a token, as an uncached check would find them. */
    method Manifest(token: string) returns (r: Option<(Digest, nat)>)
      requires Valid()
      modifies this
      ensures Valid()
      ensures r == ReadRoot(env, trust, token)
      ensures order == Touch(old(order), token, r.Some?)
    {
      if !(IsAscii(token) && |token| <= MAX_MANIFEST_BYTES) {
        assert ReadRoot(env, trust, token).None?;
        return None;
      }
      WithoutProperties(order, token);
      if token in roots {
        AppendNew(Without(order, token), token);
        order := Without(order, token) + [token];
        return Some(roots[token]);
      }
      r := ReadRoot(env, trust, token);
      if r.Some? {
        AppendNew(order, token);
        order, roots := order + [token], roots[token := r.value];
        if |order| > CACHE_LIMIT {
          DropFirst(order);
          order, roots := order[1..], roots - {order[0]};
        }
      }
    }

    /** The verdict of the uncached check; only the token's place in the cache may change. */
    method Verify(record: Bytes, receipt: Bytes, expectedIndex: int, manifest: Option<string>) returns (ok: bool)
      requires Valid()
      modifies this
      ensures Valid()
      ensures ok == VerifySpec(env, trust, record, receipt, expectedIndex, manifest)
      ensures var read := ReadReceipt(env, receipt, expectedIndex, manifest);
              order == if |record| <= 1048576 && |receipt| <= 4096 && 0 <= expectedIndex < 4096 && read.Some?
                       then Touch(old(order), read.value.1, ReadRoot(env, trust, read.value.1).Some?)
                       else old(order)
    {
      if !InBounds(record, receipt, expectedIndex) {
        return false;
      }
      var read := ReadReceipt(env, receipt, expectedIndex, manifest);
      if read.None? {
        return false;
      }
      var signed := Manifest(read.value.1);
      if signed.None? || expectedIndex >= signed.value.1 {
        return false;
      }
      ok := Merkle.Included(Tree(env.sha), record, expectedIndex, signed.value.1, read.value.0, signed.value.0);
    }
  }

  // ----- Many receipts, one verifier

  datatype Claim = Claim(record: Bytes, receipt: Bytes, expectedIndex: int, manifest: Option<string>)

  /** The tokens that checking these claims looks up, in order. */
  function Lookups(env: Services, claims: seq<Claim>): seq<string> {
    if claims == [] then []
    else
      var last := claims[|claims| - 1];
      var read := ReadReceipt(env, last.receipt, last.expectedIndex, last.manifest);
      Lookups(env, claims[..|claims| - 1])
      + if |last.record| <= 1048576 && |last.receipt| <= 4096 && 0 <= last.expectedIndex < 4096 && read.Some?
        then [read.value.1] else []
  }

  function Opens(env: Services, trust: Trust): string -> bool {
    token => ReadRoot(env, trust, token).Some?
  }

  /** Whatever was checked before, each verdict is that of the uncached check, and the cache of a new verifier ends with the
      last eight distinct tokens that opened, in the order of their last use. */
  method VerifyEach(verifier: ReceiptVerifier, claims: seq<Claim>) returns (verdicts: seq<bool>)
    requires verifier.Valid()
    modifies verifier
    ensures verifier.Valid() && |verdicts| == |claims|
    ensures forall i | 0 <= i < |claims| ::
              verdicts[i] == VerifySpec(verifier.env, verifier.trust, claims[i].record, claims[i].receipt,
                                        claims[i].expectedIndex, claims[i].manifest)
    ensures var used := Opening(Lookups(verifier.env, claims), Opens(verifier.env, verifier.trust));
            old(verifier.order) == [] ==> verifier.order == LastOf(Recency(used), 8)
  {
    hide VerifySpec, ReadReceipt, ReadRoot, Touch, InBounds;
    verdicts := [];
    for i := 0 to |claims|
      invariant verifier.Valid() && |verdicts| == i
      invariant forall j | 0 <= j < i ::
                  verdicts[j] == VerifySpec(verifier.env, verifier.trust, claims[j].record, claims[j].receipt,
                                            claims[j].expectedIndex, claims[j].manifest)
      invariant old(verifier.order) == [] ==>
                  verifier.order == Touches(Lookups(verifier.env, claims[..i]), Opens(verifier.env, verifier.trust))
    {
      var claim := claims[i];
      assert claims[..i + 1][..i] == claims[..i] && claims[..i + 1][i] == claim;
      var ok := verifier.Verify(claim.record, claim.receipt, claim.expectedIndex, claim.manifest);
      verdicts := verdicts + [ok];
      ghost var before, after := Lookups(verifier.env, claims[..i]), Lookups(verifier.env, claims[..i + 1]);
      assert after == before || after[..|after| - 1] == before;
    }
    assert claims[..|claims|] == claims;
    CacheIsLeastRecentlyUsed(Lookups(verifier.env, claims), Opens(verifier.env, verifier.trust));
  }
}
