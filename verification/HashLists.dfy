/** Signed lists of record hashes: sealed in one token, opened once, then checked record by record or as a whole. */
module HashLists {
  import opened Options
  import opened Words
  import opened Base64Url
  import opened Json
  import opened Jws
  import R = Receipts
  import T = ReceiptTheorems

  const MAX_MANIFEST_BYTES: nat := 262144

  function RecordDigests(sha: Bytes -> Digest, records: seq<Bytes>): seq<Digest> {
    seq<Digest>(|records|, i requires 0 <= i < |records| => sha(records[i]))
  }

  function ListDoc(context: string, digests: seq<Digest>): Doc {
    SignedList(context, |digests|, DigestTexts(digests))
  }

  function ListPayload(context: string, digests: seq<Digest>): Bytes {
    Ascii(Text(ListDoc(context, digests)))
  }

  function SealManifest(sha: Bytes -> Digest, records: seq<Bytes>, context: string, keyId: string, sign: Signer): Option<string> {
    if !(IsLabel(context) && IsLabel(keyId) && Admissible(records) && records != []) then None
    else
      var tokens :- SignEs256(sha, [ListPayload(context, RecordDigests(sha, records))], keyId, sign);
      :- Check(|tokens[0]| <= MAX_MANIFEST_BYTES);
      Some(tokens[0])
  }

  /** The local handle of an opened list. */
  datatype Verified = Verified(context: string, keyId: string, digests: seq<Digest>)

  function OpenManifest(env: Services, trust: R.Trust, token: string): Option<Verified> {
    var payload :- OpenToken(env, trust.keyId, MAX_MANIFEST_BYTES, token);
    :- Check(payload.Keys == {"profile", "context", "count", "hashes"});
    :- Check(payload["profile"] == Str(MANIFEST_PROFILE) && payload["context"] == Str(trust.context));
    var count, hashes := payload["count"], payload["hashes"];
    :- Check(count.Int? && 1 <= count.number <= MAX_BATCH && hashes.Arr? && |hashes.items| == count.number);
    var digests :- ReadDigests(hashes.items);
    Some(Verified(trust.context, trust.keyId, digests))
  }

  predicate VerifyRecord(sha: Bytes -> Digest, v: Verified, record: Bytes, expectedIndex: int) {
    |record| <= MAX_PAYLOAD && 0 <= expectedIndex < |v.digests| && sha(record) == v.digests[expectedIndex]
  }

  predicate VerifyAll(sha: Bytes -> Digest, v: Verified, records: seq<Bytes>) {
    && Admissible(records)
    && |records| == |v.digests|
    && forall i | 0 <= i < |records| :: VerifyRecord(sha, v, records[i], i)
  }

  /** The largest list stays within the manifest limit, so that the limit never refuses a sealed list. */
  lemma ListPayloadLength(context: string, digests: seq<Digest>)
    requires |context| <= 128 && |digests| <= MAX_BATCH
    ensures |ListPayload(context, digests)| <= 188816
  {
    T.DigestTextsPlain(digests);
    QuoteAllLength(DigestTexts(digests));
    DecimalLength(|digests|);
    SignedListLength(context, |digests|, DigestTexts(digests));
  }

  /** A correct signer seals every admissible list. */
  lemma SealingSucceeds(env: Services, records: seq<Bytes>, trust: R.Trust, sign: Signer)
    returns (input: string, signature: Bytes)
    requires IsLabel(trust.context) && IsLabel(trust.keyId) && Admissible(records) && records != []
    requires T.SignsCorrectly(env, sign)
    ensures input == SigningInput(trust.keyId, ListPayload(trust.context, RecordDigests(env.sha, records)))
    ensures SignatureHolds(env, signature, input) && |input + "." + B64(signature)| <= MAX_MANIFEST_BYTES
    ensures SealManifest(env.sha, records, trust.context, trust.keyId, sign) == Some(input + "." + B64(signature))
  {
    var payload := ListPayload(trust.context, RecordDigests(env.sha, records));
    ListPayloadLength(trust.context, RecordDigests(env.sha, records));
    input := SigningInput(trust.keyId, payload);
    signature := T.SignedBy(env, sign, input);
    SealWith(env, records, trust, sign, payload, input, signature);
  }

  lemma SealWith(env: Services, records: seq<Bytes>, trust: R.Trust, sign: Signer, payload: Bytes, input: string, signature: Bytes)
    requires IsLabel(trust.context) && IsLabel(trust.keyId) && Admissible(records) && records != []
    requires payload == ListPayload(trust.context, RecordDigests(env.sha, records)) && |payload| <= 188816
    requires input == SigningInput(trust.keyId, payload)
    requires sign([env.sha(Ascii(input))]) == Some([signature]) && SignatureHolds(env, signature, input)
    ensures |input + "." + B64(signature)| <= MAX_MANIFEST_BYTES
    ensures SealManifest(env.sha, records, trust.context, trust.keyId, sign) == Some(input + "." + B64(signature))
  {
    SignOne(env.sha, payload, trust.keyId, sign, input, signature);
    TokenLength(trust.keyId, payload, signature);
  }

  lemma ListFieldsRead(env: Services, trust: R.Trust, token: string, digests: seq<Digest>)
    requires OpenToken(env, trust.keyId, MAX_MANIFEST_BYTES, token) == Some(Fields(ListDoc(trust.context, digests)))
    requires 1 <= |digests| <= MAX_BATCH
    ensures OpenManifest(env, trust, token) == Some(Verified(trust.context, trust.keyId, digests))
  {
    hide ReadDigests, DigestTexts, Strings, OpenToken;
    DigestsRoundTrip(digests);
    assert |Strings(DigestTexts(digests))| == |digests| by { StringsLength(digests); }
  }

  lemma StringsLength(digests: seq<Digest>)
    ensures |Strings(DigestTexts(digests))| == |digests|
  {
  }

  /** Sealing then opening gives the exact digest list back, and the sealed export passes as a whole. */
  lemma SealThenOpen(env: Services, records: seq<Bytes>, trust: R.Trust, sign: Signer)
    requires ReadsBack(env.parse) && T.SignsCorrectly(env, sign)
    requires IsLabel(trust.context) && IsLabel(trust.keyId) && Admissible(records) && records != []
    ensures SealManifest(env.sha, records, trust.context, trust.keyId, sign).Some?
    ensures OpenManifest(env, trust, SealManifest(env.sha, records, trust.context, trust.keyId, sign).value)
         == Some(Verified(trust.context, trust.keyId, RecordDigests(env.sha, records)))
    ensures VerifyAll(env.sha, Verified(trust.context, trust.keyId, RecordDigests(env.sha, records)), records)
  {
    hide OpenManifest, ReadsBack, SealManifest, SigningInput, ListPayload, SignatureHolds, VerifyAll, IsLabel;
    OwnRecordsPass(env, records, trust);
    var input, signature := SealingSucceeds(env, records, trust, sign);
    SealedListOpens(env, trust, RecordDigests(env.sha, records), input, signature);
  }

  lemma OwnRecordsPass(env: Services, records: seq<Bytes>, trust: R.Trust)
    requires Admissible(records)
    ensures VerifyAll(env.sha, Verified(trust.context, trust.keyId, RecordDigests(env.sha, records)), records)
  {
    assert forall i | 0 <= i < |records| :: records[i] in records;
  }

  lemma SealedListOpens(env: Services, trust: R.Trust, digests: seq<Digest>, input: string, signature: Bytes)
    requires ReadsBack(env.parse) && IsLabel(trust.context) && IsLabel(trust.keyId) && 1 <= |digests| <= MAX_BATCH
    requires input == SigningInput(trust.keyId, ListPayload(trust.context, digests))
    requires SignatureHolds(env, signature, input) && |input + "." + B64(signature)| <= MAX_MANIFEST_BYTES
    ensures OpenManifest(env, trust, input + "." + B64(signature)) == Some(Verified(trust.context, trust.keyId, digests))
  {
    T.DigestTextsPlain(digests);
    assert Plain(ListDoc(trust.context, digests));
    OpensAsSealed(env, trust.keyId, MAX_MANIFEST_BYTES, ListDoc(trust.context, digests), signature, input + "." + B64(signature));
    ListFieldsRead(env, trust, input + "." + B64(signature), digests);
  }

  // ----- What an opened list means

  ghost function ListInput(env: Services, e: T.Export): string {
    SigningInput(e.keyId, ListPayload(e.context, RecordDigests(env.sha, e.records)))
  }

  /** The bytes that the signature of a token covers. */
  function SignedInput(token: string): Bytes
    requires |SplitDots(token)| == 3
  {
    Ascii(SplitDots(token)[0] + "." + SplitDots(token)[1])
  }

  ghost predicate SealedAs(env: Services, e: T.Export, message: Bytes) {
    T.Exported(e) && (message == Ascii(T.ExportInput(env, e)) || message == Ascii(ListInput(env, e)))
  }

  /** The pinned key verifies only what its holder sealed, as a root or as a list. */
  ghost predicate OnlySealed(env: Services, exports: set<T.Export>) {
    forall r, s, message :: env.verify(r, s, message) ==> exists e :: e in exports && SealedAs(env, e, message)
  }

  /** An opened token carries a signature that the pinned key verifies. */
  lemma OpenTokenVerified(env: Services, keyId: string, limit: nat, token: string) returns (r: nat, s: nat)
    requires OpenToken(env, keyId, limit, token).Some?
    ensures |SplitDots(token)| == 3 && env.verify(r, s, SignedInput(token))
  {
    var scalars := Scalars(Unb64(SplitDots(token)[2]).value).value;
    r, s := scalars.0, scalars.1;
  }

  lemma ListTokenWasSealed(env: Services, keyId: string, limit: nat, exports: set<T.Export>, token: string) returns (e: T.Export)
    requires OnlySealed(env, exports) && OpenToken(env, keyId, limit, token).Some?
    ensures |SplitDots(token)| == 3 && e in exports
    ensures SealedAs(env, e, SignedInput(token))
  {
    hide OpenToken, SplitDots, SealedAs, SignedInput;
    var r, s := OpenTokenVerified(env, keyId, limit, token);
    e :| e in exports && SealedAs(env, e, SignedInput(token));
  }

  /** A root is never opened as a list. */
  lemma RootIsNoList(env: Services, trust: R.Trust, token: string, context: string, count: nat, root: string)
    requires OpenToken(env, trust.keyId, MAX_MANIFEST_BYTES, token) == Some(Fields(SignedRoot(context, count, root)))
    ensures OpenManifest(env, trust, token).None?
  {
    hide OpenToken;
    assert "hashes" !in Fields(SignedRoot(context, count, root));
    assert "hashes" in {"profile", "context", "count", "hashes"};
  }

  lemma ListContext(env: Services, trust: R.Trust, token: string, context: string, digests: seq<Digest>)
    requires OpenToken(env, trust.keyId, MAX_MANIFEST_BYTES, token) == Some(Fields(ListDoc(context, digests)))
    requires OpenManifest(env, trust, token).Some?
    ensures context == trust.context
  {
    hide OpenToken, ReadDigests;
    assert Fields(ListDoc(context, digests))["context"] == Str(context);
  }

  /** A token that opens as a list was sealed as the list of some export in the trusted context, and opens to exactly the
      digests of its records. */
  lemma OpenedListWasSealed(env: Services, trust: R.Trust, exports: set<T.Export>, token: string) returns (e: T.Export)
    requires ReadsBack(env.parse) && OnlySealed(env, exports)
    requires OpenManifest(env, trust, token).Some?
    ensures e in exports && T.Exported(e) && e.context == trust.context && e.keyId == trust.keyId
    ensures OpenManifest(env, trust, token) == Some(Verified(trust.context, trust.keyId, RecordDigests(env.sha, e.records)))
  {
    hide OpenManifest, ReadsBack, SplitDots, OnlySealed, Ascii, SignedInput;
    OpensAsToken(env, trust, token);
    e := ListTokenWasSealed(env, trust.keyId, MAX_MANIFEST_BYTES, exports, token);
    if SignedInput(token) == Ascii(ListInput(env, e)) {
      ListOpensAsSealed(env, trust, token, e);
    } else {
      RootOpensAsNoList(env, trust, token, e);
    }
  }

  lemma ListOpensAsSealed(env: Services, trust: R.Trust, token: string, e: T.Export)
    requires ReadsBack(env.parse) && T.Exported(e) && OpenManifest(env, trust, token).Some?
    requires |SplitDots(token)| == 3 && SignedInput(token) == Ascii(ListInput(env, e))
    ensures e.context == trust.context && e.keyId == trust.keyId
    ensures OpenManifest(env, trust, token) == Some(Verified(trust.context, trust.keyId, RecordDigests(env.sha, e.records)))
  {
    hide OpenManifest, ReadsBack, SplitDots, Fields, Text, SigningInput, OpenToken, Ascii;
    var digests := RecordDigests(env.sha, e.records);
    OpensAsToken(env, trust, token);
    T.DigestTextsPlain(digests);
    OpensOnlyAsSigned(env, trust.keyId, MAX_MANIFEST_BYTES, token, e.keyId, ListDoc(e.context, digests));
    ListContext(env, trust, token, e.context, digests);
    ListFieldsRead(env, trust, token, digests);
  }

  lemma RootOpensAsNoList(env: Services, trust: R.Trust, token: string, e: T.Export)
    requires ReadsBack(env.parse) && T.Exported(e)
    requires |SplitDots(token)| == 3 && SignedInput(token) == Ascii(T.ExportInput(env, e))
    ensures OpenManifest(env, trust, token).None?
  {
    hide OpenManifest, ReadsBack, SplitDots, Fields, Text, SigningInput, OpenToken, Ascii;
    if OpenManifest(env, trust, token).Some? {
      var root := R.RootOf(env.sha, e.records);
      OpensAsToken(env, trust, token);
      DigestRoundTrip(root);
      OpensOnlyAsSigned(env, trust.keyId, MAX_MANIFEST_BYTES, token, e.keyId, SignedRoot(e.context, |e.records|, B64(root)));
      RootIsNoList(env, trust, token, e.context, |e.records|, B64(root));
    }
  }

  lemma OpensAsToken(env: Services, trust: R.Trust, token: string)
    requires OpenManifest(env, trust, token).Some?
    ensures OpenToken(env, trust.keyId, MAX_MANIFEST_BYTES, token).Some?
  {
    hide OpenToken;
  }

  /** Nor is a list ever opened as a root. */
  lemma ListIsNoRoot(env: Services, trust: R.Trust, token: string, context: string, digests: seq<Digest>)
    requires OpenToken(env, trust.keyId, R.MAX_MANIFEST_BYTES, token) == Some(Fields(ListDoc(context, digests)))
    ensures R.ReadRoot(env, trust, token).None?
  {
    hide OpenToken;
    assert "root" !in Fields(ListDoc(context, digests));
    assert "root" in {"profile", "context", "count", "root"};
  }

  /** With one key for both profiles, a token that opens as a root was still sealed as the root of an export of this context. */
  lemma OpenedRootWasSealed(env: Services, trust: R.Trust, exports: set<T.Export>, token: string) returns (e: T.Export)
    requires ReadsBack(env.parse) && OnlySealed(env, exports)
    requires R.ReadRoot(env, trust, token).Some?
    ensures e in exports && T.Exported(e) && e.context == trust.context && e.keyId == trust.keyId
    ensures R.ReadRoot(env, trust, token) == Some((R.RootOf(env.sha, e.records), |e.records|))
  {
    hide R.ReadRoot, ReadsBack, SplitDots, OnlySealed, Ascii, SignedInput;
    RootOpens(env, trust, token);
    e := ListTokenWasSealed(env, trust.keyId, R.MAX_MANIFEST_BYTES, exports, token);
    if SignedInput(token) == Ascii(T.ExportInput(env, e)) {
      RootOpensAsSealed(env, trust, token, e);
    } else {
      ListOpensAsNoRoot(env, trust, token, e);
    }
  }

  /** With one key for both profiles, an accepted receipt still proves that the exact record stands at the expected index of
      an export sealed for this context, or else its path contains a computable hash collision with that export. */
  lemma VerifiedRecordWasSealed(env: Services, trust: R.Trust, exports: set<T.Export>,
                                record: Bytes, receipt: Bytes, expectedIndex: int, manifest: Option<string>)
    requires ReadsBack(env.parse) && OnlySealed(env, exports)
    requires R.VerifySpec(env, trust, record, receipt, expectedIndex, manifest)
    ensures exists e :: e in exports && e.context == trust.context && e.keyId == trust.keyId
              && 0 <= expectedIndex < |e.records|
              && T.SealedAt(env, e.records, expectedIndex, record,
                            R.ReadReceipt(env, receipt, expectedIndex, manifest).value.0)
  {
    hide OnlySealed, ReadsBack, R.ReadRoot, R.ReadReceipt, T.SealedAt;
    var e := OpenedRootWasSealed(env, trust, exports, R.ReadReceipt(env, receipt, expectedIndex, manifest).value.1);
    T.AcceptedStandsThere(env, trust, e, record, receipt, expectedIndex, manifest);
  }

  lemma RootOpens(env: Services, trust: R.Trust, token: string)
    requires R.ReadRoot(env, trust, token).Some?
    ensures OpenToken(env, trust.keyId, R.MAX_MANIFEST_BYTES, token).Some?
  {
    hide OpenToken;
  }

  lemma RootOpensAsSealed(env: Services, trust: R.Trust, token: string, e: T.Export)
    requires ReadsBack(env.parse) && T.Exported(e) && R.ReadRoot(env, trust, token).Some?
    requires |SplitDots(token)| == 3 && SignedInput(token) == Ascii(T.ExportInput(env, e))
    ensures e.context == trust.context && e.keyId == trust.keyId
    ensures R.ReadRoot(env, trust, token) == Some((R.RootOf(env.sha, e.records), |e.records|))
  {
    hide R.ReadRoot, ReadsBack, SplitDots, Fields, Text, SigningInput, OpenToken, Ascii;
    var root := R.RootOf(env.sha, e.records);
    RootOpens(env, trust, token);
    DigestRoundTrip(root);
    OpensOnlyAsSigned(env, trust.keyId, R.MAX_MANIFEST_BYTES, token, e.keyId, SignedRoot(e.context, |e.records|, B64(root)));
    T.RootContext(env, trust, token, e.context, |e.records|, B64(root));
    T.RootFieldsRead(env, trust, token, root, |e.records|);
  }

  lemma ListOpensAsNoRoot(env: Services, trust: R.Trust, token: string, e: T.Export)
    requires ReadsBack(env.parse) && T.Exported(e)
    requires |SplitDots(token)| == 3 && SignedInput(token) == Ascii(ListInput(env, e))
    ensures R.ReadRoot(env, trust, token).None?
  {
    hide R.ReadRoot, ReadsBack, SplitDots, Fields, Text, SigningInput, OpenToken, Ascii;
    if R.ReadRoot(env, trust, token).Some? {
      var digests := RecordDigests(env.sha, e.records);
      RootOpens(env, trust, token);
      T.DigestTextsPlain(digests);
      OpensOnlyAsSigned(env, trust.keyId, R.MAX_MANIFEST_BYTES, token, e.keyId, ListDoc(e.context, digests));
      ListIsNoRoot(env, trust, token, e.context, digests);
    }
  }

  /** An export that passes against an opened list is the sealed export, or names the first pair of colliding records. */
  lemma PassingExportWasSealed(env: Services, trust: R.Trust, exports: set<T.Export>, token: string, records: seq<Bytes>)
    returns (e: T.Export)
    requires ReadsBack(env.parse) && OnlySealed(env, exports)
    requires OpenManifest(env, trust, token).Some? && VerifyAll(env.sha, OpenManifest(env, trust, token).value, records)
    ensures e in exports && e.context == trust.context && e.keyId == trust.keyId && |records| == |e.records|
    ensures records == e.records ||
            var i := FirstDifference(records, e.records);
            i < |records| && records[i] != e.records[i] && env.sha(records[i]) == env.sha(e.records[i])
  {
    hide OpenManifest, ReadsBack, OnlySealed;
    e := OpenedListWasSealed(env, trust, exports, token);
    PassingListIsSealed(env.sha, trust, e.records, records);
  }

  /** A list that passes against the handle of a sealed export is that export, or the first position where they differ
      shows two records with one digest. */
  lemma PassingListIsSealed(sha: Bytes -> Digest, trust: R.Trust, sealedRecords: seq<Bytes>, records: seq<Bytes>)
    requires VerifyAll(sha, Verified(trust.context, trust.keyId, RecordDigests(sha, sealedRecords)), records)
    ensures |records| == |sealedRecords|
    ensures records == sealedRecords ||
            var i := FirstDifference(records, sealedRecords);
            i < |records| && records[i] != sealedRecords[i] && sha(records[i]) == sha(sealedRecords[i])
  {
    var v := Verified(trust.context, trust.keyId, RecordDigests(sha, sealedRecords));
    if records != sealedRecords {
      var i := FirstDifference(records, sealedRecords);
      assert VerifyRecord(sha, v, records[i], i);
    }
  }

  function FirstDifference(a: seq<Bytes>, b: seq<Bytes>): (i: nat)
    requires |a| == |b|
    ensures i <= |a| && a[..i] == b[..i]
    ensures i < |a| ==> a[i] != b[i]
    ensures i == |a| ==> a == b
  {
    if a == [] then 0
    else if a[0] != b[0] then 0
    else
      assert a == [a[0]] + a[1..] && b == [b[0]] + b[1..];
      FirstDifference(a[1..], b[1..]) + 1
  }
}
