/** What sealing and verifying record receipts guarantee together. */
module ReceiptTheorems {
  import opened Options
  import opened Words
  import opened Base64Url
  import opened Json
  import opened Jws
  import opened Receipts
  import Merkle

  /** A signer that answers one digest with one low-s signature that verifies under the pinned key. */
  ghost predicate SignsCorrectly(env: Services, sign: Signer) {
    forall input: string :: SignsInput(env, sign, input)
  }

  ghost predicate SignsInput(env: Services, sign: Signer, input: string) {
    var answer := sign([env.sha(Ascii(input))]);
    answer.Some? && |answer.value| == 1 && SignatureHolds(env, answer.value[0], input)
  }

  lemma RootPayloadLength(context: string, count: nat, root: Digest)
    requires |context| <= 128 && count <= MAX_BATCH
    ensures |RootPayload(context, count, root)| <= 486
  {
    DigestRoundTrip(root);
    DecimalLength(count);
    SignedRootLength(context, count, B64(root));
  }

  /** A correct signer seals every admissible batch, in one token that stays far below the manifest limit. */
  lemma SealingSucceeds(env: Services, records: seq<Bytes>, trust: Trust, sign: Signer)
    returns (input: string, signature: Bytes, batch: Sealed)
    requires IsLabel(trust.context) && IsLabel(trust.keyId) && Admissible(records) && records != []
    requires SignsCorrectly(env, sign)
    ensures input == SigningInput(trust.keyId, RootPayload(trust.context, |records|, RootOf(env.sha, records)))
    ensures SignatureHolds(env, signature, input)
    ensures batch == Sealed(input + "." + B64(signature), Paths(env.sha, records))
    ensures SealSpec(env.sha, records, trust.context, trust.keyId, sign) == Some(batch)
    ensures |batch.manifest| <= 1111 && IsPrintable(batch.manifest)
  {
    var payload := RootPayload(trust.context, |records|, RootOf(env.sha, records));
    RootPayloadLength(trust.context, |records|, RootOf(env.sha, records));
    input := SigningInput(trust.keyId, payload);
    signature := SignedBy(env, sign, input);
    batch := SealWith(env, records, trust, sign, payload, input, signature);
  }

  lemma SignedBy(env: Services, sign: Signer, input: string) returns (signature: Bytes)
    requires SignsCorrectly(env, sign)
    ensures sign([env.sha(Ascii(input))]) == Some([signature]) && SignatureHolds(env, signature, input)
  {
    assert SignsInput(env, sign, input);
    signature := sign([env.sha(Ascii(input))]).value[0];
    assert sign([env.sha(Ascii(input))]).value == [signature];
  }

  lemma SealWith(env: Services, records: seq<Bytes>, trust: Trust, sign: Signer, payload: Bytes, input: string, signature: Bytes)
    returns (batch: Sealed)
    requires IsLabel(trust.context) && IsLabel(trust.keyId) && Admissible(records) && records != []
    requires payload == RootPayload(trust.context, |records|, RootOf(env.sha, records)) && |payload| <= 486
    requires input == SigningInput(trust.keyId, payload)
    requires sign([env.sha(Ascii(input))]) == Some([signature]) && SignatureHolds(env, signature, input)
    ensures batch == Sealed(input + "." + B64(signature), Paths(env.sha, records))
    ensures SealSpec(env.sha, records, trust.context, trust.keyId, sign) == Some(batch)
    ensures |batch.manifest| <= 1111 && IsPrintable(batch.manifest)
  {
    SignOne(env.sha, payload, trust.keyId, sign, input, signature);
    TokenLength(trust.keyId, payload, signature);
    TokenPrintable(trust.keyId, payload, signature);
    batch := Sealed(input + "." + B64(signature), Paths(env.sha, records));
  }

  lemma TokenPrintable(keyId: string, payload: Bytes, signature: Bytes)
    ensures IsPrintable(SigningInput(keyId, payload) + "." + B64(signature))
  {
    PrintableB64(Ascii(Text(Header(keyId))));
    PrintableB64(payload);
    PrintableB64(signature);
  }

  /** The sealed token opens to the root and count of the sealed records. */
  lemma SealedRootReads(env: Services, records: seq<Bytes>, trust: Trust, signature: Bytes, input: string)
    requires ReadsBack(env.parse)
    requires IsLabel(trust.context) && IsLabel(trust.keyId) && 1 <= |records| <= MAX_BATCH
    requires input == SigningInput(trust.keyId, RootPayload(trust.context, |records|, RootOf(env.sha, records)))
    requires SignatureHolds(env, signature, input) && |input + "." + B64(signature)| <= MAX_MANIFEST_BYTES
    ensures ReadRoot(env, trust, input + "." + B64(signature)) == Some((RootOf(env.sha, records), |records|))
  {
    var root := RootOf(env.sha, records);
    DigestRoundTrip(root);
    OpensAsSealed(env, trust.keyId, MAX_MANIFEST_BYTES, SignedRoot(trust.context, |records|, B64(root)),
                  signature, input + "." + B64(signature));
    RootFieldsRead(env, trust, input + "." + B64(signature), root, |records|);
  }

  lemma RootFieldsRead(env: Services, trust: Trust, token: string, root: Digest, count: nat)
    requires OpenToken(env, trust.keyId, MAX_MANIFEST_BYTES, token) == Some(Fields(SignedRoot(trust.context, count, B64(root))))
    requires 1 <= count <= MAX_BATCH
    ensures ReadRoot(env, trust, token) == Some((root, count))
  {
    DigestRoundTrip(root);
  }

  function ReceiptDoc(index: nat, path: seq<Digest>, manifest: string, includeManifest: bool): Doc {
    Receipt(index, DigestTexts(path), if includeManifest then Some(manifest) else None)
  }

  lemma DigestTextsPlain(path: seq<Digest>)
    ensures forall s | s in DigestTexts(path) :: |s| == 43 && NeedsNoEscape(s) && IsPrintable(s)
  {
    forall s | s in DigestTexts(path)
      ensures |s| == 43 && NeedsNoEscape(s) && IsPrintable(s)
    {
      var i :| 0 <= i < |path| && DigestTexts(path)[i] == s;
      DigestRoundTrip(path[i]);
    }
  }

  /** A written receipt is within the size limit. */
  lemma ReceiptSize(index: nat, path: seq<Digest>, manifest: string, includeManifest: bool)
    requires index < MAX_BATCH && |path| <= Merkle.MAX_PROOF_NODES && |manifest| <= 1111
    ensures |Text(ReceiptDoc(index, path, manifest, includeManifest))| <= MAX_RECEIPT_BYTES
  {
    var texts := DigestTexts(path);
    DigestTextsPlain(path);
    QuoteAllLength(texts);
    DecimalLength(index);
    ReceiptLength(index, texts, if includeManifest then Some(manifest) else None);
  }

  /** A written receipt reads back as its path and its token. */
  lemma ReceiptReads(env: Services, index: nat, path: seq<Digest>, manifest: string, includeManifest: bool, receipt: Bytes)
    requires |path| <= Merkle.MAX_PROOF_NODES
    requires env.parse(receipt) == Some(Obj(Fields(ReceiptDoc(index, path, manifest, includeManifest))))
    ensures ReadReceipt(env, receipt, index, if includeManifest then None else Some(manifest)) == Some((path, manifest))
  {
    DigestsRoundTrip(path);
    var item := Fields(ReceiptDoc(index, path, manifest, includeManifest));
    assert item.Keys == if includeManifest then {"manifest", "index", "path"} else {"index", "path"};
    assert item["path"] == Arr(Strings(DigestTexts(path)));
  }

  lemma ReceiptParses(env: Services, index: nat, path: seq<Digest>, manifest: string, includeManifest: bool)
    requires ReadsBack(env.parse) && IsPrintable(manifest)
    ensures var doc := ReceiptDoc(index, path, manifest, includeManifest);
            env.parse(Ascii(Text(doc))) == Some(Obj(Fields(doc)))
  {
    DigestTextsPlain(path);
    assert Plain(ReceiptDoc(index, path, manifest, includeManifest));
  }

  /** Sealing then verifying: every receipt of a sealed batch is accepted at its own index, whether it carries the signed
      root or the recipient holds it. */
  lemma SealThenVerify(env: Services, records: seq<Bytes>, trust: Trust, sign: Signer, index: nat, includeManifest: bool)
    requires ReadsBack(env.parse) && SignsCorrectly(env, sign)
    requires IsLabel(trust.context) && IsLabel(trust.keyId) && Admissible(records) && index < |records|
    ensures var batch := SealSpec(env.sha, records, trust.context, trust.keyId, sign);
            && batch.Some?
            && ReceiptBytes(batch.value, index, includeManifest).Some?
            && VerifySpec(env, trust, records[index], ReceiptBytes(batch.value, index, includeManifest).value, index,
                          if includeManifest then None else Some(batch.value.manifest))
  {
    var input, signature, batch := SealingSucceeds(env, records, trust, sign);
    SealedRootReads(env, records, trust, signature, input);
    SealedReceiptVerifies(env, records, trust, batch, index, includeManifest);
  }

  lemma SealedReceiptVerifies(env: Services, records: seq<Bytes>, trust: Trust, batch: Sealed, index: nat, includeManifest: bool)
    requires ReadsBack(env.parse) && index < |records| <= MAX_BATCH && (forall r | r in records :: |r| <= MAX_PAYLOAD)
    requires batch.paths == Paths(env.sha, records) && |batch.manifest| <= 1111 && IsPrintable(batch.manifest)
    requires ReadRoot(env, trust, batch.manifest) == Some((RootOf(env.sha, records), |records|))
    ensures ReceiptBytes(batch, index, includeManifest).Some?
    ensures VerifySpec(env, trust, records[index], ReceiptBytes(batch, index, includeManifest).value, index,
                       if includeManifest then None else Some(batch.manifest))
  {
    var path := Merkle.Path(Tree(env.sha), records, 0, |records|, index);
    assert batch.paths[index] == path;
    PathAccepted(env, records, index);
    var receipt := ReceiptOf(env, batch, index, path, includeManifest);
    assert records[index] in records;
    Verdict(env, trust, records[index], receipt, index, if includeManifest then None else Some(batch.manifest),
            path, batch.manifest, RootOf(env.sha, records), |records|);
  }

  lemma PathAccepted(env: Services, records: seq<Bytes>, index: nat)
    requires index < |records| <= MAX_BATCH
    ensures var path := Merkle.Path(Tree(env.sha), records, 0, |records|, index);
            && |path| <= Merkle.MAX_PROOF_NODES
            && Merkle.Accepts(Tree(env.sha), index, |records|, path, Tree(env.sha).leaf(records[index]), RootOf(env.sha, records))
  {
    Merkle.Completeness(Tree(env.sha), records, index);
    Merkle.ProofNodeLimit(|records|);
    assert |Merkle.Sides(index, |records|)| <= Merkle.MAX_PROOF_NODES;
  }

  lemma ReceiptOf(env: Services, batch: Sealed, index: nat, path: seq<Digest>, includeManifest: bool) returns (receipt: Bytes)
    requires ReadsBack(env.parse) && index < |batch.paths| && index < MAX_BATCH && batch.paths[index] == path
    requires |path| <= Merkle.MAX_PROOF_NODES && |batch.manifest| <= 1111 && IsPrintable(batch.manifest)
    ensures ReceiptBytes(batch, index, includeManifest) == Some(receipt) && |receipt| <= MAX_RECEIPT_BYTES
    ensures ReadReceipt(env, receipt, index, if includeManifest then None else Some(batch.manifest))
         == Some((path, batch.manifest))
  {
    receipt := Ascii(Text(ReceiptDoc(index, path, batch.manifest, includeManifest)));
    ReceiptSize(index, path, batch.manifest, includeManifest);
    ReceiptParses(env, index, path, batch.manifest, includeManifest);
    ReceiptReads(env, index, path, batch.manifest, includeManifest, receipt);
  }

  lemma Verdict(env: Services, trust: Trust, record: Bytes, receipt: Bytes, index: int, manifest: Option<string>,
                path: seq<Digest>, token: string, root: Digest, count: nat)
    requires InBounds(record, receipt, index) && index < count
    requires ReadReceipt(env, receipt, index, manifest) == Some((path, token))
    requires ReadRoot(env, trust, token) == Some((root, count))
    requires Merkle.Accepts(Tree(env.sha), index, count, path, Tree(env.sha).leaf(record), root)
    ensures VerifySpec(env, trust, record, receipt, index, manifest)
  {
  }

  // ----- What a verdict of true means

  /** One sealed export: who sealed what, in which context. */
  datatype Export = Export(context: string, keyId: string, records: seq<Bytes>)

  predicate Exported(e: Export) {
    IsPrintable(e.context) && IsPrintable(e.keyId) && 1 <= |e.records| <= MAX_BATCH
  }

  ghost function ExportInput(env: Services, e: Export): string
    requires Exported(e)
  {
    SigningInput(e.keyId, RootPayload(e.context, |e.records|, RootOf(env.sha, e.records)))
  }

  /** The pinned key verifies only what its holder sealed. */
  ghost predicate OnlySealed(env: Services, exports: set<Export>) {
    forall r, s, message :: env.verify(r, s, message) ==>
      exists e :: e in exports && Exported(e) && message == Ascii(ExportInput(env, e))
  }

  /** What a token's signature covers is the input of some export. */
  lemma TokenWasSealed(env: Services, keyId: string, limit: nat, exports: set<Export>, token: string) returns (e: Export)
    requires OnlySealed(env, exports) && OpenToken(env, keyId, limit, token).Some?
    ensures |SplitDots(token)| == 3 && e in exports && Exported(e)
    ensures Ascii(SplitDots(token)[0] + "." + SplitDots(token)[1]) == Ascii(ExportInput(env, e))
  {
    var parts := SplitDots(token);
    var scalars := Scalars(Unb64(parts[2]).value).value;
    var message := Ascii(parts[0] + "." + parts[1]);
    assert env.verify(scalars.0, scalars.1, message);
    e :| e in exports && Exported(e) && message == Ascii(ExportInput(env, e));
  }

  /** A token that opens was sealed for some export in the trusted context, and opens to that export's root and count. */
  lemma OpenedRootWasSealed(env: Services, trust: Trust, exports: set<Export>, token: string) returns (e: Export)
    requires ReadsBack(env.parse) && OnlySealed(env, exports)
    requires ReadRoot(env, trust, token).Some?
    ensures e in exports && Exported(e) && e.context == trust.context && e.keyId == trust.keyId
    ensures ReadRoot(env, trust, token) == Some((RootOf(env.sha, e.records), |e.records|))
  {
    e := TokenWasSealed(env, trust.keyId, MAX_MANIFEST_BYTES, exports, token);
    var root := RootOf(env.sha, e.records);
    DigestRoundTrip(root);
    OpensOnlyAsSigned(env, trust.keyId, MAX_MANIFEST_BYTES, token, e.keyId, SignedRoot(e.context, |e.records|, B64(root)));
    RootContext(env, trust, token, e.context, |e.records|, B64(root));
    RootFieldsRead(env, trust, token, root, |e.records|);
  }

  lemma RootContext(env: Services, trust: Trust, token: string, context: string, count: nat, root: string)
    requires OpenToken(env, trust.keyId, MAX_MANIFEST_BYTES, token) == Some(Fields(SignedRoot(context, count, root)))
    requires ReadRoot(env, trust, token).Some?
    ensures context == trust.context
  {
    assert Fields(SignedRoot(context, count, root))["context"] == Str(context);
  }

  /** An accepted receipt proves that the exact record stands at the expected index of an export sealed for this context,
      or else its path contains a computable hash collision with that export. */
  lemma VerifiedRecordWasSealed(env: Services, trust: Trust, exports: set<Export>,
                                record: Bytes, receipt: Bytes, expectedIndex: int, manifest: Option<string>)
    requires ReadsBack(env.parse) && OnlySealed(env, exports)
    requires VerifySpec(env, trust, record, receipt, expectedIndex, manifest)
    ensures exists e :: e in exports && e.context == trust.context && e.keyId == trust.keyId
              && 0 <= expectedIndex < |e.records|
              && SealedAt(env, e.records, expectedIndex, record,
                          ReadReceipt(env, receipt, expectedIndex, manifest).value.0)
  {
    var e := OpenedRootWasSealed(env, trust, exports, ReadReceipt(env, receipt, expectedIndex, manifest).value.1);
    AcceptedStandsThere(env, trust, e, record, receipt, expectedIndex, manifest);
  }

  /** The same, once the root in the receipt is known to be that of an export. */
  lemma AcceptedStandsThere(env: Services, trust: Trust, e: Export, record: Bytes, receipt: Bytes, expectedIndex: int,
                            manifest: Option<string>)
    requires VerifySpec(env, trust, record, receipt, expectedIndex, manifest) && Exported(e)
    requires var token := ReadReceipt(env, receipt, expectedIndex, manifest).value.1;
             ReadRoot(env, trust, token) == Some((RootOf(env.sha, e.records), |e.records|))
    ensures 0 <= expectedIndex < |e.records|
    ensures SealedAt(env, e.records, expectedIndex, record, ReadReceipt(env, receipt, expectedIndex, manifest).value.0)
  {
    var read := ReadReceipt(env, receipt, expectedIndex, manifest).value;
    var tree := Tree(env.sha);
    Merkle.TreeBinding(tree, e.records, expectedIndex, record, read.0);
    if record != e.records[expectedIndex] {
      var own := Merkle.Path(tree, e.records, 0, |e.records|, expectedIndex);
      MeetingIsCollision(env.sha, Merkle.ProofMeeting(tree, expectedIndex, |e.records|, record, read.0,
                                                      e.records[expectedIndex], own));
    }
  }

  /** The record is the sealed one, or the two named inputs collide. */
  ghost predicate SealedAt(env: Services, records: seq<Bytes>, index: nat, record: Bytes, path: seq<Digest>)
    requires index < |records|
  {
    record == records[index] ||
    (var tree, own := Tree(env.sha), Merkle.Path(Tree(env.sha), records, 0, |records|, index);
     |path| == |own| == |Merkle.Sides(index, |records|)| &&
     var inputs := HashInputs(Merkle.ProofMeeting(tree, index, |records|, record, path, records[index], own));
     inputs.0 != inputs.1 && env.sha(inputs.0) == env.sha(inputs.1))
  }
}
