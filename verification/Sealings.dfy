/** Exactly which exports are sealed and which records are accepted, in terms of the bytes that go in. */
module Sealings {
  import opened Options
  import opened Words
  import opened Base64Url
  import opened Json
  import opened Jws
  import opened Receipts
  import Openings
  import H = HashLists
  import M = Merkle
  import T = ReceiptTheorems

  // ----- Bounds

  /** Between 1 and 128 characters from space to tilde. */
  predicate Label(s: string) {
    1 <= |s| <= 128 && forall i | 0 <= i < |s| :: 32 <= s[i] as int <= 126
  }

  lemma LabelExactly(s: string)
    ensures IsLabel(s) <==> Label(s)
  {
    if Label(s) {
      forall c | c in s
        ensures ' ' <= c <= '~'
      {
        var i :| 0 <= i < |s| && s[i] == c;
      }
    }
    if IsLabel(s) {
      forall i | 0 <= i < |s|
        ensures 32 <= s[i] as int <= 126
      {
        assert s[i] in s;
      }
    }
  }

  /** All messages, one after the other. */
  function Joined(messages: seq<Bytes>): Bytes {
    if messages == [] then [] else Joined(messages[..|messages| - 1]) + messages[|messages| - 1]
  }

  lemma {:induction false} LengthSnoc(messages: seq<Bytes>)
    requires messages != []
    ensures TotalLength(messages) == TotalLength(messages[..|messages| - 1]) + |messages[|messages| - 1]|
    decreases |messages|
  {
    if |messages| > 1 {
      LengthSnoc(messages[1..]);
      assert messages[1..][..|messages| - 2] == messages[..|messages| - 1][1..];
    }
  }

  lemma {:induction false} LengthIsJoined(messages: seq<Bytes>)
    ensures TotalLength(messages) == |Joined(messages)|
    decreases |messages|
  {
    if messages != [] {
      LengthIsJoined(messages[..|messages| - 1]);
      LengthSnoc(messages);
    }
  }

  /** At most 4096 messages of at most a mebibyte, and at most 64 mebibytes together with 32 bytes for each. */
  predicate Batch(messages: seq<Bytes>) {
    && |messages| <= 4096 && (forall i | 0 <= i < |messages| :: |messages[i]| <= 1048576)
    && |Joined(messages)| + 32 * |messages| <= 67108864
  }

  lemma AdmissibleExactly(messages: seq<Bytes>)
    ensures Admissible(messages) <==> Batch(messages)
  {
    LengthIsJoined(messages);
    if Admissible(messages) {
      forall i | 0 <= i < |messages|
        ensures |messages[i]| <= 1048576
      {
        assert messages[i] in messages;
      }
    }
  }

  /** A signature of two scalars, the second one low, as 64 big-endian bytes. */
  ghost predicate LowS(signature: Bytes) {
    exists r: nat, s: nat :: signature == BigEndian(r, 32) + BigEndian(s, 32) && 0 < r < ORDER && 0 < s <= ORDER / 2
  }

  lemma LowSExactly(signature: Bytes)
    ensures Scalars(signature).Some? <==> LowS(signature)
  {
    hide BigEndian, Scalars;
    if Scalars(signature).Some? {
      Openings.ScalarsPositive(signature);
      var (r, s) := Scalars(signature).value;
      ScalarsExactly(signature, r, s);
    }
    if LowS(signature) {
      var r: nat, s: nat :| signature == BigEndian(r, 32) + BigEndian(s, 32) && 0 < r < ORDER && 0 < s <= ORDER / 2;
      ScalarsExactly(signature, r, s);
    }
  }

  // ----- Signing

  /** What the callback is asked to sign: the digest of each signing input, in order. */
  predicate Asked(sha: Bytes -> Digest, payloads: seq<Bytes>, keyId: string, digests: seq<Digest>) {
    |digests| == |payloads| && forall i | 0 <= i < |payloads| :: digests[i] == sha(Ascii(SigningInput(keyId, payloads[i])))
  }

  /** Each token is its signing input, a dot, and the signature with the same place. */
  predicate Signed(payloads: seq<Bytes>, keyId: string, signatures: seq<Bytes>, tokens: seq<string>) {
    && |payloads| == |signatures| == |tokens|
    && forall i | 0 <= i < |payloads| :: tokens[i] == SigningInput(keyId, payloads[i]) + "." + B64(signatures[i])
  }

  /** Payloads become these tokens if and only if key id and payloads are within bounds, and the callback answers the digests
      of the signing inputs with one low-s signature for each, of which these are the tokens. */
  lemma TokensExactly(sha: Bytes -> Digest, payloads: seq<Bytes>, keyId: string, sign: Signer, digests: seq<Digest>,
                      tokens: seq<string>)
    requires Asked(sha, payloads, keyId, digests)
    ensures SignEs256(sha, payloads, keyId, sign) == Some(tokens) <==>
              && Label(keyId) && Batch(payloads) && sign(digests).Some?
              && (forall i | 0 <= i < |sign(digests).value| :: LowS(sign(digests).value[i]))
              && Signed(payloads, keyId, sign(digests).value, tokens)
  {
    hide SigningInput, Label, Batch, IsLabel, Admissible, LowS, Scalars, B64;
    LabelExactly(keyId);
    AdmissibleExactly(payloads);
    var inputs := Inputs(keyId, payloads);
    assert Digests(sha, inputs) == digests;
    if sign(digests).Some? {
      var signatures := sign(digests).value;
      AllLowSExactly(signatures);
      if |signatures| == |inputs| && Signed(payloads, keyId, signatures, tokens) {
        assert Tokens(inputs, signatures) == tokens;
      }
      if Batch(payloads) {
        AtMostBatch(payloads);
      }
    }
  }

  lemma AtMostBatch(payloads: seq<Bytes>)
    requires Batch(payloads)
    ensures |payloads| <= MAX_BATCH
  {
  }

  lemma AllLowSExactly(signatures: seq<Bytes>)
    ensures AllLowS(signatures) <==> forall i | 0 <= i < |signatures| :: LowS(signatures[i])
  {
    hide LowS, Scalars;
    forall i | 0 <= i < |signatures|
      ensures LowS(signatures[i]) <==> Scalars(signatures[i]).Some?
    {
      LowSExactly(signatures[i]);
    }
    if AllLowS(signatures) {
      assert forall i | 0 <= i < |signatures| :: signatures[i] in signatures;
    }
  }

  /** The token is this input signed by what the callback answers to its digest alone. */
  ghost predicate SignedAlone(sha: Bytes -> Digest, sign: Signer, input: string, token: string) {
    exists signature :: sign([sha(Ascii(input))]) == Some([signature]) && LowS(signature) && token == input + "." + B64(signature)
  }

  lemma OneTokenExactly(sha: Bytes -> Digest, payload: Bytes, keyId: string, sign: Signer, token: string)
    requires |payload| <= 1048576
    ensures SignEs256(sha, [payload], keyId, sign) == Some([token]) <==>
              Label(keyId) && SignedAlone(sha, sign, SigningInput(keyId, payload), token)
    ensures SignEs256(sha, [payload], keyId, sign).Some? ==> |SignEs256(sha, [payload], keyId, sign).value| == 1
  {
    hide SignEs256, SigningInput, LowS, B64, Label;
    var input := SigningInput(keyId, payload);
    TokensExactly(sha, [payload], keyId, sign, [sha(Ascii(input))], [token]);
    assert [payload][..0] == [];
    assert Joined([payload]) == payload;
    var answer := sign([sha(Ascii(input))]);
    if answer.Some? && |answer.value| == 1 {
      assert answer.value == [answer.value[0]];
    }
    if SignEs256(sha, [payload], keyId, sign).Some? {
      OneEach(sha, [payload], keyId, sign);
    }
  }

  lemma OneEach(sha: Bytes -> Digest, payloads: seq<Bytes>, keyId: string, sign: Signer)
    requires SignEs256(sha, payloads, keyId, sign).Some?
    ensures |SignEs256(sha, payloads, keyId, sign).value| == |payloads|
  {
  }

  // ----- Sealing

  /** An export is sealed if and only if both labels are, it has records within bounds, and the callback signs the root under
      context and number; the result is that token with the paths of all records. */
  lemma SealsExactly(sha: Bytes -> Digest, records: seq<Bytes>, context: string, keyId: string, sign: Signer, sealed: Sealed)
    ensures SealSpec(sha, records, context, keyId, sign) == Some(sealed) <==>
              && Label(context) && Label(keyId) && records != [] && Batch(records)
              && SignedAlone(sha, sign, SigningInput(keyId, RootPayload(context, |records|, RootOf(sha, records))), sealed.manifest)
              && sealed.paths == Paths(sha, records)
  {
    hide Label, Batch, IsLabel, Admissible, SigningInput, RootPayload, RootOf, Paths, SignedAlone, SignEs256;
    LabelExactly(context);
    LabelExactly(keyId);
    AdmissibleExactly(records);
    if IsLabel(context) && Batch(records) && records != [] {
      LabelLength(context);
      CountInBounds(records);
      T.RootPayloadLength(context, |records|, RootOf(sha, records));
      var payload := RootPayload(context, |records|, RootOf(sha, records));
      OneTokenExactly(sha, payload, keyId, sign, sealed.manifest);
      var tokens := SignEs256(sha, [payload], keyId, sign);
      if tokens.Some? {
        assert tokens.value == [tokens.value[0]];
      }
    }
  }

  lemma LabelLength(s: string)
    requires IsLabel(s)
    ensures |s| <= 128
  {
  }

  lemma CountInBounds(records: seq<Bytes>)
    requires Batch(records)
    ensures |records| <= MAX_BATCH
  {
  }

  /** The same for a signed list, whose token never outgrows its limit. */
  lemma ListSealsExactly(sha: Bytes -> Digest, records: seq<Bytes>, context: string, keyId: string, sign: Signer, token: string)
    ensures H.SealManifest(sha, records, context, keyId, sign) == Some(token) <==>
              && Label(context) && Label(keyId) && records != [] && Batch(records)
              && SignedAlone(sha, sign, SigningInput(keyId, H.ListPayload(context, H.RecordDigests(sha, records))), token)
  {
    hide Label, Batch, IsLabel, Admissible, SigningInput, H.ListPayload, H.RecordDigests, SignEs256, SignedAlone;
    LabelExactly(context);
    LabelExactly(keyId);
    AdmissibleExactly(records);
    if IsLabel(context) && Batch(records) && records != [] {
      var payload := H.ListPayload(context, H.RecordDigests(sha, records));
      LabelLength(context);
      CountInBounds(records);
      DigestCount(sha, records);
      H.ListPayloadLength(context, H.RecordDigests(sha, records));
      OneTokenExactly(sha, payload, keyId, sign, token);
      var tokens := SignEs256(sha, [payload], keyId, sign);
      if tokens.Some? {
        OneTokenExactly(sha, payload, keyId, sign, tokens.value[0]);
        assert tokens.value == [tokens.value[0]];
        FitsLimit(sha, sign, payload, keyId, tokens.value[0]);
      }
    }
  }

  lemma DigestCount(sha: Bytes -> Digest, records: seq<Bytes>)
    ensures |H.RecordDigests(sha, records)| == |records|
  {
  }

  lemma FitsLimit(sha: Bytes -> Digest, sign: Signer, payload: Bytes, keyId: string, token: string)
    requires IsLabel(keyId) && |payload| <= 188816 && SignedAlone(sha, sign, SigningInput(keyId, payload), token)
    ensures |token| <= 262144
  {
    hide SigningInput, B64, LowS;
    var signature :| LowS(signature) && token == SigningInput(keyId, payload) + "." + B64(signature);
    LowSLength(signature);
    TokenLength(keyId, payload, signature);
  }

  lemma LowSLength(signature: Bytes)
    requires LowS(signature)
    ensures |signature| == 64
  {
    hide BigEndian;
  }

  // ----- Verifying

  /** A record is accepted at a position if and only if record and receipt are within their bounds, the receipt is read as a
      path for this position and a token, the token as a root of more records than that, and the path leads to this root. */
  lemma AcceptsExactly(env: Services, trust: Trust, record: Bytes, receipt: Bytes, expectedIndex: int, manifest: Option<string>)
    ensures VerifySpec(env, trust, record, receipt, expectedIndex, manifest) <==>
              && |record| <= 1048576 && |receipt| <= 4096 && 0 <= expectedIndex
              && ReadReceipt(env, receipt, expectedIndex, manifest).Some?
              && var (path, token) := ReadReceipt(env, receipt, expectedIndex, manifest).value;
              && ReadRoot(env, trust, token).Some?
              && var (root, count) := ReadRoot(env, trust, token).value;
              && expectedIndex < count && M.Accepts(Tree(env.sha), expectedIndex, count, path, env.sha([0] + record), root)
  {
    hide ReadReceipt, ReadRoot, M.Accepts;
  }

  /** A record passes against an opened list if and only if it is within its bound and its hash stands at the position; a
      whole export if and only if it is within bounds and its hashes are the list. */
  lemma ListAcceptsExactly(sha: Bytes -> Digest, v: H.Verified, records: seq<Bytes>)
    requires |v.digests| <= 4096
    ensures H.VerifyAll(sha, v, records) <==>
              Batch(records) && |records| == |v.digests| && forall i | 0 <= i < |records| :: sha(records[i]) == v.digests[i]
    ensures forall record: Bytes, at: int ::
              H.VerifyRecord(sha, v, record, at) <==>
                |record| <= 1048576 && 0 <= at < |v.digests| && v.digests[at] == sha(record)
  {
    AdmissibleExactly(records);
  }
}
