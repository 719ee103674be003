/** Bounded ES256 compact signatures (sections 3.1 and 7.1 of RFC 7515, section 3.4 of RFC 7518). */
module Jws {
  import opened Options
  import opened Words
  import opened Base64Url
  import opened Json

  const ORDER: int := 0xFFFFFFFF00000000FFFFFFFFFFFFFFFFBCE6FAADA7179E84F3B9CAC2FC632551
  const MAX_PAYLOAD: nat := 1048576
  const MAX_WORK: nat := 67108864

  /** The services outside this model: a hash, a JSON parser and verification under one pinned key. */
  datatype Services = Services(sha: Bytes -> Digest, parse: Bytes -> Option<Json>, verify: (int, int, Bytes) -> bool)

  predicate IsLabel(s: string) {
    1 <= |s| <= 128 && IsPrintable(s)
  }

  function TotalLength(messages: seq<Bytes>): nat {
    if messages == [] then 0 else |messages[0]| + TotalLength(messages[1..])
  }

  /** The bounds on one batch of messages. */
  predicate Admissible(messages: seq<Bytes>) {
    && |messages| <= MAX_BATCH
    && (forall m | m in messages :: |m| <= MAX_PAYLOAD)
    && TotalLength(messages) + 32 * |messages| <= MAX_WORK
  }

  /** Big-endian unsigned value. */
  function Unsigned(bytes: Bytes): nat {
    if bytes == [] then 0 else Unsigned(bytes[..|bytes| - 1]) * 256 + bytes[|bytes| - 1]
  }

  /** The two scalars of a raw 64-byte signature in low-s form. */
  function Scalars(signature: Bytes): Option<(int, int)> {
    if |signature| != 64 then None
    else
      var r, s := Unsigned(signature[..32]), Unsigned(signature[32..]);
      :- Check(0 < r < ORDER && 0 < s <= ORDER / 2);
      Some((r, s))
  }

  // ----- What the scalars of a signature are

  /** A number as `size` bytes, the most significant one first. */
  function BigEndian(v: nat, size: nat): (b: Bytes)
    ensures |b| == size
  {
    if size == 0 then [] else BigEndian(v / 256, size - 1) + [v % 256]
  }

  lemma {:induction false} BigEndianReads(v: nat, size: nat)
    requires v < Pow2(8 * size)
    ensures Unsigned(BigEndian(v, size)) == v
  {
    if size > 0 {
      ByteMore(size);
      BigEndianReads(v / 256, size - 1);
    }
  }

  lemma ByteMore(size: nat)
    requires size > 0
    ensures Pow2(8 * size) == 256 * Pow2(8 * (size - 1))
  {
    var e := 8 * (size - 1);
    assert Pow2(e + 2) == 4 * Pow2(e);
    assert Pow2(e + 4) == 4 * Pow2(e + 2);
    assert Pow2(e + 6) == 4 * Pow2(e + 4);
    assert Pow2(e + 8) == 4 * Pow2(e + 6);
  }

  /** Every byte string is its value, written in as many bytes. */
  lemma {:induction false} EveryBytesWritten(b: Bytes)
    ensures Unsigned(b) < Pow2(8 * |b|) && b == BigEndian(Unsigned(b), |b|)
  {
    if b != [] {
      var init, last := b[..|b| - 1], b[|b| - 1];
      EveryBytesWritten(init);
      ByteMore(|b|);
      assert b == init + [last];
    }
  }

  /** The scalars of r followed by s, both as 32 big-endian bytes, are r and s in that order, if r is a scalar and s a low
      one; any other string of bytes has none. */
  lemma ScalarsExactly(signature: Bytes, r: nat, s: nat)
    ensures Scalars(signature) == Some((r, s)) <==>
              && 0 < r < 0xFFFFFFFF00000000FFFFFFFFFFFFFFFFBCE6FAADA7179E84F3B9CAC2FC632551
              && 0 < s <= 0x7FFFFFFF800000007FFFFFFFFFFFFFFFDE737D56D38BCF4279DCE5617E3192A8
              && signature == BigEndian(r, 32) + BigEndian(s, 32)
  {
    hide Unsigned, BigEndian, Pow2;
    OrderFits();
    if r < ORDER && s < ORDER {
      BigEndianReads(r, 32);
      BigEndianReads(s, 32);
      var written := BigEndian(r, 32) + BigEndian(s, 32);
      assert written[..32] == BigEndian(r, 32) && written[32..] == BigEndian(s, 32);
    }
    if |signature| == 64 {
      EveryBytesWritten(signature[..32]);
      EveryBytesWritten(signature[32..]);
      assert signature == signature[..32] + signature[32..];
    }
  }

  lemma OrderFits()
    ensures ORDER < Pow2(256)
  {
    hide Pow2;
    Pow2Of32();
    Pow2Plus(32, 32);
    Pow2Plus(64, 64);
    Pow2Plus(128, 128);
  }

  lemma Pow2Of32()
    ensures Pow2(32) == 0x100000000
  {
    ByteMore(1);
    ByteMore(2);
    ByteMore(3);
    ByteMore(4);
  }

  lemma {:induction false} Pow2Plus(a: nat, b: nat)
    ensures Pow2(a + b) == Pow2(a) * Pow2(b)
  {
    if b > 0 {
      Pow2Plus(a, b - 1);
      assert Pow2(a) * (2 * Pow2(b - 1)) == 2 * (Pow2(a) * Pow2(b - 1));
    }
  }

  /** So nothing but a string of 64 bytes has scalars, and every such string is a pair of numbers. */
  lemma SignatureIsPair(signature: Bytes)
    requires |signature| == 64
    ensures exists r: nat, s: nat :: signature == BigEndian(r, 32) + BigEndian(s, 32)
  {
    EveryBytesWritten(signature[..32]);
    EveryBytesWritten(signature[32..]);
    assert signature == BigEndian(Unsigned(signature[..32]), 32) + BigEndian(Unsigned(signature[32..]), 32);
  }

  function HeaderPart(keyId: string): string {
    B64(Ascii(Text(Header(keyId))))
  }

  function SigningInput(keyId: string, payload: Bytes): string {
    HeaderPart(keyId) + "." + B64(payload)
  }

  /** Split at every dot, as the consumer does. */
  function SplitDots(s: string): (parts: seq<string>)
    ensures parts != []
  {
    if s == "" then [""]
    else
      var rest := SplitDots(s[1..]);
      if s[0] == '.' then [""] + rest else [[s[0]] + rest[0]] + rest[1..]
  }

  lemma {:induction false} SplitAtDot(a: string, b: string)
    requires '.' !in a
    ensures SplitDots(a + "." + b) == [a] + SplitDots(b)
  {
    var s := a + "." + b;
    if a == "" {
      assert s[1..] == b;
    } else {
      SplitAtDot(a[1..], b);
      assert s[1..] == a[1..] + "." + b && s[0] == a[0] != '.';
      assert [a[0]] + a[1..] == a;
    }
  }

  lemma {:induction false} SplitNoDot(a: string)
    requires '.' !in a
    ensures SplitDots(a) == [a]
  {
    if a != "" {
      SplitNoDot(a[1..]);
      assert [a[0]] + a[1..] == a;
    }
  }

  lemma {:induction false} SplitPartsHaveNoDot(s: string)
    ensures forall part | part in SplitDots(s) :: '.' !in part
  {
    if s != "" {
      SplitPartsHaveNoDot(s[1..]);
    }
  }

  lemma SplitThree(a: string, b: string, c: string)
    requires '.' !in a && '.' !in b && '.' !in c
    ensures SplitDots(a + "." + b + "." + c) == [a, b, c]
  {
    SplitAtDot(b, c);
    SplitNoDot(c);
    SplitAtDot(a, b + "." + c);
    assert a + "." + b + "." + c == a + "." + (b + "." + c);
  }

  lemma SplitTwoUnique(a: string, b: string, a': string, b': string)
    requires '.' !in a && '.' !in b && '.' !in a' && '.' !in b'
    requires a + "." + b == a' + "." + b'
    ensures a == a' && b == b'
  {
    SplitAtDot(a, b);
    SplitAtDot(a', b');
    SplitNoDot(b);
    SplitNoDot(b');
    assert [a, b] == [a] + [b] == [a'] + [b'] == [a', b'];
  }

  /** What a signing callback does with a batch of digests: it raises, or returns one byte string after another. */
  type Signer = seq<Digest> -> Option<seq<Bytes>>

  function Inputs(keyId: string, payloads: seq<Bytes>): seq<string> {
    seq(|payloads|, i requires 0 <= i < |payloads| => SigningInput(keyId, payloads[i]))
  }

  function Digests(sha: Bytes -> Digest, inputs: seq<string>): seq<Digest> {
    seq<Digest>(|inputs|, i requires 0 <= i < |inputs| => sha(Ascii(inputs[i])))
  }

  predicate AllLowS(signatures: seq<Bytes>) {
    forall s | s in signatures :: Scalars(s).Some?
  }

  /** All tokens of a batch, or none. */
  function SignEs256(sha: Bytes -> Digest, payloads: seq<Bytes>, keyId: string, sign: Signer): (r: Option<seq<string>>)
    ensures r.Some? ==> |r.value| == |payloads|
  {
    if !(IsLabel(keyId) && Admissible(payloads)) then None
    else
      var inputs := Inputs(keyId, payloads);
      var signatures :- sign(Digests(sha, inputs));
      :- Check(|signatures| <= MAX_BATCH && |signatures| == |inputs|);
      :- Check(AllLowS(signatures));
      Some(Tokens(inputs, signatures))
  }

  function Tokens(inputs: seq<string>, signatures: seq<Bytes>): seq<string>
    requires |inputs| == |signatures|
  {
    seq(|inputs|, i requires 0 <= i < |inputs| => inputs[i] + "." + B64(signatures[i]))
  }

  /** Each returned token splits into the header, its own payload and its own signature, and that signature is in
      low-s form; no batch comes back in part. */
  lemma TokensSplit(sha: Bytes -> Digest, payloads: seq<Bytes>, keyId: string, sign: Signer)
    requires SignEs256(sha, payloads, keyId, sign).Some?
    ensures sign(Digests(sha, Inputs(keyId, payloads))).Some?
    ensures var tokens, signatures := SignEs256(sha, payloads, keyId, sign).value,
                                      sign(Digests(sha, Inputs(keyId, payloads))).value;
            && |payloads| == |signatures|
            && forall i | 0 <= i < |payloads| ::
                 && Scalars(signatures[i]).Some?
                 && SplitDots(tokens[i]) == [HeaderPart(keyId), B64(payloads[i]), B64(signatures[i])]
  {
    var tokens, signatures := SignEs256(sha, payloads, keyId, sign).value,
                              sign(Digests(sha, Inputs(keyId, payloads))).value;
    forall i | 0 <= i < |payloads|
      ensures Scalars(signatures[i]).Some?
      ensures SplitDots(tokens[i]) == [HeaderPart(keyId), B64(payloads[i]), B64(signatures[i])]
    {
      assert signatures[i] in signatures;
      TokenSplits(keyId, payloads[i], signatures[i]);
    }
  }

  /** One payload under a signer that answers with one well-formed signature. */
  lemma SignOne(sha: Bytes -> Digest, payload: Bytes, keyId: string, sign: Signer, input: string, signature: Bytes)
    requires IsLabel(keyId) && |payload| <= MAX_PAYLOAD && input == SigningInput(keyId, payload)
    requires sign([sha(Ascii(input))]) == Some([signature]) && Scalars(signature).Some?
    ensures SignEs256(sha, [payload], keyId, sign) == Some([input + "." + B64(signature)])
  {
    assert Inputs(keyId, [payload]) == [input];
    assert Digests(sha, [input]) == [sha(Ascii(input))];
    assert Admissible([payload]) by {
      assert TotalLength([payload]) == |payload| + TotalLength([payload][1..]);
    }
    assert AllLowS([signature]);
    assert Tokens([input], [signature]) == [input + "." + B64(signature)];
  }

  // ----- The consumer side shared by both manifest profiles

  function DecodeObject(env: Services, part: string): Option<map<string, Json>> {
    var data :- Unb64(part);
    var value :- env.parse(data);
    :- Check(value.Obj?);
    Some(value.fields)
  }

  /** The payload object of a token signed under the pinned key and key id. */
  function OpenToken(env: Services, keyId: string, limit: nat, token: string): Option<map<string, Json>> {
    if !(IsAscii(token) && |token| <= limit) then None
    else
      var parts := SplitDots(token);
      :- Check(|parts| == 3);
      OpenParts(env, keyId, parts[0], parts[1], parts[2])
  }

  function OpenParts(env: Services, keyId: string, head: string, body: string, tail: string): Option<map<string, Json>> {
    var header :- DecodeObject(env, head);
    :- Check(header == Fields(Header(keyId)));
    var payload :- DecodeObject(env, body);
    var signature :- Unb64(tail);
    var scalars :- Scalars(signature);
    :- Check(env.verify(scalars.0, scalars.1, Ascii(head + "." + body)));
    Some(payload)
  }

  /** The digest a JSON value encodes. */
  function ReadDigest(value: Json): Option<Digest> {
    if !value.Str? then None
    else
      var data :- Unb64(value.text);
      :- Check(|data| == 32);
      Some(data)
  }

  function ReadDigests(values: seq<Json>): (r: Option<seq<Digest>>)
    ensures r.Some? ==> |r.value| == |values|
  {
    if values == [] then Some([])
    else
      var first :- ReadDigest(values[0]);
      var rest :- ReadDigests(values[1..]);
      Some([first] + rest)
  }

  function DigestTexts(digests: seq<Digest>): seq<string> {
    seq(|digests|, i requires 0 <= i < |digests| => B64(digests[i]))
  }

  lemma DigestRoundTrip(d: Digest)
    ensures ReadDigest(Str(B64(d))) == Some(d)
    ensures |B64(d)| == 43 && NeedsNoEscape(B64(d)) && IsPrintable(B64(d))
  {
    B64Text(d);
    Canonical(B64(d), d);
    PrintableB64(d);
  }

  lemma PrintableB64(data: Bytes)
    ensures IsPrintable(B64(data)) && NeedsNoEscape(B64(data)) && IsAscii(B64(data))
  {
    B64Text(data);
    forall c | c in B64(data)
      ensures ' ' <= c <= '~' && c != '"' && c != '\\'
    {
      assert Value(c).Some?;
    }
  }

  lemma {:induction false} DigestsRoundTrip(digests: seq<Digest>)
    ensures ReadDigests(Strings(DigestTexts(digests))) == Some(digests)
  {
    if digests != [] {
      DigestRoundTrip(digests[0]);
      DigestsRoundTrip(digests[1..]);
      var values := Strings(DigestTexts(digests));
      assert values[0] == Str(B64(digests[0])) && values[1..] == Strings(DigestTexts(digests[1..]));
      assert [digests[0]] + digests[1..] == digests;
    }
  }

  lemma WrittenObject(env: Services, doc: Doc)
    requires ReadsBack(env.parse) && Plain(doc)
    ensures DecodeObject(env, B64(Ascii(Text(doc)))) == Some(Fields(doc))
  {
    var data := Ascii(Text(doc));
    B64Text(data);
    Canonical(B64(data), data);
  }

  predicate SignatureHolds(env: Services, signature: Bytes, input: string) {
    && Scalars(signature).Some?
    && env.verify(Scalars(signature).value.0, Scalars(signature).value.1, Ascii(input))
  }

  lemma PartsAsSealed(env: Services, keyId: string, doc: Doc, signature: Bytes)
    requires ReadsBack(env.parse) && Plain(Header(keyId)) && Plain(doc)
    requires SignatureHolds(env, signature, SigningInput(keyId, Ascii(Text(doc))))
    ensures OpenParts(env, keyId, HeaderPart(keyId), B64(Ascii(Text(doc))), B64(signature)) == Some(Fields(doc))
  {
    WrittenObject(env, Header(keyId));
    WrittenObject(env, doc);
    B64Text(signature);
    Canonical(B64(signature), signature);
  }

  lemma TokenSplits(keyId: string, payload: Bytes, signature: Bytes)
    ensures IsAscii(SigningInput(keyId, payload) + "." + B64(signature))
    ensures SplitDots(SigningInput(keyId, payload) + "." + B64(signature)) == [HeaderPart(keyId), B64(payload), B64(signature)]
  {
    DotFree(Ascii(Text(Header(keyId))));
    DotFree(payload);
    DotFree(signature);
    SplitThree(HeaderPart(keyId), B64(payload), B64(signature));
  }

  /** A token whose signature verifies opens exactly as it was sealed. */
  lemma OpensAsSealed(env: Services, keyId: string, limit: nat, doc: Doc, signature: Bytes, token: string)
    requires ReadsBack(env.parse) && IsPrintable(keyId) && Plain(doc)
    requires SignatureHolds(env, signature, SigningInput(keyId, Ascii(Text(doc))))
    requires token == SigningInput(keyId, Ascii(Text(doc))) + "." + B64(signature) && |token| <= limit
    ensures OpenToken(env, keyId, limit, token) == Some(Fields(doc))
  {
    TokenSplits(keyId, Ascii(Text(doc)), signature);
    assert Plain(Header(keyId));
    PartsAsSealed(env, keyId, doc, signature);
  }

  lemma DotFree(data: Bytes)
    ensures '.' !in B64(data) && IsAscii(B64(data))
  {
    B64Text(data);
    PrintableB64(data);
  }

  lemma PartsOnlyAsSigned(env: Services, keyId: string, keyId': string, doc: Doc, tail: string)
    requires ReadsBack(env.parse) && Plain(Header(keyId')) && Plain(doc)
    requires OpenParts(env, keyId, HeaderPart(keyId'), B64(Ascii(Text(doc))), tail).Some?
    ensures keyId' == keyId
    ensures OpenParts(env, keyId, HeaderPart(keyId'), B64(Ascii(Text(doc))), tail) == Some(Fields(doc))
  {
    WrittenObject(env, Header(keyId'));
    WrittenObject(env, doc);
    assert Fields(Header(keyId))["kid"] == Str(keyId) && Fields(Header(keyId'))["kid"] == Str(keyId');
  }

  /** One signed input has one header part and one payload part. */
  lemma InputDetermines(head: string, body: string, data: Bytes, data': Bytes)
    requires Unb64(head).Some? && Unb64(body).Some?
    requires Ascii(head + "." + body) == Ascii(B64(data) + "." + B64(data'))
    ensures head == B64(data) && body == B64(data')
  {
    DotFree(data);
    DotFree(data');
    AcceptedIsB64(head);
    AcceptedIsB64(body);
    AsciiInjective(head + "." + body, B64(data) + "." + B64(data'));
    SplitTwoUnique(head, body, B64(data), B64(data'));
  }

  /** If what a token's signature covers is the input of a written document, the token opens to that document only. */
  lemma OpensOnlyAsSigned(env: Services, keyId: string, limit: nat, token: string, keyId': string, doc: Doc)
    requires ReadsBack(env.parse) && IsPrintable(keyId') && Plain(doc)
    requires OpenToken(env, keyId, limit, token).Some?
    requires Ascii(SplitDots(token)[0] + "." + SplitDots(token)[1]) == Ascii(SigningInput(keyId', Ascii(Text(doc))))
    ensures keyId' == keyId && OpenToken(env, keyId, limit, token) == Some(Fields(doc))
  {
    var parts := SplitDots(token);
    InputDetermines(parts[0], parts[1], Ascii(Text(Header(keyId'))), Ascii(Text(doc)));
    assert Plain(Header(keyId'));
    PartsOnlyAsSigned(env, keyId, keyId', doc, parts[2]);
  }

  lemma AcceptedIsB64(text: string)
    requires Unb64(text).Some?
    ensures IsAscii(text) && '.' !in text
  {
    var data := Unb64(text).value;
    Canonical(text, data);
    B64Text(data);
    PrintableB64(data);
  }

  /** Labels of at most 128 characters keep a token within a bound set by its payload. */
  lemma TokenLength(keyId: string, payload: Bytes, signature: Bytes)
    requires |keyId| <= 128 && |signature| == 64
    ensures |SigningInput(keyId, payload) + "." + B64(signature)| <= 463 + (4 * |payload| + 2) / 3
  {
    HeaderLength(keyId);
    B64Text(Ascii(Text(Header(keyId))));
    B64Text(payload);
    B64Text(signature);
  }
}
