/** Exactly which tokens open, and which receipts and lists are read, in terms of the bytes in them. */
module Openings {
  import opened Options
  import opened Words
  import opened Base64Url
  import opened Json
  import opened Jws
  import opened Receipts
  import H = HashLists

  /** The token carries this header and payload text, and the scalars r and s in this order, for which verification under
      the pinned key holds over the first two parts. */
  predicate Carries(env: Services, keyId: string, token: string, payload: map<string, Json>,
                    header: Bytes, body: Bytes, r: nat, s: nat)
  {
    && token == B64(header) + "." + B64(body) + "." + B64(BigEndian(r, 32) + BigEndian(s, 32))
    && header != [] && env.parse(header) == Some(Obj(map["alg" := Str("ES256"), "kid" := Str(keyId)]))
    && body != [] && env.parse(body) == Some(Obj(payload))
    && 0 < r < ORDER && 0 < s <= ORDER / 2
    && env.verify(r, s, Ascii(B64(header) + "." + B64(body)))
  }

  lemma DecodesExactly(env: Services, part: string, data: Bytes, fields: map<string, Json>)
    requires Unb64(part) == Some(data)
    ensures part == B64(data) && data != []
    ensures DecodeObject(env, part) == Some(fields) <==> env.parse(data) == Some(Obj(fields))
  {
    Canonical(part, data);
  }

  lemma {:induction false} SplitRejoins(s: string)
    ensures |SplitDots(s)| == 1 ==> s == SplitDots(s)[0]
    ensures |SplitDots(s)| >= 2 ==> exists rest :: SplitDots(rest) == SplitDots(s)[1..] && s == SplitDots(s)[0] + "." + rest
  {
    if s != "" {
      var parts, rest := SplitDots(s), SplitDots(s[1..]);
      SplitRejoins(s[1..]);
      if s[0] == '.' {
        assert parts[1..] == rest && s == "" + "." + s[1..];
      } else if |rest| >= 2 {
        var tail :| SplitDots(tail) == rest[1..] && s[1..] == rest[0] + "." + tail;
        assert parts[1..] == rest[1..] && s == [s[0]] + rest[0] + "." + tail;
      } else {
        assert s == [s[0]] + rest[0];
      }
    }
  }

  /** Three parts are what stands between two dots. */
  lemma ThreeParts(s: string)
    requires |SplitDots(s)| == 3
    ensures s == SplitDots(s)[0] + "." + SplitDots(s)[1] + "." + SplitDots(s)[2]
  {
    var parts := SplitDots(s);
    SplitRejoins(s);
    var rest :| SplitDots(rest) == parts[1..] && s == parts[0] + "." + rest;
    SplitRejoins(rest);
    var last :| SplitDots(last) == parts[1..][1..] && rest == parts[1..][0] + "." + last;
    SplitRejoins(last);
    assert parts[1..][1..] == [parts[2]];
    assert last == parts[2];
  }

  lemma CarriedOpens(env: Services, keyId: string, limit: nat, token: string, payload: map<string, Json>,
                     header: Bytes, body: Bytes, r: nat, s: nat)
    requires Carries(env, keyId, token, payload, header, body, r, s) && |token| <= limit
    ensures OpenToken(env, keyId, limit, token) == Some(payload)
  {
    hide B64, Unb64, Scalars, BigEndian, SplitDots, Ascii, DecodeObject, IsAscii;
    var signature := BigEndian(r, 32) + BigEndian(s, 32);
    DotFree(header);
    DotFree(body);
    DotFree(signature);
    SplitThree(B64(header), B64(body), B64(signature));
    AsciiParts(B64(header), B64(body), B64(signature));
    CanonicalPart(header);
    CanonicalPart(body);
    CanonicalPart(signature);
    DecodesExactly(env, B64(header), header, Fields(Header(keyId)));
    DecodesExactly(env, B64(body), body, payload);
    ScalarsExactly(signature, r, s);
  }

  lemma AsciiParts(a: string, b: string, c: string)
    requires IsAscii(a) && IsAscii(b) && IsAscii(c)
    ensures IsAscii(a + "." + b + "." + c)
  {
  }

  lemma CanonicalPart(data: Bytes)
    requires data != []
    ensures Unb64(B64(data)) == Some(data)
  {
    Canonical(B64(data), data);
    B64Text(data);
  }

  lemma OpenedCarries(env: Services, keyId: string, limit: nat, token: string, payload: map<string, Json>)
    returns (header: Bytes, body: Bytes, r: nat, s: nat)
    requires OpenToken(env, keyId, limit, token) == Some(payload)
    ensures |token| <= limit && Carries(env, keyId, token, payload, header, body, r, s)
  {
    hide B64, Unb64, Scalars, BigEndian, SplitDots, Ascii, IsAscii;
    var parts := SplitDots(token);
    ThreeParts(token);
    header, body := Unb64(parts[0]).value, Unb64(parts[1]).value;
    var signature := Unb64(parts[2]).value;
    DecodesExactly(env, parts[0], header, Fields(Header(keyId)));
    DecodesExactly(env, parts[1], body, payload);
    Canonical(parts[2], signature);
    ScalarsPositive(signature);
    r, s := Scalars(signature).value.0, Scalars(signature).value.1;
    ScalarsExactly(signature, r, s);
  }

  lemma ScalarsPositive(signature: Bytes)
    requires Scalars(signature).Some?
    ensures Scalars(signature).value.0 > 0 && Scalars(signature).value.1 > 0
  {
  }

  /** A token opens to a payload if and only if it is short enough and carries it in this way. */
  lemma OpensExactly(env: Services, keyId: string, limit: nat, token: string, payload: map<string, Json>)
    ensures OpenToken(env, keyId, limit, token) == Some(payload) <==>
              |token| <= limit && exists header, body, r, s :: Carries(env, keyId, token, payload, header, body, r, s)
  {
    hide OpenToken, Carries;
    if OpenToken(env, keyId, limit, token) == Some(payload) {
      var header, body, r, s := OpenedCarries(env, keyId, limit, token, payload);
    }
    forall header, body, r, s | Carries(env, keyId, token, payload, header, body, r, s) && |token| <= limit
      ensures OpenToken(env, keyId, limit, token) == Some(payload)
    {
      CarriedOpens(env, keyId, limit, token, payload, header, body, r, s);
    }
  }

  // ----- Digests in arrays

  lemma {:induction false} DigestsReadExactly(values: seq<Json>, digests: seq<Digest>)
    ensures ReadDigests(values) == Some(digests) <==>
              |values| == |digests| && forall i | 0 <= i < |values| :: values[i] == Str(B64(digests[i]))
  {
    hide B64, Unb64;
    if values == [] {
    } else if digests != [] {
      DigestReadsExactly(values[0], digests[0]);
      DigestsReadExactly(values[1..], digests[1..]);
      assert digests == [digests[0]] + digests[1..];
      if |values| == |digests| && forall i | 0 <= i < |values| :: values[i] == Str(B64(digests[i])) {
        assert forall i | 0 <= i < |values| - 1 :: values[1..][i] == values[i + 1] && digests[1..][i] == digests[i + 1];
      }
      if ReadDigests(values) == Some(digests) {
        assert ReadDigests(values[1..]) == Some(digests[1..]);
        forall i | 0 <= i < |values|
          ensures values[i] == Str(B64(digests[i]))
        {
          if i > 0 {
            assert values[1..][i - 1] == values[i] && digests[1..][i - 1] == digests[i];
          }
        }
      }
    }
  }

  lemma DigestReadsExactly(value: Json, digest: Digest)
    ensures ReadDigest(value) == Some(digest) <==> value == Str(B64(digest))
  {
    if value.Str? {
      Canonical(value.text, digest);
      B64Text(digest);
    }
  }

  // ----- The three kinds of signed or carried objects

  /** A token is read as a root and a count if and only if it opens to an object of exactly these four fields. */
  lemma RootReadsExactly(env: Services, trust: Trust, token: string, root: Digest, count: nat)
    ensures ReadRoot(env, trust, token) == Some((root, count)) <==>
              && 1 <= count <= 4096
              && OpenToken(env, trust.keyId, 2048, token) ==
                 Some(map["profile" := Str("batchcrypto-record-receipt-v1"), "context" := Str(trust.context),
                          "count" := Int(count), "root" := Str(B64(root))])
  {
    hide OpenToken, B64, ReadDigest;
    var found := OpenToken(env, trust.keyId, 2048, token);
    var fields := map["profile" := Str("batchcrypto-record-receipt-v1"), "context" := Str(trust.context),
                      "count" := Int(count), "root" := Str(B64(root))];
    DigestReadsExactly(Str(B64(root)), root);
    if found.Some? && found.value.Keys == fields.Keys {
      DigestReadsExactly(found.value["root"], root);
    }
    if ReadRoot(env, trust, token) == Some((root, count)) {
      assert found.value == fields;
    }
  }

  /** A receipt is read as a path and a token if and only if it parses to an object of exactly these fields: the index that
      is expected, at most twelve digests, and the token itself unless the caller supplies one. */
  lemma ReceiptReadsExactly(env: Services, receipt: Bytes, expectedIndex: int, manifest: Option<string>,
                            path: seq<Digest>, token: string)
    ensures ReadReceipt(env, receipt, expectedIndex, manifest) == Some((path, token)) <==>
              && |path| <= 12
              && var proof := Arr(seq(|path|, i requires 0 <= i < |path| => Str(B64(path[i]))));
              && if manifest.Some? then
                   token == manifest.value
                   && env.parse(receipt) == Some(Obj(map["index" := Int(expectedIndex), "path" := proof]))
                 else
                   env.parse(receipt) == Some(Obj(map["index" := Int(expectedIndex), "path" := proof, "manifest" := Str(token)]))
  {
    hide B64, ReadDigests;
    var items := seq(|path|, i requires 0 <= i < |path| => Str(B64(path[i])));
    var fields := if manifest.Some? then map["index" := Int(expectedIndex), "path" := Arr(items)]
                  else map["index" := Int(expectedIndex), "path" := Arr(items), "manifest" := Str(token)];
    assert fields.Keys == if manifest.Some? then {"index", "path"} else {"manifest", "index", "path"};
    DigestsReadExactly(items, path);
    var parsed := env.parse(receipt);
    if parsed.Some? && parsed.value.Obj? && "path" in parsed.value.fields && parsed.value.fields["path"].Arr? {
      DigestsReadExactly(parsed.value.fields["path"].items, path);
    }
    if ReadReceipt(env, receipt, expectedIndex, manifest) == Some((path, token)) {
      assert parsed.value.fields["path"].items == items;
      assert parsed.value.fields == fields;
    }
  }

  /** A token opens as a hash list if and only if it opens to an object of exactly these four fields. */
  lemma ListReadsExactly(env: Services, trust: Trust, token: string, verified: H.Verified)
    ensures H.OpenManifest(env, trust, token) == Some(verified) <==>
              && verified.context == trust.context && verified.keyId == trust.keyId
              && 1 <= |verified.digests| <= 4096
              && OpenToken(env, trust.keyId, 262144, token) ==
                 Some(map["profile" := Str("batchcrypto-record-manifest-v1"), "context" := Str(trust.context),
                          "count" := Int(|verified.digests|),
                          "hashes" := Arr(seq(|verified.digests|, i requires 0 <= i < |verified.digests| =>
                                            Str(B64(verified.digests[i]))))])
  {
    hide OpenToken, B64, ReadDigests;
    var found := OpenToken(env, trust.keyId, 262144, token);
    var items := seq(|verified.digests|, i requires 0 <= i < |verified.digests| => Str(B64(verified.digests[i])));
    var fields := map["profile" := Str("batchcrypto-record-manifest-v1"), "context" := Str(trust.context),
                      "count" := Int(|verified.digests|), "hashes" := Arr(items)];
    DigestsReadExactly(items, verified.digests);
    if found.Some? && found.value.Keys == fields.Keys && found.value["hashes"].Arr? {
      DigestsReadExactly(found.value["hashes"].items, verified.digests);
    }
    if H.OpenManifest(env, trust, token) == Some(verified) {
      assert found.value["hashes"].items == items;
      assert found.value == fields;
    }
  }
}
