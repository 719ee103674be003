/** JSON values, and the texts of the four fixed object shapes this package writes. */
module Json {
  import opened Options
  import opened Words

  datatype Json =
    | Null
    | Bool(flag: bool)
    | Int(number: int)
    | Float
    | Str(text: string)
    | Arr(items: seq<Json>)
    | Obj(fields: map<string, Json>)

  const RECEIPT_PROFILE := "batchcrypto-record-receipt-v1"
  const MANIFEST_PROFILE := "batchcrypto-record-manifest-v1"

  /** What is written: a signature header, a signed root, a signed hash list, or a receipt. */
  datatype Doc =
    | Header(keyId: string)
    | SignedRoot(context: string, count: nat, root: string)
    | SignedList(context: string, count: nat, hashes: seq<string>)
    | Receipt(index: nat, path: seq<string>, manifest: Option<string>)

  predicate IsAscii(s: string) {
    forall c | c in s :: c < 128 as char
  }

  predicate IsPrintable(s: string) {
    forall c | c in s :: ' ' <= c <= '~'
  }

  function Escape(s: string): (e: string)
    ensures |e| <= 2 * |s|
  {
    if s == "" then ""
    else (if s[0] == '"' || s[0] == '\\' then ['\\', s[0]] else [s[0]]) + Escape(s[1..])
  }

  function Quote(s: string): (q: string)
    ensures |q| <= 2 * |s| + 2
  {
    "\"" + Escape(s) + "\""
  }

  function Decimal(n: nat): string {
    if n < 10 then [('0' as int + n) as char] else Decimal(n / 10) + Decimal(n % 10)
  }

  /** Quoted strings, each followed by a comma except the last. */
  function QuoteAll(items: seq<string>): string {
    if items == [] then ""
    else if |items| == 1 then Quote(items[0])
    else Quote(items[0]) + "," + QuoteAll(items[1..])
  }

  function List(items: seq<string>): string {
    "[" + QuoteAll(items) + "]"
  }

  /** The keys of a document and the texts of their values, with sorted keys. */
  function Columns(doc: Doc): seq<(string, string)> {
    match doc
    case Header(keyId) =>
      [("alg", Quote("ES256")), ("kid", Quote(keyId))]
    case SignedRoot(context, count, root) =>
      [("context", Quote(context)), ("count", Decimal(count)), ("profile", Quote(RECEIPT_PROFILE)), ("root", Quote(root))]
    case SignedList(context, count, hashes) =>
      [("context", Quote(context)), ("count", Decimal(count)), ("hashes", List(hashes)), ("profile", Quote(MANIFEST_PROFILE))]
    case Receipt(index, path, manifest) =>
      [("index", Decimal(index))] + (if manifest.Some? then [("manifest", Quote(manifest.value))] else [])
      + [("path", List(path))]
  }

  /** Each key with its value, and a comma or the closing brace. */
  function Joined(columns: seq<(string, string)>): string {
    if columns == [] then "}"
    else
      Quote(columns[0].0) + (":" + (columns[0].1 + if |columns| == 1 then "}" else "," + Joined(columns[1..])))
  }

  /** The compact text. */
  function Text(doc: Doc): string {
    "{" + Joined(Columns(doc))
  }

  function Strings(items: seq<string>): seq<Json> {
    seq(|items|, i requires 0 <= i < |items| => Str(items[i]))
  }

  /** The object a text stands for. */
  function Fields(doc: Doc): map<string, Json> {
    match doc
    case Header(keyId) =>
      map["alg" := Str("ES256"), "kid" := Str(keyId)]
    case SignedRoot(context, count, root) =>
      map["profile" := Str(RECEIPT_PROFILE), "context" := Str(context), "count" := Int(count), "root" := Str(root)]
    case SignedList(context, count, hashes) =>
      map["profile" := Str(MANIFEST_PROFILE), "context" := Str(context), "count" := Int(count),
          "hashes" := Arr(Strings(hashes))]
    case Receipt(index, path, manifest) =>
      map["index" := Int(index), "path" := Arr(Strings(path))]
      + if manifest.Some? then map["manifest" := Str(manifest.value)] else map[]
  }

  predicate Plain(doc: Doc) {
    match doc
    case Header(keyId) => IsPrintable(keyId)
    case SignedRoot(context, _, root) => IsPrintable(context) && IsPrintable(root)
    case SignedList(context, _, hashes) => IsPrintable(context) && forall s | s in hashes :: IsPrintable(s)
    case Receipt(_, path, manifest) =>
      (forall s | s in path :: IsPrintable(s)) && (manifest.Some? ==> IsPrintable(manifest.value))
  }

  /** Character codes as bytes. */
  function Ascii(s: string): (b: Bytes)
    ensures |b| == |s|
  {
    seq(|s|, i requires 0 <= i < |s| => (s[i] as int % 256) as Byte)
  }

  lemma AsciiInjective(s: string, t: string)
    requires IsAscii(s) && IsAscii(t) && Ascii(s) == Ascii(t)
    ensures s == t
  {
    forall i | 0 <= i < |s|
      ensures s[i] == t[i]
    {
      assert s[i] in s && t[i] in t && Ascii(s)[i] == Ascii(t)[i];
    }
  }

  /** The one thing assumed of the JSON library: it reads back the objects it has written. */
  ghost predicate ReadsBack(parse: Bytes -> Option<Json>) {
    forall doc | Plain(doc) :: parse(Ascii(Text(doc))) == Some(Obj(Fields(doc)))
  }

  // ----- Lengths

  lemma {:induction false} DecimalLength(n: nat)
    requires n < 10000
    ensures |Decimal(n)| == if n < 10 then 1 else if n < 100 then 2 else if n < 1000 then 3 else 4
  {
    if n >= 10 {
      DecimalLength(n / 10);
    }
  }

  /** Text without quotes and backslashes is not escaped. */
  predicate NeedsNoEscape(s: string) {
    '"' !in s && '\\' !in s
  }

  lemma {:induction false} EscapeIdentity(s: string)
    requires NeedsNoEscape(s)
    ensures Escape(s) == s
  {
    if s != "" {
      EscapeIdentity(s[1..]);
    }
  }

  /** Encoded digests are 43 characters that need no escaping. */
  lemma {:induction false} QuoteAllLength(items: seq<string>)
    requires forall s | s in items :: |s| == 43 && NeedsNoEscape(s)
    ensures |QuoteAll(items)| <= 46 * |items|
  {
    if items != [] {
      EscapeIdentity(items[0]);
      QuoteAllLength(items[1..]);
    }
  }

  function Size(columns: seq<(string, string)>): nat {
    if columns == [] then 1 else |Quote(columns[0].0)| + |columns[0].1| + 2 + Size(columns[1..])
  }

  lemma {:induction false} JoinedLength(columns: seq<(string, string)>)
    requires columns != []
    ensures |Joined(columns)| + 1 == Size(columns)
  {
    if |columns| > 1 {
      JoinedLength(columns[1..]);
    } else {
      assert columns[1..] == [];
    }
  }

  lemma PlainLength(s: string)
    requires NeedsNoEscape(s)
    ensures |Quote(s)| == |s| + 2
  {
    EscapeIdentity(s);
  }

  lemma KeyLengths()
    ensures |Quote("alg")| == |Quote("kid")| == 5 && |Quote("ES256")| == 7
    ensures |Quote("context")| == |Quote("profile")| == 9 && |Quote("count")| == 7 && |Quote("root")| == 6
    ensures |Quote("hashes")| == 8 && |Quote("index")| == 7 && |Quote("manifest")| == 10 && |Quote("path")| == 6
  {
    hide Quote;
    PlainLength("alg");
    PlainLength("kid");
    PlainLength("ES256");
    PlainLength("context");
    PlainLength("profile");
    PlainLength("count");
    PlainLength("root");
    PlainLength("hashes");
    PlainLength("index");
    PlainLength("manifest");
    PlainLength("path");
  }

  lemma ProfileLengths()
    ensures |Quote(RECEIPT_PROFILE)| == 31 && |Quote(MANIFEST_PROFILE)| == 32
  {
    hide Quote;
    PlainLength(RECEIPT_PROFILE);
    PlainLength(MANIFEST_PROFILE);
  }

  lemma SizeOfTwo(a: (string, string), b: (string, string))
    ensures Size([a, b]) == |Quote(a.0)| + |a.1| + |Quote(b.0)| + |b.1| + 5
  {
    hide Quote;
    assert [a, b][1..] == [b] && [b][1..] == [];
    assert Size([b]) == |Quote(b.0)| + |b.1| + 3;
  }

  lemma SizeOfMore(a: (string, string), rest: seq<(string, string)>)
    ensures Size([a] + rest) == |Quote(a.0)| + |a.1| + 2 + Size(rest)
  {
    assert ([a] + rest)[1..] == rest;
  }

  lemma HeaderLength(keyId: string)
    ensures |Text(Header(keyId))| <= 2 * |keyId| + 24
  {
    KeyLengths();
    ProfileLengths();
    hide Quote, Joined, Size;
    JoinedLength(Columns(Header(keyId)));
    SizeOfTwo(("alg", Quote("ES256")), ("kid", Quote(keyId)));
  }

  lemma SignedRootLength(context: string, count: nat, root: string)
    ensures |Text(SignedRoot(context, count, root))| <= 2 * |context| + |Decimal(count)| + 2 * |root| + 140
  {
    KeyLengths();
    ProfileLengths();
    hide Quote, Joined, Size, Decimal;
    var columns := Columns(SignedRoot(context, count, root));
    JoinedLength(columns);
    SizeOfTwo(columns[2], columns[3]);
    SizeOfMore(columns[1], [columns[2], columns[3]]);
    SizeOfMore(columns[0], [columns[1]] + [columns[2], columns[3]]);
    assert columns == [columns[0]] + ([columns[1]] + [columns[2], columns[3]]);
  }

  lemma SignedListLength(context: string, count: nat, hashes: seq<string>)
    ensures |Text(SignedList(context, count, hashes))|
         <= 2 * |context| + |Decimal(count)| + |QuoteAll(hashes)| + 140
  {
    KeyLengths();
    ProfileLengths();
    hide Quote, Joined, Size, Decimal, QuoteAll;
    var columns := Columns(SignedList(context, count, hashes));
    JoinedLength(columns);
    SizeOfTwo(columns[2], columns[3]);
    SizeOfMore(columns[1], [columns[2], columns[3]]);
    SizeOfMore(columns[0], [columns[1]] + [columns[2], columns[3]]);
    assert columns == [columns[0]] + ([columns[1]] + [columns[2], columns[3]]);
  }

  lemma ReceiptLength(index: nat, path: seq<string>, manifest: Option<string>)
    ensures |Text(Receipt(index, path, manifest))|
         <= |Decimal(index)| + (if manifest.Some? then 2 * |manifest.value| + 16 else 0) + |QuoteAll(path)| + 24
  {
    KeyLengths();
    ProfileLengths();
    hide Quote, Joined, Size, Decimal, QuoteAll;
    var columns := Columns(Receipt(index, path, manifest));
    JoinedLength(columns);
    if manifest.Some? {
      SizeOfTwo(columns[1], columns[2]);
      SizeOfMore(columns[0], [columns[1], columns[2]]);
      assert columns == [columns[0]] + [columns[1], columns[2]];
    } else {
      SizeOfTwo(columns[0], columns[1]);
      assert columns == [columns[0], columns[1]];
    }
  }
}
