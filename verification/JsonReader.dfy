/** A reader of compact JSON text (RFC 8259, without white space and \u escapes), and a proof that the texts this package
    writes mean the objects they are said to mean. */
module JsonReader {
  import opened Options
  import opened Words
  import opened Json
  import opened Identifiers

  type Read<+T> = Option<(T, string)>  // what was read, and the text after it

  function ReadChars(s: string): (r: Read<string>)
    ensures r.Some? ==> |r.value.1| < |s|
  {
    if s == "" then None
    else if s[0] == '"' then Some(("", s[1..]))
    else if s[0] == '\\' then
      if |s| < 2 || !IsEscape(s[1]) then None
      else
        var rest :- ReadChars(s[2..]);
        Some(([Unescaped(s[1])] + rest.0, rest.1))
    else if s[0] < ' ' then None
    else
      var rest :- ReadChars(s[1..]);
      Some(([s[0]] + rest.0, rest.1))
  }

  predicate IsEscape(c: char) {
    c == '"' || c == '\\' || c == '/' || c == 'b' || c == 'f' || c == 'n' || c == 'r' || c == 't'
  }

  function Unescaped(c: char): char {
    match c
    case 'b' => 8 as char
    case 'f' => 12 as char
    case 'n' => 10 as char
    case 'r' => 13 as char
    case 't' => 9 as char
    case _ => c
  }

  function ReadString(s: string): (r: Read<string>)
    ensures r.Some? ==> |r.value.1| < |s|
  {
    if s != "" && s[0] == '"' then ReadChars(s[1..]) else None
  }

  predicate IsDigit(c: char) {
    '0' <= c <= '9'
  }

  function ReadDigits(s: string, before: nat): (nat, string) {
    if s != "" && IsDigit(s[0]) then ReadDigits(s[1..], before * 10 + (s[0] as int - '0' as int)) else (before, s)
  }

  lemma {:induction false} DigitsShorten(s: string, before: nat)
    ensures |ReadDigits(s, before).1| <= |s|
  {
    if s != "" && IsDigit(s[0]) {
      DigitsShorten(s[1..], before * 10 + (s[0] as int - '0' as int));
    }
  }

  /** A whole number; a zero stands alone. */
  function ReadNumber(s: string): (r: Read<Json>)
    requires s != "" && IsDigit(s[0])
    ensures r.Some? ==> |r.value.1| < |s|
  {
    if s[0] == '0' then Some((Int(0), s[1..]))
    else
      DigitsShorten(s[1..], s[0] as int - '0' as int);
      var (n, rest) := ReadDigits(s[1..], s[0] as int - '0' as int);
      Some((Int(n), rest))
  }

  function ReadValue(s: string): (r: Read<Json>)
    ensures r.Some? ==> |r.value.1| < |s|
    decreases |s|, 0
  {
    if s == "" then None
    else if s[0] == '"' then
      var text :- ReadString(s);
      Some((Str(text.0), text.1))
    else if IsDigit(s[0]) then ReadNumber(s)
    else if s[0] == '[' then
      if |s| >= 2 && s[1] == ']' then Some((Arr([]), s[2..]))
      else
        var items :- ReadItems(s[1..]);
        Some((Arr(items.0), items.1))
    else if s[0] == '{' then
      if |s| >= 2 && s[1] == '}' then Some((Obj(map[]), s[2..]))
      else
        var members :- ReadMembers(s[1..]);
        if Repeats(members.0) then None else Some((Obj(AsMap(members.0)), members.1))
    else if "true" <= s then Some((Bool(true), s[4..]))
    else if "false" <= s then Some((Bool(false), s[5..]))
    else if "null" <= s then Some((Null, s[4..]))
    else None
  }

  /** Values up to the closing bracket. */
  function ReadItems(s: string): (r: Read<seq<Json>>)
    ensures r.Some? ==> |r.value.1| < |s|
    decreases |s|, 1
  {
    var first :- ReadValue(s);
    if first.1 == "" then None
    else if first.1[0] == ']' then Some(([first.0], first.1[1..]))
    else if first.1[0] == ',' then
      var rest :- ReadItems(first.1[1..]);
      Some(([first.0] + rest.0, rest.1))
    else None
  }

  /** Fields up to the closing brace, in the order of the text. */
  function ReadMembers(s: string): (r: Read<seq<(string, Json)>>)
    ensures r.Some? ==> |r.value.1| < |s|
    decreases |s|, 1
  {
    var key :- ReadString(s);
    if key.1 == "" || key.1[0] != ':' then None
    else
      var value :- ReadValue(key.1[1..]);
      if value.1 == "" then None
      else if value.1[0] == '}' then Some(([(key.0, value.0)], value.1[1..]))
      else if value.1[0] == ',' then
        var rest :- ReadMembers(value.1[1..]);
        Some(([(key.0, value.0)] + rest.0, rest.1))
      else None
  }

  predicate Repeats(members: seq<(string, Json)>) {
    exists i, j :: 0 <= i < j < |members| && members[i].0 == members[j].0
  }

  function AsMap(members: seq<(string, Json)>): map<string, Json> {
    if members == [] then map[]
    else AsMap(members[..|members| - 1])[members[|members| - 1].0 := members[|members| - 1].1]
  }

  function Characters(data: Bytes): string {
    seq(|data|, i requires 0 <= i < |data| => data[i] as char)
  }

  /** The value of a whole text of ASCII bytes. */
  function Parse(data: Bytes): Option<Json> {
    if exists b | b in data :: b >= 128 then None
    else
      var value :- ReadValue(Characters(data));
      if value.1 == "" then Some(value.0) else None
  }

  // ----- What is written is read

  lemma PlainCharReads(c: char, more: string, text: string, rest: string)
    requires c >= ' ' && c != '"' && c != '\\' && ReadChars(more) == Some((text, rest))
    ensures ReadChars([c] + more) == Some(([c] + text, rest))
  {
    var s := [c] + more;
    assert s[1..] == more;
  }

  lemma EscapedCharReads(c: char, more: string, text: string, rest: string)
    requires (c == '"' || c == '\\') && ReadChars(more) == Some((text, rest))
    ensures ReadChars(['\\', c] + more) == Some(([c] + text, rest))
  {
    var s := ['\\', c] + more;
    assert s[2..] == more && s[0] == '\\' && s[1] == c;
  }

  lemma {:induction false} EscapedReads(s: string, rest: string)
    requires IsPrintable(s)
    ensures ReadChars(Escape(s) + "\"" + rest) == Some((s, rest))
  {
    if s == "" {
      assert Escape(s) + "\"" + rest == "\"" + rest;
    } else {
      var more := Escape(s[1..]) + "\"" + rest;
      assert s[0] in s && forall c | c in s[1..] :: c in s;
      EscapedReads(s[1..], rest);
      var first := if s[0] == '"' || s[0] == '\\' then ['\\', s[0]] else [s[0]];
      assert Escape(s) + "\"" + rest == first + more;
      assert [s[0]] + s[1..] == s;
      hide ReadChars;
      if s[0] == '"' || s[0] == '\\' {
        EscapedCharReads(s[0], more, s[1..], rest);
      } else {
        PlainCharReads(s[0], more, s[1..], rest);
      }
    }
  }

  lemma QuotedReads(s: string, rest: string)
    requires IsPrintable(s)
    ensures ReadString(Quote(s) + rest) == Some((s, rest)) && ReadValue(Quote(s) + rest) == Some((Str(s), rest))
  {
    EscapedReads(s, rest);
    assert (Quote(s) + rest)[1..] == Escape(s) + "\"" + rest;
  }

  lemma {:induction false} DecimalContinues(n: nat, rest: string)
    requires n > 0
    ensures ReadDigits(Decimal(n) + rest, 0) == ReadDigits(rest, n)
    ensures Decimal(n) != "" && '1' <= Decimal(n)[0] <= '9'
  {
    var last := [('0' as int + n % 10) as char];
    assert Decimal(n % 10) == last;
    assert (last + rest)[1..] == rest;
    if n >= 10 {
      DecimalContinues(n / 10, last + rest);
      assert Decimal(n) + rest == Decimal(n / 10) + (last + rest);
    }
  }

  lemma DecimalReads(n: nat, rest: string)
    requires rest != "" && !IsDigit(rest[0])
    ensures ReadValue(Decimal(n) + rest) == Some((Int(n), rest))
  {
    if n == 0 {
      assert Decimal(n) + rest == "0" + rest;
    } else {
      DecimalContinues(n, rest);
      var s := Decimal(n) + rest;
      assert ReadDigits(s, 0) == ReadDigits(s[1..], s[0] as int - '0' as int);
      assert ReadDigits(rest, n) == (n, rest);
    }
  }

  lemma {:induction false} QuotedItemsRead(items: seq<string>, rest: string)
    requires items != [] && forall s | s in items :: IsPrintable(s)
    ensures ReadItems(QuoteAll(items) + "]" + rest) == Some((Strings(items), rest))
  {
    hide Quote, ReadValue;
    var text := QuoteAll(items) + "]" + rest;
    if |items| == 1 {
      QuotedReads(items[0], "]" + rest);
      assert text == Quote(items[0]) + ("]" + rest);
      assert Strings(items) == [Str(items[0])];
    } else {
      var more := QuoteAll(items[1..]) + "]" + rest;
      QuotedReads(items[0], "," + more);
      QuotedItemsRead(items[1..], rest);
      assert text == Quote(items[0]) + ("," + more);
      assert Strings(items) == [Str(items[0])] + Strings(items[1..]);
    }
  }

  lemma ArrayReads(items: seq<string>, rest: string)
    requires forall s | s in items :: IsPrintable(s)
    ensures ReadValue(List(items) + rest) == Some((Arr(Strings(items)), rest))
  {
    var s := List(items) + rest;
    if items == [] {
      assert s == "[]" + rest;
      assert Strings(items) == [];
    } else {
      QuotedItemsRead(items, rest);
      assert s[1..] == QuoteAll(items) + "]" + rest;
      assert s[1] == QuoteAll(items)[0] == '"';
    }
  }

  /** What may stand behind a value. */
  predicate Follows(rest: string) {
    rest != "" && rest[0] in ",]}"
  }

  /** The text is read as this value, whatever follows. */
  ghost predicate Means(text: string, value: Json) {
    forall rest | Follows(rest) :: ReadValue(text + rest) == Some((value, rest))
  }

  lemma {:induction false} ObjectReads(columns: seq<(string, string)>, members: seq<(string, Json)>)
    requires AllMean(columns, members)
    ensures ReadMembers(Joined(columns)) == Some((members, ""))
  {
    hide Quote, ReadValue, ReadString, Means;
    var (key, value) := columns[0];
    var rest := if |columns| == 1 then "}" else "," + Joined(columns[1..]);
    ColumnReads(key, value, members[0].1, rest);
    assert Joined(columns) == Quote(key) + (":" + (value + rest));
    assert members == [(key, members[0].1)] + members[1..];
    if |columns| > 1 {
      ObjectReads(columns[1..], members[1..]);
      assert rest[1..] == Joined(columns[1..]);
    } else {
      assert rest[1..] == "" && members == [(key, members[0].1)];
    }
  }

  /** One key with its value, and what follows. */
  lemma ColumnReads(key: string, value: string, json: Json, rest: string)
    requires IsPrintable(key) && Means(value, json) && Follows(rest)
    ensures ReadString(Quote(key) + (":" + (value + rest))) == Some((key, ":" + (value + rest)))
    ensures (":" + (value + rest))[1..] == value + rest && ReadValue(value + rest) == Some((json, rest))
  {
    QuotedReads(key, ":" + (value + rest));
  }

  // ----- The fields of the documents, in the order in which they are written

  function Members(doc: Doc): seq<(string, Json)> {
    match doc
    case Header(keyId) => [("alg", Str("ES256")), ("kid", Str(keyId))]
    case SignedRoot(context, count, root) =>
      [("context", Str(context)), ("count", Int(count)), ("profile", Str("batchcrypto-record-receipt-v1")), ("root", Str(root))]
    case SignedList(context, count, hashes) =>
      [("context", Str(context)), ("count", Int(count)), ("hashes", Arr(Strings(hashes))),
       ("profile", Str("batchcrypto-record-manifest-v1"))]
    case Receipt(index, path, manifest) =>
      [("index", Int(index))] + (if manifest.Some? then [("manifest", Str(manifest.value))] else [])
      + [("path", Arr(Strings(path)))]
  }

  predicate Ascending(keys: seq<string>) {
    forall i, j | 0 <= i < j < |keys| :: AtMost(keys[i], keys[j]) && keys[i] != keys[j]
  }

  function Keys(members: seq<(string, Json)>): seq<string> {
    seq(|members|, i requires 0 <= i < |members| => members[i].0)
  }

  lemma CountAfterContext()
    ensures AtMost("context", "count")
  {
    assert "context"[1..] == "ontext" && "count"[1..] == "ount" && "ontext"[1..] == "ntext" && "ount"[1..] == "unt";
  }

  /** The keys are written in ascending order, each once. */
  lemma KeysAscend(doc: Doc)
    ensures Ascending(Keys(Members(doc)))
  {
    hide Strings;
    var keys := Keys(Members(doc));
    CountAfterContext();
    match doc
    case Header(_) => assert keys == ["alg", "kid"];
    case SignedRoot(_, _, _) => assert keys == ["context", "count", "profile", "root"];
    case SignedList(_, _, _) => assert keys == ["context", "count", "hashes", "profile"];
    case Receipt(_, _, manifest) =>
      assert keys == if manifest.Some? then ["index", "manifest", "path"] else ["index", "path"];
  }

  lemma OnceEach(members: seq<(string, Json)>)
    requires Ascending(Keys(members))
    ensures !Repeats(members)
  {
    hide AtMost;
    forall i, j | 0 <= i < j < |members|
      ensures members[i].0 != members[j].0
    {
      assert Keys(members)[i] == members[i].0 && Keys(members)[j] == members[j].0;
    }
  }

  lemma TwoMembers(a: (string, Json), b: (string, Json))
    ensures AsMap([a, b]) == map[][a.0 := a.1][b.0 := b.1]
  {
    assert [a, b][..1] == [a] && [a][..0] == [];
    assert AsMap([a]) == map[][a.0 := a.1];
  }

  lemma OneMore(members: seq<(string, Json)>, b: (string, Json))
    ensures AsMap(members + [b]) == AsMap(members)[b.0 := b.1]
  {
    assert (members + [b])[..|members|] == members;
  }

  lemma MembersAreFields(doc: Doc)
    ensures AsMap(Members(doc)) == Fields(doc) && !Repeats(Members(doc))
  {
    KeysAscend(doc);
    OnceEach(Members(doc));
    hide AsMap, Strings, Repeats, Ascending, Keys;
    var m := Members(doc);
    TwoMembers(m[0], m[1]);
    if |m| == 2 {
      assert m == [m[0], m[1]];
    } else {
      OneMore([m[0], m[1]], m[2]);
      if |m| == 3 {
        assert m == [m[0], m[1]] + [m[2]];
      } else {
        OneMore([m[0], m[1]] + [m[2]], m[3]);
        assert m == [m[0], m[1]] + [m[2]] + [m[3]];
      }
    }
  }

  lemma StringMeans(s: string)
    requires IsPrintable(s)
    ensures Means(Quote(s), Str(s))
  {
    hide Quote, ReadValue;
    forall rest | Follows(rest)
      ensures ReadValue(Quote(s) + rest) == Some((Str(s), rest))
    {
      QuotedReads(s, rest);
    }
  }

  lemma NumberMeans(n: nat)
    ensures Means(Decimal(n), Int(n))
  {
    hide Decimal, ReadValue;
    forall rest | Follows(rest)
      ensures ReadValue(Decimal(n) + rest) == Some((Int(n), rest))
    {
      DecimalReads(n, rest);
    }
  }

  lemma ListMeans(items: seq<string>)
    requires forall s | s in items :: IsPrintable(s)
    ensures Means(List(items), Arr(Strings(items)))
  {
    hide List, ReadValue, Strings;
    forall rest | Follows(rest)
      ensures ReadValue(List(items) + rest) == Some((Arr(Strings(items)), rest))
    {
      ArrayReads(items, rest);
    }
  }

  /** Column by column, the texts mean the members. */
  ghost predicate AllMean(columns: seq<(string, string)>, members: seq<(string, Json)>) {
    && |columns| == |members| > 0
    && forall i | 0 <= i < |columns| ::
         columns[i].0 == members[i].0 && IsPrintable(columns[i].0) && Means(columns[i].1, members[i].1)
  }

  lemma RootMeans(context: string, count: nat, root: string)
    requires Plain(SignedRoot(context, count, root))
    ensures AllMean(Columns(SignedRoot(context, count, root)), Members(SignedRoot(context, count, root)))
  {
    hide Quote, Decimal, Means;
    StringMeans(context);
    NumberMeans(count);
    StringMeans(RECEIPT_PROFILE);
    StringMeans(root);
  }

  lemma ManifestMeans(context: string, count: nat, hashes: seq<string>)
    requires Plain(SignedList(context, count, hashes))
    ensures AllMean(Columns(SignedList(context, count, hashes)), Members(SignedList(context, count, hashes)))
  {
    hide Quote, Decimal, List, Strings, Means;
    StringMeans(context);
    NumberMeans(count);
    StringMeans(MANIFEST_PROFILE);
    ListMeans(hashes);
  }

  lemma ReceiptMeans(index: nat, path: seq<string>, manifest: Option<string>)
    requires Plain(Receipt(index, path, manifest))
    ensures AllMean(Columns(Receipt(index, path, manifest)), Members(Receipt(index, path, manifest)))
  {
    hide Quote, Decimal, List, Strings, Means;
    NumberMeans(index);
    ListMeans(path);
    if manifest.Some? {
      StringMeans(manifest.value);
    }
  }

  lemma HeaderMeans(keyId: string)
    requires IsPrintable(keyId)
    ensures AllMean(Columns(Header(keyId)), Members(Header(keyId)))
  {
    hide Quote, Means;
    StringMeans("ES256");
    StringMeans(keyId);
  }

  lemma ColumnsMean(doc: Doc)
    requires Plain(doc)
    ensures AllMean(Columns(doc), Members(doc))
  {
    hide AllMean, Columns, Members;
    match doc
    case Header(keyId) => HeaderMeans(keyId);
    case SignedRoot(context, count, root) => RootMeans(context, count, root);
    case SignedList(context, count, hashes) => ManifestMeans(context, count, hashes);
    case Receipt(index, path, manifest) => ReceiptMeans(index, path, manifest);
  }

  lemma BracedReads(columns: seq<(string, string)>, members: seq<(string, Json)>)
    requires columns != [] && ReadMembers(Joined(columns)) == Some((members, "")) && !Repeats(members)
    ensures ReadValue("{" + Joined(columns)) == Some((Obj(AsMap(members)), ""))
  {
    FirstIsQuote(columns);
    hide Joined, ReadMembers, Repeats, AsMap;
    var text := "{" + Joined(columns);
    assert text[1..] == Joined(columns) && text[1] == '"';
  }

  /** Each written text is read as exactly its object. */
  lemma TextReads(doc: Doc)
    requires Plain(doc)
    ensures ReadValue(Text(doc)) == Some((Obj(Fields(doc)), ""))
  {
    ColumnsMean(doc);
    ObjectReads(Columns(doc), Members(doc));
    MembersAreFields(doc);
    hide ReadValue, Columns, Joined, Members, Fields, ReadMembers, Repeats, AsMap;
    BracedReads(Columns(doc), Members(doc));
  }

  lemma FirstIsQuote(columns: seq<(string, string)>)
    requires columns != []
    ensures Joined(columns) != "" && Joined(columns)[0] == '"'
  {
  }

  /** So this reader is one of those that read back what was written. */
  lemma ReadsOwnTexts()
    ensures ReadsBack(Parse)
  {
    forall doc | Plain(doc)
      ensures Parse(Ascii(Text(doc))) == Some(Obj(Fields(doc)))
    {
      hide *;
      TextReads(doc);
      TextIsAscii(doc);
      BytesRead(Text(doc), Obj(Fields(doc)));
    }
  }

  lemma BytesRead(text: string, value: Json)
    requires IsAscii(text) && ReadValue(text) == Some((value, ""))
    ensures Parse(Ascii(text)) == Some(value)
  {
    hide ReadValue;
    forall i | 0 <= i < |text|
      ensures Ascii(text)[i] < 128 && Characters(Ascii(text))[i] == text[i]
    {
      assert text[i] in text;
    }
    assert Characters(Ascii(text)) == text;
  }

  lemma {:induction false} EscapeIsAscii(s: string)
    requires IsAscii(s)
    ensures IsAscii(Escape(s))
  {
    if s != "" {
      assert s[0] in s && forall c | c in s[1..] :: c in s;
      EscapeIsAscii(s[1..]);
    }
  }

  lemma QuoteIsAscii(s: string)
    requires IsAscii(s)
    ensures IsAscii(Quote(s))
  {
    EscapeIsAscii(s);
  }

  lemma {:induction false} DecimalIsAscii(n: nat)
    ensures IsAscii(Decimal(n))
  {
    if n >= 10 {
      DecimalIsAscii(n / 10);
    }
  }

  lemma {:induction false} QuoteAllIsAscii(items: seq<string>)
    requires forall s | s in items :: IsAscii(s)
    ensures IsAscii(QuoteAll(items))
  {
    if items != [] {
      QuoteIsAscii(items[0]);
      QuoteAllIsAscii(items[1..]);
    }
  }

  lemma ListIsAscii(items: seq<string>)
    requires forall s | s in items :: IsAscii(s)
    ensures IsAscii(List(items))
  {
    QuoteAllIsAscii(items);
  }

  lemma {:induction false} JoinedIsAscii(columns: seq<(string, string)>)
    requires AsciiColumns(columns)
    ensures IsAscii(Joined(columns))
  {
    hide Quote;
    if columns != [] {
      QuoteIsAscii(columns[0].0);
      JoinedIsAscii(columns[1..]);
    }
  }

  predicate AsciiColumns(columns: seq<(string, string)>) {
    forall i | 0 <= i < |columns| :: IsAscii(columns[i].0) && IsAscii(columns[i].1)
  }

  lemma ConstantsAreAscii()
    ensures IsAscii("context") && IsAscii("count") && IsAscii("profile") && IsAscii("root") && IsAscii("hashes")
    ensures IsAscii("index") && IsAscii("path") && IsAscii("manifest")
  {
  }

  lemma ReceiptProfileIsAscii()
    ensures IsAscii(RECEIPT_PROFILE)
  {
  }

  lemma ManifestProfileIsAscii()
    ensures IsAscii(MANIFEST_PROFILE)
  {
  }

  lemma PrintableIsAscii(s: string)
    requires IsPrintable(s)
    ensures IsAscii(s)
  {
  }

  lemma RootIsAscii(context: string, count: nat, root: string)
    requires Plain(SignedRoot(context, count, root))
    ensures AsciiColumns(Columns(SignedRoot(context, count, root)))
  {
    hide Quote, Decimal, IsAscii, IsPrintable;
    ConstantsAreAscii();
    ReceiptProfileIsAscii();
    PrintableIsAscii(context);
    PrintableIsAscii(root);
    QuoteIsAscii(context);
    DecimalIsAscii(count);
    QuoteIsAscii(RECEIPT_PROFILE);
    QuoteIsAscii(root);
  }

  lemma ManifestIsAscii(context: string, count: nat, hashes: seq<string>)
    requires Plain(SignedList(context, count, hashes))
    ensures AsciiColumns(Columns(SignedList(context, count, hashes)))
  {
    hide Quote, Decimal, List, IsAscii, IsPrintable;
    ConstantsAreAscii();
    ManifestProfileIsAscii();
    PrintableIsAscii(context);
    forall s | s in hashes
      ensures IsAscii(s)
    {
      PrintableIsAscii(s);
    }
    QuoteIsAscii(context);
    DecimalIsAscii(count);
    ListIsAscii(hashes);
    QuoteIsAscii(MANIFEST_PROFILE);
  }

  lemma ReceiptIsAscii(index: nat, path: seq<string>, manifest: Option<string>)
    requires Plain(Receipt(index, path, manifest))
    ensures AsciiColumns(Columns(Receipt(index, path, manifest)))
  {
    hide Quote, Decimal, List;
    DecimalIsAscii(index);
    ListIsAscii(path);
    if manifest.Some? {
      QuoteIsAscii(manifest.value);
    }
  }

  lemma ColumnsAreAscii(doc: Doc)
    requires Plain(doc)
    ensures AsciiColumns(Columns(doc))
  {
    match doc
    case Header(keyId) =>
      hide Quote;
      QuoteIsAscii("ES256");
      QuoteIsAscii(keyId);
    case SignedRoot(context, count, root) =>
      hide *;
      RootIsAscii(context, count, root);
    case SignedList(context, count, hashes) =>
      hide *;
      ManifestIsAscii(context, count, hashes);
    case Receipt(index, path, manifest) =>
      hide *;
      ReceiptIsAscii(index, path, manifest);
  }

  lemma TextIsAscii(doc: Doc)
    requires Plain(doc)
    ensures IsAscii(Text(doc))
  {
    hide Joined, Columns, AsciiColumns, Plain;
    ColumnsAreAscii(doc);
    JoinedIsAscii(Columns(doc));
  }
}
