/** Unpadded base64url (section 5 of RFC 4648) with a canonical-form check on decoding. */
module Base64Url {
  import opened Options
  import opened Words

  type Sextet = n: int | 0 <= n < 64

  function Symbol(n: Sextet): char {
    if n < 26 then ('A' as int + n) as char
    else if n < 52 then ('a' as int + n - 26) as char
    else if n < 62 then ('0' as int + n - 52) as char
    else if n == 62 then '-' else '_'
  }

  /** The value of one symbol. The library translates the two url-safe symbols and so reads the plain ones as well. */
  function Value(c: char): Option<Sextet> {
    if 'A' <= c <= 'Z' then Some(c as int - 'A' as int)
    else if 'a' <= c <= 'z' then Some(c as int - 'a' as int + 26)
    else if '0' <= c <= '9' then Some(c as int - '0' as int + 52)
    else if c == '-' || c == '+' then Some(62)
    else if c == '_' || c == '/' then Some(63)
    else None
  }

  lemma SymbolValue(n: Sextet)
    ensures Value(Symbol(n)) == Some(n)
    ensures Symbol(n) != '=' && Symbol(n) != '.'
  {
  }

  /** Encode without padding. */
  function B64(data: Bytes): string {
    if |data| == 0 then ""
    else if |data| == 1 then [Symbol(data[0] / 4), Symbol(data[0] % 4 * 16)]
    else if |data| == 2 then
      [Symbol(data[0] / 4), Symbol(data[0] % 4 * 16 + data[1] / 16), Symbol(data[1] % 16 * 4)]
    else
      [Symbol(data[0] / 4), Symbol(data[0] % 4 * 16 + data[1] / 16),
       Symbol(data[1] % 16 * 4 + data[2] / 64), Symbol(data[2] % 64)] + B64(data[3..])
  }

  lemma {:induction false} B64Text(data: Bytes)
    ensures |B64(data)| == (4 * |data| + 2) / 3
    ensures forall c | c in B64(data) :: Value(c).Some? && c != '.'
  {
    if |data| >= 3 {
      B64Text(data[3..]);
    }
  }

  function First(a: Sextet, b: Sextet): Byte { a * 4 + b / 16 }
  function Second(b: Sextet, c: Sextet): Byte { b % 16 * 16 + c / 4 }
  function Third(c: Sextet, d: Sextet): Byte { c % 4 * 64 + d }

  /** Strict decoding of padded text; padding may only end the last group, and surplus bits are dropped. */
  function DecodePadded(text: string): Option<Bytes> {
    if text == "" then Some([])
    else if |text| < 4 then None
    else
      match (Value(text[0]), Value(text[1]), Value(text[2]), Value(text[3]))
      case (Some(a), Some(b), Some(c), Some(d)) =>
        (match DecodePadded(text[4..])
         case None => None
         case Some(rest) => Some([First(a, b), Second(b, c), Third(c, d)] + rest))
      case (Some(a), Some(b), Some(c), None) =>
        if text[3..] == "=" then Some([First(a, b), Second(b, c)]) else None
      case (Some(a), Some(b), None, None) =>
        if text[2..] == "==" then Some([First(a, b)]) else None
      case _ => None
  }

  function Padding(length: nat): string {
    match length % 4
    case 0 => ""
    case 1 => "==="
    case 2 => "=="
    case _ => "="
  }

  /** Decode text that its own encoding reproduces exactly; any other text is an error. */
  function Unb64(text: string): Option<Bytes> {
    if text == "" then None
    else
      match DecodePadded(text + Padding(|text|))
      case None => None
      case Some(data) => if B64(data) == text then Some(data) else None
  }

  lemma Bits(x: Byte, y: Byte, z: Byte)
    ensures First(x / 4, x % 4 * 16 + y / 16) == x && First(x / 4, x % 4 * 16) == x
    ensures Second(x % 4 * 16 + y / 16, y % 16 * 4 + z / 64) == y && Second(x % 4 * 16 + y / 16, y % 16 * 4) == y
    ensures Third(y % 16 * 4 + z / 64, z % 64) == z
  {
  }

  lemma DecodeOne(a: Sextet, b: Sextet)
    ensures DecodePadded([Symbol(a), Symbol(b), '=', '=']) == Some([First(a, b)])
  {
    SymbolValue(a);
    SymbolValue(b);
    assert [Symbol(a), Symbol(b), '=', '='][2..] == "==";
  }

  lemma DecodeTwo(a: Sextet, b: Sextet, c: Sextet)
    ensures DecodePadded([Symbol(a), Symbol(b), Symbol(c), '=']) == Some([First(a, b), Second(b, c)])
  {
    SymbolValue(a);
    SymbolValue(b);
    SymbolValue(c);
    assert [Symbol(a), Symbol(b), Symbol(c), '='][3..] == "=";
  }

  lemma PaddingOfGroup(length: nat)
    ensures Padding(4 + length) == Padding(length)
  {
  }

  lemma DecodeStep(a: Sextet, b: Sextet, c: Sextet, d: Sextet, text: string, data: Bytes)
    requires |text| >= 4 && text[..4] == [Symbol(a), Symbol(b), Symbol(c), Symbol(d)]
    requires DecodePadded(text[4..]) == Some(data)
    ensures DecodePadded(text) == Some([First(a, b), Second(b, c), Third(c, d)] + data)
  {
    hide Symbol, Value, First, Second, Third;
    SymbolValue(a);
    SymbolValue(b);
    SymbolValue(c);
    SymbolValue(d);
    assert text[0] == text[..4][0] && text[1] == text[..4][1] && text[2] == text[..4][2] && text[3] == text[..4][3];
  }

  lemma DecodeGroup(a: Sextet, b: Sextet, c: Sextet, d: Sextet, rest: string, data: Bytes)
    requires DecodePadded(rest + Padding(|rest|)) == Some(data)
    ensures var text := [Symbol(a), Symbol(b), Symbol(c), Symbol(d)] + rest;
            DecodePadded(text + Padding(|text|)) == Some([First(a, b), Second(b, c), Third(c, d)] + data)
  {
    hide DecodePadded, Symbol, First, Second, Third;
    PaddingOfGroup(|rest|);
    hide Padding;
    var text := [Symbol(a), Symbol(b), Symbol(c), Symbol(d)] + rest;
    assert (text + Padding(|text|))[..4] == [Symbol(a), Symbol(b), Symbol(c), Symbol(d)];
    assert (text + Padding(|text|))[4..] == rest + Padding(|rest|);
    DecodeStep(a, b, c, d, text + Padding(|text|), data);
  }

  /** Three bytes are four symbols that carry them. */
  lemma B64Group(data: Bytes) returns (a: Sextet, b: Sextet, c: Sextet, d: Sextet)
    requires |data| >= 3
    ensures B64(data) == [Symbol(a), Symbol(b), Symbol(c), Symbol(d)] + B64(data[3..])
    ensures [First(a, b), Second(b, c), Third(c, d)] == data[..3]
  {
    a, b := data[0] / 4, data[0] % 4 * 16 + data[1] / 16;
    c, d := data[1] % 16 * 4 + data[2] / 64, data[2] % 64;
    Bits(data[0], data[1], data[2]);
  }

  lemma DecodeLastOne(data: Bytes)
    requires |data| == 1
    ensures DecodePadded(B64(data) + Padding(|B64(data)|)) == Some(data)
  {
    var a, b := data[0] / 4, data[0] % 4 * 16;
    Bits(data[0], 0, 0);
    DecodeOne(a, b);
    hide DecodePadded, First, Symbol;
    assert B64(data) + Padding(2) == [Symbol(a), Symbol(b), '=', '='];
    assert data == [First(a, b)];
  }

  lemma DecodeLastTwo(data: Bytes)
    requires |data| == 2
    ensures DecodePadded(B64(data) + Padding(|B64(data)|)) == Some(data)
  {
    var a, b, c := data[0] / 4, data[0] % 4 * 16 + data[1] / 16, data[1] % 16 * 4;
    Bits(data[0], data[1], 0);
    DecodeTwo(a, b, c);
    hide DecodePadded, First, Second, Symbol;
    assert B64(data) + Padding(3) == [Symbol(a), Symbol(b), Symbol(c), '='];
    assert data == [First(a, b), Second(b, c)];
  }

  lemma {:induction false} DecodeInverts(data: Bytes)
    ensures DecodePadded(B64(data) + Padding(|B64(data)|)) == Some(data)
  {
    if |data| == 0 {
    } else if |data| == 1 {
      DecodeLastOne(data);
    } else if |data| == 2 {
      DecodeLastTwo(data);
    } else {
      var a, b, c, d := B64Group(data);
      DecodeInverts(data[3..]);
      DecodeGroup(a, b, c, d, B64(data[3..]), data[3..]);
      assert [First(a, b), Second(b, c), Third(c, d)] + data[3..] == data;
    }
  }

  /** Decoding accepts exactly the encodings of non-empty data, and inverts them. */
  lemma Canonical(text: string, data: Bytes)
    ensures Unb64(text) == Some(data) <==> text != "" && text == B64(data)
  {
    if text == B64(data) {
      DecodeInverts(data);
    }
  }

  /** Two byte strings with one encoding are equal. */
  lemma Injective(a: Bytes, b: Bytes)
    requires B64(a) == B64(b)
    ensures a == b
  {
    DecodeInverts(a);
    DecodeInverts(b);
  }
}
