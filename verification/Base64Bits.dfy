/** What unpadded base64url text is as a number: the bits of the data, the most significant first, and zeros to fill the last
    symbol (section 4 of RFC 4648). */
module Base64Bits {
  import opened Words
  import opened Base64Url
  import opened Jws

  /** A sequence of six-bit digits as one number, the most significant digit first. */
  function Radix(digits: seq<Sextet>): nat {
    if digits == [] then 0 else Radix(digits[..|digits| - 1]) * 64 + digits[|digits| - 1]
  }

  function Symbols(digits: seq<Sextet>): string {
    seq(|digits|, i requires 0 <= i < |digits| => Symbol(digits[i]))
  }

  lemma {:induction false} RadixJoins(a: seq<Sextet>, b: seq<Sextet>)
    ensures Radix(a + b) == Radix(a) * Pow2(6 * |b|) + Radix(b)
  {
    if b == [] {
      assert a + b == a;
    } else {
      var init, last := b[..|b| - 1], b[|b| - 1];
      RadixJoins(a, init);
      assert (a + b)[..|a + b| - 1] == a + init;
      SixBits(|b|);
      Distribute(Radix(a), Pow2(6 * |init|), Radix(init), 64, last);
    }
  }

  lemma SixBits(n: nat)
    requires n > 0
    ensures Pow2(6 * n) == Pow2(6 * (n - 1)) * 64
  {
    var e := 6 * (n - 1);
    assert Pow2(e + 2) == 4 * Pow2(e);
    assert Pow2(e + 4) == 4 * Pow2(e + 2);
    assert Pow2(e + 6) == 4 * Pow2(e + 4);
  }

  lemma Distribute(x: nat, p: nat, y: nat, base: nat, last: nat)
    ensures (x * p + y) * base + last == x * (p * base) + (y * base + last)
  {
  }

  lemma {:induction false} UnsignedJoins(a: Bytes, b: Bytes)
    ensures Unsigned(a + b) == Unsigned(a) * Pow2(8 * |b|) + Unsigned(b)
  {
    if b == [] {
      assert a + b == a;
    } else {
      var init, last := b[..|b| - 1], b[|b| - 1];
      UnsignedJoins(a, init);
      assert (a + b)[..|a + b| - 1] == a + init;
      ByteMore(|b|);
      Distribute(Unsigned(a), Pow2(8 * |init|), Unsigned(init), 256, last);
    }
  }

  lemma OneByte(x: Byte) returns (digits: seq<Sextet>)
    ensures B64([x]) == Symbols(digits) && |digits| == 2 && Radix(digits) == Unsigned([x]) * 16
  {
    digits := [x / 4, x % 4 * 16];
    assert digits[..1] == [x / 4] && [x][..0] == [];
    assert Radix([x / 4]) == x / 4;
  }

  lemma TwoBytes(x: Byte, y: Byte) returns (digits: seq<Sextet>)
    ensures B64([x, y]) == Symbols(digits) && |digits| == 3 && Radix(digits) == Unsigned([x, y]) * 4
  {
    var a, b, c := x / 4, x % 4 * 16 + y / 16, y % 16 * 4;
    digits := [a, b, c];
    assert digits[..2] == [a, b] && [a, b][..1] == [a] && [x, y][..1] == [x];
    assert Radix([a]) == a && Radix([a, b]) == a * 64 + b;
    assert Unsigned([x]) == x;
  }

  lemma ThreeBytes(x: Byte, y: Byte, z: Byte) returns (digits: seq<Sextet>)
    ensures B64([x, y, z]) == Symbols(digits) && |digits| == 4 && Radix(digits) == Unsigned([x, y, z])
  {
    var a, b, c, d := x / 4, x % 4 * 16 + y / 16, y % 16 * 4 + z / 64, z % 64;
    digits := [a, b, c, d];
    assert digits[..3] == [a, b, c] && [a, b, c][..2] == [a, b] && [a, b][..1] == [a];
    assert [x, y, z][..2] == [x, y] && [x, y][..1] == [x] && [x, y, z][3..] == [];
    assert Radix([a]) == a && Radix([a, b]) == a * 64 + b && Radix([a, b, c]) == (a * 64 + b) * 64 + c;
    assert Unsigned([x]) == x && Unsigned([x, y]) == x * 256 + y;
  }

  /** The symbols of encoded data are the digits of its number, shifted to the left by the bits that fill the last one. */
  lemma {:induction false} EncodedNumber(data: Bytes) returns (digits: seq<Sextet>)
    ensures |digits| == (4 * |data| + 2) / 3 && B64(data) == Symbols(digits)
    ensures Radix(digits) == Unsigned(data) * Pow2(6 * |digits| - 8 * |data|)
  {
    hide Radix, Unsigned, Symbol, B64;
    if |data| == 0 {
      digits := [];
      Empty();
      NoText();
    } else if |data| == 1 {
      digits := OneByte(data[0]);
      assert data == [data[0]] && Pow2(4) == 16;
    } else if |data| == 2 {
      digits := TwoBytes(data[0], data[1]);
      assert data == [data[0], data[1]] && Pow2(2) == 4;
    } else {
      var group, rest := data[..3], data[3..];
      var first := ThreeBytes(data[0], data[1], data[2]);
      var more := EncodedNumber(rest);
      digits := first + more;
      assert group == [data[0], data[1], data[2]] && data == group + rest;
      GroupFirst(data);
      RadixJoins(first, more);
      UnsignedJoins(group, rest);
      Pow2Plus(8 * |rest|, 6 * |more| - 8 * |rest|);
      Shift(Unsigned(group), Pow2(8 * |rest|), Unsigned(rest), Pow2(6 * |more| - 8 * |rest|));
    }
  }

  lemma Empty()
    ensures Radix([]) == 0 && Unsigned([]) == 0
  {
  }

  function Quad(x: Byte, y: Byte, z: Byte): string {
    [Symbol(x / 4), Symbol(x % 4 * 16 + y / 16), Symbol(y % 16 * 4 + z / 64), Symbol(z % 64)]
  }

  lemma QuadFirst(data: Bytes)
    requires |data| >= 3
    ensures B64(data) == Quad(data[0], data[1], data[2]) + B64(data[3..])
  {
    hide Symbol;
  }

  lemma NoText()
    ensures B64([]) == ""
  {
  }

  lemma GroupFirst(data: Bytes)
    requires |data| >= 3
    ensures B64(data) == B64([data[0], data[1], data[2]]) + B64(data[3..])
  {
    hide B64, Quad;
    var group := [data[0], data[1], data[2]];
    QuadFirst(data);
    QuadFirst(group);
    NoText();
    assert group[3..] == [];
  }

  lemma Shift(x: nat, p: nat, y: nat, q: nat)
    ensures x * (p * q) + y * q == (x * p + y) * q
  {
  }
}
