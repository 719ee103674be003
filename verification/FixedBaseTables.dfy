/** Precomputed public multiples of the base point of P-256, in Montgomery form. */
module FixedBaseTables {
  import opened Options
  import opened Words
  import M = Modular
  import opened EllipticCurve

  const P: int := 0xFFFFFFFF00000001000000000000000000000000FFFFFFFFFFFFFFFFFFFFFFFF
  const B: int := 0x5AC635D8AA3A93E7B3EBBD55769886BC651D06B0CC53B0F63BCE3C3E27D2604B
  const N: nat := 0xFFFFFFFF00000000FFFFFFFFFFFFFFFFBCE6FAADA7179E84F3B9CAC2FC632551
  const G: Point := (0x6B17D1F2E12C4247F8BCE6E563A440F277037D812DEB33A0F4A13945D898C296,
                     0x4FE342E2FE1A7F9B8EE7EB4A7C0F9E162BCE33576B315ECECBB6406837BF51F5)
  const P256: Curve := Curve(P, B)

  // ----- The group

  /** The chord-and-tangent law: where the code's doubling is refused, the result is the point at infinity. */
  function Plus(c: Curve, q: Point, r: Point): Point
    requires c.p >= 2
  {
    var sum := Add(c, q, r);
    if sum.None? then INFINITY else sum.value
  }

  ghost predicate Associative(c: Curve)
    requires c.p >= 2
  {
    forall q, r, s | OnCurve(c, q) && OnCurve(c, r) && OnCurve(c, s) ::
      Plus(c, Plus(c, q, r), s) == Plus(c, q, Plus(c, r, s))
  }

  /** The k-th multiple of a point. */
  function Times(c: Curve, g: Point, k: nat): Point
    requires c.p >= 2
  {
    if k == 0 then INFINITY else Plus(c, Times(c, g, k - 1), g)
  }

  ghost predicate HasOrder(c: Curve, g: Point, n: nat)
    requires c.p >= 2
  {
    n > 0 && Times(c, g, n) == INFINITY && forall k | 0 < k < n :: Times(c, g, k) != INFINITY
  }

  /** What is assumed of P-256: a prime modulus, associativity, and the order of the base point. */
  ghost predicate Group(c: Curve, g: Point, n: nat) {
    && Sound(c) && OnCurve(c, g) && g != INFINITY
    && Associative(c) && HasOrder(c, g, n) && n % 2 == 1 && n > 255
  }

  lemma BasePointOnCurve()
    ensures Satisfies(P256, G.0, G.1)
  {
    assert (G.1 * G.1 - (G.0 * G.0 * G.0 - 3 * G.0 + B)) % P == 0;
  }

  /** Everything else in that assumption is checked: the base point satisfies the equation, the order is odd. */
  lemma GroupOfP256()
    requires M.Prime(P) && Associative(P256) && HasOrder(P256, G, N)
    ensures Group(P256, G, N)
  {
    hide M.Prime, Associative, HasOrder, Times;
    BasePointOnCurve();
  }

  lemma {:induction false} TimesOnCurve(c: Curve, g: Point, k: nat)
    requires Sound(c) && OnCurve(c, g)
    ensures OnCurve(c, Times(c, g, k))
  {
    hide Add, OnCurve, M.Prime;
    if k == 0 {
      InfinityOnCurve(c);
    } else {
      TimesOnCurve(c, g, k - 1);
      PlusOnCurve(c, Times(c, g, k - 1), g);
    }
  }

  lemma InfinityOnCurve(c: Curve)
    requires Sound(c)
    ensures OnCurve(c, INFINITY)
  {
  }

  lemma PlusOnCurve(c: Curve, q: Point, r: Point)
    requires Sound(c) && OnCurve(c, q) && OnCurve(c, r)
    ensures OnCurve(c, Plus(c, q, r))
  {
    hide Add;
    AddStays(c, q, r);
  }

  lemma PlusInfinity(c: Curve, q: Point)
    requires c.p >= 2
    ensures Plus(c, q, INFINITY) == q
  {
  }

  /** Multiples add like their factors. */
  lemma {:induction false} TimesSum(c: Curve, g: Point, a: nat, b: nat)
    requires Sound(c) && OnCurve(c, g) && Associative(c)
    ensures Plus(c, Times(c, g, a), Times(c, g, b)) == Times(c, g, a + b)
  {
    hide M.Prime, OnCurve, Plus, Associative;
    if b == 0 {
      PlusInfinity(c, Times(c, g, a));
    } else {
      TimesSum(c, g, a, b - 1);
      TimesOnCurve(c, g, a);
      TimesOnCurve(c, g, b - 1);
      AssociativeAt(c, Times(c, g, a), Times(c, g, b - 1), g);
    }
  }

  lemma AssociativeAt(c: Curve, q: Point, r: Point, s: Point)
    requires c.p >= 2 && Associative(c) && OnCurve(c, q) && OnCurve(c, r) && OnCurve(c, s)
    ensures Plus(c, Plus(c, q, r), s) == Plus(c, q, Plus(c, r, s))
  {
    hide Plus;
  }

  /** Multiples repeat with the order of the point. */
  lemma {:induction false} TimesReduced(c: Curve, g: Point, n: nat, k: nat)
    requires Sound(c) && OnCurve(c, g) && Associative(c) && HasOrder(c, g, n)
    ensures Times(c, g, k) == Times(c, g, k % n)
    decreases k
  {
    hide M.Prime, OnCurve, Associative, Plus;
    if k < n {
      M.Remainder(n, 0, k);
    } else {
      TimesSum(c, g, k - n, n);
      PlusInfinity(c, Times(c, g, k - n));
      TimesReduced(c, g, n, k - n);
      M.FromMultiple(n, k, k - n, 1);
      M.SameRemainder(n, k, k - n);
    }
  }

  /** A number twice of which is a multiple of an odd number is one itself. */
  lemma HalfMultiple(n: nat, k: nat)
    requires n % 2 == 1 && (2 * k) % n == 0
    ensures k % n == 0
  {
    var m, h := 2 * k / n, n / 2;
    assert 2 * k == m * n + (2 * k) % n;
    assert m * n == 2 * (m * h) + m by {
      assert m * n == m * (2 * h + 1);
    }
    var j := k - m * h;
    assert k == j * n by {
      assert m == 2 * j;
      assert m * n == 2 * (j * n);
    }
    M.Multiple(n, j);
  }

  /** No multiple of the base point has order two, so that the formulas are never refused on multiples. */
  lemma NoPointOfOrderTwo(c: Curve, g: Point, n: nat, k: nat)
    requires Group(c, g, n) && Times(c, g, k) != INFINITY
    ensures Times(c, g, k).1 != 0
  {
    hide M.Prime, OnCurve, Associative;
    var q := Times(c, g, k);
    if q.1 == 0 {
      TimesOnCurve(c, g, k);
      AddStays(c, q, q);
      TimesSum(c, g, k, k);
      TimesReduced(c, g, n, 2 * k);
      M.Reduced(n, 2 * k);
      HalfMultiple(n, k);
      TimesReduced(c, g, n, k);
    }
  }

  /** On multiples of the base point the code's addition and doubling always answer, and answer with multiples. */
  lemma AddTimes(c: Curve, g: Point, n: nat, a: nat, b: nat)
    requires c.p >= 2 && Group(c, g, n)
    ensures Add(c, Times(c, g, a), Times(c, g, b)) == Some(Times(c, g, a + b))
    ensures Double(c, Times(c, g, a)) == Some(Times(c, g, 2 * a))
  {
    hide Group, Add, Double, Times;
    AddTimesOne(c, g, n, a, b);
    AddTimesOne(c, g, n, a, a);
    DoubleIsAdd(c, Times(c, g, a));
  }

  lemma DoubleIsAdd(c: Curve, q: Point)
    requires c.p >= 2
    ensures Double(c, q) == Add(c, q, q)
  {
  }

  lemma AddTimesOne(c: Curve, g: Point, n: nat, a: nat, b: nat)
    requires Group(c, g, n)
    ensures Add(c, Times(c, g, a), Times(c, g, b)) == Some(Times(c, g, a + b))
  {
    hide M.Prime, OnCurve, Associative, HasOrder, Add, Times;
    TimesOnCurve(c, g, a);
    TimesOnCurve(c, g, b);
    AddStays(c, Times(c, g, a), Times(c, g, b));
    TimesSum(c, g, a, b);
    if Times(c, g, a) != INFINITY {
      NoPointOfOrderTwo(c, g, n, a);
    }
  }

  // ----- Montgomery form

  function R(c: Curve): int
    requires c.p > 0
  {
    M.Power(2, 256) % c.p
  }

  function ToMontgomery(c: Curve, x: int): int
    requires c.p > 0
  {
    x * R(c) % c.p
  }

  function FromMontgomery(c: Curve, x: int): Option<int>
    requires c.p >= 2
  {
    var inverse := M.ModInverse(R(c), c.p);
    if inverse.None? then None else Some(x * inverse.value % c.p)
  }

  lemma RNotZero(c: Curve)
    requires Sound(c)
    ensures R(c) != 0 && R(c) % c.p != 0
  {
    hide M.Power;
    M.Remainder(c.p, 0, 2);
    M.PowerNotZero(c.p, 2, 256);
    M.Reduced(c.p, M.Power(2, 256));
    M.Remainder(c.p, 0, R(c));
  }

  /** Converting to Montgomery form and back is the identity on field elements. */
  lemma MontgomeryRoundTrip(c: Curve, x: int)
    requires Sound(c) && 0 <= x < c.p
    ensures FromMontgomery(c, ToMontgomery(c, x)) == Some(x)
  {
    hide M.Power, M.ModInverse;
    RNotZero(c);
    M.InverseExactly(c.p, R(c));
    InverseIsSome(c);
    var p, r, v := c.p, R(c), M.ModInverse(R(c), c.p).value;
    M.Reduced(p, x * r);
    M.Multiple(p, 0);
    M.Product(p, x * r % p, x * r, v, v);
    assert (x * r) * v == x * (r * v);
    M.Product(p, x, x, r * v, 1);
    M.Transitive(p, x * r % p * v, x * (r * v), x * 1);
    M.SameRemainder(p, x * r % p * v, x);
    M.Remainder(p, 0, x);
  }

  lemma InverseIsSome(c: Curve)
    requires c.p >= 2 && R(c) != 0
    ensures M.ModInverse(R(c), c.p).Some?
  {
  }

  // ----- Bytes

  function LittleEndian(v: nat, size: nat): (s: Bytes)
    ensures |s| == size
  {
    if size == 0 then [] else [v % 256] + LittleEndian(v / 256, size - 1)
  }

  function ReadLittleEndian(s: Bytes): nat {
    if s == [] then 0 else s[0] + 256 * ReadLittleEndian(s[1..])
  }

  lemma {:induction false} LittleEndianReads(v: nat, size: nat)
    requires v < Pow2(8 * size)
    ensures ReadLittleEndian(LittleEndian(v, size)) == v
  {
    if size > 0 {
      assert Pow2(8 * size) == 256 * Pow2(8 * (size - 1)) by {
        Pow2Byte(8 * (size - 1));
      }
      LittleEndianReads(v / 256, size - 1);
      assert LittleEndian(v, size)[1..] == LittleEndian(v / 256, size - 1);
    }
  }

  lemma Pow2Byte(e: nat)
    ensures Pow2(e + 8) == 256 * Pow2(e)
  {
    assert Pow2(e + 2) == 4 * Pow2(e);
    assert Pow2(e + 4) == 4 * Pow2(e + 2);
    assert Pow2(e + 6) == 4 * Pow2(e + 4);
    assert Pow2(e + 8) == 4 * Pow2(e + 6);
  }

  // ----- The table

  const MAGIC: Bytes := [71, 66, 67, 84, 66, 76, 48, 49]  // "GBCTBL01"

  function Header(kind: nat, windows: nat, digits: nat): (h: Bytes)
    ensures |h| == 32
  {
    MAGIC + LittleEndian(kind, 4) + LittleEndian(1, 4) + LittleEndian(windows, 4) + LittleEndian(digits, 4)
    + LittleEndian(64, 4) + LittleEndian(0, 4)
  }

  /** The factor of an entry: the digit, shifted by its window. */
  function Factor(window: nat, digit: nat): nat {
    digit * Pow2(8 * window)
  }

  function Scalar(n: nat, window: nat, digit: nat): nat
    requires n > 0
  {
    Factor(window, digit) % n
  }

  function Encode(c: Curve, q: Point): (s: Bytes)
    requires c.p > 0
    ensures |s| == 64
  {
    LittleEndian(ToMontgomery(c, q.0), 32) + LittleEndian(ToMontgomery(c, q.1), 32)
  }

  function Decode(c: Curve, s: Bytes): (Option<int>, Option<int>)
    requires c.p >= 2 && |s| == 64
  {
    (FromMontgomery(c, ReadLittleEndian(s[..32])), FromMontgomery(c, ReadLittleEndian(s[32..])))
  }

  /** The first `d` entries of one window, each what `derive` says of its scalar. */
  function Digits(c: Curve, n: nat, derive: nat -> Point, window: nat, d: nat): (s: Bytes)
    requires c.p > 0 && n > 0
    ensures |s| == d * 64
  {
    if d == 0 then [] else Digits(c, n, derive, window, d - 1) + Encode(c, derive(Scalar(n, window, d)))
  }

  lemma OneMoreRow(windows: nat, digits: nat)
    requires windows > 0
    ensures windows * digits * 64 == (windows - 1) * digits * 64 + digits * 64
  {
    assert windows * digits == (windows - 1) * digits + digits;
  }

  function Rows(c: Curve, n: nat, derive: nat -> Point, windows: nat, digits: nat): (s: Bytes)
    requires c.p > 0 && n > 0
    ensures |s| == windows * digits * 64
  {
    if windows == 0 then []
    else
      OneMoreRow(windows, digits);
      Rows(c, n, derive, windows - 1, digits) + Digits(c, n, derive, windows - 1, digits)
  }

  lemma {:induction false} DigitLocated(c: Curve, n: nat, derive: nat -> Point, window: nat, d: nat, digit: nat)
    requires c.p > 0 && n > 0 && 1 <= digit <= d
    ensures Digits(c, n, derive, window, d)[(digit - 1) * 64..digit * 64] == Encode(c, derive(Scalar(n, window, digit)))
  {
    hide Encode;
    if digit < d {
      DigitLocated(c, n, derive, window, d - 1, digit);
      var init := Digits(c, n, derive, window, d - 1);
      assert Digits(c, n, derive, window, d)[(digit - 1) * 64..digit * 64] == init[(digit - 1) * 64..digit * 64];
    }
  }

  /** The entry of a window and digit is the one at index window * digits + digit - 1. */
  lemma {:induction false} EntryLocated(c: Curve, n: nat, derive: nat -> Point, windows: nat, digits: nat, window: nat, digit: nat)
    requires c.p > 0 && n > 0 && window < windows && 1 <= digit <= digits
    ensures 0 <= (window * digits + digit - 1) * 64 && (window * digits + digit) * 64 <= windows * digits * 64
    ensures Rows(c, n, derive, windows, digits)[(window * digits + digit - 1) * 64..(window * digits + digit) * 64]
         == Encode(c, derive(Scalar(n, window, digit)))
  {
    hide Encode, Digits;
    var init, last := Rows(c, n, derive, windows - 1, digits), Digits(c, n, derive, windows - 1, digits);
    var lo, hi := (window * digits + digit - 1) * 64, (window * digits + digit) * 64;
    assert windows * digits == (windows - 1) * digits + digits;
    assert window * digits >= 0;
    if window == windows - 1 {
      DigitLocated(c, n, derive, window, digits, digit);
      assert (init + last)[lo..hi] == last[(digit - 1) * 64..digit * 64];
    } else {
      EntryLocated(c, n, derive, windows - 1, digits, window, digit);
      assert (init + last)[lo..hi] == init[lo..hi];
    }
  }

  /** The independent derivation of public points agrees with the group. */
  ghost predicate Derives(c: Curve, g: Point, n: nat, derive: nat -> Point)
    requires c.p >= 2
  {
    forall k | 0 < k < n :: derive(k) == Times(c, g, k)
  }

  lemma {:induction false} OddDividesFactor(n: nat, digit: nat, e: nat)
    requires n % 2 == 1 && (digit * Pow2(e)) % n == 0
    ensures digit % n == 0
  {
    if e > 0 {
      assert digit * Pow2(e) == 2 * (digit * Pow2(e - 1));
      HalfMultiple(n, digit * Pow2(e - 1));
      OddDividesFactor(n, digit, e - 1);
    } else {
      assert digit * Pow2(e) == digit;
    }
  }

  /** The reduced scalar of an entry is never zero, so that its point can be derived, and the derived point is the multiple
      of the base point by the unreduced factor. */
  lemma EntryDerived(c: Curve, g: Point, n: nat, derive: nat -> Point, window: nat, digit: nat)
    requires c.p >= 2 && Group(c, g, n) && Derives(c, g, n, derive) && 1 <= digit < n
    ensures 0 < Scalar(n, window, digit) < n
    ensures derive(Scalar(n, window, digit)) == Times(c, g, Factor(window, digit))
  {
    hide M.Prime, OnCurve, Associative, Times, Pow2;
    M.Reduced(n, Factor(window, digit));
    if Scalar(n, window, digit) == 0 {
      OddDividesFactor(n, digit, 8 * window);
      M.Remainder(n, 0, digit);
    }
    TimesReduced(c, g, n, Factor(window, digit));
  }

  // ----- Generation

  lemma NextDigit(window: nat, digit: nat)
    ensures Factor(window, digit + 1) == Factor(window, digit) + Factor(window, 1) && Factor(window, 1) == Pow2(8 * window)
  {
    var w := Pow2(8 * window);
    assert (digit + 1) * w == digit * w + w;
  }

  /** Step through windows and digits; every entry is compared with an independent derivation, and a refused formula or
      a mismatch ends the generation. Under the group assumptions neither happens. */
  method Fill(c: Curve, g: Point, n: nat, kind: nat, windows: nat, digits: nat, derive: nat -> Point) returns (r: Option<Bytes>)
    requires c.p >= 2 && digits < n
    ensures r.Some? ==> r.value == Header(kind, windows, digits) + Rows(c, n, derive, windows, digits)
    ensures Group(c, g, n) && Derives(c, g, n, derive) ==> r.Some?
  {
    hide Group, Derives, Times, Encode, Scalar, Factor, Header, Add, Double;
    ghost var sound := Group(c, g, n) && Derives(c, g, n, derive);
    var blob, base := Header(kind, windows, digits), g;
    if sound {
      FirstBase(c, g, n);
    }
    for window := 0 to windows
      invariant blob == Header(kind, windows, digits) + Rows(c, n, derive, window, digits)
      invariant sound ==> base == Times(c, g, Pow2(8 * window))
    {
      var point := base;
      NextDigit(window, 0);
      assert Factor(window, 0) == 0 by { ZeroFactor(window); }
      for digit := 1 to digits + 1
        invariant blob == Header(kind, windows, digits) + Rows(c, n, derive, window, digits)
                          + Digits(c, n, derive, window, digit - 1)
        invariant sound && digit <= digits ==> point == Times(c, g, Factor(window, digit))
      {
        if sound {
          EntryDerived(c, g, n, derive, window, digit);
        }
        if point != derive(Scalar(n, window, digit)) {
          return None;
        }
        blob := blob + Encode(c, point);
        if digit != digits {
          if sound {
            NextDigit(window, digit);
            AddTimes(c, g, n, Factor(window, digit), Pow2(8 * window));
          }
          var sum := Add(c, point, base);
          if sum.None? {
            return None;
          }
          point := sum.value;
        }
      }
      for i := 0 to 8
        invariant sound ==> base == Times(c, g, Pow2(8 * window + i))
      {
        if sound {
          AddTimes(c, g, n, Pow2(8 * window + i), 0);
        }
        var twice := Double(c, base);
        if twice.None? {
          return None;
        }
        base := twice.value;
      }
    }
    return Some(blob);
  }

  lemma ZeroFactor(window: nat)
    ensures Factor(window, 0) == 0
  {
  }

  lemma FirstBase(c: Curve, g: Point, n: nat)
    requires c.p >= 2 && Group(c, g, n)
    ensures Times(c, g, Pow2(0)) == g
  {
    assert Times(c, g, 0) == INFINITY;
  }

  /** The 32 bytes before the entries: the magic text, and six fields of four bytes that read back as these numbers. */
  predicate StartsAs(table: Bytes, kind: nat, windows: nat, digits: nat) {
    && |table| >= 32
    && table[0] as char == 'G' && table[1] as char == 'B' && table[2] as char == 'C' && table[3] as char == 'T'
    && table[4] as char == 'B' && table[5] as char == 'L' && table[6] as char == '0' && table[7] as char == '1'
    && ReadLittleEndian(table[8..12]) == kind && ReadLittleEndian(table[12..16]) == 1
    && ReadLittleEndian(table[16..20]) == windows && ReadLittleEndian(table[20..24]) == digits
    && ReadLittleEndian(table[24..28]) == 64 && ReadLittleEndian(table[28..32]) == 0
  }

  lemma HeaderStarts(kind: nat, windows: nat, digits: nat, rows: Bytes)
    requires kind < Pow2(32) && windows < Pow2(32) && digits < Pow2(32) && 64 < Pow2(32)
    ensures StartsAs(Header(kind, windows, digits) + rows, kind, windows, digits)
  {
    hide LittleEndian, ReadLittleEndian, Pow2;
    LittleEndianReads(kind, 4);
    LittleEndianReads(1, 4);
    LittleEndianReads(windows, 4);
    LittleEndianReads(digits, 4);
    LittleEndianReads(64, 4);
    LittleEndianReads(0, 4);
    var h := Header(kind, windows, digits);
    var table := h + rows;
    assert h[..8] == MAGIC && forall i | 0 <= i < 8 :: table[i] == h[..8][i];
    assert table[8..12] == h[8..12] == LittleEndian(kind, 4) && table[12..16] == h[12..16] == LittleEndian(1, 4);
    assert table[16..20] == h[16..20] == LittleEndian(windows, 4) && table[20..24] == h[20..24] == LittleEndian(digits, 4);
    assert table[24..28] == h[24..28] == LittleEndian(64, 4) && table[28..32] == h[28..32] == LittleEndian(0, 4);
  }

  lemma Pow2Of32()
    ensures Pow2(32) == 0x100000000
  {
    Pow2Byte(0);
    hide Pow2;
    Pow2Sum(8, 8);
    Pow2Sum(16, 16);
  }

  /** The two tables: a comb of one window, or all windows with digits up to half. */
  method Generate(full: bool, derive: nat -> Point) returns (r: Option<Bytes>)
    ensures r.Some? ==> |r.value| == 32 + (if full then 33 * 128 else 255) * 64
    ensures r.Some? ==> r.value == if full then Header(2, 33, 128) + Rows(P256, N, derive, 33, 128)
                                   else Header(1, 1, 255) + Rows(P256, N, derive, 1, 255)
    ensures r.Some? ==> if full then StartsAs(r.value, 2, 33, 128) else StartsAs(r.value, 1, 1, 255)
    ensures M.Prime(P) && Associative(P256) && HasOrder(P256, G, N) && Derives(P256, G, N, derive) ==> r.Some?
  {
    hide M.Prime, Associative, HasOrder, Derives, Group, StartsAs, Header, Rows, Pow2;
    Pow2Of32();
    HeaderStarts(2, 33, 128, Rows(P256, N, derive, 33, 128));
    HeaderStarts(1, 1, 255, Rows(P256, N, derive, 1, 255));
    if M.Prime(P) && Associative(P256) && HasOrder(P256, G, N) {
      GroupOfP256();
    }
    if full {
      r := Fill(P256, G, N, 2, 33, 128, derive);
    } else {
      r := Fill(P256, G, N, 1, 1, 255, derive);
    }
  }

  /** The entry at index window * digits + digit - 1 decodes to the multiple digit * 2^(8 * window) of the base point. */
  predicate Holds(c: Curve, g: Point, table: Bytes, digits: nat, window: nat, digit: nat)
    requires c.p >= 2
  {
    var at, q := 32 + (window * digits + digit - 1) * 64, Times(c, g, digit * Pow2(8 * window));
    0 <= at && at + 64 <= |table| && Decode(c, table[at..at + 64]) == (Some(q.0), Some(q.1))
  }

  /** What a generated table holds: the entry of every window and digit decodes to that multiple of the base point. */
  lemma EntriesAreMultiples(c: Curve, g: Point, n: nat, derive: nat -> Point, header: Bytes, windows: nat, digits: nat,
                            window: nat, digit: nat)
    requires c.p >= 2 && Group(c, g, n) && Derives(c, g, n, derive) && c.p <= Pow2(256)
    requires |header| == 32 && window < windows && 1 <= digit <= digits < n
    ensures Holds(c, g, header + Rows(c, n, derive, windows, digits), digits, window, digit)
  {
    hide Group, Derives, Encode, Decode, Times, Scalar, Rows;
    EntryLocated(c, n, derive, windows, digits, window, digit);
    EntryDerived(c, g, n, derive, window, digit);
    var rows, at := Rows(c, n, derive, windows, digits), (window * digits + digit - 1) * 64;
    assert (header + rows)[32 + at..32 + at + 64] == rows[at..at + 64];
    MultipleReduced(c, g, n, Factor(window, digit));
    DecodeInverts(c, Times(c, g, Factor(window, digit)));
  }

  lemma MultipleReduced(c: Curve, g: Point, n: nat, k: nat)
    requires c.p >= 2 && Group(c, g, n)
    ensures Sound(c) && 0 <= Times(c, g, k).0 < c.p && 0 <= Times(c, g, k).1 < c.p
  {
    hide M.Prime, Associative, HasOrder, Times, Satisfies;
    TimesOnCurve(c, g, k);
  }

  lemma DecodeInverts(c: Curve, q: Point)
    requires Sound(c) && 0 <= q.0 < c.p && 0 <= q.1 < c.p && c.p <= Pow2(256)
    ensures Decode(c, Encode(c, q)) == (Some(q.0), Some(q.1))
  {
    hide M.Prime, ToMontgomery, FromMontgomery, LittleEndian, ReadLittleEndian, Pow2;
    var x, y := ToMontgomery(c, q.0), ToMontgomery(c, q.1);
    MontgomeryBound(c, q.0);
    MontgomeryBound(c, q.1);
    MontgomeryRoundTrip(c, q.0);
    MontgomeryRoundTrip(c, q.1);
    LittleEndianReads(x, 32);
    LittleEndianReads(y, 32);
    assert Encode(c, q)[..32] == LittleEndian(x, 32) && Encode(c, q)[32..] == LittleEndian(y, 32);
  }

  lemma MontgomeryBound(c: Curve, x: int)
    requires c.p > 0
    ensures 0 <= ToMontgomery(c, x) < c.p
  {
    hide R;
    M.Reduced(c.p, x * R(c));
  }

  lemma {:induction false} Pow2Sum(a: nat, b: nat)
    ensures Pow2(a + b) == Pow2(a) * Pow2(b)
  {
    if b > 0 {
      Pow2Sum(a, b - 1);
      assert Pow2(a) * (2 * Pow2(b - 1)) == 2 * (Pow2(a) * Pow2(b - 1));
    }
  }

  lemma ModulusFits()
    ensures P < Pow2(256)
  {
    hide Pow2;
    Pow2Of64();
    Pow2Sum(64, 64);
    assert Pow2(128) == 0x100000000000000000000000000000000;
    Pow2Sum(128, 128);
  }

  lemma Pow2Of64()
    ensures Pow2(64) == 0x10000000000000000
  {
    Pow2Byte(0);
    hide Pow2;
    Pow2Sum(8, 8);
    Pow2Sum(16, 16);
    Pow2Sum(32, 32);
  }

  /** The generated tables hold exactly the multiples of the P-256 base point, in 64-byte entries after the header. */
  lemma TablesHoldMultiples(derive: nat -> Point, window: nat, digit: nat)
    requires M.Prime(P) && Associative(P256) && HasOrder(P256, G, N) && Derives(P256, G, N, derive) && 1 <= digit
    ensures window < 33 && digit <= 128 ==>
              Holds(P256, G, Header(2, 33, 128) + Rows(P256, N, derive, 33, 128), 128, window, digit)
    ensures window < 1 && digit <= 255 ==>
              Holds(P256, G, Header(1, 1, 255) + Rows(P256, N, derive, 1, 255), 255, window, digit)
  {
    hide M.Prime, Associative, HasOrder, Derives, Group, Rows, Holds, Pow2, Header;
    GroupOfP256();
    ModulusFits();
    if window < 33 && digit <= 128 {
      EntriesAreMultiples(P256, G, N, derive, Header(2, 33, 128), 33, 128, window, digit);
    }
    if window < 1 && digit <= 255 {
      EntriesAreMultiples(P256, G, N, derive, Header(1, 1, 255), 1, 255, window, digit);
    }
  }

  lemma {:induction false} PowersOfTwo(e: nat)
    ensures M.Power(2, e) == Pow2(e)
  {
    if e > 0 {
      PowersOfTwo(e - 1);
    }
  }

  /** The Montgomery form of a coordinate is its product with 2^256, reduced. */
  lemma MontgomeryIs(c: Curve, x: int)
    requires c.p > 0 && 0 <= x
    ensures ToMontgomery(c, x) == x * Pow2(256) % c.p
  {
    hide Pow2, M.Power;
    PowersOfTwo(256);
    var w := Pow2(256);
    M.Reduced(c.p, w);
    M.Product(c.p, x, x, w % c.p, w);
    M.SameRemainder(c.p, x * (w % c.p), x * w);
  }

  /** The bytes of an entry: each coordinate in Montgomery form as 32 little-endian bytes, x first. */
  predicate EntryBytes(c: Curve, table: Bytes, at: nat, q: Point)
    requires c.p > 0
  {
    && at + 64 <= |table|
    && ReadLittleEndian(table[at..at + 32]) == q.0 * Pow2(256) % c.p
    && ReadLittleEndian(table[at + 32..at + 64]) == q.1 * Pow2(256) % c.p
  }

  lemma EncodeBytes(c: Curve, q: Point, table: Bytes, at: nat)
    requires c.p > 0 && c.p <= Pow2(256) && 0 <= q.0 && 0 <= q.1
    requires at + 64 <= |table| && table[at..at + 64] == Encode(c, q)
    ensures EntryBytes(c, table, at, q)
  {
    hide ToMontgomery, LittleEndian, ReadLittleEndian, Pow2;
    var x, y := ToMontgomery(c, q.0), ToMontgomery(c, q.1);
    MontgomeryBound(c, q.0);
    MontgomeryBound(c, q.1);
    MontgomeryIs(c, q.0);
    MontgomeryIs(c, q.1);
    LittleEndianReads(x, 32);
    LittleEndianReads(y, 32);
    var entry := table[at..at + 64];
    assert entry[..32] == LittleEndian(x, 32) && entry[32..] == LittleEndian(y, 32);
    assert table[at..at + 32] == entry[..32] && table[at + 32..at + 64] == entry[32..];
  }

  /** The entry for a window and a digit has the bytes of digit * 2^(8 * window) times the base point. */
  predicate Stores(c: Curve, g: Point, table: Bytes, digits: nat, window: nat, digit: nat)
    requires c.p >= 2
  {
    var at := 32 + (window * digits + digit - 1) * 64;
    0 <= at && EntryBytes(c, table, at, Times(c, g, digit * Pow2(8 * window)))
  }

  lemma EntryStored(c: Curve, g: Point, n: nat, derive: nat -> Point, header: Bytes, windows: nat, digits: nat,
                    window: nat, digit: nat)
    requires c.p >= 2 && Group(c, g, n) && Derives(c, g, n, derive) && c.p <= Pow2(256)
    requires |header| == 32 && window < windows && 1 <= digit <= digits < n
    ensures Stores(c, g, header + Rows(c, n, derive, windows, digits), digits, window, digit)
  {
    hide Group, Derives, Encode, Times, Scalar, Rows, Pow2, EntryBytes;
    EntryLocated(c, n, derive, windows, digits, window, digit);
    EntryDerived(c, g, n, derive, window, digit);
    var rows, at := Rows(c, n, derive, windows, digits), (window * digits + digit - 1) * 64;
    assert (header + rows)[32 + at..32 + at + 64] == rows[at..at + 64];
    MultipleReduced(c, g, n, Factor(window, digit));
    EncodeBytes(c, Times(c, g, Factor(window, digit)), header + rows, 32 + at);
  }

  /** So it is in both tables of P-256. */
  lemma TablesStoreMultiples(derive: nat -> Point, window: nat, digit: nat)
    requires M.Prime(P) && Associative(P256) && HasOrder(P256, G, N) && Derives(P256, G, N, derive) && 1 <= digit
    ensures window < 33 && digit <= 128 ==>
              Stores(P256, G, Header(2, 33, 128) + Rows(P256, N, derive, 33, 128), 128, window, digit)
    ensures window < 1 && digit <= 255 ==>
              Stores(P256, G, Header(1, 1, 255) + Rows(P256, N, derive, 1, 255), 255, window, digit)
  {
    hide M.Prime, Associative, HasOrder, Derives, Group, Rows, Stores, Pow2, Header;
    GroupOfP256();
    ModulusFits();
    if window < 33 && digit <= 128 {
      EntryStored(P256, G, N, derive, Header(2, 33, 128), 33, 128, window, digit);
    }
    if window < 1 && digit <= 255 {
      EntryStored(P256, G, N, derive, Header(1, 1, 255), 1, 255, window, digit);
    }
  }
}
