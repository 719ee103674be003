/** Arithmetic modulo a prime: congruences, Fermat's theorem, and the inverse by exponentiation. */
module Modular {
  import opened Options

  // ----- Congruence

  predicate Congruent(p: int, a: int, b: int)
    requires p > 0
  {
    (a - b) % p == 0
  }

  lemma Multiple(p: int, k: int)
    requires p > 0
    ensures (k * p) % p == 0
  {
    Remainder(p, k, 0);
  }

  /** Quotient and remainder are unique. */
  lemma Remainder(p: int, q: int, r: int)
    requires 0 <= r < p
    ensures (q * p + r) % p == r
  {
    var x := q * p + r;
    var d := q - x / p;
    assert d * p == x % p - r by {
      assert x == x / p * p + x % p;
      assert d * p == q * p - x / p * p;
    }
    if d >= 1 {
      AtLeast(d, p);
    } else if d <= -1 {
      assert -d * p == -(d * p);
      AtLeast(-d, p);
    }
  }

  lemma AtLeast(d: int, p: int)
    requires d >= 1 && p > 0
    ensures d * p >= p
  {
    assert d * p == (d - 1) * p + p;
    assert (d - 1) * p >= 0;
  }

  lemma FromMultiple(p: int, a: int, b: int, k: int)
    requires p > 0 && a - b == k * p
    ensures Congruent(p, a, b)
  {
    Multiple(p, k);
  }

  lemma ToMultiple(p: int, a: int, b: int) returns (k: int)
    requires p > 0 && Congruent(p, a, b)
    ensures a - b == k * p
  {
    k := (a - b) / p;
    assert a - b == k * p + (a - b) % p;
  }

  lemma Reduced(p: int, a: int)
    requires p > 0
    ensures Congruent(p, a % p, a) && Congruent(p, a, a % p) && 0 <= a % p < p
  {
    assert a == a / p * p + a % p;
    FromMultiple(p, a, a % p, a / p);
    assert a % p - a == -(a / p) * p;
    FromMultiple(p, a % p, a, -(a / p));
  }

  lemma Sum(p: int, a: int, a': int, b: int, b': int)
    requires p > 0 && Congruent(p, a, a') && Congruent(p, b, b')
    ensures Congruent(p, a + b, a' + b') && Congruent(p, a - b, a' - b')
  {
    var k := ToMultiple(p, a, a');
    var m := ToMultiple(p, b, b');
    assert (k + m) * p == k * p + m * p && (k - m) * p == k * p - m * p;
    FromMultiple(p, a + b, a' + b', k + m);
    FromMultiple(p, a - b, a' - b', k - m);
  }

  lemma Product(p: int, a: int, a': int, b: int, b': int)
    requires p > 0 && Congruent(p, a, a') && Congruent(p, b, b')
    ensures Congruent(p, a * b, a' * b')
  {
    var k := ToMultiple(p, a, a');
    var m := ToMultiple(p, b, b');
    assert a * b - a' * b' == (a - a') * b + a' * (b - b');
    assert (k * p) * b + a' * (m * p) == (k * b + a' * m) * p by {
      assert (k * p) * b == (k * b) * p && a' * (m * p) == (a' * m) * p;
      assert (k * b + a' * m) * p == (k * b) * p + (a' * m) * p;
    }
    FromMultiple(p, a * b, a' * b', k * b + a' * m);
  }

  lemma Transitive(p: int, a: int, b: int, c: int)
    requires p > 0 && Congruent(p, a, b) && Congruent(p, b, c)
    ensures Congruent(p, a, c)
  {
    var k := ToMultiple(p, a, b);
    var m := ToMultiple(p, b, c);
    assert (k + m) * p == k * p + m * p;
    FromMultiple(p, a, c, k + m);
  }

  lemma Symmetric(p: int, a: int, b: int)
    requires p > 0 && Congruent(p, a, b)
    ensures Congruent(p, b, a)
  {
    var k := ToMultiple(p, a, b);
    assert -k * p == -(k * p);
    FromMultiple(p, b, a, -k);
  }

  /** Congruence is equality of remainders. */
  lemma SameRemainder(p: int, a: int, b: int)
    requires p > 0
    ensures Congruent(p, a, b) <==> a % p == b % p
  {
    if Congruent(p, a, b) {
      var k := ToMultiple(p, a, b);
      assert b == b / p * p + b % p;
      assert (k + b / p) * p == k * p + b / p * p;
      Remainder(p, k + b / p, b % p);
      assert a == (k + b / p) * p + b % p;
    } else if a % p == b % p {
      assert a == a / p * p + a % p && b == b / p * p + b % p;
      assert (a / p - b / p) * p == a / p * p - b / p * p;
      FromMultiple(p, a, b, a / p - b / p);
    }
  }

  // ----- Primes

  ghost predicate Prime(p: int) {
    p >= 2 && forall d | 1 < d < p :: p % d != 0
  }

  /** Euclid's lemma, by descent on the first factor. */
  lemma {:induction false} EuclidBelow(p: int, a: int, b: int)
    requires Prime(p) && 0 < a < p && (a * b) % p == 0
    ensures b % p == 0
    decreases a
  {
    if a == 1 {
    } else {
      Descend(p, a, b);
      EuclidBelow(p, p % a, b);
    }
  }

  lemma Descend(p: int, a: int, b: int)
    requires 0 < a && p > 0 && (a * b) % p == 0
    ensures (p % a * b) % p == 0
  {
    var q, r := p / a, p % a;
    assert p == q * a + r;
    var k := ToMultiple(p, a * b, 0);
    assert r * b == (b - q * k) * p by {
      assert r * b == p * b - q * (a * b) by {
        assert (p - q * a) * b == p * b - (q * a) * b;
      }
      assert q * (k * p) == (q * k) * p;
      assert (b - q * k) * p == b * p - (q * k) * p;
    }
    Multiple(p, b - q * k);
  }

  lemma Euclid(p: int, a: int, b: int)
    requires Prime(p) && (a * b) % p == 0 && a % p != 0
    ensures b % p == 0
  {
    Reduced(p, a);
    Reduced(p, b);
    Multiple(p, 0);
    Product(p, a % p, a, b, b);
    SameRemainder(p, a % p * b, a * b);
    EuclidBelow(p, a % p, b);
  }

  /** A factor that is not a multiple of the prime can be cancelled. */
  lemma Cancel(p: int, a: int, b: int, c: int)
    requires Prime(p) && a % p != 0 && Congruent(p, a * b, a * c)
    ensures Congruent(p, b, c)
  {
    assert a * b - a * c == a * (b - c);
    Euclid(p, a, b - c);
  }

  // ----- Powers

  function Power(a: int, e: nat): int {
    if e == 0 then 1 else Power(a, e - 1) * a
  }

  lemma {:induction false} PowerNotZero(p: int, a: int, e: nat)
    requires Prime(p) && a % p != 0
    ensures Power(a, e) % p != 0
  {
    if e == 0 {
      Remainder(p, 0, 1);
    } else {
      PowerNotZero(p, a, e - 1);
      if Power(a, e) % p == 0 {
        assert Power(a, e) == Power(a, e - 1) * a;
        Euclid(p, Power(a, e - 1), a);
      }
    }
  }

  // ----- Fermat's theorem: multiplying by `a` permutes the remainders 1 .. p-1

  ghost function ProductOf(keys: set<int>, f: int -> int): int {
    if keys == {} then 1
    else
      var k := Pick(keys);
      f(k) * ProductOf(keys - {k}, f)
  }

  ghost function Pick<K(!new)>(keys: set<K>): (k: K)
    requires keys != {}
    ensures k in keys
  {
    var k :| k in keys;
    k
  }

  lemma {:induction false} ProductRemove(keys: set<int>, f: int -> int, k: int)
    requires k in keys
    ensures ProductOf(keys, f) == f(k) * ProductOf(keys - {k}, f)
  {
    var j := Pick(keys);
    if j != k {
      ProductRemove(keys - {j}, f, k);
      ProductRemove(keys - {k}, f, j);
      assert keys - {j} - {k} == keys - {k} - {j};
      Exchange(f(j), f(k), ProductOf(keys - {j} - {k}, f));
    }
  }

  lemma Exchange(x: int, y: int, z: int)
    ensures x * (y * z) == y * (x * z)
  {
  }

  ghost function Image(keys: set<int>, g: int -> int): set<int> {
    set i | i in keys :: g(i)
  }

  ghost predicate Injective(keys: set<int>, g: int -> int) {
    forall i, j | i in keys && j in keys && g(i) == g(j) :: i == j
  }

  function Id(): int -> int {
    x => x
  }

  function Scale(a: int): int -> int {
    x => a * x
  }

  function ScaleMod(p: int, a: int): int -> int
    requires p > 0
  {
    x => a * x % p
  }

  /** Factors can be taken along any injective map. */
  lemma {:induction false} ProductImage(keys: set<int>, g: int -> int)
    requires Injective(keys, g)
    ensures ProductOf(keys, g) == ProductOf(Image(keys, g), Id())
    ensures |Image(keys, g)| == |keys|
  {
    if keys == {} {
      assert Image(keys, g) == {};
    } else {
      var k := Pick(keys);
      var rest := Image(keys - {k}, g);
      ProductImage(keys - {k}, g);
      assert Image(keys, g) == rest + {g(k)} && g(k) !in rest;
      assert Image(keys, g) - {g(k)} == rest;
      ProductRemove(Image(keys, g), Id(), g(k));
    }
  }

  lemma {:induction false} ProductCongruent(p: int, keys: set<int>, f: int -> int, g: int -> int)
    requires p > 0 && forall k | k in keys :: Congruent(p, f(k), g(k))
    ensures Congruent(p, ProductOf(keys, f), ProductOf(keys, g))
  {
    if keys == {} {
      Multiple(p, 0);
    } else {
      var k := Pick(keys);
      ProductCongruent(p, keys - {k}, f, g);
      Product(p, f(k), g(k), ProductOf(keys - {k}, f), ProductOf(keys - {k}, g));
    }
  }

  lemma {:induction false} ProductScaled(keys: set<int>, a: int)
    ensures ProductOf(keys, Scale(a)) == Power(a, |keys|) * ProductOf(keys, Id())
  {
    if keys != {} {
      var k := Pick(keys);
      var rest := keys - {k};
      ProductScaled(rest, a);
      Regroup(a, k, Power(a, |rest|), ProductOf(rest, Id()));
    }
  }

  lemma Regroup(a: int, k: int, s: int, t: int)
    ensures (a * k) * (s * t) == (s * a) * (k * t)
  {
  }

  lemma {:induction false} ProductNotZero(p: int, keys: set<int>)
    requires Prime(p) && forall k | k in keys :: k % p != 0
    ensures ProductOf(keys, Id()) % p != 0
  {
    if keys == {} {
      Remainder(p, 0, 1);
    } else {
      var k := Pick(keys);
      ProductNotZero(p, keys - {k});
      if ProductOf(keys, Id()) % p == 0 {
        Euclid(p, k, ProductOf(keys - {k}, Id()));
      }
    }
  }

  ghost function Remainders(p: int): (s: set<int>)
    requires p >= 1
    ensures (forall i :: i in s <==> 1 <= i < p) && |s| == p - 1
  {
    if p == 1 then {} else Remainders(p - 1) + {p - 1}
  }

  lemma {:induction false} SameSize(part: set<int>, whole: set<int>)
    requires part <= whole && |part| == |whole|
    ensures part == whole
  {
    if part == {} {
      assert whole == {};
    } else {
      var k := Pick(part);
      SameSize(part - {k}, whole - {k});
    }
  }

  lemma ScaleInjective(p: int, a: int, i: int, j: int)
    requires Prime(p) && a % p != 0 && 1 <= i < p && 1 <= j < p && a * i % p == a * j % p
    ensures i == j
  {
    SameRemainder(p, a * i, a * j);
    Cancel(p, a, i, j);
    SameRemainder(p, i, j);
    Remainder(p, 0, i);
    Remainder(p, 0, j);
  }

  lemma ScaleStays(p: int, a: int, i: int)
    requires Prime(p) && a % p != 0 && 1 <= i < p
    ensures 1 <= a * i % p < p
  {
    Reduced(p, a * i);
    if a * i % p == 0 {
      Euclid(p, a, i);
      Remainder(p, 0, i);
    }
  }

  lemma ScaleModInjective(p: int, a: int)
    requires p >= 2 && Prime(p) && a % p != 0
    ensures Injective(Remainders(p), ScaleMod(p, a))
  {
    hide Prime, Remainders;
    var keys, g := Remainders(p), ScaleMod(p, a);
    forall i, j | i in keys && j in keys && g(i) == g(j)
      ensures i == j
    {
      ScaleInjective(p, a, i, j);
    }
  }

  /** Multiplying by `a` maps the remainders one to one onto themselves. */
  lemma Permutes(p: int, a: int)
    requires p >= 2 && Prime(p) && a % p != 0
    ensures Injective(Remainders(p), ScaleMod(p, a)) && Image(Remainders(p), ScaleMod(p, a)) == Remainders(p)
  {
    hide Prime, ProductOf, Injective, Remainders;
    var keys, g := Remainders(p), ScaleMod(p, a);
    ScaleModInjective(p, a);
    ProductImage(keys, g);
    forall i | i in keys
      ensures g(i) in keys
    {
      ScaleStays(p, a, i);
    }
    SameSize(Image(keys, g), keys);
  }

  lemma ScaledProduct(p: int, a: int)
    requires p >= 2 && Prime(p) && a % p != 0
    ensures var product := ProductOf(Remainders(p), Id());
            Congruent(p, product, Power(a, p - 1) * product) && product % p != 0
  {
    hide Prime, ProductOf, Power, Image, Injective;
    var keys := Remainders(p);
    Permutes(p, a);
    ProductImage(keys, ScaleMod(p, a));
    forall i | i in keys
      ensures Congruent(p, ScaleMod(p, a)(i), Scale(a)(i)) && i % p != 0
    {
      Reduced(p, a * i);
      Remainder(p, 0, i);
    }
    ProductCongruent(p, keys, ScaleMod(p, a), Scale(a));
    ProductScaled(keys, a);
    ProductNotZero(p, keys);
  }

  lemma Fermat(p: int, a: int)
    requires p >= 2 && Prime(p) && a % p != 0
    ensures Congruent(p, Power(a, p - 1), 1)
  {
    hide Prime, ProductOf, Power;
    ScaledProduct(p, a);
    var product := ProductOf(Remainders(p), Id());
    Symmetric(p, product, Power(a, p - 1) * product);
    assert Power(a, p - 1) * product == product * Power(a, p - 1) && product == product * 1;
    Cancel(p, product, Power(a, p - 1), 1);
  }

  // ----- The inverse

  /** Inverse by exponentiation; only an exact zero is refused. */
  function ModInverse(a: int, p: int): Option<int>
    requires p >= 2
  {
    if a == 0 then None else Some(Power(a, p - 2) % p)
  }

  /** The result is an inverse exactly for what is not a multiple of the prime. */
  lemma InverseExactly(p: int, a: int)
    requires Prime(p) && a != 0
    ensures Congruent(p, a * ModInverse(a, p).value, 1) <==> a % p != 0
  {
    var v := ModInverse(a, p).value;
    if a % p != 0 {
      Fermat(p, a);
      Reduced(p, Power(a, p - 2));
      Multiple(p, 0);
      Product(p, a, a, v, Power(a, p - 2));
      assert a * Power(a, p - 2) == Power(a, p - 1);
      Transitive(p, a * v, Power(a, p - 1), 1);
    } else {
      Reduced(p, a);
      Multiple(p, 0);
      Product(p, a, 0, v, v);
      SameRemainder(p, a * v, 0);
      if Congruent(p, a * v, 1) {
        SameRemainder(p, a * v, 1);
        Remainder(p, 0, 1);
      }
    }
  }
}
