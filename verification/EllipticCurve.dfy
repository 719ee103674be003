/** Affine arithmetic on y^2 = x^3 - 3x + b modulo a prime; (0, 0) stands for the point at infinity. */
module EllipticCurve {
  import opened Options
  import opened Modular

  type Point = (int, int)

  const INFINITY: Point := (0, 0)

  datatype Curve = Curve(p: int, b: int)

  function Cubic(c: Curve, x: int): int {
    x * x * x - 3 * x + c.b
  }

  /** The congruence holds; coordinates need not be reduced. */
  predicate Satisfies(c: Curve, x: int, y: int)
    requires c.p > 0
  {
    Congruent(c.p, y * y, Cubic(c, x))
  }

  predicate OnCurve(c: Curve, q: Point)
    requires c.p > 0
  {
    q == INFINITY || (0 <= q.0 < c.p && 0 <= q.1 < c.p && Satisfies(c, q.0, q.1))
  }

  /** A curve over a prime field on which (0, 0) does not lie. */
  ghost predicate Sound(c: Curve) {
    c.p >= 5 && Prime(c.p) && c.b % c.p != 0
  }

  // ----- The formulas

  /** The third point on the line with slope `l` through (x1, y1), reflected; `x2` is the other point's abscissa. */
  function Reflect(c: Curve, l: int, x1: int, y1: int, x2: int): Point
    requires c.p > 0
  {
    var x3 := (l * l - x1 - x2) % c.p;
    (x3, (l * (x1 - x3) - y1) % c.p)
  }

  function Slope(c: Curve, numerator: int, denominator: int): Option<int>
    requires c.p >= 2
  {
    var inverse := ModInverse(denominator % c.p, c.p);
    if inverse.None? then None else Some(numerator % c.p * inverse.value % c.p)
  }

  function Double(c: Curve, q: Point): Option<Point>
    requires c.p >= 2
  {
    var (x, y) := q;
    if q == INFINITY then Some(INFINITY)
    else
      var slope := Slope(c, 3 * x * x + (c.p - 3), 2 * y);
      if slope.None? then None else Some(Reflect(c, slope.value, x, y, x))
  }

  function Add(c: Curve, q: Point, r: Point): Option<Point>
    requires c.p >= 2
  {
    if q == INFINITY then Some(r)
    else if r == INFINITY then Some(q)
    else if q.0 == r.0 then
      if q.1 == r.1 then Double(c, q) else Some(INFINITY)
    else
      var slope := Slope(c, r.1 - q.1, r.0 - q.0);
      if slope.None? then None else Some(Reflect(c, slope.value, q.0, q.1, r.0))
  }

  // ----- Polynomial identities

  /** A tangent: what the third point misses the curve by comes from what the given point and the slope miss by. */
  lemma DoubleIdentity(c: Curve, x: int, y: int, l: int, x3: int, y3: int)
    requires x3 == l * l - 2 * x && y3 == l * (x - x3) - y
    ensures y3 * y3 - Cubic(c, x3) == (y * y - Cubic(c, x)) - (l * (2 * y) - (3 * x * x - 3)) * (x - x3)
  {
    hide Cubic;
    var u, m := x - x3, 3 * x * x - 3;
    TangentSquared(l, u, y);
    TangentCubic(c, x, x3);
    SplitProduct(l * (2 * y), m, u);
  }

  lemma TangentSquared(l: int, u: int, y: int)
    ensures (l * u - y) * (l * u - y) == l * l * (u * u) - l * (2 * y) * u + y * y
  {
    var t := l * u;
    assert (t - y) * (t - y) == t * t - 2 * (t * y) + y * y;
    assert t * t == l * l * (u * u) && l * (2 * y) * u == 2 * (t * y);
  }

  lemma SplitProduct(k: int, m: int, u: int)
    ensures (k - m) * u == k * u - m * u
  {
  }

  lemma TangentCubic(c: Curve, x: int, x3: int)
    ensures var u := x - x3; (x3 + 2 * x) * (u * u) - (3 * x * x - 3) * u == Cubic(c, x3) - Cubic(c, x)
  {
    var u, q := x - x3, x * x;
    assert u * u == q - 2 * (x * x3) + x3 * x3;
    assert (x3 + 2 * x) * (u * u) == x3 * (u * u) + 2 * (x * (u * u));
    assert x3 * (u * u) == q * x3 - 2 * (x * (x3 * x3)) + x3 * (x3 * x3);
    assert x * (u * u) == q * x - 2 * (q * x3) + x * (x3 * x3);
    assert (3 * q - 3) * u == 3 * (q * x) - 3 * (q * x3) - 3 * u;
  }

  /** By how much the line through (x1, y1) with slope `l` misses the curve at abscissa `x`. */
  function Miss(c: Curve, l: int, x1: int, y1: int, x: int): int {
    Cubic(c, x) - (l * (x - x1) + y1) * (l * (x - x1) + y1)
  }

  /** The miss is divisible by x - x1 up to its value at x1; this is the quotient. */
  function Quotient(l: int, x1: int, y1: int, x: int): int {
    x * x + x * x1 + x1 * x1 - 3 - l * l * (x - x1) - 2 * (l * y1)
  }

  lemma CubicDifference(c: Curve, x1: int, x: int)
    ensures Cubic(c, x) - Cubic(c, x1) == (x - x1) * (x * x + x * x1 + x1 * x1 - 3)
  {
  }

  lemma LineSquared(l: int, u: int, y1: int)
    ensures (l * u + y1) * (l * u + y1) == l * l * (u * u) + 2 * (l * y1) * u + y1 * y1
  {
    var t := l * u;
    assert (t + y1) * (t + y1) == t * t + 2 * (t * y1) + y1 * y1;
    assert t * t == l * l * (u * u) && t * y1 == (l * y1) * u;
  }

  lemma Distribute(u: int, f: int, s: int, t: int)
    ensures u * (f - s * u - 2 * t) == u * f - s * (u * u) - 2 * t * u
  {
    assert u * (s * u) == s * (u * u);
    assert u * (f - s * u - 2 * t) == u * f - u * (s * u) - 2 * (t * u);
  }

  lemma MissFactors(c: Curve, l: int, x1: int, y1: int, x: int)
    ensures Miss(c, l, x1, y1, x) - Miss(c, l, x1, y1, x1) == (x - x1) * Quotient(l, x1, y1, x)
  {
    CubicDifference(c, x1, x);
    hide Cubic;
    LineSquared(l, x - x1, y1);
    assert l * (x1 - x1) + y1 == y1;
    Distribute(x - x1, x * x + x * x1 + x1 * x1 - 3, l * l, l * y1);
  }

  /** The quotient takes the same value at the second point and at the third. */
  lemma QuotientMeets(l: int, x1: int, y1: int, x2: int, x3: int)
    requires x3 == l * l - x1 - x2
    ensures Quotient(l, x1, y1, x3) == Quotient(l, x1, y1, x2)
  {
    var s := x1 + x2 + x3;
    assert l * l == s;
    assert x3 * x3 + x3 * x1 - s * (x3 - x1) == x2 * x2 + x2 * x1 - s * (x2 - x1) by {
      assert s * (x3 - x1) == x1 * x3 + x2 * x3 + x3 * x3 - x1 * x1 - x2 * x1 - x3 * x1;
      assert s * (x2 - x1) == x1 * x2 + x2 * x2 + x3 * x2 - x1 * x1 - x2 * x1 - x3 * x1;
    }
  }

  // ----- The third point lies on the curve

  lemma SatisfiesReduced(c: Curve, x: int, x': int, y: int, y': int)
    requires c.p > 0 && Congruent(c.p, x, x') && Congruent(c.p, y, y') && Satisfies(c, x, y)
    ensures Satisfies(c, x', y')
  {
    var p := c.p;
    Symmetric(p, x, x');
    Symmetric(p, y, y');
    Product(p, y', y, y', y);
    Product(p, x, x', x, x');
    Product(p, x * x, x' * x', x, x');
    Multiple(p, 0);
    Product(p, 3, 3, x, x');
    Sum(p, x * x * x, x' * x' * x', 3 * x, 3 * x');
    Sum(p, x * x * x - 3 * x, x' * x' * x' - 3 * x', c.b, c.b);
    Transitive(p, y' * y', y * y, Cubic(c, x));
    Transitive(p, y' * y', Cubic(c, x), Cubic(c, x'));
  }

  /** The reduced result differs from the exact one by multiples of the modulus. */
  lemma ReflectReduced(c: Curve, l: int, x1: int, y1: int, x2: int)
    requires c.p > 0
    ensures var (x3, q) := (l * l - x1 - x2, Reflect(c, l, x1, y1, x2));
            && Congruent(c.p, x3, q.0) && Congruent(c.p, l * (x1 - x3) - y1, q.1)
            && 0 <= q.0 < c.p && 0 <= q.1 < c.p
  {
    var p, x3, q := c.p, l * l - x1 - x2, Reflect(c, l, x1, y1, x2);
    Reduced(p, x3);
    Reduced(p, l * (x1 - q.0) - y1);
    Multiple(p, 0);
    Sum(p, x1, x1, x3, q.0);
    Product(p, l, l, x1 - x3, x1 - q.0);
    Sum(p, l * (x1 - x3), l * (x1 - q.0), y1, y1);
    Transitive(p, l * (x1 - x3) - y1, l * (x1 - q.0) - y1, q.1);
  }

  /** The slope solves its linear equation. */
  lemma SlopeSolves(c: Curve, numerator: int, denominator: int)
    requires Sound(c) && denominator % c.p != 0
    ensures Slope(c, numerator, denominator).Some?
    ensures Congruent(c.p, Slope(c, numerator, denominator).value * denominator, numerator)
  {
    var p := c.p;
    Reduced(p, denominator);
    Reduced(p, numerator);
    Remainder(p, 0, denominator % p);
    InverseExactly(p, denominator % p);
    var i, n, d := ModInverse(denominator % p, p).value, numerator % p, denominator % p;
    var l := n * i % p;
    Reduced(p, n * i);
    Product(p, l, n * i, denominator, d);
    assert (n * i) * d == n * (d * i);
    Multiple(p, 0);
    Product(p, n, numerator, d * i, 1);
    Transitive(p, l * denominator, n * (d * i), numerator);
  }

  lemma TangentStays(c: Curve, l: int, x: int, y: int)
    requires c.p > 0 && Satisfies(c, x, y) && Congruent(c.p, l * (2 * y), 3 * x * x - 3)
    ensures OnCurve(c, Reflect(c, l, x, y, x))
  {
    var p, x3 := c.p, l * l - 2 * x;
    var y3 := l * (x - x3) - y;
    DoubleIdentity(c, x, y, l, x3, y3);
    var j := ToMultiple(p, y * y, Cubic(c, x));
    var k := ToMultiple(p, l * (2 * y), 3 * x * x - 3);
    assert k * p * (x - x3) == (k * (x - x3)) * p;
    assert j * p - (k * (x - x3)) * p == (j - k * (x - x3)) * p;
    FromMultiple(p, y3 * y3, Cubic(c, x3), j - k * (x - x3));
    ReflectReduced(c, l, x, y, x);
    var q := Reflect(c, l, x, y, x);
    SatisfiesReduced(c, x3, q.0, y3, q.1);
  }

  /** On a chord the miss vanishes at both given points, so the quotient does at the second, and with it the miss at the
      third. */
  lemma ChordStays(c: Curve, l: int, x1: int, y1: int, x2: int, y2: int)
    requires Sound(c) && Satisfies(c, x1, y1) && Satisfies(c, x2, y2) && (x2 - x1) % c.p != 0
    requires Congruent(c.p, l * (x2 - x1), y2 - y1)
    ensures OnCurve(c, Reflect(c, l, x1, y1, x2))
  {
    var p, x3 := c.p, l * l - x1 - x2;
    MissVanishes(c, l, x1, y1, x1, y1);
    MissVanishes(c, l, x1, y1, x2, y2);
    QuotientVanishes(c, l, x1, y1, x2);
    QuotientMeets(l, x1, y1, x2, x3);
    MissFactors(c, l, x1, y1, x3);
    var g, m1, m3 := Quotient(l, x1, y1, x3), Miss(c, l, x1, y1, x1), Miss(c, l, x1, y1, x3);
    Multiple(p, 0);
    Product(p, x3 - x1, x3 - x1, g, 0);
    Sum(p, (x3 - x1) * g, 0, m1, 0);
    assert m3 == (x3 - x1) * g + m1;
    var y3 := l * (x1 - x3) - y1;
    assert y3 == -(l * (x3 - x1) + y1) by {
      assert l * (x1 - x3) == -(l * (x3 - x1));
    }
    assert y3 * y3 == Cubic(c, x3) - m3;
    var k := ToMultiple(p, m3, 0);
    assert -k * p == -(k * p);
    FromMultiple(p, y3 * y3, Cubic(c, x3), -k);
    ReflectReduced(c, l, x1, y1, x2);
    var q := Reflect(c, l, x1, y1, x2);
    SatisfiesReduced(c, x3, q.0, y3, q.1);
  }

  lemma MissVanishes(c: Curve, l: int, x1: int, y1: int, x: int, y: int)
    requires c.p > 0 && Satisfies(c, x, y) && (Congruent(c.p, l * (x - x1), y - y1) || (x == x1 && y == y1))
    ensures Congruent(c.p, Miss(c, l, x1, y1, x), 0)
  {
    var p, t := c.p, l * (x - x1);
    Multiple(p, 0);
    if x == x1 && y == y1 {
      assert t == 0;
    }
    Sum(p, t, y - y1, y1, y1);
    Product(p, t + y1, y, t + y1, y);
    Transitive(p, (t + y1) * (t + y1), y * y, Cubic(c, x));
    Symmetric(p, (t + y1) * (t + y1), Cubic(c, x));
    Sum(p, Cubic(c, x), (t + y1) * (t + y1), (t + y1) * (t + y1), (t + y1) * (t + y1));
  }

  lemma QuotientVanishes(c: Curve, l: int, x1: int, y1: int, x2: int)
    requires Sound(c) && (x2 - x1) % c.p != 0
    requires Congruent(c.p, Miss(c, l, x1, y1, x1), 0) && Congruent(c.p, Miss(c, l, x1, y1, x2), 0)
    ensures Congruent(c.p, Quotient(l, x1, y1, x2), 0)
  {
    MissFactors(c, l, x1, y1, x2);
    Sum(c.p, Miss(c, l, x1, y1, x2), 0, Miss(c, l, x1, y1, x1), 0);
    Euclid(c.p, x2 - x1, Quotient(l, x1, y1, x2));
  }

  // ----- Closure

  lemma TwiceNotZero(c: Curve, y: int)
    requires Sound(c) && 0 < y < c.p
    ensures (2 * y) % c.p != 0
  {
    Remainder(c.p, 0, 2);
    Remainder(c.p, 0, y);
    if (2 * y) % c.p == 0 {
      Euclid(c.p, 2, y);
    }
  }

  /** Doubling stays on the curve, and is refused exactly for the points of order two. */
  lemma DoubleStays(c: Curve, q: Point)
    requires Sound(c) && OnCurve(c, q)
    ensures Double(c, q).None? <==> q != INFINITY && q.1 == 0
    ensures Double(c, q).Some? ==> OnCurve(c, Double(c, q).value)
  {
    var (p, x, y) := (c.p, q.0, q.1);
    if q != INFINITY && y == 0 {
      Remainder(p, 0, 0);
    } else if q != INFINITY {
      TwiceNotZero(c, y);
      SlopeSolves(c, 3 * x * x + (p - 3), 2 * y);
      var l := Slope(c, 3 * x * x + (p - 3), 2 * y).value;
      FromMultiple(p, 3 * x * x + (p - 3), 3 * x * x - 3, 1);
      Transitive(p, l * (2 * y), 3 * x * x + (p - 3), 3 * x * x - 3);
      TangentStays(c, l, x, y);
    }
  }

  lemma Distinct(c: Curve, x1: int, x2: int)
    requires c.p > 0 && 0 <= x1 < c.p && 0 <= x2 < c.p && x1 != x2
    ensures (x2 - x1) % c.p != 0
  {
    if (x2 - x1) % c.p == 0 {
      SameRemainder(c.p, x2, x1);
      Remainder(c.p, 0, x1);
      Remainder(c.p, 0, x2);
    }
  }

  /** Adding stays on the curve, and is refused exactly where doubling is. */
  lemma AddStays(c: Curve, q: Point, r: Point)
    requires Sound(c) && OnCurve(c, q) && OnCurve(c, r)
    ensures Add(c, q, r).None? <==> q == r && q != INFINITY && q.1 == 0
    ensures Add(c, q, r).Some? ==> OnCurve(c, Add(c, q, r).value)
  {
    hide Prime, Satisfies, Reflect, Slope;
    if q != INFINITY && r != INFINITY {
      if q.0 == r.0 {
        DoubleStays(c, q);
      } else {
        Distinct(c, q.0, r.0);
        SlopeSolves(c, r.1 - q.1, r.0 - q.0);
        ChordStays(c, Slope(c, r.1 - q.1, r.0 - q.0).value, q.0, q.1, r.0, r.1);
      }
    }
  }
}
