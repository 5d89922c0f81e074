/** The curve y^2 = x^3 + a x^2 + x modulo m: what the tangent and the chord give for the coordinates of the double of
    a point, and of the sum and the difference of two points. */
module MontgomeryCurve {
  import opened ModArith

  // ---- congruence --------------------------------------------------------------------------------------------------

  ghost predicate Same(m: nat, a: int, b: int)
    requires m > 0
  {
    a % m == b % m
  }

  lemma SameOps(m: nat, a: int, a': int, b: int, b': int)
    requires m > 0 && Same(m, a, a') && Same(m, b, b')
    ensures Same(m, a + b, a' + b') && Same(m, a - b, a' - b') && Same(m, a * b, a' * b')
  {
    ModAdd(a, b, m);
    ModAdd(a', b', m);
    ModAdd(a', b, m);
    ModMul(a, b, m);
    ModMul(a', b', m);
    ModMul(a', b, m);
  }

  lemma SameTrans(m: nat, a: int, b: int, c: int)
    requires m > 0 && Same(m, a, b) && (Same(m, b, c) || Same(m, c, b))
    ensures Same(m, a, c) && Same(m, c, a)
  {
  }

  lemma SameSelf(m: nat, a: int)
    requires m > 0
    ensures Same(m, a, a)
  {
  }

  // ---- polynomials -------------------------------------------------------------------------------------------------

  function Cubic(a: int, x: int): int { x * x * x + a * (x * x) + x }

  lemma CubicFactors(a: int, x: int)
    ensures Cubic(a, x) == x * (x * x + a * x + 1)
  {
    Distribute(x, x * x, a * x, 1);
    assert x * (a * x) == a * (x * x);
  }

  lemma Distribute(k: int, p: int, q: int, r: int)
    ensures k * (p + q + r) == k * p + k * q + k * r && k * (p - q) == k * p - k * q
  {
  }

  lemma SquareOfSum(p: int, q: int)
    ensures (p + q) * (p + q) == p * p + 2 * (p * q) + q * q && (p - q) * (p - q) == p * p - 2 * (p * q) + q * q
    ensures (p - q) * (p + q) == p * p - q * q
  {
  }

  lemma Regroup(p: int, q: int, r: int, t: int)
    ensures p * q * (r * t) == p * r * (q * t)
  {
  }

  lemma NineTerms(u: int, b: int, v: int, c: int)
    ensures (u + b + 1) * (v + c + 1) == u * v + u * c + b * v + b * c + u + b + v + c + 1
  {
    Distribute(u, v, c, 1);
    Distribute(b, v, c, 1);
    assert (u + b + 1) * (v + c + 1) == u * (v + c + 1) + b * (v + c + 1) + (v + c + 1);
  }

  // ---- the tangent -------------------------------------------------------------------------------------------------

  /** The numerator of the slope of the tangent, over 2 y. */
  function Slope(a: int, x: int): int { 3 * (x * x) + 2 * a * x + 1 }

  /** The coordinate of the double is the square of the slope minus a and 2 x, here times (2 y)^2. */
  lemma TangentLaw(m: nat, a: int, x: int, y: int)
    requires m > 0 && Same(m, y * y, Cubic(a, x))
    ensures Same(m, (2 * y) * (2 * y), 4 * x * (x * x + a * x + 1))
    ensures Same(m, Slope(a, x) * Slope(a, x) - (a + 2 * x) * ((2 * y) * (2 * y)), (x * x - 1) * (x * x - 1))
  {
    var n, f, k := Slope(a, x), Cubic(a, x), a + 2 * x;
    CubicFactors(a, x);
    TangentPolynomial(a, x);
    assert (2 * y) * (2 * y) == 4 * (y * y) && 4 * f == 4 * x * (x * x + a * x + 1);
    hide Same, Cubic, Slope;
    SameSelf(m, 4);
    SameSelf(m, k);
    SameSelf(m, n * n);
    SameOps(m, 4, 4, y * y, f);
    SameOps(m, k, k, 4 * (y * y), 4 * f);
    SameOps(m, n * n, n * n, k * (4 * (y * y)), k * (4 * f));
  }

  lemma TangentPolynomial(a: int, x: int)
    ensures Slope(a, x) * Slope(a, x) - (a + 2 * x) * (4 * Cubic(a, x)) == (x * x - 1) * (x * x - 1)
  {
    TimesCubic(a, x);
    SlopeSquare(a, x);
    SquareOfSum(x * x, 1);
    hide Cubic, Slope;
    var f := Cubic(a, x);
    assert (a + 2 * x) * (4 * f) == 4 * (a * f) + 8 * (x * f);
  }

  lemma SlopeSquare(a: int, x: int)
    ensures var s, c, b := x * x, x * x * x, a * x;
            Slope(a, x) * Slope(a, x) == 9 * (s * s) + 12 * (a * c) + 6 * s + 4 * (b * b) + 4 * b + 1
  {
    var s, c, b := x * x, x * x * x, a * x;
    assert Slope(a, x) == 3 * s + (2 * b + 1) by { assert 2 * a * x == 2 * b; }
    hide Slope;
    SlopeTerms(s, b);
    assert s * b == a * c;
  }

  lemma SlopeTerms(s: int, b: int)
    ensures var n := 3 * s + (2 * b + 1);
            n * n == 9 * (s * s) + 12 * (s * b) + 6 * s + 4 * (b * b) + 4 * b + 1
  {
    SquareOfSum(3 * s, 2 * b + 1);
    SquareOfSum(2 * b, 1);
    Distribute(3 * s, 2 * b, 1, 0);
  }

  lemma TimesCubic(a: int, x: int)
    ensures var s, c := x * x, x * x * x;
            x * Cubic(a, x) == s * s + a * c + s && a * Cubic(a, x) == a * c + (a * x) * (a * x) + a * x
  {
    var s, c := x * x, x * x * x;
    Distribute(x, c, a * s, x);
    Distribute(a, c, a * s, x);
    assert x * c == s * s && x * (a * s) == a * c && a * (a * s) == (a * x) * (a * x);
  }

  // ---- the chord ---------------------------------------------------------------------------------------------------

  /** The coordinate of the third point on the chord, reflected: the square of the slope (y' - y) / (x' - x) minus a, x
      and x', here times (x' - x)^2. */
  function Chord(a: int, x: int, y: int, x': int, y': int): int {
    (y' - y) * (y' - y) - (a + x + x') * ((x' - x) * (x' - x))
  }

  /** The coordinates of the sum and of the difference multiply to (x x' - 1)^2 over (x' - x)^2. */
  lemma ChordLaw(m: nat, a: int, x: int, y: int, x': int, y': int)
    requires m > 0 && Same(m, y * y, Cubic(a, x)) && Same(m, y' * y', Cubic(a, x'))
    ensures var d := (x' - x) * (x' - x);
            Same(m, Chord(a, x, y, x', y') * Chord(a, x, -y, x', y'), d * ((x * x' - 1) * (x * x' - 1)))
  {
    var d := (x' - x) * (x' - x);
    var p, q, f, g, k := y * y, y' * y', Cubic(a, x), Cubic(a, x'), (a + x + x') * d;
    ChordProduct(a, x, y, x', y', k);
    ChordPolynomial(a, x, x');
    hide Same, Cubic, Chord;
    SameSelf(m, k);
    SameSelf(m, 4);
    SameOps(m, p, f, q, g);
    SameOps(m, p + q, f + g, k, k);
    var u, v := p + q - k, f + g - k;
    SameOps(m, u, v, u, v);
    SameOps(m, 4, 4, p * q, f * g);
    SameOps(m, u * u, v * v, 4 * (p * q), 4 * (f * g));
  }

  /** If u is the coordinate of the difference of two points, 4 (x x' - 1)^2 over 4 u (x - x')^2 is that of the sum. */
  lemma SumLaw(m: nat, a: int, u: int, x: int, y: int, x': int, y': int, sx: int, sz: int)
    requires m > 0 && Same(m, y * y, Cubic(a, x)) && Same(m, y' * y', Cubic(a, x'))
    requires Same(m, u * ((x' - x) * (x' - x)), Chord(a, x, -y, x', y'))
    requires Same(m, sx, 4 * ((x * x' - 1) * (x * x' - 1))) && Same(m, sz, 4 * u * ((x - x') * (x - x')))
    ensures Same(m, (x' - x) * (x' - x) * sx, Chord(a, x, y, x', y') * sz)
  {
    hide Same, Cubic, Chord;
    var d, t := (x' - x) * (x' - x), (x * x' - 1) * (x * x' - 1);
    assert (x - x') * (x - x') == d by { assert x - x' == -(x' - x); }
    assert 4 * u * d == 4 * (u * d);
    ChordLaw(m, a, x, y, x', y');
    QuotientsAgree(m, sx, sz, u * d, d, t, Chord(a, x, y, x', y'), Chord(a, x, -y, x', y'));
  }

  lemma QuotientsAgree(m: nat, sx: int, sz: int, v: int, d: int, t: int, sum: int, difference: int)
    requires m > 0 && Same(m, sx, 4 * t) && Same(m, sz, 4 * v) && Same(m, v, difference)
    requires Same(m, sum * difference, d * t)
    ensures Same(m, d * sx, sum * sz)
  {
    hide Same;
    SameSelf(m, 4);
    SameSelf(m, d);
    SameSelf(m, sum);
    SameOps(m, 4, 4, v, difference);
    SameTrans(m, sz, 4 * v, 4 * difference);
    SameOps(m, sum, sum, sz, 4 * difference);
    SameOps(m, 4, 4, sum * difference, d * t);
    SameOps(m, d, d, sx, 4 * t);
    assert sum * (4 * difference) == 4 * (sum * difference) && d * (4 * t) == 4 * (d * t);
    SameTrans(m, sum * sz, 4 * (sum * difference), 4 * (d * t));
    SameTrans(m, d * sx, 4 * (d * t), sum * sz);
  }

  lemma ChordProduct(a: int, x: int, y: int, x': int, y': int, k: int)
    requires k == (a + x + x') * ((x' - x) * (x' - x))
    ensures var u := y * y + y' * y' - k;
            Chord(a, x, y, x', y') * Chord(a, x, -y, x', y') == u * u - 4 * (y * y * (y' * y'))
  {
    var u, c := y * y + y' * y' - k, y' * y;
    SquareOfSum(y', y);
    assert y' - -y == y' + y;
    SquareOfSum(u, 2 * c);
    Regroup(y', y, y', y);
  }

  lemma ChordPolynomial(a: int, x: int, x': int)
    ensures var d := (x' - x) * (x' - x); var v := Cubic(a, x) + Cubic(a, x') - (a + x + x') * d;
            v * v - 4 * (Cubic(a, x) * Cubic(a, x')) == d * ((x * x' - 1) * (x * x' - 1))
  {
    SumOfCubics(a, x, x');
    ProductOfCubics(a, x, x');
    SymmetricIdentity(a, x + x', x * x');
    SquareOfSum(x', x);
    SquareOfSum(x, x');
    hide Cubic;
    assert (x' - x) * (x' - x) == (x + x') * (x + x') - 4 * (x * x');
  }

  lemma SumOfCubics(a: int, x: int, x': int)
    ensures Cubic(a, x) + Cubic(a, x') - (a + x + x') * ((x' - x) * (x' - x)) ==
            2 * (a * (x * x')) + (x + x') * (x * x' + 1)
  {
    var w := x * x';
    SquareOfSum(x', x);
    Distribute(a, x * x, x' * x', -2 * w);
    SideTerms(x, x');
    SideTerms(x', x);
    var d := x * x + x' * x' - 2 * w;
    assert (a + x + x') * d == a * d + x * d + x' * d;
    assert (x + x') * (w + 1) == x * w + x' * w + x + x' by { assert (x + x') * (w + 1) == x * (w + 1) + x' * (w + 1); }
  }

  lemma SideTerms(x: int, x': int)
    ensures x * (x * x + x' * x' - 2 * (x * x')) == x * x * x + x' * (x * x') - 2 * (x * (x * x'))
    ensures x' * x == x * x'
  {
    Distribute(x, x * x, x' * x', -2 * (x * x'));
    assert x * (x' * x') == x' * (x * x') && x * (-2 * (x * x')) == -2 * (x * (x * x'));
  }

  lemma ProductOfCubics(a: int, x: int, x': int)
    ensures var s, m := x + x', x * x';
            Cubic(a, x) * Cubic(a, x') == m * ((m - 1) * (m - 1) + a * m * a + (a * (s * (m + 1)) + s * s))
  {
    CubicFactors(a, x);
    CubicFactors(a, x');
    QuadraticProduct(a, x, x');
    hide Cubic;
    Regroup(x, x * x + a * x + 1, x', x' * x' + a * x' + 1);
  }

  lemma QuadraticProduct(a: int, x: int, x': int)
    ensures var s, m := x + x', x * x';
            (x * x + a * x + 1) * (x' * x' + a * x' + 1) == (m - 1) * (m - 1) + a * m * a + (a * (s * (m + 1)) + s * s)
  {
    var s, m := x + x', x * x';
    NineTerms(x * x, a * x, x' * x', a * x');
    Regroup(x, x, x', x');
    Regroup(a, x, a, x');
    CrossTerms(a, x, x');
    SquareOfSum(m, 1);
    SquareOfSum(x, x');
    assert a * a * m == a * m * a;
  }

  /** The terms of the product that are linear in a. */
  lemma CrossTerms(a: int, x: int, x': int)
    ensures x * x * (a * x') + a * x * (x' * x') + a * x + a * x' == a * ((x + x') * (x * x' + 1))
  {
    var m := x * x';
    assert x * x * (a * x') == a * (x * m) && a * x * (x' * x') == a * (x' * m);
    assert (x + x') * (m + 1) == x * m + x' * m + (x + x');
    Distribute(a, x * m, x' * m, x + x');
    Distribute(a, x, x', 0);
  }

  /** With s = x + x' and m = x x'. */
  lemma SymmetricIdentity(a: int, s: int, m: int)
    ensures var v, t := 2 * (a * m) + s * (m + 1), (m - 1) * (m - 1);
            v * v - 4 * (m * (t + a * m * a + (a * (s * (m + 1)) + s * s))) == (s * s - 4 * m) * t
  {
    var b, r, t := a * m, s * (m + 1), (m - 1) * (m - 1);
    SquareOfSum(2 * b, r);
    FourFold(b, r);
    Distribute(m, t, b * a, a * r + s * s);
    Distribute(m, a * r, s * s, 0);
    Regroup(m, a, b, 1);
    assert m * (b * a) == b * b && m * (a * r) == b * r;
    SquareOfSide(s, m);
    assert (s * s - 4 * m) * t == s * s * t - 4 * (m * t) by { Distribute(t, s * s, 4 * m, 0); }
  }

  lemma FourFold(b: int, r: int)
    ensures 2 * b * (2 * b) == 4 * (b * b) && 2 * b * r == 2 * (b * r)
  {
  }

  lemma SquareOfSide(s: int, m: int)
    ensures s * (m + 1) * (s * (m + 1)) == s * s * ((m - 1) * (m - 1)) + 4 * (m * (s * s))
  {
    var t := (m - 1) * (m - 1);
    Regroup(s, m + 1, s, m + 1);
    SquareOfSum(m, 1);
    Distribute(s * s, t, 4 * m, 0);
    assert s * s * (4 * m) == 4 * (m * (s * s));
  }
}
