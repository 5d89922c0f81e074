/** Vectors and matrices over a commutative ring: inner products, and moving a matrix across one. */
module InnerProducts {
  import opened Rings
  import opened Vectors

  /** The sum of products, from the left, starting with zero. */
  function Dot<T>(R: Ops<T>, a: seq<T>, b: seq<T>): T
    requires |a| == |b|
    decreases |a|
  {
    if a == [] then R.zero
    else Add(R, Dot(R, a[..|a| - 1], b[..|b| - 1]), Mul(R, a[|a| - 1], b[|b| - 1]))
  }

  function Column<T>(m: seq<seq<T>>, j: nat): (c: seq<T>)
    requires forall i :: 0 <= i < |m| ==> j < |m[i]|
    ensures |c| == |m| && forall i :: 0 <= i < |m| ==> c[i] == m[i][j]
  {
    seq(|m|, i requires 0 <= i < |m| => m[i][j])
  }

  predicate Matrix<T>(m: seq<seq<T>>, n: nat) {
    forall i :: 0 <= i < |m| ==> |m[i]| == n
  }

  function Apply<T>(R: Ops<T>, m: seq<seq<T>>, n: nat, s: seq<T>): (t: seq<T>)
    requires Matrix(m, n) && |s| == n
    ensures |t| == |m| && forall i :: 0 <= i < |m| ==> t[i] == Dot(R, m[i], s)
  {
    seq(|m|, i requires 0 <= i < |m| => Dot(R, m[i], s))
  }

  /** The transposed matrix applied to y. */
  function ApplyTransposed<T>(R: Ops<T>, m: seq<seq<T>>, n: nat, y: seq<T>): (t: seq<T>)
    requires Matrix(m, n) && |y| == |m|
    ensures |t| == n && forall j :: 0 <= j < n ==> t[j] == Dot(R, Column(m, j), y)
  {
    seq(n, j requires 0 <= j < n => Dot(R, Column(m, j), y))
  }

  lemma {:induction false} DotAdd<T(!new)>(R: Ops<T>, s: seq<T>, a: seq<T>, b: seq<T>)
    requires IsRing(R) && |s| == |a| == |b|
    ensures Dot(R, s, VAdd(R, a, b)) == Add(R, Dot(R, s, a), Dot(R, s, b))
    decreases |s|
  {
    var n := |s| - 1;
    if s == [] {
      assert ZeroAt(R, R.zero);
    } else {
      assert VAdd(R, a, b)[..n] == VAdd(R, a[..n], b[..n]);
      DotAdd(R, s[..n], a[..n], b[..n]);
      assert DistribAt(R, s[n], a[n], b[n]);
      AddSwap(R, Dot(R, s[..n], a[..n]), Dot(R, s[..n], b[..n]), Mul(R, s[n], a[n]), Mul(R, s[n], b[n]));
    }
  }

  lemma {:induction false} DotScale<T(!new)>(R: Ops<T>, s: seq<T>, k: T, a: seq<T>)
    requires IsRing(R) && |s| == |a|
    ensures Dot(R, s, VScale(R, k, a)) == Mul(R, k, Dot(R, s, a))
    decreases |s|
  {
    var n := |s| - 1;
    if s == [] {
      MulZero(R, k);
    } else {
      assert VScale(R, k, a)[..n] == VScale(R, k, a[..n]);
      DotScale(R, s[..n], k, a[..n]);
      MulSwap(R, s[n], k, a[n]);
      assert DistribAt(R, k, Dot(R, s[..n], a[..n]), Mul(R, s[n], a[n]));
    }
  }

  lemma {:induction false} DotComm<T(!new)>(R: Ops<T>, a: seq<T>, b: seq<T>)
    requires IsRing(R) && |a| == |b|
    ensures Dot(R, a, b) == Dot(R, b, a)
    decreases |a|
  {
    if a != [] {
      var n := |a| - 1;
      DotComm(R, a[..n], b[..n]);
      assert MulCommAt(R, a[n], b[n]);
    }
  }

  lemma {:induction false} DotZeros<T(!new)>(R: Ops<T>, s: seq<T>)
    requires IsRing(R)
    ensures Dot(R, s, Zeros(R, |s|)) == R.zero
    decreases |s|
  {
    if s != [] {
      var n := |s| - 1;
      assert Zeros(R, |s|)[..n] == Zeros(R, n);
      DotZeros(R, s[..n]);
      MulZero(R, s[n]);
      assert ZeroAt(R, R.zero);
    }
  }

  /** A transposed product grows by one scaled row. */
  lemma TransposedRow<T(!new)>(R: Ops<T>, m: seq<seq<T>>, n: nat, y: seq<T>)
    requires IsRing(R) && m != [] && Matrix(m, n) && |y| == |m|
    ensures var k := |m| - 1;
            ApplyTransposed(R, m, n, y) == VAdd(R, ApplyTransposed(R, m[..k], n, y[..k]), VScale(R, y[k], m[k]))
  {
    var k := |m| - 1;
    forall j | 0 <= j < n
      ensures Dot(R, Column(m, j), y) == Add(R, Dot(R, Column(m[..k], j), y[..k]), Mul(R, y[k], m[k][j]))
    {
      assert Column(m, j)[..k] == Column(m[..k], j);
      assert MulCommAt(R, y[k], m[k][j]);
    }
  }

  /** <m s, y> = <s, m^T y> */
  lemma {:induction false} Adjoint<T(!new)>(R: Ops<T>, m: seq<seq<T>>, n: nat, s: seq<T>, y: seq<T>)
    requires IsRing(R) && Matrix(m, n) && |s| == n && |y| == |m|
    ensures Dot(R, Apply(R, m, n, s), y) == Dot(R, s, ApplyTransposed(R, m, n, y))
    decreases |m|
  {
    var k := |m| - 1;
    var t := ApplyTransposed(R, m, n, y);
    if m == [] {
      assert t == Zeros(R, |s|);
      DotZeros(R, s);
    } else {
      Adjoint(R, m[..k], n, s, y[..k]);
      assert Apply(R, m, n, s)[..k] == Apply(R, m[..k], n, s);
      TransposedRow(R, m, n, y);
      var u := ApplyTransposed(R, m[..k], n, y[..k]);
      DotAdd(R, s, u, VScale(R, y[k], m[k]));
      DotScale(R, s, y[k], m[k]);
      DotComm(R, s, m[k]);
      assert MulCommAt(R, y[k], Dot(R, m[k], s));
    }
  }

  /** What decryption leaves: v - <s, u'> = mu + noise, where t = m s + e, u = m^T y + e1, v = <t, y> + e2 + mu, and
      u' = u + cu, v' = v + cv are the decompressed values. */
  function Noise<T>(R: Ops<T>, s: seq<T>, e: seq<T>, y: seq<T>, e1: seq<T>, e2: T, cu: seq<T>, cv: T): T
    requires |s| == |e| == |y| == |e1| == |cu|
  {
    Sub(R, Add(R, Add(R, Dot(R, e, y), e2), cv), Dot(R, s, VAdd(R, e1, cu)))
  }

  lemma DecryptionEquation<T(!new)>(R: Ops<T>, m: seq<seq<T>>, s: seq<T>, e: seq<T>, y: seq<T>, e1: seq<T>, e2: T,
      mu: T, cu: seq<T>, cv: T)
    requires IsRing(R) && |m| == |s| == |e| == |y| == |e1| == |cu| && Matrix(m, |m|)
    ensures var t := VAdd(R, Apply(R, m, |m|, s), e);
            var u := VAdd(R, ApplyTransposed(R, m, |m|, y), e1);
            var v := Add(R, Add(R, Dot(R, t, y), e2), mu);
            Sub(R, Add(R, v, cv), Dot(R, s, VAdd(R, u, cu))) == Add(R, mu, Noise(R, s, e, y, e1, e2, cu, cv))
  {
    var n := |m|;
    var ms, mty := Apply(R, m, n, s), ApplyTransposed(R, m, n, y);
    Adjoint(R, m, n, s, y);
    DotComm(R, VAdd(R, ms, e), y);
    DotAdd(R, y, ms, e);
    DotComm(R, y, ms);
    DotComm(R, y, e);
    VAddAssoc(R, mty, e1, cu);
    DotAdd(R, s, mty, VAdd(R, e1, cu));
    var p, q, d := Dot(R, ms, y), Dot(R, e, y), Dot(R, s, VAdd(R, e1, cu));
    Collect(R, p, q, e2, mu, cv, d);
  }

  /** (((p + q) + e) + m + c) - (p + d) = m + (((q + e) + c) - d) */
  lemma Collect<T(!new)>(R: Ops<T>, p: T, q: T, e: T, m: T, c: T, d: T)
    requires IsRing(R)
    ensures Sub(R, Add(R, Add(R, Add(R, Add(R, p, q), e), m), c), Add(R, p, d)) ==
            Add(R, m, Sub(R, Add(R, Add(R, q, e), c), d))
  {
    var qe := Add(R, q, e);
    assert AddAssocAt(R, p, q, e);
    assert AddAssocAt(R, Add(R, p, qe), m, c);
    var mc := Add(R, m, c);
    assert AddAssocAt(R, p, qe, mc);
    var x := Add(R, qe, mc);
    CancelFront(R, p, x, d);
    var qec := Add(R, qe, c);
    assert AddAssocAt(R, qe, m, c) && AddCommAt(R, qe, m) && AddAssocAt(R, m, qe, c);
    assert x == Add(R, m, qec);
    assert SubAt(R, x, d) && SubAt(R, qec, d) && AddAssocAt(R, m, qec, Neg(R, d));
  }

  /** (p + x) - (p + d) = x - d */
  lemma CancelFront<T(!new)>(R: Ops<T>, p: T, x: T, d: T)
    requires IsRing(R)
    ensures Sub(R, Add(R, p, x), Add(R, p, d)) == Sub(R, x, d)
  {
    assert SubAt(R, Add(R, p, x), Add(R, p, d)) && SubAt(R, x, d);
    NegAdd(R, p, d);
    AddSwap(R, p, x, Neg(R, p), Neg(R, d));
    assert ZeroAt(R, p) && ZeroAt(R, Add(R, x, Neg(R, d)));
  }
}
