/** The ring R[x]/(x^n - c), with a polynomial held as the vector of its n coefficients.

    Multiplication is by Horner's rule: `Act(R, c, p, b)` applies the polynomial p, of any length, to the
    vector b, where `Shift` is multiplication by x. */
module QuotientRing {
  import opened Rings
  import opened Vectors

  /** x * a in R[x]/(x^n - c): the top coefficient wraps around, multiplied by c. */
  function Shift<T>(R: Ops<T>, c: T, a: seq<T>): (v: seq<T>)
    ensures |v| == |a|
  {
    seq(|a|, i requires 0 <= i < |a| => if i == 0 then Mul(R, c, a[|a| - 1]) else a[i - 1])
  }

  function Act<T>(R: Ops<T>, c: T, p: seq<T>, b: seq<T>): (v: seq<T>)
    ensures |v| == |b|
    decreases |p|
  {
    if p == [] then Zeros(R, |b|)
    else VAdd(R, VScale(R, p[0], b), Shift(R, c, Act(R, c, p[1..], b)))
  }

  /** x^k * a */
  function ShiftN<T>(R: Ops<T>, c: T, k: nat, a: seq<T>): (v: seq<T>)
    ensures |v| == |a|
  {
    if k == 0 then a else Shift(R, c, ShiftN(R, c, k - 1, a))
  }

  lemma ShiftAdd<T(!new)>(R: Ops<T>, c: T, a: seq<T>, b: seq<T>)
    requires IsRing(R) && |a| == |b|
    ensures Shift(R, c, VAdd(R, a, b)) == VAdd(R, Shift(R, c, a), Shift(R, c, b))
  {
    forall i | 0 <= i < |a|
      ensures Shift(R, c, VAdd(R, a, b))[i] == VAdd(R, Shift(R, c, a), Shift(R, c, b))[i]
    {
      assert DistribAt(R, c, a[|a| - 1], b[|a| - 1]);
    }
  }

  lemma ShiftScale<T(!new)>(R: Ops<T>, c: T, k: T, a: seq<T>)
    requires IsRing(R)
    ensures Shift(R, c, VScale(R, k, a)) == VScale(R, k, Shift(R, c, a))
  {
    forall i | 0 <= i < |a|
      ensures Shift(R, c, VScale(R, k, a))[i] == VScale(R, k, Shift(R, c, a))[i]
    {
      MulSwap(R, c, k, a[|a| - 1]);
    }
  }

  lemma ShiftZeros<T(!new)>(R: Ops<T>, c: T, n: nat)
    requires IsRing(R)
    ensures Shift(R, c, Zeros(R, n)) == Zeros(R, n)
  {
    MulZero(R, c);
  }

  /** Multiplication is additive in the vector. */
  lemma {:induction false} ActAdd<T(!new)>(R: Ops<T>, c: T, p: seq<T>, a: seq<T>, b: seq<T>)
    requires IsRing(R) && |a| == |b|
    ensures Act(R, c, p, VAdd(R, a, b)) == VAdd(R, Act(R, c, p, a), Act(R, c, p, b))
    decreases |p|
  {
    if p == [] {
      VAddZero(R, Zeros(R, |a|));
    } else {
      var ra, rb := Act(R, c, p[1..], a), Act(R, c, p[1..], b);
      ActAdd(R, c, p[1..], a, b);
      ShiftAdd(R, c, ra, rb);
      VScaleAdd(R, p[0], a, b);
      VAddSwap(R, VScale(R, p[0], a), VScale(R, p[0], b), Shift(R, c, ra), Shift(R, c, rb));
    }
  }

  lemma {:induction false} ActScale<T(!new)>(R: Ops<T>, c: T, p: seq<T>, k: T, b: seq<T>)
    requires IsRing(R)
    ensures Act(R, c, p, VScale(R, k, b)) == VScale(R, k, Act(R, c, p, b))
    decreases |p|
  {
    if p == [] {
      VScaleZero(R, k, |b|);
    } else {
      var r := Act(R, c, p[1..], b);
      ActScale(R, c, p[1..], k, b);
      ShiftScale(R, c, k, r);
      VScaleScale(R, p[0], k, b);
      VScaleAdd(R, k, VScale(R, p[0], b), Shift(R, c, r));
    }
  }

  lemma {:induction false} ActShift<T(!new)>(R: Ops<T>, c: T, p: seq<T>, b: seq<T>)
    requires IsRing(R)
    ensures Act(R, c, p, Shift(R, c, b)) == Shift(R, c, Act(R, c, p, b))
    decreases |p|
  {
    if p == [] {
      ShiftZeros(R, c, |b|);
    } else {
      var r := Act(R, c, p[1..], b);
      ActShift(R, c, p[1..], b);
      ShiftScale(R, c, p[0], b);
      ShiftAdd(R, c, VScale(R, p[0], b), Shift(R, c, r));
    }
  }

  /** Multiplication is additive in the polynomial. */
  lemma {:induction false} AddAct<T(!new)>(R: Ops<T>, c: T, p: seq<T>, q: seq<T>, b: seq<T>)
    requires IsRing(R) && |p| == |q|
    ensures Act(R, c, VAdd(R, p, q), b) == VAdd(R, Act(R, c, p, b), Act(R, c, q, b))
    decreases |p|
  {
    if p == [] {
      VAddZero(R, Zeros(R, |b|));
    } else {
      var rp, rq := Act(R, c, p[1..], b), Act(R, c, q[1..], b);
      assert VAdd(R, p, q)[1..] == VAdd(R, p[1..], q[1..]);
      AddAct(R, c, p[1..], q[1..], b);
      ShiftAdd(R, c, rp, rq);
      VAddScale(R, p[0], q[0], b);
      VAddSwap(R, VScale(R, p[0], b), VScale(R, q[0], b), Shift(R, c, rp), Shift(R, c, rq));
    }
  }

  lemma {:induction false} ScaleAct<T(!new)>(R: Ops<T>, c: T, k: T, p: seq<T>, b: seq<T>)
    requires IsRing(R)
    ensures Act(R, c, VScale(R, k, p), b) == VScale(R, k, Act(R, c, p, b))
    decreases |p|
  {
    if p == [] {
      VScaleZero(R, k, |b|);
    } else {
      var r := Act(R, c, p[1..], b);
      assert VScale(R, k, p)[1..] == VScale(R, k, p[1..]);
      ScaleAct(R, c, k, p[1..], b);
      ShiftScale(R, c, k, r);
      VScaleScale(R, k, p[0], b);
      VScaleAdd(R, k, VScale(R, p[0], b), Shift(R, c, r));
    }
  }

  /** (p + x^|p| q) b = p b + x^|p| (q b) */
  lemma {:induction false} ActConcat<T(!new)>(R: Ops<T>, c: T, p: seq<T>, q: seq<T>, b: seq<T>)
    requires IsRing(R)
    ensures Act(R, c, p + q, b) == VAdd(R, Act(R, c, p, b), ShiftN(R, c, |p|, Act(R, c, q, b)))
    decreases |p|
  {
    var t := Act(R, c, q, b);
    if p == [] {
      assert p + q == q;
      VAddZero(R, t);
    } else {
      var r := Act(R, c, p[1..], b);
      assert (p + q)[1..] == p[1..] + q;
      ActConcat(R, c, p[1..], q, b);
      ShiftAdd(R, c, r, ShiftN(R, c, |p| - 1, t));
      VAddAssoc(R, VScale(R, p[0], b), Shift(R, c, r), ShiftN(R, c, |p|, t));
    }
  }

  /** The coefficients of x^k a, for k up to n. */
  lemma {:induction false} ShiftNAt<T(!new)>(R: Ops<T>, c: T, k: nat, a: seq<T>, i: nat)
    requires k <= |a| && i < |a|
    ensures ShiftN(R, c, k, a)[i] == if i < k then Mul(R, c, a[|a| + i - k]) else a[i - k]
    decreases k
  {
    if k > 0 {
      if i == 0 {
        ShiftNAt(R, c, k - 1, a, |a| - 1);
      } else {
        ShiftNAt(R, c, k - 1, a, i - 1);
      }
    }
  }

  /** x^n = c */
  lemma ShiftAround<T(!new)>(R: Ops<T>, c: T, a: seq<T>)
    ensures ShiftN(R, c, |a|, a) == VScale(R, c, a)
  {
    forall i | 0 <= i < |a| ensures ShiftN(R, c, |a|, a)[i] == VScale(R, c, a)[i] {
      ShiftNAt(R, c, |a|, a, i);
    }
  }

  // ---- the ring laws of R[x]/(x^n - c) ------------------------------------------------------------

  /** (x a) b = x (a b) */
  lemma ShiftAct<T(!new)>(R: Ops<T>, c: T, a: seq<T>, b: seq<T>)
    requires IsRing(R) && |a| == |b| > 0
    ensures Act(R, c, Shift(R, c, a), b) == Shift(R, c, Act(R, c, a, b))
  {
    hide IsRing, VAdd, VScale;
    var n, s := |a|, Shift(R, c, a);
    var init, top := a[..n - 1], a[n - 1];
    var r, t := Act(R, c, init, b), VScale(R, top, b);
    assert s[1..] == init && s[0] == Mul(R, c, top) && a == init + [top];
    assert Act(R, c, s, b) == VAdd(R, VScale(R, s[0], b), Shift(R, c, r));
    hide Act;
    ActConcat(R, c, init, [top], b);
    ActSingle(R, c, top, b);
    ShiftAdd(R, c, r, ShiftN(R, c, n - 1, t));
    ShiftAround(R, c, t);
    VScaleScale(R, c, top, b);
    VAddComm(R, Shift(R, c, r), VScale(R, s[0], b));
  }

  lemma ActSingle<T(!new)>(R: Ops<T>, c: T, k: T, b: seq<T>)
    requires IsRing(R)
    ensures Act(R, c, [k], b) == VScale(R, k, b)
  {
    assert [k][1..] == [];
    ShiftZeros(R, c, |b|);
    VAddZero(R, VScale(R, k, b));
  }

  /** (a b) d = a (b d) */
  lemma {:induction false} ActAssoc<T(!new)>(R: Ops<T>, c: T, a: seq<T>, b: seq<T>, d: seq<T>)
    requires IsRing(R) && |b| == |d| > 0
    ensures Act(R, c, Act(R, c, a, b), d) == Act(R, c, a, Act(R, c, b, d))
    decreases |a|
  {
    if a == [] {
      ZerosAct(R, c, |b|, d);
    } else {
      var r := Act(R, c, a[1..], b);
      AddAct(R, c, VScale(R, a[0], b), Shift(R, c, r), d);
      ScaleAct(R, c, a[0], b, d);
      ShiftAct(R, c, r, d);
      ActAssoc(R, c, a[1..], b, d);
    }
  }

  lemma {:induction false} ZerosAct<T(!new)>(R: Ops<T>, c: T, n: nat, b: seq<T>)
    requires IsRing(R)
    ensures Act(R, c, Zeros(R, n), b) == Zeros(R, |b|)
    decreases n
  {
    if n > 0 {
      assert Zeros(R, n)[1..] == Zeros(R, n - 1);
      ZerosAct(R, c, n - 1, b);
      ShiftZeros(R, c, |b|);
      forall i | 0 <= i < |b| ensures Mul(R, R.zero, b[i]) == R.zero { MulZero(R, b[i]); }
      assert VScale(R, R.zero, b) == Zeros(R, |b|);
      VAddZero(R, Zeros(R, |b|));
    }
  }

  /** a (b v) = b (a v): all multiplications are polynomials in x. */
  lemma {:induction false} ActExchange<T(!new)>(R: Ops<T>, c: T, a: seq<T>, b: seq<T>, v: seq<T>)
    requires IsRing(R)
    ensures Act(R, c, a, Act(R, c, b, v)) == Act(R, c, b, Act(R, c, a, v))
    decreases |a|
  {
    if a == [] {
      ActZeros(R, c, b, |v|);
    } else {
      var r := Act(R, c, a[1..], v);
      ActExchange(R, c, a[1..], b, v);
      ActShift(R, c, b, r);
      ActScale(R, c, b, a[0], v);
      ActAdd(R, c, b, VScale(R, a[0], v), Shift(R, c, r));
    }
  }

  lemma {:induction false} ActZeros<T(!new)>(R: Ops<T>, c: T, p: seq<T>, n: nat)
    requires IsRing(R)
    ensures Act(R, c, p, Zeros(R, n)) == Zeros(R, n)
    decreases |p|
  {
    if p != [] {
      ActZeros(R, c, p[1..], n);
      VScaleZero(R, p[0], n);
      ShiftZeros(R, c, n);
      VAddZero(R, Zeros(R, n));
    }
  }

  /** The polynomial 1. */
  function Unit<T>(R: Ops<T>, n: nat): (v: seq<T>)
    ensures |v| == n
  {
    seq(n, i => if i == 0 then R.one else R.zero)
  }

  /** p * 1 = p, when p fits the ring. */
  lemma {:induction false} ActUnit<T(!new)>(R: Ops<T>, c: T, p: seq<T>, n: nat)
    requires IsRing(R) && |p| <= n
    ensures Act(R, c, p, Unit(R, n)) == p + Zeros(R, n - |p|)
    decreases |p|
  {
    if p != [] {
      ActUnit(R, c, p[1..], n);
      var r := p[1..] + Zeros(R, n - |p| + 1);
      forall i | 0 <= i < n
        ensures Act(R, c, p, Unit(R, n))[i] == (p + Zeros(R, n - |p|))[i]
      {
        MulZero(R, p[0]);
        MulZero(R, c);
        assert OneAt(R, p[0]) && MulCommAt(R, R.one, p[0]);
        assert r[n - 1] == R.zero;
        assert ZeroAt(R, p[0]) && AddCommAt(R, R.zero, p[0]);
        assert ZeroAt(R, (p + Zeros(R, n - |p|))[i]);
      }
    }
  }

  /** a b = b a */
  lemma ActComm<T(!new)>(R: Ops<T>, c: T, a: seq<T>, b: seq<T>)
    requires IsRing(R) && |a| == |b|
    ensures Act(R, c, a, b) == Act(R, c, b, a)
  {
    var u := Unit(R, |a|);
    ActUnit(R, c, a, |a|);
    ActUnit(R, c, b, |a|);
    assert a + Zeros(R, 0) == a && b + Zeros(R, 0) == b;
    ActExchange(R, c, a, b, u);
  }

  // ---- the map R[x]/(x^(2m) - z^2) -> R[x]/(x^m - z) -----------------------------------------------

  /** Reduction modulo x^m - z of a vector of 2m coefficients. */
  function Fold<T>(R: Ops<T>, z: T, v: seq<T>): (w: seq<T>)
    requires |v| % 2 == 0
    ensures |w| == |v| / 2
  {
    var m := |v| / 2;
    seq(m, i requires 0 <= i < m => Add(R, v[i], Mul(R, z, v[m + i])))
  }

  lemma FoldAdd<T(!new)>(R: Ops<T>, z: T, a: seq<T>, b: seq<T>)
    requires IsRing(R) && |a| == |b| && |a| % 2 == 0
    ensures Fold(R, z, VAdd(R, a, b)) == VAdd(R, Fold(R, z, a), Fold(R, z, b))
  {
    var m := |a| / 2;
    forall i | 0 <= i < m
      ensures Fold(R, z, VAdd(R, a, b))[i] == VAdd(R, Fold(R, z, a), Fold(R, z, b))[i]
    {
      assert DistribAt(R, z, a[m + i], b[m + i]);
      AddSwap(R, a[i], b[i], Mul(R, z, a[m + i]), Mul(R, z, b[m + i]));
    }
  }

  lemma FoldScale<T(!new)>(R: Ops<T>, z: T, k: T, a: seq<T>)
    requires IsRing(R) && |a| % 2 == 0
    ensures Fold(R, z, VScale(R, k, a)) == VScale(R, k, Fold(R, z, a))
  {
    var m := |a| / 2;
    forall i | 0 <= i < m
      ensures Fold(R, z, VScale(R, k, a))[i] == VScale(R, k, Fold(R, z, a))[i]
    {
      MulSwap(R, z, k, a[m + i]);
      assert DistribAt(R, k, a[i], Mul(R, z, a[m + i]));
    }
  }

  lemma FoldShift<T(!new)>(R: Ops<T>, z: T, a: seq<T>)
    requires IsRing(R) && |a| % 2 == 0
    ensures Fold(R, z, Shift(R, Mul(R, z, z), a)) == Shift(R, z, Fold(R, z, a))
  {
    var m := |a| / 2;
    forall i | 0 <= i < m
      ensures Fold(R, z, Shift(R, Mul(R, z, z), a))[i] == Shift(R, z, Fold(R, z, a))[i]
    {
      if i == 0 {
        var u, t := a[m - 1], a[2 * m - 1];
        assert MulAssocAt(R, z, z, t) && DistribAt(R, z, u, Mul(R, z, t));
        assert AddCommAt(R, Mul(R, z, u), Mul(R, z, Mul(R, z, t)));
      }
    }
  }

  lemma {:induction false} FoldAct<T(!new)>(R: Ops<T>, z: T, p: seq<T>, b: seq<T>)
    requires IsRing(R) && |b| % 2 == 0
    ensures Fold(R, z, Act(R, Mul(R, z, z), p, b)) == Act(R, z, p, Fold(R, z, b))
    decreases |p|
  {
    var c := Mul(R, z, z);
    if p == [] {
      MulZero(R, z);
      assert ZeroAt(R, R.zero);
      assert Fold(R, z, Zeros(R, |b|)) == Zeros(R, |b| / 2);
    } else {
      var r := Act(R, c, p[1..], b);
      FoldAct(R, z, p[1..], b);
      FoldAdd(R, z, VScale(R, p[0], b), Shift(R, c, r));
      FoldScale(R, z, p[0], b);
      FoldShift(R, z, r);
    }
  }

  /** Reduction modulo x^m - z is a ring homomorphism. */
  lemma FoldMul<T(!new)>(R: Ops<T>, z: T, a: seq<T>, b: seq<T>)
    requires IsRing(R) && |a| == |b| && |a| % 2 == 0
    ensures Fold(R, z, Act(R, Mul(R, z, z), a, b)) == Act(R, z, Fold(R, z, a), Fold(R, z, b))
  {
    var m, w := |a| / 2, Fold(R, z, b);
    var lo, hi := a[..m], a[m..];
    FoldAct(R, z, a, b);
    assert a == lo + hi;
    ActConcat(R, z, lo, hi, w);
    ShiftAround(R, z, Act(R, z, hi, w));
    ScaleAct(R, z, z, hi, w);
    AddAct(R, z, lo, VScale(R, z, hi), w);
    assert Fold(R, z, a) == VAdd(R, lo, VScale(R, z, hi));
  }
}
