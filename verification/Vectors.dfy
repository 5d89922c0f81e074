/** Coefficient vectors over a ring: pointwise sum, difference, product and scaling. */
module Vectors {
  import opened Rings

  function Zeros<T>(R: Ops<T>, n: nat): (v: seq<T>)
    ensures |v| == n
  {
    seq(n, i => R.zero)
  }

  function VAdd<T>(R: Ops<T>, a: seq<T>, b: seq<T>): (v: seq<T>)
    requires |a| == |b|
    ensures |v| == |a|
  {
    seq(|a|, i requires 0 <= i < |a| => Add(R, a[i], b[i]))
  }

  function VSub<T>(R: Ops<T>, a: seq<T>, b: seq<T>): (v: seq<T>)
    requires |a| == |b|
    ensures |v| == |a|
  {
    seq(|a|, i requires 0 <= i < |a| => Sub(R, a[i], b[i]))
  }

  function VMul<T>(R: Ops<T>, a: seq<T>, b: seq<T>): (v: seq<T>)
    requires |a| == |b|
    ensures |v| == |a|
  {
    seq(|a|, i requires 0 <= i < |a| => Mul(R, a[i], b[i]))
  }

  function VScale<T>(R: Ops<T>, k: T, a: seq<T>): (v: seq<T>)
    ensures |v| == |a|
  {
    seq(|a|, i requires 0 <= i < |a| => Mul(R, k, a[i]))
  }

  lemma VAddComm<T(!new)>(R: Ops<T>, a: seq<T>, b: seq<T>)
    requires IsRing(R) && |a| == |b|
    ensures VAdd(R, a, b) == VAdd(R, b, a)
  {
    forall i | 0 <= i < |a| ensures VAdd(R, a, b)[i] == VAdd(R, b, a)[i] {
      assert AddCommAt(R, a[i], b[i]);
    }
  }

  lemma VAddAssoc<T(!new)>(R: Ops<T>, a: seq<T>, b: seq<T>, c: seq<T>)
    requires IsRing(R) && |a| == |b| == |c|
    ensures VAdd(R, VAdd(R, a, b), c) == VAdd(R, a, VAdd(R, b, c))
  {
    forall i | 0 <= i < |a| ensures VAdd(R, VAdd(R, a, b), c)[i] == VAdd(R, a, VAdd(R, b, c))[i] {
      assert AddAssocAt(R, a[i], b[i], c[i]);
    }
  }

  lemma VAddSwap<T(!new)>(R: Ops<T>, a: seq<T>, b: seq<T>, c: seq<T>, d: seq<T>)
    requires IsRing(R) && |a| == |b| == |c| == |d|
    ensures VAdd(R, VAdd(R, a, b), VAdd(R, c, d)) == VAdd(R, VAdd(R, a, c), VAdd(R, b, d))
  {
    forall i | 0 <= i < |a|
      ensures VAdd(R, VAdd(R, a, b), VAdd(R, c, d))[i] == VAdd(R, VAdd(R, a, c), VAdd(R, b, d))[i]
    {
      AddSwap(R, a[i], b[i], c[i], d[i]);
    }
  }

  lemma VAddZero<T(!new)>(R: Ops<T>, a: seq<T>)
    requires IsRing(R)
    ensures VAdd(R, a, Zeros(R, |a|)) == a && VAdd(R, Zeros(R, |a|), a) == a
  {
    forall i | 0 <= i < |a| ensures Add(R, a[i], R.zero) == a[i] && Add(R, R.zero, a[i]) == a[i] {
      assert ZeroAt(R, a[i]) && AddCommAt(R, R.zero, a[i]);
    }
  }

  /** (a - b) + b = a */
  lemma VSubAdd<T(!new)>(R: Ops<T>, a: seq<T>, b: seq<T>)
    requires IsRing(R) && |a| == |b|
    ensures VAdd(R, VSub(R, a, b), b) == a
    ensures VSub(R, a, b) == VAdd(R, a, VScale(R, Neg(R, R.one), b))
  {
    forall i | 0 <= i < |a|
      ensures VAdd(R, VSub(R, a, b), b)[i] == a[i]
      ensures VSub(R, a, b)[i] == Add(R, a[i], Mul(R, Neg(R, R.one), b[i]))
    {
      var n := Neg(R, b[i]);
      assert SubAt(R, a[i], b[i]) && AddAssocAt(R, a[i], n, b[i]) && AddCommAt(R, n, b[i]);
      assert ZeroAt(R, b[i]) && ZeroAt(R, a[i]) && AddCommAt(R, R.zero, a[i]);
      NegMul(R, R.one, b[i]);
      assert OneAt(R, b[i]);
    }
  }

  lemma VScaleZero<T(!new)>(R: Ops<T>, k: T, n: nat)
    requires IsRing(R)
    ensures VScale(R, k, Zeros(R, n)) == Zeros(R, n)
  {
    MulZero(R, k);
  }

  /** k (a + b) = k a + k b */
  lemma VScaleAdd<T(!new)>(R: Ops<T>, k: T, a: seq<T>, b: seq<T>)
    requires IsRing(R) && |a| == |b|
    ensures VScale(R, k, VAdd(R, a, b)) == VAdd(R, VScale(R, k, a), VScale(R, k, b))
  {
    forall i | 0 <= i < |a|
      ensures VScale(R, k, VAdd(R, a, b))[i] == VAdd(R, VScale(R, k, a), VScale(R, k, b))[i]
    {
      assert DistribAt(R, k, a[i], b[i]);
    }
  }

  /** (k + l) a = k a + l a */
  lemma VAddScale<T(!new)>(R: Ops<T>, k: T, l: T, a: seq<T>)
    requires IsRing(R)
    ensures VScale(R, Add(R, k, l), a) == VAdd(R, VScale(R, k, a), VScale(R, l, a))
  {
    forall i | 0 <= i < |a|
      ensures VScale(R, Add(R, k, l), a)[i] == VAdd(R, VScale(R, k, a), VScale(R, l, a))[i]
    {
      DistribRight(R, k, l, a[i]);
    }
  }

  /** (k l) a = k (l a) and k (l a) = l (k a) */
  lemma VScaleScale<T(!new)>(R: Ops<T>, k: T, l: T, a: seq<T>)
    requires IsRing(R)
    ensures VScale(R, k, VScale(R, l, a)) == VScale(R, Mul(R, k, l), a)
    ensures VScale(R, k, VScale(R, l, a)) == VScale(R, l, VScale(R, k, a))
  {
    forall i | 0 <= i < |a|
      ensures VScale(R, k, VScale(R, l, a))[i] == VScale(R, Mul(R, k, l), a)[i]
      ensures VScale(R, k, VScale(R, l, a))[i] == VScale(R, l, VScale(R, k, a))[i]
    {
      assert MulAssocAt(R, k, l, a[i]);
      MulSwap(R, k, l, a[i]);
    }
  }

  lemma VScaleOne<T(!new)>(R: Ops<T>, a: seq<T>)
    requires IsRing(R)
    ensures VScale(R, R.one, a) == a
  {
    forall i | 0 <= i < |a| ensures Mul(R, R.one, a[i]) == a[i] {
      assert OneAt(R, a[i]);
    }
  }
}
