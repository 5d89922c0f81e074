/** Number-theoretic transforms, layer by layer, over any commutative ring.

    A vector is read as a row of blocks.  Block k stands for a polynomial modulo x^size - Root(k), where
    Root(1) = -1 and the children 2k and 2k+1 of block k have the roots z(k) and -z(k).  A forward layer
    splits every block in two, an inverse layer merges pairs of blocks. */
module Transform {
  import opened Rings
  import opened Vectors
  import opened QuotientRing

  function Pow2(n: nat): (p: nat)
    ensures p > 0
  {
    if n == 0 then 1 else 2 * Pow2(n - 1)
  }

  /** f * 2^n */
  function Size(f: nat, n: nat): nat {
    if n == 0 then f else 2 * Size(f, n - 1)
  }

  /** Cooley-Tukey butterflies on one block: (lo + z hi, lo - z hi). */
  function Split<T>(R: Ops<T>, z: T, v: seq<T>): (w: seq<T>)
    requires |v| % 2 == 0
    ensures |w| == |v|
  {
    var m := |v| / 2;
    seq(|v|, i requires 0 <= i < |v| =>
      if i < m then Add(R, v[i], Mul(R, z, v[m + i])) else Sub(R, v[i - m], Mul(R, z, v[i])))
  }

  /** Gentleman-Sande butterflies on one block: (lo + hi, z (hi - lo)). */
  function Merge<T>(R: Ops<T>, z: T, v: seq<T>): (w: seq<T>)
    requires |v| % 2 == 0
    ensures |w| == |v|
  {
    var m := |v| / 2;
    seq(|v|, i requires 0 <= i < |v| =>
      if i < m then Add(R, v[i], v[m + i]) else Mul(R, z, Sub(R, v[i], v[i - m])))
  }

  /** The two coefficients of butterfly i. */
  lemma ButterflyAt<T>(R: Ops<T>, z: T, v: seq<T>, i: nat)
    requires |v| % 2 == 0 && i < |v| / 2
    ensures var h := |v| / 2 + i;
            && Split(R, z, v)[i] == Add(R, v[i], Mul(R, z, v[h])) && Split(R, z, v)[h] == Sub(R, v[i], Mul(R, z, v[h]))
            && Merge(R, z, v)[i] == Add(R, v[i], v[h]) && Merge(R, z, v)[h] == Mul(R, z, Sub(R, v[h], v[i]))
  {
    hide Add, Sub, Mul;
    var m := |v| / 2;
    assert m + i - m == i;
  }

  /** A sequence that differs from w in one block, and there holds what the butterflies give. */
  ghost predicate ElsewhereSame<T>(w: seq<T>, r: seq<T>, start: nat, n: nat)
    requires start + n <= |w| == |r|
  {
    forall i :: 0 <= i < |r| && !(start <= i < start + n) ==> r[i] == w[i]
  }

  lemma Assemble<T>(w: seq<T>, r: seq<T>, start: nat, b: seq<T>)
    requires start + |b| <= |w| == |r| && ElsewhereSame(w, r, start, |b|)
    requires forall i :: 0 <= i < |b| ==> r[start + i] == b[i]
    ensures r == w[..start] + b + w[start + |b|..]
  {
    forall i | 0 <= i < |r| ensures r[i] == (w[..start] + b + w[start + |b|..])[i] {
      if start <= i < start + |b| { assert r[start + (i - start)] == b[i - start]; }
    }
  }

  lemma SplitAssembled<T>(R: Ops<T>, w: seq<T>, r: seq<T>, start: nat, len: nat, z: T)
    requires start + 2 * len <= |w| == |r|
    requires forall i :: 0 <= i < |r| && !(start <= i < start + 2 * len) ==> r[i] == w[i]
    requires forall i :: start <= i < start + len ==> r[i] == Add(R, w[i], Mul(R, z, w[i + len]))
    requires forall i :: start + len <= i < start + 2 * len ==> r[i] == Sub(R, w[i - len], Mul(R, z, w[i]))
    ensures r == w[..start] + Split(R, z, w[start..start + 2 * len]) + w[start + 2 * len..]
  {
    hide Add, Sub, Mul, Split, Merge;
    var v := w[start..start + 2 * len];
    forall i | 0 <= i < 2 * len ensures r[start + i] == Split(R, z, v)[i] {
      ButterflyAt(R, z, v, if i < len then i else i - len);
    }
    Assemble(w, r, start, Split(R, z, v));
  }

  lemma MergeAssembled<T>(R: Ops<T>, w: seq<T>, r: seq<T>, start: nat, len: nat, z: T)
    requires start + 2 * len <= |w| == |r|
    requires forall i :: 0 <= i < |r| && !(start <= i < start + 2 * len) ==> r[i] == w[i]
    requires forall i :: start <= i < start + len ==> r[i] == Add(R, w[i], w[i + len])
    requires forall i :: start + len <= i < start + 2 * len ==> r[i] == Mul(R, z, Sub(R, w[i], w[i - len]))
    ensures r == w[..start] + Merge(R, z, w[start..start + 2 * len]) + w[start + 2 * len..]
  {
    hide Add, Sub, Mul, Split, Merge;
    var v := w[start..start + 2 * len];
    forall i | 0 <= i < 2 * len ensures r[start + i] == Merge(R, z, v)[i] {
      ButterflyAt(R, z, v, if i < len then i else i - len);
    }
    Assemble(w, r, start, Merge(R, z, v));
  }

  /** One forward layer: blocks of 2 * len coefficients, numbered k, k + 1, ... */
  function Layer<T>(R: Ops<T>, z: int -> T, k: int, len: nat, v: seq<T>): (w: seq<T>)
    ensures |w| == |v|
    decreases |v|
  {
    if len == 0 || |v| < 2 * len then v
    else Split(R, z(k), v[..2 * len]) + Layer(R, z, k + 1, len, v[2 * len..])
  }

  /** One inverse layer: blocks of 2 * len coefficients, using z(k), z(k - 1), ... */
  function InvLayer<T>(R: Ops<T>, z: int -> T, k: int, len: nat, v: seq<T>): (w: seq<T>)
    ensures |w| == |v|
    decreases |v|
  {
    if len == 0 || |v| < 2 * len then v
    else Merge(R, z(k), v[..2 * len]) + InvLayer(R, z, k - 1, len, v[2 * len..])
  }

  /** The forward transform: `layers` layers, from k blocks of f * 2^layers down to blocks of f. */
  function Ntt<T>(R: Ops<T>, z: int -> T, k: nat, f: nat, layers: nat, v: seq<T>): (w: seq<T>)
    ensures |w| == |v|
    decreases layers
  {
    if layers == 0 then v
    else Ntt(R, z, 2 * k, f, layers - 1, Layer(R, z, k, Size(f, layers - 1), v))
  }

  /** The inverse transform without its final scaling: the layers of `Ntt`, undone innermost first. */
  function Intt<T>(R: Ops<T>, z: int -> T, k: nat, f: nat, layers: nat, v: seq<T>): (w: seq<T>)
    ensures |w| == |v|
    decreases layers
  {
    if layers == 0 then v
    else InvLayer(R, z, 2 * k - 1, Size(f, layers - 1), Intt(R, z, 2 * k, f, layers - 1, v))
  }

  lemma BlockStep(size: nat, m: nat)
    requires m > 0
    ensures size <= size * m && size * m - size == size * (m - 1)
  {
  }

  /** A layer handles its first block on its own. */
  lemma LayerCons<T>(R: Ops<T>, z: int -> T, k: int, len: nat, b: seq<T>, rest: seq<T>)
    requires len > 0 && |b| == 2 * len
    ensures Layer(R, z, k, len, b + rest) == Split(R, z(k), b) + Layer(R, z, k + 1, len, rest)
    ensures InvLayer(R, z, k, len, b + rest) == Merge(R, z(k), b) + InvLayer(R, z, k - 1, len, rest)
  {
    var v := b + rest;
    assert v[..2 * len] == b && v[2 * len..] == rest;
  }

  lemma VScaleConcat<T>(R: Ops<T>, c: T, u: seq<T>, v: seq<T>)
    ensures VScale(R, c, u + v) == VScale(R, c, u) + VScale(R, c, v)
  {
  }

  // ---- linearity --------------------------------------------------------------------------------

  lemma SplitScale<T(!new)>(R: Ops<T>, z: T, c: T, v: seq<T>)
    requires IsRing(R) && |v| % 2 == 0
    ensures Split(R, z, VScale(R, c, v)) == VScale(R, c, Split(R, z, v))
    ensures Merge(R, z, VScale(R, c, v)) == VScale(R, c, Merge(R, z, v))
  {
    hide IsRing, Add, Sub, Mul, Split, Merge;
    var m := |v| / 2;
    forall i | 0 <= i < |v|
      ensures Split(R, z, VScale(R, c, v))[i] == VScale(R, c, Split(R, z, v))[i]
      ensures Merge(R, z, VScale(R, c, v))[i] == VScale(R, c, Merge(R, z, v))[i]
    {
      var l := if i < m then i else i - m;
      ButterflyAt(R, z, v, l);
      ButterflyAt(R, z, VScale(R, c, v), l);
      ButterflyScaled(R, z, c, v[l], v[m + l]);
    }
  }

  lemma ButterflyScaled<T(!new)>(R: Ops<T>, z: T, c: T, a: T, b: T)
    requires IsRing(R)
    ensures Add(R, Mul(R, c, a), Mul(R, z, Mul(R, c, b))) == Mul(R, c, Add(R, a, Mul(R, z, b)))
    ensures Sub(R, Mul(R, c, a), Mul(R, z, Mul(R, c, b))) == Mul(R, c, Sub(R, a, Mul(R, z, b)))
    ensures Add(R, Mul(R, c, a), Mul(R, c, b)) == Mul(R, c, Add(R, a, b))
    ensures Mul(R, z, Sub(R, Mul(R, c, b), Mul(R, c, a))) == Mul(R, c, Mul(R, z, Sub(R, b, a)))
  {
    MulSwap(R, z, c, b);
    MulSwap(R, z, c, Sub(R, b, a));
    assert DistribAt(R, c, a, Mul(R, z, b)) && DistribAt(R, c, a, b);
    MulSub(R, c, a, Mul(R, z, b));
    MulSub(R, c, b, a);
  }

  lemma MulSub<T(!new)>(R: Ops<T>, c: T, x: T, y: T)
    requires IsRing(R)
    ensures Mul(R, c, Sub(R, x, y)) == Sub(R, Mul(R, c, x), Mul(R, c, y))
  {
    assert SubAt(R, x, y) && SubAt(R, Mul(R, c, x), Mul(R, c, y)) && DistribAt(R, c, x, Neg(R, y));
    NegMul(R, y, c);
  }

  lemma SubSwap<T(!new)>(R: Ops<T>, a: T, b: T, x: T, y: T)
    requires IsRing(R)
    ensures Sub(R, Add(R, a, b), Add(R, x, y)) == Add(R, Sub(R, a, x), Sub(R, b, y))
  {
    assert SubAt(R, Add(R, a, b), Add(R, x, y)) && SubAt(R, a, x) && SubAt(R, b, y);
    NegAdd(R, x, y);
    AddSwap(R, a, b, Neg(R, x), Neg(R, y));
  }

  lemma SplitAdd<T(!new)>(R: Ops<T>, z: T, u: seq<T>, v: seq<T>)
    requires IsRing(R) && |u| == |v| && |u| % 2 == 0
    ensures Split(R, z, VAdd(R, u, v)) == VAdd(R, Split(R, z, u), Split(R, z, v))
    ensures Merge(R, z, VAdd(R, u, v)) == VAdd(R, Merge(R, z, u), Merge(R, z, v))
  {
    hide IsRing, Add, Sub, Mul, Split, Merge;
    var m := |v| / 2;
    forall i | 0 <= i < |v|
      ensures Split(R, z, VAdd(R, u, v))[i] == VAdd(R, Split(R, z, u), Split(R, z, v))[i]
      ensures Merge(R, z, VAdd(R, u, v))[i] == VAdd(R, Merge(R, z, u), Merge(R, z, v))[i]
    {
      var l := if i < m then i else i - m;
      ButterflyAt(R, z, u, l);
      ButterflyAt(R, z, v, l);
      ButterflyAt(R, z, VAdd(R, u, v), l);
      ButterflySums(R, z, u[l], u[m + l], v[l], v[m + l]);
    }
  }

  lemma ButterflySums<T(!new)>(R: Ops<T>, z: T, a: T, b: T, c: T, d: T)
    requires IsRing(R)
    ensures Add(R, Add(R, a, c), Mul(R, z, Add(R, b, d))) == Add(R, Add(R, a, Mul(R, z, b)), Add(R, c, Mul(R, z, d)))
    ensures Sub(R, Add(R, a, c), Mul(R, z, Add(R, b, d))) == Add(R, Sub(R, a, Mul(R, z, b)), Sub(R, c, Mul(R, z, d)))
    ensures Add(R, Add(R, a, c), Add(R, b, d)) == Add(R, Add(R, a, b), Add(R, c, d))
    ensures Mul(R, z, Sub(R, Add(R, b, d), Add(R, a, c))) == Add(R, Mul(R, z, Sub(R, b, a)), Mul(R, z, Sub(R, d, c)))
  {
    assert DistribAt(R, z, b, d) && DistribAt(R, z, Sub(R, b, a), Sub(R, d, c));
    AddSwap(R, a, c, Mul(R, z, b), Mul(R, z, d));
    SubSwap(R, a, c, Mul(R, z, b), Mul(R, z, d));
    AddSwap(R, a, c, b, d);
    SubSwap(R, b, d, a, c);
  }

  lemma {:induction false} LayerScale<T(!new)>(R: Ops<T>, z: int -> T, k: int, len: nat, c: T, v: seq<T>)
    requires IsRing(R)
    ensures Layer(R, z, k, len, VScale(R, c, v)) == VScale(R, c, Layer(R, z, k, len, v))
    decreases |v|
  {
    if len > 0 && |v| >= 2 * len {
      var w, v0, v1 := VScale(R, c, v), v[..2 * len], v[2 * len..];
      assert w[..2 * len] == VScale(R, c, v0) && w[2 * len..] == VScale(R, c, v1);
      SplitScale(R, z(k), c, v0);
      LayerScale(R, z, k + 1, len, c, v1);
    }
  }

  lemma {:induction false} InvLayerScale<T(!new)>(R: Ops<T>, z: int -> T, k: int, len: nat, c: T, v: seq<T>)
    requires IsRing(R)
    ensures InvLayer(R, z, k, len, VScale(R, c, v)) == VScale(R, c, InvLayer(R, z, k, len, v))
    decreases |v|
  {
    if len > 0 && |v| >= 2 * len {
      var w, v0, v1 := VScale(R, c, v), v[..2 * len], v[2 * len..];
      assert w[..2 * len] == VScale(R, c, v0) && w[2 * len..] == VScale(R, c, v1);
      SplitScale(R, z(k), c, v0);
      InvLayerScale(R, z, k - 1, len, c, v1);
    }
  }

  lemma {:induction false} LayerAdd<T(!new)>(R: Ops<T>, z: int -> T, k: int, len: nat, u: seq<T>, v: seq<T>)
    requires IsRing(R) && |u| == |v|
    ensures Layer(R, z, k, len, VAdd(R, u, v)) == VAdd(R, Layer(R, z, k, len, u), Layer(R, z, k, len, v))
    decreases |v|
  {
    if len > 0 && |v| >= 2 * len {
      var w, n := VAdd(R, u, v), 2 * len;
      assert w[..n] == VAdd(R, u[..n], v[..n]) && w[n..] == VAdd(R, u[n..], v[n..]);
      SplitAdd(R, z(k), u[..n], v[..n]);
      LayerAdd(R, z, k + 1, len, u[n..], v[n..]);
    }
  }

  lemma {:induction false} InvLayerAdd<T(!new)>(R: Ops<T>, z: int -> T, k: int, len: nat, u: seq<T>, v: seq<T>)
    requires IsRing(R) && |u| == |v|
    ensures InvLayer(R, z, k, len, VAdd(R, u, v)) == VAdd(R, InvLayer(R, z, k, len, u), InvLayer(R, z, k, len, v))
    decreases |v|
  {
    if len > 0 && |v| >= 2 * len {
      var w, n := VAdd(R, u, v), 2 * len;
      assert w[..n] == VAdd(R, u[..n], v[..n]) && w[n..] == VAdd(R, u[n..], v[n..]);
      SplitAdd(R, z(k), u[..n], v[..n]);
      InvLayerAdd(R, z, k - 1, len, u[n..], v[n..]);
    }
  }

  /** The transform is linear. */
  lemma {:induction false} NttLinear<T(!new)>(R: Ops<T>, z: int -> T, k: nat, f: nat, layers: nat, c: T, u: seq<T>,
      v: seq<T>)
    requires IsRing(R) && |u| == |v|
    ensures Ntt(R, z, k, f, layers, VScale(R, c, v)) == VScale(R, c, Ntt(R, z, k, f, layers, v))
    ensures Ntt(R, z, k, f, layers, VAdd(R, u, v)) == VAdd(R, Ntt(R, z, k, f, layers, u), Ntt(R, z, k, f, layers, v))
    decreases layers
  {
    if layers > 0 {
      var len := Size(f, layers - 1);
      LayerScale(R, z, k, len, c, v);
      LayerAdd(R, z, k, len, u, v);
      NttLinear(R, z, 2 * k, f, layers - 1, c, Layer(R, z, k, len, u), Layer(R, z, k, len, v));
    }
  }

  /** The inverse transform is linear. */
  lemma {:induction false} InttScale<T(!new)>(R: Ops<T>, z: int -> T, k: nat, f: nat, layers: nat, c: T, v: seq<T>)
    requires IsRing(R)
    ensures Intt(R, z, k, f, layers, VScale(R, c, v)) == VScale(R, c, Intt(R, z, k, f, layers, v))
    decreases layers
  {
    hide InvLayer;
    if layers > 0 {
      InttScale(R, z, 2 * k, f, layers - 1, c, v);
      InvLayerScale(R, z, 2 * k - 1, Size(f, layers - 1), c, Intt(R, z, 2 * k, f, layers - 1, v));
    }
  }

  lemma {:induction false} InttAdd<T(!new)>(R: Ops<T>, z: int -> T, k: nat, f: nat, layers: nat, u: seq<T>, v: seq<T>)
    requires IsRing(R) && |u| == |v|
    ensures Intt(R, z, k, f, layers, VAdd(R, u, v)) == VAdd(R, Intt(R, z, k, f, layers, u), Intt(R, z, k, f, layers, v))
    decreases layers
  {
    hide InvLayer;
    if layers > 0 {
      InttAdd(R, z, 2 * k, f, layers - 1, u, v);
      var iu, iv := Intt(R, z, 2 * k, f, layers - 1, u), Intt(R, z, 2 * k, f, layers - 1, v);
      InvLayerAdd(R, z, 2 * k - 1, Size(f, layers - 1), iu, iv);
    }
  }

  // ---- the inverse transform undoes the transform, up to 2^layers -----------------------------------

  function Two<T>(R: Ops<T>): T { Add(R, R.one, R.one) }

  function TwoPow<T>(R: Ops<T>, n: nat): T {
    if n == 0 then R.one else Mul(R, Two(R), TwoPow(R, n - 1))
  }

  lemma TwoMul<T(!new)>(R: Ops<T>, x: T)
    requires IsRing(R)
    ensures Mul(R, Two(R), x) == Add(R, x, x)
  {
    DistribRight(R, R.one, R.one, x);
    assert OneAt(R, x);
  }

  ghost predicate Opposite<T>(R: Ops<T>, x: T, y: T) { Mul(R, x, y) == Neg(R, R.one) }

  /** The pairing that makes the inverse layer undo the layer: z(k + i) z(2k - 1 - i) = -1. */
  ghost predicate Paired<T>(R: Ops<T>, z: int -> T, n: nat) {
    forall j, k :: 1 <= k < n && k <= j < 2 * k && IsPow2(k) ==> Opposite(R, z(j), z(3 * k - 1 - j))
  }

  predicate IsPow2(k: nat) {
    k == 1 || (k > 1 && k % 2 == 0 && IsPow2(k / 2))
  }

  /** A power of two below 2^(n+1) is at most 2^n. */
  lemma {:induction false} Pow2Gap(k: nat, n: nat)
    requires IsPow2(k) && k < Pow2(n + 1)
    ensures k <= Pow2(n)
    decreases n
  {
    if k > 1 && n > 0 {
      Pow2Gap(k / 2, n - 1);
    }
  }

  lemma MergeSplit<T(!new)>(R: Ops<T>, y: T, z: T, v: seq<T>)
    requires IsRing(R) && |v| % 2 == 0 && Opposite(R, y, z)
    ensures Merge(R, y, Split(R, z, v)) == VScale(R, Two(R), v)
    ensures Split(R, z, Merge(R, y, v)) == VScale(R, Two(R), v)
  {
    hide IsRing, Add, Sub, Mul, Split, Merge, Two;
    var m := |v| / 2;
    forall i | 0 <= i < |v|
      ensures Merge(R, y, Split(R, z, v))[i] == VScale(R, Two(R), v)[i]
      ensures Split(R, z, Merge(R, y, v))[i] == VScale(R, Two(R), v)[i]
    {
      var l := if i < m then i else i - m;
      ButterflyAt(R, z, v, l);
      ButterflyAt(R, y, v, l);
      ButterflyAt(R, y, Split(R, z, v), l);
      ButterflyAt(R, z, Merge(R, y, v), l);
      Butterfly(R, y, z, v[l], v[m + l], Mul(R, z, v[m + l]), Mul(R, z, Mul(R, y, Sub(R, v[m + l], v[l]))));
      TwoMul(R, v[i]);
    }
  }

  /** One pair of coefficients through a butterfly and back, in both orders. */
  lemma Butterfly<T(!new)>(R: Ops<T>, y: T, z: T, a: T, b: T, t: T, d: T)
    requires IsRing(R) && Opposite(R, y, z)
    requires t == Mul(R, z, b) && d == Mul(R, z, Mul(R, y, Sub(R, b, a)))
    ensures Add(R, Add(R, a, t), Sub(R, a, t)) == Add(R, a, a)
    ensures Mul(R, y, Sub(R, Sub(R, a, t), Add(R, a, t))) == Add(R, b, b)
    ensures Add(R, Add(R, a, b), d) == Add(R, a, a) && Sub(R, Add(R, a, b), d) == Add(R, b, b)
  {
    SumDiff(R, a, t);
    MulNegOne(R, y, z, b);
    MulNegOne(R, y, z, Sub(R, b, a));
    var n := Neg(R, t);
    assert DistribAt(R, y, n, n);
    NegMul(R, t, y);
    NegNeg(R, b);
    SumDiff2(R, a, b);
    assert MulCommAt(R, y, z);
    MulSwap(R, z, y, Sub(R, b, a));
  }

  lemma MulNegOne<T(!new)>(R: Ops<T>, y: T, z: T, b: T)
    requires IsRing(R) && Opposite(R, y, z)
    ensures Mul(R, y, Mul(R, z, b)) == Neg(R, b)
  {
    assert MulAssocAt(R, y, z, b) && OneAt(R, b);
    NegMul(R, R.one, b);
  }

  /** (a + t) + (a - t) = 2a and (a - t) - (a + t) = -t - t */
  lemma SumDiff<T(!new)>(R: Ops<T>, a: T, t: T)
    requires IsRing(R)
    ensures Add(R, Add(R, a, t), Sub(R, a, t)) == Add(R, a, a)
    ensures Sub(R, Sub(R, a, t), Add(R, a, t)) == Add(R, Neg(R, t), Neg(R, t))
  {
    var n, aa := Neg(R, t), Add(R, a, a);
    assert SubAt(R, a, t) && ZeroAt(R, t);
    AddSwap(R, a, t, a, n);
    assert ZeroAt(R, aa) && AddCommAt(R, R.zero, aa);
    assert SubAt(R, Sub(R, a, t), Add(R, a, t));
    NegAdd(R, a, t);
    AddSwap(R, a, n, Neg(R, a), n);
    assert ZeroAt(R, a) && ZeroAt(R, Add(R, n, n));
  }

  /** (a + b) + -(b - a) = 2a and (a + b) - -(b - a) = 2b */
  lemma SumDiff2<T(!new)>(R: Ops<T>, a: T, b: T)
    requires IsRing(R)
    ensures Add(R, Add(R, a, b), Neg(R, Sub(R, b, a))) == Add(R, a, a)
    ensures Sub(R, Add(R, a, b), Neg(R, Sub(R, b, a))) == Add(R, b, b)
  {
    var d, s := Sub(R, b, a), Add(R, a, b);
    assert SubAt(R, b, a) && SubAt(R, s, Neg(R, d));
    NegNeg(R, d);
    NegNeg(R, a);
    NegAdd(R, b, Neg(R, a));
    assert AddCommAt(R, Neg(R, b), a) && AddCommAt(R, a, b) && AddCommAt(R, b, Neg(R, a));
    AddSwap(R, a, b, a, Neg(R, b));
    AddSwap(R, a, b, Neg(R, a), b);
    assert ZeroAt(R, b) && ZeroAt(R, a) && ZeroAt(R, Add(R, b, b)) && ZeroAt(R, Add(R, a, a));
    assert AddCommAt(R, R.zero, Add(R, a, a));
  }

  lemma {:induction false} InvLayerLayer<T(!new)>(R: Ops<T>, z: int -> T, k: int, k': int, len: nat, m: nat, v: seq<T>)
    requires IsRing(R) && len > 0 && |v| == 2 * len * m
    requires forall j :: k <= j < k + m ==> Opposite(R, z(j), z(k + k' - j))
    ensures InvLayer(R, z, k', len, Layer(R, z, k, len, v)) == VScale(R, Two(R), v)
    ensures Layer(R, z, k, len, InvLayer(R, z, k', len, v)) == VScale(R, Two(R), v)
    decreases m
  {
    hide Layer, InvLayer, Split, Merge, VScale;
    if m > 0 {
      var n := 2 * len;
      BlockStep(n, m);
      var v0, v1 := v[..n], v[n..];
      assert v == v0 + v1;
      assert Opposite(R, z(k), z(k + k' - k));
      assert Opposite(R, z(k'), z(k)) by { assert MulCommAt(R, z(k), z(k')); }
      forall j | k + 1 <= j < k + m ensures Opposite(R, z(j), z(k + 1 + (k' - 1) - j)) {
        assert Opposite(R, z(j), z(k + k' - j));
      }
      MergeSplit(R, z(k'), z(k), v0);
      InvLayerLayer(R, z, k + 1, k' - 1, len, m - 1, v1);
      LayerCons(R, z, k, len, v0, v1);
      LayerCons(R, z, k', len, v0, v1);
      LayerCons(R, z, k', len, Split(R, z(k), v0), Layer(R, z, k + 1, len, v1));
      LayerCons(R, z, k, len, Merge(R, z(k'), v0), InvLayer(R, z, k' - 1, len, v1));
      VScaleConcat(R, Two(R), v0, v1);
    }
  }

  /** The same for the layer of the k blocks numbered k to 2k - 1. */
  lemma LayerRoundTrip<T(!new)>(R: Ops<T>, z: int -> T, n: nat, k: nat, len: nat, v: seq<T>)
    requires IsRing(R) && IsPow2(k) && Paired(R, z, n) && 1 <= k < n && len > 0 && |v| == 2 * len * k
    ensures InvLayer(R, z, 2 * k - 1, len, Layer(R, z, k, len, v)) == VScale(R, Two(R), v)
    ensures Layer(R, z, k, len, InvLayer(R, z, 2 * k - 1, len, v)) == VScale(R, Two(R), v)
  {
    hide Layer, InvLayer, VScale, IsRing, IsPow2, Opposite;
    forall j | k <= j < k + k ensures Opposite(R, z(j), z(k + (2 * k - 1) - j)) {
      assert Opposite(R, z(j), z(3 * k - 1 - j)) by { assert k >= 1; }
    }
    InvLayerLayer(R, z, k, 2 * k - 1, len, k, v);
  }

  /** Intt(Ntt(v)) = 2^layers v */
  lemma {:induction false} InttNtt<T(!new)>(R: Ops<T>, z: int -> T, k: nat, f: nat, layers: nat, v: seq<T>)
    requires IsRing(R) && f > 0 && IsPow2(k) && Paired(R, z, k * Pow2(layers)) && |v| == Size(f, layers) * k
    ensures Intt(R, z, k, f, layers, Ntt(R, z, k, f, layers, v)) == VScale(R, TwoPow(R, layers), v)
    decreases layers
  {
    hide Layer, InvLayer, VScale, IsRing, Paired;
    if layers == 0 {
      VScaleOne(R, v);
    } else {
      var len, p := Size(f, layers - 1), TwoPow(R, layers - 1);
      var w := Layer(R, z, k, len, v);
      SizeStep(k, f, layers);
      InttNtt(R, z, 2 * k, f, layers - 1, w);
      InvLayerScale(R, z, 2 * k - 1, len, p, w);
      LayerRoundTrip(R, z, k * Pow2(layers), k, len, v);
      VScaleScale(R, Two(R), p, v);
    }
  }

  lemma DoublePow2(k: nat)
    requires IsPow2(k)
    ensures IsPow2(2 * k) && k >= 1
  {
  }

  /** Ntt(Intt(v)) = 2^layers v */
  lemma {:induction false} NttIntt<T(!new)>(R: Ops<T>, z: int -> T, k: nat, f: nat, layers: nat, v: seq<T>)
    requires IsRing(R) && f > 0 && IsPow2(k) && Paired(R, z, k * Pow2(layers)) && |v| == Size(f, layers) * k
    ensures Ntt(R, z, k, f, layers, Intt(R, z, k, f, layers, v)) == VScale(R, TwoPow(R, layers), v)
    decreases layers
  {
    hide Layer, InvLayer, VScale, IsRing, Paired, Two, IsPow2;
    if layers == 0 {
      VScaleOne(R, v);
    } else {
      var len, y := Size(f, layers - 1), Intt(R, z, 2 * k, f, layers - 1, v);
      var w := InvLayer(R, z, 2 * k - 1, len, y);
      assert Intt(R, z, k, f, layers, v) == w;
      assert Ntt(R, z, k, f, layers, w) == Ntt(R, z, 2 * k, f, layers - 1, Layer(R, z, k, len, w));
      hide Ntt, Intt;
      DoublePow2(k);
      SizeStep(k, f, layers);
      LayerRoundTrip(R, z, k * Pow2(layers), k, len, y);
      NttLinear(R, z, 2 * k, f, layers - 1, Two(R), y, y);
      NttIntt(R, z, 2 * k, f, layers - 1, v);
      VScaleScale(R, Two(R), TwoPow(R, layers - 1), v);
    }
  }

  lemma DoubleProduct(a: nat, b: nat)
    ensures (2 * a) * b == a * (2 * b) == 2 * a * b == 2 * (a * b)
    ensures a > 0 && b > 0 ==> a * b > 0
  {
  }

  /** Splitting every block doubles their number and halves their size. */
  lemma SizeStep(k: nat, f: nat, layers: nat)
    requires layers > 0 && k > 0 && f > 0
    ensures 2 * k * Pow2(layers - 1) == k * Pow2(layers) >= 2 * k
    ensures Size(f, layers) * k == Size(f, layers - 1) * (2 * k) == 2 * Size(f, layers - 1) * k
    ensures Size(f, layers - 1) > 0
  {
    SizePositive(f, layers - 1);
    DoubleProduct(k, Pow2(layers - 1));
    DoubleProduct(Size(f, layers - 1), k);
    var p := Pow2(layers - 1);
    assert k * (p - 1) >= 0;
  }

  lemma SizePositive(f: nat, n: nat)
    requires f > 0
    ensures Size(f, n) > 0
  {
    if n > 0 { SizePositive(f, n - 1); }
  }

  // ---- the transform turns products into blockwise products ------------------------------------------

  /** The polynomial of block k is x^size - Root(k). */
  function Root<T>(R: Ops<T>, z: int -> T, k: nat): T {
    if k <= 1 then Neg(R, R.one) else if k % 2 == 0 then z(k / 2) else Neg(R, z(k / 2))
  }

  ghost predicate SquareAt<T>(R: Ops<T>, z: int -> T, k: nat) { Mul(R, z(k), z(k)) == Root(R, z, k) }

  /** Every z(k) is a square root of the root of its block. */
  ghost predicate SquareRoots<T>(R: Ops<T>, z: int -> T, n: nat) {
    forall k | 1 <= k < n :: SquareAt(R, z, k)
  }

  /** Products of blocks k, k + 1, ..., each in its own quotient ring. */
  function BlockMul<T>(R: Ops<T>, z: int -> T, k: nat, size: nat, u: seq<T>, v: seq<T>): (w: seq<T>)
    requires |u| == |v|
    ensures |w| == |u|
    decreases |u|
  {
    if size == 0 || |u| < size then u
    else Act(R, Root(R, z, k), u[..size], v[..size]) + BlockMul(R, z, k + 1, size, u[size..], v[size..])
  }

  /** Chinese remaindering of one block: x^2m - z^2 = (x^m - z)(x^m + z). */
  lemma SplitMul<T(!new)>(R: Ops<T>, z: T, u: seq<T>, v: seq<T>)
    requires IsRing(R) && |u| == |v| && |u| % 2 == 0
    ensures var m := |u| / 2; var su, sv := Split(R, z, u), Split(R, z, v);
            Split(R, z, Act(R, Mul(R, z, z), u, v)) ==
            Act(R, z, su[..m], sv[..m]) + Act(R, Neg(R, z), su[m..], sv[m..])
  {
    var p := Act(R, Mul(R, z, z), u, v);
    SplitIsFold(R, z, u);
    SplitIsFold(R, z, v);
    SplitIsFold(R, z, p);
    FoldMul(R, z, u, v);
    NegSquare(R, z);
    FoldMul(R, Neg(R, z), u, v);
  }

  lemma SplitIsFold<T(!new)>(R: Ops<T>, z: T, v: seq<T>)
    requires IsRing(R) && |v| % 2 == 0
    ensures Split(R, z, v) == Fold(R, z, v) + Fold(R, Neg(R, z), v)
  {
    var m := |v| / 2;
    forall i | 0 <= i < m ensures Sub(R, v[i], Mul(R, z, v[m + i])) == Add(R, v[i], Mul(R, Neg(R, z), v[m + i])) {
      assert SubAt(R, v[i], Mul(R, z, v[m + i]));
      NegMul(R, z, v[m + i]);
    }
    forall i | 0 <= i < |v| ensures Split(R, z, v)[i] == (Fold(R, z, v) + Fold(R, Neg(R, z), v))[i] {
      if i >= m { var i' := i - m; assert v[i] == v[m + i']; }
    }
  }

  lemma {:induction false} LayerMul<T(!new)>(R: Ops<T>, z: int -> T, k: nat, len: nat, m: nat, u: seq<T>, v: seq<T>)
    requires IsRing(R) && k > 0 && len > 0 && |u| == |v| == 2 * len * m
    requires forall j | k <= j < k + m :: SquareAt(R, z, j)
    ensures Layer(R, z, k, len, BlockMul(R, z, k, 2 * len, u, v)) ==
            BlockMul(R, z, 2 * k, len, Layer(R, z, k, len, u), Layer(R, z, k, len, v))
    decreases m
  {
    hide Layer, Split, Act, BlockMul, IsRing, Neg, Mul;
    if m > 0 {
      var n := 2 * len;
      BlockStep(n, m);
      LayerMul(R, z, k + 1, len, m - 1, u[n..], v[n..]);
      assert SquareAt(R, z, k);
      assert u == u[..n] + u[n..] && v == v[..n] + v[n..];
      LayerOfProduct(R, z, k, len, u[..n], u[n..], v[..n], v[n..]);
      ProductOfLayer(R, z, k, len, u[..n], u[n..], v[..n], v[n..]);
    }
  }

  /** The root of a block, and the roots of the two blocks it is split into. */
  lemma RootSplits<T>(R: Ops<T>, z: int -> T, k: nat)
    requires k > 0 && SquareAt(R, z, k)
    ensures Root(R, z, k) == Mul(R, z(k), z(k)) && Root(R, z, 2 * k) == z(k) && Root(R, z, 2 * k + 1) == Neg(R, z(k))
  {
  }

  /** A layer after a product: the first block. */
  lemma LayerOfProduct<T(!new)>(R: Ops<T>, z: int -> T, k: nat, len: nat, u0: seq<T>, u1: seq<T>, v0: seq<T>,
      v1: seq<T>)
    requires IsRing(R) && len > 0 && k > 0 && |u0| == |v0| == 2 * len && |u1| == |v1| && SquareAt(R, z, k)
    ensures var su, sv := Split(R, z(k), u0), Split(R, z(k), v0);
            Layer(R, z, k, len, BlockMul(R, z, k, 2 * len, u0 + u1, v0 + v1)) ==
            (Act(R, z(k), su[..len], sv[..len]) + Act(R, Neg(R, z(k)), su[len..], sv[len..]))
            + Layer(R, z, k + 1, len, BlockMul(R, z, k + 1, 2 * len, u1, v1))
  {
    hide Layer, Split, Act, BlockMul, IsRing, Neg, Mul, Root, SquareAt;
    RootSplits(R, z, k);
    BlockMulCons(R, z, k, 2 * len, u0, u1, v0, v1);
    LayerCons(R, z, k, len, Act(R, Root(R, z, k), u0, v0), BlockMul(R, z, k + 1, 2 * len, u1, v1));
    SplitMul(R, z(k), u0, v0);
  }

  /** A product after a layer: the first two blocks. */
  lemma ProductOfLayer<T(!new)>(R: Ops<T>, z: int -> T, k: nat, len: nat, u0: seq<T>, u1: seq<T>, v0: seq<T>,
      v1: seq<T>)
    requires len > 0 && k > 0 && |u0| == |v0| == 2 * len && |u1| == |v1| && SquareAt(R, z, k)
    ensures var su, sv := Split(R, z(k), u0), Split(R, z(k), v0);
            BlockMul(R, z, 2 * k, len, Layer(R, z, k, len, u0 + u1), Layer(R, z, k, len, v0 + v1)) ==
            (Act(R, z(k), su[..len], sv[..len]) + Act(R, Neg(R, z(k)), su[len..], sv[len..]))
            + BlockMul(R, z, 2 * (k + 1), len, Layer(R, z, k + 1, len, u1), Layer(R, z, k + 1, len, v1))
  {
    hide Layer, Split, Act, BlockMul, Neg, Mul, Root, SquareAt;
    RootSplits(R, z, k);
    LayerCons(R, z, k, len, u0, u1);
    LayerCons(R, z, k, len, v0, v1);
    BlockMulTwo(R, z, 2 * k, len, Split(R, z(k), u0), Layer(R, z, k + 1, len, u1), Split(R, z(k), v0), Layer(R, z,
        k + 1, len, v1));
  }

  lemma BlockMulCons<T>(R: Ops<T>, z: int -> T, k: nat, size: nat, u: seq<T>, us: seq<T>, v: seq<T>, vs: seq<T>)
    requires |u| == |v| == size > 0 && |us| == |vs|
    ensures BlockMul(R, z, k, size, u + us, v + vs) == Act(R, Root(R, z, k), u, v) + BlockMul(R, z, k + 1, size, us, vs)
  {
    assert (u + us)[..size] == u && (u + us)[size..] == us;
    assert (v + vs)[..size] == v && (v + vs)[size..] == vs;
  }

  lemma BlockMulTwo<T>(R: Ops<T>, z: int -> T, k: nat, size: nat, u: seq<T>, us: seq<T>, v: seq<T>, vs: seq<T>)
    requires |u| == |v| == 2 * size && size > 0 && |us| == |vs|
    ensures BlockMul(R, z, k, size, u + us, v + vs) ==
            (Act(R, Root(R, z, k), u[..size], v[..size]) + Act(R, Root(R, z, k + 1), u[size..], v[size..]))
            + BlockMul(R, z, k + 2, size, us, vs)
  {
    var u0, u1, v0, v1 := u[..size], u[size..], v[..size], v[size..];
    assert u + us == u0 + (u1 + us) && v + vs == v0 + (v1 + vs);
    BlockMulCons(R, z, k, size, u0, u1 + us, v0, v1 + vs);
    BlockMulCons(R, z, k + 1, size, u1, us, v1, vs);
  }

  lemma {:induction false} NttMulBlocks<T(!new)>(R: Ops<T>, z: int -> T, k: nat, f: nat, layers: nat, u: seq<T>,
      v: seq<T>)
    requires IsRing(R) && f > 0 && k > 0 && SquareRoots(R, z, k * Pow2(layers)) && |u| == |v| == Size(f, layers) * k
    ensures Ntt(R, z, k, f, layers, BlockMul(R, z, k, Size(f, layers), u, v)) ==
            BlockMul(R, z, k * Pow2(layers), f, Ntt(R, z, k, f, layers, u), Ntt(R, z, k, f, layers, v))
    decreases layers
  {
    hide Layer, BlockMul, IsRing;
    if layers > 0 {
      var len := Size(f, layers - 1);
      SizeStep(k, f, layers);
      LayerMul(R, z, k, len, k, u, v);
      NttMulBlocks(R, z, 2 * k, f, layers - 1, Layer(R, z, k, len, u), Layer(R, z, k, len, v));
    }
  }

  /** The transform of a negacyclic product is the blockwise product of the transforms. */
  lemma NttMul<T(!new)>(R: Ops<T>, z: int -> T, f: nat, layers: nat, u: seq<T>, v: seq<T>)
    requires IsRing(R) && f > 0 && SquareRoots(R, z, Pow2(layers)) && |u| == |v| == Size(f, layers)
    ensures Ntt(R, z, 1, f, layers, Act(R, Neg(R, R.one), u, v)) ==
            BlockMul(R, z, Pow2(layers), f, Ntt(R, z, 1, f, layers, u), Ntt(R, z, 1, f, layers, v))
  {
    hide Ntt, Act, SquareRoots, IsRing;
    SizePositive(f, layers);
    BlockMulCons(R, z, 1, |u|, u, [], v, []);
    var p := Act(R, Neg(R, R.one), u, v);
    assert u + [] == u && v + [] == v && p + [] == p;
    NttMulBlocks(R, z, 1, f, layers, u, v);
  }
}
