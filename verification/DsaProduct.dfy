/** What the ML-DSA transforms mean: inverse to each other up to a factor, linear, and multiplicative. */
module DsaProduct {
  import opened Rings
  import opened Vectors
  import opened QuotientRing
  import opened Transform
  import opened Homomorphisms
  import opened ModArith
  import opened DsaField
  import opened DsaNtt

  function ResV(v: seq<int>): (w: seq<Zq>)
    ensures |w| == |v|
  {
    VMap(Res, v)
  }

  function RNtt(w: seq<Zq>): (v: seq<Zq>)
    ensures |v| == |w|
  {
    Ntt(MontRing, RingZeta, 1, 1, 8, w)
  }

  function RIntt(w: seq<Zq>): (v: seq<Zq>)
    ensures |v| == |w|
  {
    VScale(MontRing, 41978, Intt(MontRing, RingZeta, 1, 1, 8, w))
  }

  /** 2^64 mod Q: what a transform and its inverse multiply by, as a ring element. */
  const FACTOR: Zq := 2365951

  /** The transforms of the code, seen modulo Q, are the transforms of the ring. */
  lemma TransformResidues(v: seq<int>)
    ensures ResV(NttOf(v)) == RNtt(ResV(v)) && ResV(InttOf(v)) == RIntt(ResV(v))
  {
    assert MapsTo(Res, Zeta, RingZeta);
    assert Res(41978) == 41978;
    hide Ntt, Intt, VScale, Hom, MapsTo, IntOps, MontRing, Zeta, Res;
    ResidueHom();
    NttHom(IntOps, MontRing, Res, Zeta, RingZeta, 1, 1, 8, v);
    InttHom(IntOps, MontRing, Res, Zeta, RingZeta, 1, 1, 8, v);
    var t := Intt(IntOps, Zeta, 1, 1, 8, v);
    MapVectors(IntOps, MontRing, Res, 41978, t, t);
  }

  lemma TwoPow8()
    ensures MulM(41978, TwoPow(MontRing, 8)) == FACTOR
  {
    assert TwoPow(MontRing, 0) == 4193792;
    hide TwoPow;
    Doubled(0, 4193792);
    Doubled(1, 7167);
    Doubled(2, 14334);
    Doubled(3, 28668);
    Doubled(4, 57336);
    Doubled(5, 114672);
    Doubled(6, 229344);
    Doubled(7, 458688);
  }

  lemma Doubled(n: nat, r: Zq)
    requires TwoPow(MontRing, n) == r
    ensures TwoPow(MontRing, n + 1) == (r + r) % Q
  {
    MontIsRing();
    ProductIsMulM(r, r);
    hide IsRing;
    TwoMul(MontRing, r);
  }

  /** Either order of the two transforms multiplies by FACTOR. */
  lemma TransformInverse(w: seq<Zq>)
    requires |w| == 256
    ensures RIntt(RNtt(w)) == VScale(MontRing, FACTOR, w) && RNtt(RIntt(w)) == VScale(MontRing, FACTOR, w)
  {
    assert Pow2(8) == 256 && Size(1, 8) == 256;
    TwoPow8();
    hide Ntt, Intt, VScale, TwoPow, IsRing, Paired, SquareRoots, MontRing, MulM, RingZeta, Pow2, Size;
    MontIsRing();
    ZetaTable();
    var p := TwoPow(MontRing, 8);
    ProductIsMulM(41978, p);
    InttNtt(MontRing, RingZeta, 1, 1, 8, w);
    NttIntt(MontRing, RingZeta, 1, 1, 8, w);
    VScaleScale(MontRing, 41978, p, w);
    var t := Intt(MontRing, RingZeta, 1, 1, 8, w);
    NttLinear(MontRing, RingZeta, 1, 1, 8, 41978, t, t);
  }

  lemma ProductIsMulM(x: Zq, y: Zq)
    ensures Mul(MontRing, x, y) == MulM(x, y) && Add(MontRing, x, y) == AddM(x, y) && Sub(MontRing, x, y) == SubM(x, y)
  {
  }

  lemma TransformLinear(c: Zq, u: seq<Zq>, v: seq<Zq>)
    requires |u| == |v|
    ensures RNtt(VAdd(MontRing, u, v)) == VAdd(MontRing, RNtt(u), RNtt(v))
    ensures RNtt(VScale(MontRing, c, u)) == VScale(MontRing, c, RNtt(u))
    ensures RIntt(VAdd(MontRing, u, v)) == VAdd(MontRing, RIntt(u), RIntt(v))
    ensures RIntt(VScale(MontRing, c, u)) == VScale(MontRing, c, RIntt(u))
  {
    hide Ntt, Intt, VScale, VAdd, IsRing, MontRing, RingZeta;
    MontIsRing();
    NttLinear(MontRing, RingZeta, 1, 1, 8, c, u, v);
    NttLinear(MontRing, RingZeta, 1, 1, 8, c, v, u);
    InttScale(MontRing, RingZeta, 1, 1, 8, c, u);
    InttAdd(MontRing, RingZeta, 1, 1, 8, u, v);
    var iu, iv := Intt(MontRing, RingZeta, 1, 1, 8, u), Intt(MontRing, RingZeta, 1, 1, 8, v);
    VScaleScale(MontRing, 41978, c, iu);
    VScaleAdd(MontRing, 41978, iu, iv);
  }

  lemma TransformSub(u: seq<Zq>, v: seq<Zq>)
    requires |u| == |v|
    ensures RNtt(VSub(MontRing, u, v)) == VSub(MontRing, RNtt(u), RNtt(v))
    ensures RIntt(VSub(MontRing, u, v)) == VSub(MontRing, RIntt(u), RIntt(v))
  {
    hide RNtt, RIntt, VScale, VAdd, VSub, IsRing, MontRing;
    MontIsRing();
    var m := Neg(MontRing, MontRing.one);
    VSubAdd(MontRing, u, v);
    VSubAdd(MontRing, RNtt(u), RNtt(v));
    VSubAdd(MontRing, RIntt(u), RIntt(v));
    TransformLinear(m, v, v);
    TransformLinear(m, u, VScale(MontRing, m, v));
  }

  // ---- the product theorem --------------------------------------------------------------------------

  /** Blocks of one coefficient multiply pointwise. */
  lemma {:induction false} BlockMulOne(k: nat, u: seq<Zq>, v: seq<Zq>)
    requires |u| == |v|
    ensures BlockMul(MontRing, RingZeta, k, 1, u, v) == VMul(MontRing, u, v)
    decreases |u|
  {
    hide MontRing, RingZeta, IsRing, Root, Act, Mul;
    if u != [] {
      var c := Root(MontRing, RingZeta, k);
      MontIsRing();
      assert u[..1] == [u[0]] && v[..1] == [v[0]];
      ActSingle(MontRing, c, u[0], [v[0]]);
      BlockMulOne(k + 1, u[1..], v[1..]);
      assert VMul(MontRing, u, v) == [Mul(MontRing, u[0], v[0])] + VMul(MontRing, u[1..], v[1..]);
    }
  }

  lemma ProductInRing(u: seq<Zq>, v: seq<Zq>)
    requires |u| == |v| == 256
    ensures RIntt(VMul(MontRing, RNtt(u), RNtt(v))) == VScale(MontRing, FACTOR, Act(MontRing, Neg(MontRing,
            MontRing.one), u, v))
  {
    assert Pow2(8) == 256 && Size(1, 8) == 256;
    hide Ntt, VMul, BlockMul, Act, RIntt, VScale, IsRing, Paired, SquareRoots, MontRing, RingZeta, Pow2, Size;
    MontIsRing();
    ZetaTable();
    NttMul(MontRing, RingZeta, 1, 8, u, v);
    BlockMulOne(256, RNtt(u), RNtt(v));
    TransformInverse(Act(MontRing, Neg(MontRing, MontRing.one), u, v));
  }

  /** The ring of integers, in which polynomials have their usual meaning. */
  const Integers: Ops<int> := Ops(0, 1, (x, y) => x + y, (x, y) => x - y, (x, y) => x * y)

  /** x * 2^32 mod Q: the ring homomorphism from the integers to the Montgomery ring. */
  function Embed(x: int): Zq { x * TWO32 % Q }

  lemma EmbedHomAt(x: int, y: int)
    ensures Embed(x + y) == AddM(Embed(x), Embed(y)) && Embed(x - y) == SubM(Embed(x), Embed(y))
    ensures Embed(x * y) == MulM(Embed(x), Embed(y))
  {
    ModAdd(x * TWO32, y * TWO32, Q);
    ModAdd(x * TWO32, y * TWO32 % Q, Q);
    MulMNorm(x * TWO32, Embed(y));
    MulMNorm(x * TWO32, y * TWO32);
    UnscaledProduct(x, y * TWO32);
    assert x * (y * TWO32) == x * y * TWO32;
  }

  lemma EmbedHom()
    ensures Hom(Integers, MontRing, Embed)
  {
    forall x: int, y: int ensures HomAt(Integers, MontRing, Embed, x, y) {
      hide AddM, SubM, MulM, Embed;
      EmbedHomAt(x, y);
    }
  }

  /** A residue is the element 2^-32 times the embedding, and FACTOR undoes one such element. */
  lemma ResidueEmbed(x: int)
    ensures Mul(MontRing, 1, Embed(x)) == Res(x)
    ensures Mul(MontRing, FACTOR, Mul(MontRing, 1, Mul(MontRing, 1, Embed(x)))) == Res(x)
  {
    MulMNorm(1, x * TWO32);
    UnscaledProduct(x, 1);
    assert MulM(1, x * TWO32) == MulM(x * TWO32, 1);
    MulMNorm(1, x);
    MulMNorm(FACTOR, x * RINV);
    assert 1 * x * RINV == x * RINV;
    var k := (FACTOR * RINV * RINV - 1) / Q;
    assert FACTOR * (x * RINV) * RINV == x + Q * (x * k);
    ModMultiple(x, x * k, Q);
  }

  lemma {:induction false} ActHom<S(!new), T>(A: Ops<S>, R: Ops<T>, h: S -> T, c: S, p: seq<S>, b: seq<S>)
    requires Hom(A, R, h) && h(A.zero) == R.zero
    ensures VMap(h, Act(A, c, p, b)) == Act(R, h(c), VMap(h, p), VMap(h, b))
    decreases |p|
  {
    if p == [] {
      assert VMap(h, Zeros(A, |b|)) == Zeros(R, |b|);
    } else {
      var r := Act(A, c, p[1..], b);
      assert VMap(h, p)[1..] == VMap(h, p[1..]);
      ActHom(A, R, h, c, p[1..], b);
      ShiftHom(A, R, h, c, r);
      MapVectors(A, R, h, p[0], b, b);
      MapVectors(A, R, h, p[0], VScale(A, p[0], b), Shift(A, c, r));
    }
  }

  lemma ShiftHom<S(!new), T>(A: Ops<S>, R: Ops<T>, h: S -> T, c: S, a: seq<S>)
    requires Hom(A, R, h)
    ensures VMap(h, Shift(A, c, a)) == Shift(R, h(c), VMap(h, a))
  {
    if a != [] {
      assert HomAt(A, R, h, c, a[|a| - 1]);
    }
  }

  /** The product of integer polynomials modulo x^256 + 1. */
  function Negacyclic(a: seq<int>, b: seq<int>): (c: seq<int>)
    ensures |c| == |b|
  {
    Act(Integers, -1, a, b)
  }

  /** The transforms multiply: modulo Q, the code computes the product modulo x^256 + 1. */
  lemma TransformMultiplies(a: seq<int>, b: seq<int>)
    requires |a| == |b| == 256
    ensures ResV(InttOf(VMul(IntOps, NttOf(a), NttOf(b)))) == ResV(Negacyclic(a, b))
  {
    var m := Neg(MontRing, MontRing.one);
    var ea, eb, p := VMap(Embed, a), VMap(Embed, b), Negacyclic(a, b);
    MinusOne();
    hide NttOf, InttOf, RNtt, RIntt, VMul, Act, IsRing, Hom, MontRing, IntOps, Integers, Embed, Res;
    ResidueHom();
    TransformResidues(a);
    TransformResidues(b);
    TransformResidues(VMul(IntOps, NttOf(a), NttOf(b)));
    MapVectors(IntOps, MontRing, Res, 0, NttOf(a), NttOf(b));
    ProductInRing(ResV(a), ResV(b));
    MontIsRing();
    EmbedHom();
    ActHom(Integers, MontRing, Embed, -1, a, b);
    EmbeddedResidues(a);
    EmbeddedResidues(b);
    EmbeddedResidues(p);
    ScaleAct(MontRing, m, 1, ea, VScale(MontRing, 1, eb));
    ActScale(MontRing, m, ea, 1, eb);
  }

  lemma MinusOne()
    ensures Embed(-1) == Neg(MontRing, MontRing.one) && Embed(Integers.zero) == MontRing.zero
  {
  }

  lemma EmbeddedResidues(v: seq<int>)
    ensures ResV(v) == VScale(MontRing, 1, VMap(Embed, v))
    ensures VScale(MontRing, FACTOR, VScale(MontRing, 1, VScale(MontRing, 1, VMap(Embed, v)))) == ResV(v)
  {
    hide MontRing, Res, Embed;
    forall i | 0 <= i < |v|
      ensures Mul(MontRing, 1, Embed(v[i])) == Res(v[i])
      ensures Mul(MontRing, FACTOR, Mul(MontRing, 1, Mul(MontRing, 1, Embed(v[i])))) == Res(v[i])
    {
      ResidueEmbed(v[i]);
    }
  }
}
