/** The 7-layer in-place transform of ML-KEM, and its two ring multiplications. */
module KemNtt {
  import opened Rings
  import opened Vectors
  import opened QuotientRing
  import opened Transform
  import opened ModArith
  import opened KemField

  const N: nat := 256

  type Poly = p: seq<Fq> | |p| == 256 witness seq(256, i => 0)

  function NttOf(v: seq<Fq>): (w: seq<Fq>)
    ensures |w| == |v|
  {
    Ntt(Field, Zeta, 1, 2, 7, v)
  }

  function InttOf(v: seq<Fq>): (w: seq<Fq>)
    ensures |w| == |v|
  {
    VScale(Field, 3303, Intt(Field, Zeta, 1, 2, 7, v))
  }

  /** The product in Z_3329[x]/(x^256 + 1). */
  function RingMul(a: Poly, b: Poly): Poly {
    Act(Field, Neg(Field, 1), a, b)
  }

  lemma FewBlocks(len: nat, k: nat)
    requires 2 * len * k == 256 && len >= 2
    ensures k <= 64
  {
    MulDistributes(k, 2 * len, 4);
    assert k * (2 * len - 4) >= 0;
  }

  /** The butterflies of one block, in place. */
  method SplitBlock(r: array<Fq>, start: nat, len: nat, zeta: Fq)
    requires start + 2 * len <= r.Length
    modifies r
    ensures r[..] == old(r[..start]) + Split(Field, zeta, old(r[start..start + 2 * len])) + old(r[start + 2 * len..])
  {
    hide Add, Sub, Mul, Red, AddQ, SubQ, MulQ;
    ghost var w := r[..];
    var j := start;
    while j < start + len
      invariant start <= j <= start + len
      invariant forall i :: 0 <= i < r.Length && !(start <= i < j) && !(start + len <= i < j + len) ==> r[i] == w[i]
      invariant forall i :: start <= i < j ==> r[i] == Add(Field, w[i], Mul(Field, zeta, w[i + len]))
      invariant forall i :: start + len <= i < j + len ==> r[i] == Sub(Field, w[i - len], Mul(Field, zeta, w[i]))
    {
      FieldOps(zeta, r[j + len]);
      var t := MulQ(zeta, r[j + len]);
      FieldOps(r[j], t);
      r[j + len] := SubQ(r[j], t);
      r[j] := AddQ(r[j], t);
      j := j + 1;
    }
    SplitAssembled(Field, w, r[..], start, len, zeta);
  }

  method MergeBlock(r: array<Fq>, start: nat, len: nat, zeta: Fq)
    requires start + 2 * len <= r.Length
    modifies r
    ensures r[..] == old(r[..start]) + Merge(Field, zeta, old(r[start..start + 2 * len])) + old(r[start + 2 * len..])
  {
    hide Add, Sub, Mul, Red, AddQ, SubQ, MulQ;
    ghost var w := r[..];
    var j := start;
    while j < start + len
      invariant start <= j <= start + len
      invariant forall i :: 0 <= i < r.Length && !(start <= i < j) && !(start + len <= i < j + len) ==> r[i] == w[i]
      invariant forall i :: start <= i < j ==> r[i] == Add(Field, w[i], w[i + len])
      invariant forall i :: start + len <= i < j + len ==> r[i] == Mul(Field, zeta, Sub(Field, w[i], w[i - len]))
    {
      var t := r[j];
      FieldOps(t, r[j + len]);
      FieldOps(r[j + len], t);
      r[j] := AddQ(t, r[j + len]);
      var d := SubQ(r[j + len], t);
      FieldOps(zeta, d);
      r[j + len] := MulQ(zeta, d);
      j := j + 1;
    }
    MergeAssembled(Field, w, r[..], start, len, zeta);
  }

  /** A block done counts towards the layer: done blocks followed by the layer of the rest. */
  lemma LayerProgress(w: seq<Fq>, r: seq<Fq>, start: nat, k: int, len: nat)
    requires len > 0 && start + 2 * len <= |w|
    requires r == w[..start] + Split(Field, Zeta(k), w[start..start + 2 * len]) + w[start + 2 * len..]
    ensures |r| == |w|
    ensures r[..start + 2 * len] + Layer(Field, Zeta, k + 1, len, r[start + 2 * len..]) ==
            w[..start] + Layer(Field, Zeta, k, len, w[start..])
  {
    hide Split, Layer;
    var next := start + 2 * len;
    var block, rest := w[start..next], w[next..];
    assert w[start..] == block + rest;
    LayerCons(Field, Zeta, k, len, block, rest);
    assert r[next..] == rest && r[..next] == w[..start] + Split(Field, Zeta(k), block);
  }

  lemma InvLayerProgress(w: seq<Fq>, r: seq<Fq>, start: nat, k: int, len: nat)
    requires len > 0 && start + 2 * len <= |w|
    requires r == w[..start] + Merge(Field, Zeta(k), w[start..start + 2 * len]) + w[start + 2 * len..]
    ensures |r| == |w|
    ensures r[..start + 2 * len] + InvLayer(Field, Zeta, k - 1, len, r[start + 2 * len..]) ==
            w[..start] + InvLayer(Field, Zeta, k, len, w[start..])
  {
    hide Merge, InvLayer;
    var next := start + 2 * len;
    var block, rest := w[start..next], w[next..];
    assert w[start..] == block + rest;
    LayerCons(Field, Zeta, k, len, block, rest);
    assert r[next..] == rest && r[..next] == w[..start] + Merge(Field, Zeta(k), block);
  }

  /** One forward layer, block by block, with the next zeta for each block. */
  method ForwardLayer(r: array<Fq>, k: nat, len: nat, ghost blocks: nat) returns (next: nat)
    requires len > 0 && 2 * len * blocks == r.Length && k + blocks <= 128
    modifies r
    ensures r[..] == Layer(Field, Zeta, k, len, old(r[..])) && next == k + blocks
  {
    hide Layer, Split;
    ghost var v, b := r[..], 0;
    var start := 0;
    next := k;
    while start < r.Length
      invariant b <= blocks && next == k + b && start == 2 * len * b <= r.Length
      invariant r[..start] + Layer(Field, Zeta, next, len, r[start..]) == Layer(Field, Zeta, k, len, v)
    {
      BlocksLeft(2 * len, b, blocks);
      var zeta := Zeta(next);
      ghost var w := r[..];
      SplitBlock(r, start, len, zeta);
      LayerProgress(w, r[..], start, next, len);
      b, next := b + 1, next + 1;
      start := start + 2 * len;
    }
    BlocksDone(2 * len, b, blocks);
  }

  method InverseLayer(r: array<Fq>, k: nat, len: nat, ghost blocks: nat) returns (next: nat)
    requires len > 0 && 2 * len * blocks == r.Length && blocks <= k < 128
    modifies r
    ensures r[..] == InvLayer(Field, Zeta, k, len, old(r[..])) && next == k - blocks
  {
    hide InvLayer, Merge;
    ghost var v, b := r[..], 0;
    var start := 0;
    next := k;
    while start < r.Length
      invariant b <= blocks && next == k - b && start == 2 * len * b <= r.Length
      invariant r[..start] + InvLayer(Field, Zeta, next, len, r[start..]) == InvLayer(Field, Zeta, k, len, v)
    {
      BlocksLeft(2 * len, b, blocks);
      var zeta := Zeta(next);
      ghost var w := r[..];
      MergeBlock(r, start, len, zeta);
      InvLayerProgress(w, r[..], start, next, len);
      b, next := b + 1, next - 1;
      start := start + 2 * len;
    }
    BlocksDone(2 * len, b, blocks);
  }

  /** The forward transform: seven layers, len = 128, 64, ..., 2. */
  method NttFwdKem(r: array<Fq>)
    requires r.Length == N
    modifies r
    ensures r[..] == NttOf(old(r[..]))
  {
    hide Layer;
    ghost var target := NttOf(r[..]);
    var k, len := 1, 128;
    ghost var layers := 7;
    while len >= 2
      invariant 0 <= layers <= 7 && 2 * len == Size(2, layers) && k == Pow2(7 - layers) && 2 * len * k == N
      invariant Ntt(Field, Zeta, k, 2, layers, r[..]) == target
      decreases len
    {
      FewBlocks(len, k);
      layers := layers - 1;
      k := ForwardLayer(r, k, len, k);
      len := len / 2;
    }
  }

  /** The inverse transform: seven layers, len = 2, 4, ..., 128, then the scaling by 1/128. */
  method NttInvKem(r: array<Fq>)
    requires r.Length == N
    modifies r
    ensures r[..] == InttOf(old(r[..]))
  {
    hide InvLayer, VScale;
    ghost var a := r[..];
    var k, len := 127, 2;
    ghost var done, blocks := 0, 128;
    while len <= 128
      invariant 0 <= done <= 7 && len == Size(2, done) && blocks == Pow2(7 - done) && k == blocks - 1 &&
                len * blocks == N
      invariant r[..] == Intt(Field, Zeta, blocks, 2, done, a)
      decreases 256 - len
    {
      blocks := blocks / 2;
      k := InverseLayer(r, k, len, blocks);
      done := done + 1;
      len := 2 * len;
    }
    ScaleInPlace(r, 3303);
  }

  method ScaleInPlace(r: array<Fq>, c: Fq)
    modifies r
    ensures r[..] == VScale(Field, c, old(r[..]))
  {
    hide Mul, Red, MulQ;
    ghost var w := r[..];
    var i := 0;
    while i < r.Length
      invariant 0 <= i <= r.Length
      invariant forall j :: 0 <= j < i ==> r[j] == Mul(Field, c, w[j])
      invariant forall j :: i <= j < r.Length ==> r[j] == w[j]
    {
      FieldOps(c, r[i]);
      r[i] := MulQ(c, r[i]);
      i := i + 1;
    }
  }

  /** (a0 + a1 x)(b0 + b1 x) mod (x^2 - zeta) */
  function BaseMul(a0: Fq, a1: Fq, b0: Fq, b1: Fq, zeta: Fq): (r: (Fq, Fq))
    ensures [r.0, r.1] == Act(Field, zeta, [a0, a1], [b0, b1])
  {
    var m := Red(a1 * b1);
    var r0 := Red(m * zeta + a0 * b0);
    var r1 := Red(a0 * b1 + a1 * b0);
    BaseMulIsProduct(a0, a1, b0, b1, zeta);
    (r0, r1)
  }

  lemma BaseMulIsProduct(a0: Fq, a1: Fq, b0: Fq, b1: Fq, zeta: Fq)
    ensures [Red(Red(a1 * b1) * zeta + a0 * b0), Red(a0 * b1 + a1 * b0)] == Act(Field, zeta, [a0, a1], [b0, b1])
  {
    var a, b := [a0, a1], [b0, b1];
    FieldIsRing();
    ActSingle(Field, zeta, a1, b);
    assert a[1..] == [a1];
    var t := VScale(Field, a1, b);
    assert Act(Field, zeta, a, b) ==
           [Add(Field, Mul(Field, a0, b0), Mul(Field, zeta, Mul(Field, a1, b1))), Add(Field, Mul(Field, a0, b1),
               Mul(Field, a1, b0))];
    BaseMulOps(a0, a1, b0, b1, zeta);
  }

  lemma BaseMulOps(a0: Fq, a1: Fq, b0: Fq, b1: Fq, zeta: Fq)
    ensures Add(Field, Mul(Field, a0, b0), Mul(Field, zeta, Mul(Field, a1, b1))) == Red(Red(a1 * b1) * zeta + a0 * b0)
    ensures Add(Field, Mul(Field, a0, b1), Mul(Field, a1, b0)) == Red(a0 * b1 + a1 * b0)
  {
    hide Red;
    var m: int := Red(a1 * b1);
    ModAdd(a0 * b0, m * zeta, Q);
    ModAdd((a0 * b0) % Q, zeta * m, Q);
    ModAdd(a0 * b1, a1 * b0, Q);
    ModAdd((a0 * b1) % Q, a1 * b0, Q);
  }

  lemma TwoPow7()
    ensures Mul(Field, 3303, TwoPow(Field, 7)) == 1
  {
    assert Two(Field) == 2;
    assert TwoPow(Field, 1) == 2;
    assert TwoPow(Field, 2) == 4;
    assert TwoPow(Field, 3) == 8;
    assert TwoPow(Field, 4) == 16;
    assert TwoPow(Field, 5) == 32;
    assert TwoPow(Field, 6) == 64;
    assert TwoPow(Field, 7) == 128;
  }

  /** The inverse transform undoes the transform. */
  lemma RoundTrip(v: Poly)
    ensures InttOf(NttOf(v)) == v
  {
    hide Ntt, Intt, VScale, TwoPow, IsRing, Paired, SquareRoots;
    FieldIsRing();
    ZetaTable();
    assert Pow2(7) == 128 && Size(2, 7) == 256;
    InttNtt(Field, Zeta, 1, 2, 7, v);
    TwoPow7();
    VScaleScale(Field, 3303, TwoPow(Field, 7), v);
    VScaleOne(Field, v);
  }

  /** Multiplying the transforms block by block and transforming back gives the product in the ring. */
  lemma NttProduct(a: Poly, b: Poly)
    ensures InttOf(BlockMul(Field, Zeta, 128, 2, NttOf(a), NttOf(b))) == RingMul(a, b)
  {
    hide Ntt, Intt, VScale, IsRing, SquareRoots, Paired, BlockMul, Act;
    FieldIsRing();
    ZetaTable();
    assert Pow2(7) == 128 && Size(2, 7) == 256;
    NttMul(Field, Zeta, 2, 7, a, b);
    RoundTrip(RingMul(a, b));
  }

  lemma BlockMulProgress(u: seq<Fq>, v: seq<Fq>, k: nat, i: nat)
    requires |u| == |v| >= i + 4
    ensures BlockMul(Field, Zeta, 2 * k, 2, u[i..], v[i..]) ==
            Act(Field, Root(Field, Zeta, 2 * k), [u[i], u[i + 1]], [v[i], v[i + 1]])
            + Act(Field, Root(Field, Zeta, 2 * k + 1), [u[i + 2], u[i + 3]], [v[i + 2], v[i + 3]])
            + BlockMul(Field, Zeta, 2 * k + 2, 2, u[i + 4..], v[i + 4..])
  {
    hide BlockMul, Act;
    var u0, v0 := u[i..i + 4], v[i..i + 4];
    assert u[i..] == u0 + u[i + 4..] && v[i..] == v0 + v[i + 4..];
    assert u0[..2] == [u[i], u[i + 1]] && v0[..2] == [v[i], v[i + 1]];
    assert u0[2..] == [u[i + 2], u[i + 3]] && v0[2..] == [v[i + 2], v[i + 3]];
    BlockMulTwo(Field, Zeta, 2 * k, 2, u0, u[i + 4..], v0, v[i + 4..]);
  }

  lemma ChildRoots(k: nat)
    requires k > 0
    ensures Root(Field, Zeta, 2 * k) == Zeta(k) && Root(Field, Zeta, 2 * k + 1) == SubQ(0, Zeta(k))
  {
    hide Zeta, Red, Pow, Neg, SubQ;
    FieldOps(Zeta(k), 0);
  }

  method StoreFour(fr: array<Fq>, at: nat, r0: Fq, r1: Fq, r2: Fq, r3: Fq)
    requires at + 4 <= fr.Length
    modifies fr
    ensures fr[..at + 4] == old(fr[..at]) + ([r0, r1] + [r2, r3])
  {
    fr[at] := r0;
    fr[at + 1] := r1;
    fr[at + 2] := r2;
    fr[at + 3] := r3;
  }

  /** The base multiplications of 64 pairs of blocks. */
  method BaseMulAll(fa: seq<Fq>, fb: seq<Fq>, fr: array<Fq>)
    requires |fa| == |fb| == fr.Length == N
    modifies fr
    ensures fr[..] == BlockMul(Field, Zeta, 128, 2, fa, fb)
  {
    hide BlockMul, Act, Root, Zeta, Red, Neg, SubQ, Field;
    ghost var target := BlockMul(Field, Zeta, 128, 2, fa, fb);
    assert fa[0..] == fa && fb[0..] == fb;
    var i := 0;
    while i < 64
      invariant 0 <= i <= 64
      invariant fr[..4 * i] + BlockMul(Field, Zeta, 128 + 2 * i, 2, fa[4 * i..], fb[4 * i..]) == target
    {
      ghost var done := fr[..4 * i];
      var zeta := Zeta(64 + i);
      var (r0, r1) := BaseMul(fa[4 * i], fa[4 * i + 1], fb[4 * i], fb[4 * i + 1], zeta);
      var (r2, r3) := BaseMul(fa[4 * i + 2], fa[4 * i + 3], fb[4 * i + 2], fb[4 * i + 3], SubQ(0, zeta));
      BlockMulProgress(fa, fb, 64 + i, 4 * i);
      ChildRoots(64 + i);
      StoreFour(fr, 4 * i, r0, r1, r2, r3);
      assert fr[..4 * i + 4] == done + ([r0, r1] + [r2, r3]);
      i := i + 1;
    }
    assert fr[..] == fr[..256] + BlockMul(Field, Zeta, 256, 2, fa[256..], fb[256..]);
  }

  /** The ring product through the transform. */
  method PolyMulNtt(a: Poly, b: Poly) returns (r: Poly)
    ensures r == RingMul(a, b)
  {
    hide Ntt, Intt, BlockMul, Act, VScale;
    var fa := new Fq[N](i requires 0 <= i < N => a[i]);
    var fb := new Fq[N](i requires 0 <= i < N => b[i]);
    assert fa[..] == a && fb[..] == b;
    NttFwdKem(fa);
    NttFwdKem(fb);
    var fr := new Fq[N](i => 0);
    BaseMulAll(fa[..], fb[..], fr);
    NttInvKem(fr);
    NttProduct(a, b);
    r := fr[..];
  }
}
