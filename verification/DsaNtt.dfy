/** The signed, in-place transforms of ML-DSA: no i32 operation overflows, and what they compute. */
module DsaNtt {
  import opened Rings
  import opened Vectors
  import opened Transform
  import opened ModArith
  import opened MachineInts
  import opened DsaField

  const N: nat := 256

  function NttOf(v: seq<int>): (w: seq<int>)
    ensures |w| == |v|
  {
    Ntt(IntOps, Zeta, 1, 1, 8, v)
  }

  /** The inverse layers, then the factor 2^64 / 256. */
  function InttOf(v: seq<int>): (w: seq<int>)
    ensures |w| == |v|
  {
    VScale(IntOps, 41978, Intt(IntOps, Zeta, 1, 1, 8, v))
  }

  ghost predicate Bounded(v: seq<int>, bound: int) {
    forall i :: 0 <= i < |v| ==> -bound <= v[i] <= bound
  }

  /** The documented precondition of Montgomery reduction, with room to spare. */
  function Montgomery(a: int): (r: int)
    requires -(0x8000_0000 * Q) < a < 0x8000_0000 * Q
    ensures -Q < r < Q && FitsI32(r) && r == MontgomeryReduce(a)
  {
    MontgomeryBound(a);
    MontgomeryReduce(a)
  }

  /** The product of a zeta and an i32 meets the precondition of Montgomery reduction, and fits an i64. */
  lemma ZetaProduct(zeta: int, x: int)
    requires -4190208 <= zeta <= 4190208 && -0x1_0000_0000 <= x <= 0x1_0000_0000
    ensures -(0x8000_0000 * Q) < zeta * x < 0x8000_0000 * Q && FitsI64(zeta * x)
  {
    var b := 0x1_0000_0000;
    ProductBound(zeta, x, 4190208, b);
  }

  lemma ProductBound(x: int, y: int, a: int, b: int)
    requires -a <= x <= a && -b <= y <= b
    ensures -(a * b) <= x * y <= a * b
  {
    if y >= 0 {
      assert (a - x) * y >= 0 && (a + x) * y >= 0 && a * (b - y) >= 0;
    } else {
      assert (a - x) * -y >= 0 && (a + x) * -y >= 0 && a * (b + y) >= 0;
    }
  }

  lemma IntegerOps(x: int, y: int)
    ensures Add(IntOps, x, y) == x + y && Sub(IntOps, x, y) == x - y && Mul(IntOps, x, y) == MontgomeryReduce(x * y)
  {
  }

  // ---- one block ------------------------------------------------------------------------------------

  /** The arithmetic of one butterfly: everything fits, and it is the arithmetic of `IntOps`. */
  lemma SplitStep(zeta: int, lo: int, hi: int, bound: int)
    requires -4190208 <= zeta <= 4190208 && 0 <= bound && bound + Q < 0x8000_0000
    requires -bound <= lo <= bound && -bound <= hi <= bound
    ensures -(0x8000_0000 * Q) < zeta * hi < 0x8000_0000 * Q && FitsI64(zeta * hi)
    ensures var t := Montgomery(zeta * hi);
            && FitsI32(lo - t) && FitsI32(lo + t)
            && Add(IntOps, lo, Mul(IntOps, zeta, hi)) == lo + t && Sub(IntOps, lo, Mul(IntOps, zeta, hi)) == lo - t
  {
    ZetaProduct(zeta, hi);
    IntegerOps(zeta, hi);
    IntegerOps(lo, Montgomery(zeta * hi));
  }

  /** The code negates zeta and subtracts the other way around. */
  lemma MergeStep(zeta: int, lo: int, hi: int, bound: int)
    requires -4190208 <= zeta <= 4190208 && 0 <= bound && 2 * bound < 0x8000_0000
    requires -bound <= lo <= bound && -bound <= hi <= bound
    ensures FitsI32(lo + hi) && FitsI32(lo - hi) && Add(IntOps, lo, hi) == lo + hi
    ensures -(0x8000_0000 * Q) < -zeta * (lo - hi) < 0x8000_0000 * Q && FitsI64(-zeta * (lo - hi))
    ensures Mul(IntOps, zeta, Sub(IntOps, hi, lo)) == Montgomery(-zeta * (lo - hi))
  {
    assert -zeta * (lo - hi) == zeta * (hi - lo);
    ZetaProduct(zeta, hi - lo);
    IntegerOps(lo, hi);
    IntegerOps(hi, lo);
    IntegerOps(zeta, hi - lo);
  }

  method SplitBlock(a: array<int>, start: nat, len: nat, zeta: int, ghost bound: int)
    requires start + 2 * len <= a.Length && -4190208 <= zeta <= 4190208
    requires forall i :: start <= i < start + 2 * len ==> -bound <= a[i] <= bound
    requires 0 <= bound && bound + Q < 0x8000_0000
    modifies a
    ensures a[..] == old(a[..start]) + Split(IntOps, zeta, old(a[start..start + 2 * len])) + old(a[start + 2 * len..])
  {
    hide Add, Sub, Mul, Montgomery;
    ghost var w := a[..];
    var j := start;
    while j < start + len
      invariant start <= j <= start + len
      invariant forall i :: 0 <= i < a.Length && !(start <= i < j) && !(start + len <= i < j + len) ==> a[i] == w[i]
      invariant forall i :: start <= i < j ==> a[i] == Add(IntOps, w[i], Mul(IntOps, zeta, w[i + len]))
      invariant forall i :: start + len <= i < j + len ==> a[i] == Sub(IntOps, w[i - len], Mul(IntOps, zeta, w[i]))
    {
      SplitStep(zeta, a[j], a[j + len], bound);
      var t := Montgomery(zeta * a[j + len]);
      assert FitsI32(a[j] - t) && FitsI32(a[j] + t);
      a[j + len] := a[j] - t;
      a[j] := a[j] + t;
      j := j + 1;
    }
    SplitAssembled(IntOps, w, a[..], start, len, zeta);
  }

  method MergeBlock(a: array<int>, start: nat, len: nat, zeta: int, ghost bound: int)
    requires start + 2 * len <= a.Length && -4190208 <= zeta <= 4190208
    requires forall i :: start <= i < start + 2 * len ==> -bound <= a[i] <= bound
    requires 0 <= bound && 2 * bound < 0x8000_0000
    modifies a
    ensures a[..] == old(a[..start]) + Merge(IntOps, zeta, old(a[start..start + 2 * len])) + old(a[start + 2 * len..])
  {
    hide Add, Sub, Mul, Montgomery;
    ghost var w := a[..];
    var j := start;
    while j < start + len
      invariant start <= j <= start + len
      invariant forall i :: 0 <= i < a.Length && !(start <= i < j) && !(start + len <= i < j + len) ==> a[i] == w[i]
      invariant forall i :: start <= i < j ==> a[i] == Add(IntOps, w[i], w[i + len])
      invariant forall i :: start + len <= i < j + len ==> a[i] == Mul(IntOps, zeta, Sub(IntOps, w[i], w[i - len]))
    {
      MergeStep(zeta, a[j], a[j + len], bound);
      var t := a[j];
      assert FitsI32(t + a[j + len]) && FitsI32(t - a[j + len]);
      a[j] := t + a[j + len];
      a[j + len] := t - a[j + len];
      a[j + len] := Montgomery(-zeta * a[j + len]);
      j := j + 1;
    }
    MergeAssembled(IntOps, w, a[..], start, len, zeta);
  }

  // ---- growth ---------------------------------------------------------------------------------------

  lemma SplitBound(zeta: int, v: seq<int>, bound: int)
    requires |v| % 2 == 0 && -4190208 <= zeta <= 4190208 && 0 <= bound <= 0x8000_0000 && Bounded(v, bound)
    ensures Bounded(Split(IntOps, zeta, v), bound + Q)
  {
    var m := |v| / 2;
    forall i | 0 <= i < |v| ensures -(bound + Q) <= Split(IntOps, zeta, v)[i] <= bound + Q {
      var lo, hi := if i < m then v[i] else v[i - m], if i < m then v[m + i] else v[i];
      ZetaProduct(zeta, hi);
      MontgomeryBound(zeta * hi);
      IntegerOps(zeta, hi);
      IntegerOps(lo, MontgomeryReduce(zeta * hi));
    }
  }

  lemma MergeBound(zeta: int, v: seq<int>, bound: int)
    requires |v| % 2 == 0 && -4190208 <= zeta <= 4190208 && Q <= 2 * bound < 0x8000_0000 && Bounded(v, bound)
    ensures Bounded(Merge(IntOps, zeta, v), 2 * bound)
  {
    var m := |v| / 2;
    forall i | 0 <= i < |v| ensures -(2 * bound) <= Merge(IntOps, zeta, v)[i] <= 2 * bound {
      var lo, hi := if i < m then v[i] else v[i - m], if i < m then v[m + i] else v[i];
      ZetaProduct(zeta, hi - lo);
      MontgomeryBound(zeta * (hi - lo));
      IntegerOps(lo, hi);
      IntegerOps(hi, lo);
      IntegerOps(zeta, hi - lo);
    }
  }

  /** A forward layer adds at most Q to the size of the coefficients. */
  lemma {:induction false} LayerBound(k: int, len: nat, v: seq<int>, bound: int)
    requires 0 <= bound <= 0x8000_0000 && Bounded(v, bound)
    ensures Bounded(Layer(IntOps, Zeta, k, len, v), bound + Q)
    decreases |v|
  {
    hide Split, Zeta;
    if len > 0 && |v| >= 2 * len {
      SplitBound(Zeta(k), v[..2 * len], bound);
      LayerBound(k + 1, len, v[2 * len..], bound);
    }
  }

  /** An inverse layer doubles the size of the coefficients at most. */
  lemma {:induction false} InvLayerBound(k: int, len: nat, v: seq<int>, bound: int)
    requires Q <= 2 * bound < 0x8000_0000 && Bounded(v, bound)
    ensures Bounded(InvLayer(IntOps, Zeta, k, len, v), 2 * bound)
    decreases |v|
  {
    hide Merge, Zeta;
    if len > 0 && |v| >= 2 * len {
      MergeBound(Zeta(k), v[..2 * len], bound);
      InvLayerBound(k - 1, len, v[2 * len..], bound);
    }
  }

  // ---- the loops ------------------------------------------------------------------------------------

  lemma LayerProgress(w: seq<int>, r: seq<int>, start: nat, k: int, len: nat)
    requires len > 0 && start + 2 * len <= |w|
    requires r == w[..start] + Split(IntOps, Zeta(k), w[start..start + 2 * len]) + w[start + 2 * len..]
    ensures |r| == |w| && r[start + 2 * len..] == w[start + 2 * len..]
    ensures r[..start + 2 * len] + Layer(IntOps, Zeta, k + 1, len, r[start + 2 * len..]) ==
            w[..start] + Layer(IntOps, Zeta, k, len, w[start..])
  {
    hide Split, Layer, Zeta;
    var next := start + 2 * len;
    var block, rest := w[start..next], w[next..];
    assert w[start..] == block + rest;
    LayerCons(IntOps, Zeta, k, len, block, rest);
    assert r[next..] == rest && r[..next] == w[..start] + Split(IntOps, Zeta(k), block);
  }

  lemma InvLayerProgress(w: seq<int>, r: seq<int>, start: nat, k: int, len: nat)
    requires len > 0 && start + 2 * len <= |w|
    requires r == w[..start] + Merge(IntOps, Zeta(k), w[start..start + 2 * len]) + w[start + 2 * len..]
    ensures |r| == |w| && r[start + 2 * len..] == w[start + 2 * len..]
    ensures r[..start + 2 * len] + InvLayer(IntOps, Zeta, k - 1, len, r[start + 2 * len..]) ==
            w[..start] + InvLayer(IntOps, Zeta, k, len, w[start..])
  {
    hide Merge, InvLayer, Zeta;
    var next := start + 2 * len;
    var block, rest := w[start..next], w[next..];
    assert w[start..] == block + rest;
    LayerCons(IntOps, Zeta, k, len, block, rest);
    assert r[next..] == rest && r[..next] == w[..start] + Merge(IntOps, Zeta(k), block);
  }

  /** One forward layer; k is incremented before each block. */
  method ForwardLayer(a: array<int>, k: nat, len: nat, ghost blocks: nat, ghost bound: int) returns (last: nat)
    requires len > 0 && 2 * len * blocks == a.Length && k + blocks < 256
    requires Bounded(a[..], bound) && 0 <= bound && bound + Q < 0x8000_0000
    modifies a
    ensures a[..] == Layer(IntOps, Zeta, k + 1, len, old(a[..])) && last == k + blocks
  {
    hide Layer, Split, Zeta;
    ghost var v, b := a[..], 0;
    var start := 0;
    last := k;
    while start < a.Length
      invariant b <= blocks && last == k + b && start == 2 * len * b <= a.Length
      invariant a[start..] == v[start..]
      invariant a[..start] + Layer(IntOps, Zeta, last + 1, len, a[start..]) == Layer(IntOps, Zeta, k + 1, len, v)
    {
      BlocksLeft(2 * len, b, blocks);
      last := last + 1;
      var zeta := Zeta(last);
      ghost var w := a[..];
      forall i | start <= i < start + 2 * len ensures -bound <= a[i] <= bound {
        assert a[i] == a[start..][i - start] == v[start..][i - start] == v[i];
      }
      SplitBlock(a, start, len, zeta, bound);
      LayerProgress(w, a[..], start, last, len);
      assert w[start + 2 * len..] == v[start + 2 * len..] by { Tails(w, v, start, 2 * len); }
      b := b + 1;
      start := start + 2 * len;
    }
    BlocksDone(2 * len, b, blocks);
  }

  lemma Tails(u: seq<int>, v: seq<int>, i: nat, n: nat)
    requires i + n <= |u| == |v| && u[i..] == v[i..]
    ensures u[i + n..] == v[i + n..]
  {
    assert u[i + n..] == u[i..][n..] && v[i + n..] == v[i..][n..];
  }

  method InverseLayer(a: array<int>, k: nat, len: nat, ghost blocks: nat, ghost bound: int) returns (last: nat)
    requires len > 0 && 2 * len * blocks == a.Length && blocks < k <= 256
    requires Bounded(a[..], bound) && 0 <= bound && 2 * bound < 0x8000_0000
    modifies a
    ensures a[..] == InvLayer(IntOps, Zeta, k - 1, len, old(a[..])) && last == k - blocks
  {
    hide InvLayer, Merge, Zeta;
    ghost var v, b := a[..], 0;
    var start := 0;
    last := k;
    while start < a.Length
      invariant b <= blocks && last == k - b && start == 2 * len * b <= a.Length
      invariant a[start..] == v[start..]
      invariant a[..start] + InvLayer(IntOps, Zeta, last - 1, len, a[start..]) == InvLayer(IntOps, Zeta, k - 1, len, v)
    {
      BlocksLeft(2 * len, b, blocks);
      last := last - 1;
      var zeta := Zeta(last);
      ghost var w := a[..];
      forall i | start <= i < start + 2 * len ensures -bound <= a[i] <= bound {
        assert a[i] == a[start..][i - start] == v[start..][i - start] == v[i];
      }
      MergeBlock(a, start, len, zeta, bound);
      InvLayerProgress(w, a[..], start, last, len);
      assert w[start + 2 * len..] == v[start + 2 * len..] by { Tails(w, v, start, 2 * len); }
      b := b + 1;
      start := start + 2 * len;
    }
    BlocksDone(2 * len, b, blocks);
  }

  lemma FewBlocks(len: nat, k: nat)
    requires 2 * len * k == 256 && len >= 1
    ensures k <= 128
  {
    MulDistributes(k, 2 * len, 2);
    assert k * (2 * len - 2) >= 0;
  }

  /** The forward transform: eight layers, each of which adds at most Q. */
  method NttInPlace(a: array<int>, ghost bound: int)
    requires a.Length == N && Bounded(a[..], bound) && 0 <= bound && bound + 8 * Q < 0x8000_0000
    modifies a
    ensures a[..] == NttOf(old(a[..]))
    ensures Bounded(a[..], bound + 8 * Q)
  {
    hide Layer, Zeta;
    ghost var target := NttOf(a[..]);
    var k, len := 0, 128;
    ghost var layers := 8;
    while len > 0
      invariant 0 <= layers <= 8 && (layers > 0 ==> len == Size(1, layers - 1) && 2 * len * (k + 1) == N) &&
                (layers == 0 ==> len == 0)
      invariant k + 1 == Pow2(8 - layers)
      invariant Bounded(a[..], bound + (8 - layers) * Q)
      invariant Ntt(IntOps, Zeta, k + 1, 1, layers, a[..]) == target
      decreases len
    {
      FewBlocks(len, k + 1);
      layers := layers - 1;
      LayerBound(k + 1, len, a[..], bound + (7 - layers) * Q);
      k := ForwardLayer(a, k, len, k + 1, bound + (7 - layers) * Q);
      len := len / 2;
    }
  }

  /** The inverse transform: eight layers, each of which doubles, then the final Montgomery factor. */
  method InvNttToMont(a: array<int>)
    requires a.Length == N && Bounded(a[..], Q - 1)
    modifies a
    ensures a[..] == InttOf(old(a[..]))
    ensures Bounded(a[..], 4211178)
  {
    hide Intt, Zeta, VScale, Bounded;
    InverseLayers(a);
    ScaleInPlace(a, 256 * (Q - 1));
  }

  /** The eight inverse layers: the bound doubles with the length of the blocks. */
  method InverseLayers(a: array<int>)
    requires a.Length == N && Bounded(a[..], Q - 1)
    modifies a
    ensures a[..] == Intt(IntOps, Zeta, 1, 1, 8, old(a[..])) && Bounded(a[..], 256 * (Q - 1))
  {
    assert Size(1, 0) == 1 && Pow2(8) == 256 && Pow2(0) == 1;
    hide Intt, Zeta, IntOps, Bounded, Size, Pow2;
    ghost var v := a[..];
    NoLayers(v);
    var k, len := 256, 1;
    ghost var done := 0;
    while len < N
      invariant 0 <= done <= 8 && 1 <= len && len == Size(1, done) && k == Pow2(8 - done)
      invariant Bounded(a[..], len * (Q - 1)) && a[..] == Intt(IntOps, Zeta, k, 1, done, v)
      decreases 8 - done
    {
      LayersLeft(done);
      k := InverseRound(a, k, len, done, v);
      done := done + 1;
      len := 2 * len;
    }
    LayersLeft(done);
  }

  /** Block length and number of layers done say the same. */
  lemma LayersLeft(done: nat)
    requires done <= 8
    ensures done < 8 <==> Size(1, done) < 256
    ensures done == 8 ==> Size(1, done) == 256 && Pow2(8 - done) == 1
    ensures done < 8 ==> Size(1, done) <= 128 && Size(1, done + 1) == 2 * Size(1, done)
    ensures done < 8 ==> Pow2(8 - done) == 2 * Pow2(7 - done)
    ensures done < 8 ==> 2 * Size(1, done) * Pow2(7 - done) == N && Pow2(8 - done) <= 256
  {
    assert Size(1, 1) == 2 && Size(1, 2) == 4 && Size(1, 3) == 8 && Size(1, 4) == 16;
    assert Size(1, 5) == 32 && Size(1, 6) == 64 && Size(1, 7) == 128 && Size(1, 8) == 256;
    assert Pow2(1) == 2 && Pow2(2) == 4 && Pow2(3) == 8 && Pow2(4) == 16;
    assert Pow2(5) == 32 && Pow2(6) == 64 && Pow2(7) == 128 && Pow2(8) == 256;
  }

  /** One inverse layer of the loop. */
  method InverseRound(a: array<int>, k: nat, len: nat, ghost done: nat, ghost v: seq<int>) returns (last: nat)
    requires done < 8 && len == Size(1, done) && k == Pow2(8 - done) && a.Length == N == |v|
    requires Bounded(a[..], len * (Q - 1)) && a[..] == Intt(IntOps, Zeta, k, 1, done, v)
    modifies a
    ensures last == Pow2(7 - done) && Bounded(a[..], 2 * len * (Q - 1))
    ensures a[..] == Intt(IntOps, Zeta, last, 1, done + 1, v)
  {
    hide Intt, InvLayer, Zeta, IntOps, Bounded, Size, Pow2;
    LayersLeft(done);
    ghost var blocks := Pow2(7 - done);
    InverseStep(blocks, done, v);
    InvLayerBound(k - 1, len, a[..], len * (Q - 1));
    last := InverseLayer(a, k, len, blocks, len * (Q - 1));
  }

  lemma NoLayers(v: seq<int>)
    ensures Intt(IntOps, Zeta, 256, 1, 0, v) == v
  {
  }

  /** One more inverse layer. */
  lemma InverseStep(k: nat, done: nat, v: seq<int>)
    ensures Intt(IntOps, Zeta, k, 1, done + 1, v) ==
            InvLayer(IntOps, Zeta, 2 * k - 1, Size(1, done), Intt(IntOps, Zeta, 2 * k, 1, done, v))
    ensures Size(1, done + 1) == 2 * Size(1, done)
  {
    hide InvLayer, Zeta, IntOps;
  }

  method ScaleInPlace(a: array<int>, ghost bound: int)
    requires Bounded(a[..], bound) && bound == 256 * (Q - 1)
    modifies a
    ensures a[..] == VScale(IntOps, 41978, old(a[..]))
    ensures Bounded(a[..], 4211178)
  {
    hide Mul;
    ghost var w := a[..];
    var j := 0;
    while j < a.Length
      invariant 0 <= j <= a.Length
      invariant forall i :: 0 <= i < j ==> a[i] == Mul(IntOps, 41978, w[i]) && -4211178 <= a[i] <= 4211178
      invariant forall i :: j <= i < a.Length ==> a[i] == w[i]
    {
      IntegerOps(41978, a[j]);
      assert -bound <= w[j] <= bound;
      MontgomeryTight(41978 * a[j], 20969);
      a[j] := Montgomery(41978 * a[j]);
      j := j + 1;
    }
  }

  // ---- the bounds, for the specification functions --------------------------------------------------------

  lemma {:induction false} NttGrowth(k: nat, layers: nat, v: seq<int>, bound: int)
    requires 0 <= bound && bound + layers * Q <= 0x8000_0000 && Bounded(v, bound)
    ensures Bounded(Ntt(IntOps, Zeta, k, 1, layers, v), bound + layers * Q)
    decreases layers
  {
    if layers > 0 {
      hide Layer, Zeta, Bounded, Size;
      LayerBound(k, Size(1, layers - 1), v, bound);
      NttGrowth(2 * k, layers - 1, Layer(IntOps, Zeta, k, Size(1, layers - 1), v), bound + Q);
    }
  }

  lemma NttOfBound(v: seq<int>, bound: int)
    requires 0 <= bound && bound + 8 * Q <= 0x8000_0000 && Bounded(v, bound)
    ensures Bounded(NttOf(v), bound + 8 * Q)
  {
    hide Ntt, Zeta, Bounded;
    NttGrowth(1, 8, v, bound);
  }

  lemma {:induction false} InttGrowth(k: nat, layers: nat, v: seq<int>, p: nat)
    requires p == Pow2(layers) && p <= 256 && Bounded(v, Q - 1)
    ensures Bounded(Intt(IntOps, Zeta, k, 1, layers, v), p * (Q - 1))
    decreases layers
  {
    if layers > 0 {
      hide InvLayer, Zeta, Bounded, Size;
      var h := Pow2(layers - 1);
      InttGrowth(2 * k, layers - 1, v, h);
      InvLayerBound(2 * k - 1, Size(1, layers - 1), Intt(IntOps, Zeta, 2 * k, 1, layers - 1, v), h * (Q - 1));
    }
  }

  lemma InttOfBound(v: seq<int>)
    requires Bounded(v, Q - 1)
    ensures Bounded(InttOf(v), 4211178)
  {
    assert Pow2(8) == 256;
    hide Zeta, Intt, Pow2, Mul;
    InttGrowth(1, 8, v, 256);
    var w := Intt(IntOps, Zeta, 1, 1, 8, v);
    forall i | 0 <= i < |w| ensures -4211178 <= Mul(IntOps, 41978, w[i]) <= 4211178 {
      ScaledBound(w[i]);
    }
  }

  lemma ScaledBound(x: int)
    requires -(256 * (Q - 1)) <= x <= 256 * (Q - 1)
    ensures -4211178 <= Mul(IntOps, 41978, x) <= 4211178
  {
    IntegerOps(41978, x);
    MontgomeryTight(41978 * x, 20969);
  }
}
