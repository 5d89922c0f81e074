/** Polynomial arithmetic of ML-DSA as the scheme uses it: every intermediate value fits an i32, and each
    step is known modulo Q. */
module DsaPolys {
  import opened Rings
  import opened Vectors
  import opened Homomorphisms
  import opened ModArith
  import opened MachineInts
  import opened DsaField
  import opened DsaNtt
  import opened DsaProduct
  import opened DsaRounding
  import opened DsaAlgebra
  import opened DsaEquation

  type Poly = seq<int>

  /** An input of the transforms. */
  ghost predicate Small(p: Poly) { |p| == 256 && Bounded(p, Q - 1) }

  /** An output of the forward transform. */
  ghost predicate Hat(p: Poly) { |p| == 256 && Bounded(p, 9 * Q) }

  ghost predicate Canonical(p: Poly) { |p| == 256 && forall i :: 0 <= i < 256 ==> 0 <= p[i] < Q }

  ghost predicate Smalls(v: seq<Poly>) { forall i :: 0 <= i < |v| ==> Small(v[i]) }

  ghost predicate Hats(v: seq<Poly>) { forall i :: 0 <= i < |v| ==> Hat(v[i]) }

  function Forward(p: Poly): (r: Poly)
    requires Small(p)
    ensures Hat(r)
  {
    NttOfBound(p, Q - 1);
    NttOf(p)
  }

  function ForwardAll(v: seq<Poly>): (r: seq<Poly>)
    requires Smalls(v)
    ensures |r| == |v| && Hats(r) && forall i :: 0 <= i < |v| ==> r[i] == Forward(v[i])
  {
    seq(|v|, i requires 0 <= i < |v| => Forward(v[i]))
  }

  function Inverse(p: Poly): (r: Poly)
    requires Small(p)
    ensures |r| == 256 && Bounded(r, 4211178) && Small(r)
  {
    InttOfBound(p);
    InttOf(p)
  }

  /** A Montgomery product of transforms meets the precondition of the reduction. */
  lemma ProductFits(x: int, y: int)
    requires -9 * Q <= x <= 9 * Q && -9 * Q <= y <= 9 * Q
    ensures -(0x8000_0000 * Q) < x * y < 0x8000_0000 * Q && FitsI64(x * y)
    ensures Mul(IntOps, x, y) == Montgomery(x * y)
  {
    ProductBound(x, y, 9 * Q, 9 * Q);
    IntegerOps(x, y);
  }

  function Pointwise(a: Poly, b: Poly): (r: Poly)
    requires Hat(a) && Hat(b)
    ensures Small(r) && r == VMul(IntOps, a, b)
  {
    PointwiseSmall(a, b);
    VMul(IntOps, a, b)
  }

  lemma PointwiseSmall(a: Poly, b: Poly)
    requires Hat(a) && Hat(b)
    ensures Small(VMul(IntOps, a, b))
  {
    hide Mul, Montgomery;
    forall i | 0 <= i < 256 ensures -(Q - 1) <= VMul(IntOps, a, b)[i] <= Q - 1 {
      ProductFits(a[i], b[i]);
    }
  }

  /** The sum of products of one matrix row, and its size after each addition. */
  function Row(row: seq<Poly>, v: seq<Poly>): (r: Poly)
    requires |row| == |v| && 0 < |row| <= 5 && Hats(row) && Hats(v)
    ensures |r| == 256 && Bounded(r, 5 * (Q - 1))
  {
    RowBound(row, v);
    RowProduct(IntOps, 256, row, v)
  }

  lemma {:induction false} RowBound(row: seq<Poly>, v: seq<Poly>)
    requires |row| == |v| > 0 && Hats(row) && Hats(v)
    ensures Rect(row, 256) && Rect(v, 256)
    ensures Bounded(RowProduct(IntOps, 256, row, v), |row| * (Q - 1))
    decreases |row|
  {
    hide VMul;
    var m := |row| - 1;
    PointwiseSmall(row[m], v[m]);
    if m > 0 {
      RowBound(row[..m], v[..m]);
      var a, b := RowProduct(IntOps, 256, row[..m], v[..m]), VMul(IntOps, row[m], v[m]);
      forall i | 0 <= i < 256 ensures VAdd(IntOps, a, b)[i] == a[i] + b[i] {
        IntegerOps(a[i], b[i]);
      }
    }
  }

  // ---- elementwise steps ----------------------------------------------------------------------------------

  function PolyAdd(a: Poly, b: Poly): (r: Poly)
    requires |a| == |b|
    ensures |r| == |a| && forall i :: 0 <= i < |a| ==> r[i] == a[i] + b[i]
  {
    seq(|a|, i requires 0 <= i < |a| => a[i] + b[i])
  }

  function PolySub(a: Poly, b: Poly): (r: Poly)
    requires |a| == |b|
    ensures |r| == |a| && forall i :: 0 <= i < |a| ==> r[i] == a[i] - b[i]
  {
    seq(|a|, i requires 0 <= i < |a| => a[i] - b[i])
  }

  function ReduceAll(v: Poly): (r: Poly)
    requires |v| == 256 && Bounded(v, 0x7000_0000)
    ensures Small(r) && forall i :: 0 <= i < 256 ==> r[i] % Q == v[i] % Q
  {
    seq(256, i requires 0 <= i < 256 => Reduce32(v[i]))
  }

  function CAddQAll(v: Poly): (r: Poly)
    requires Small(v)
    ensures Canonical(r) && forall i :: 0 <= i < 256 ==> r[i] == v[i] % Q
  {
    seq(256, i requires 0 <= i < 256 => CAddQ(v[i]))
  }

  /** `a[i] <<= 13` */
  function ShiftLeft(v: Poly): (r: Poly)
    requires |v| == 256 && forall i :: 0 <= i < 256 ==> 0 <= v[i] < 1024
    ensures Small(r) && forall i :: 0 <= i < 256 ==> r[i] == 8192 * v[i]
  {
    seq(256, i requires 0 <= i < 256 => v[i] * 8192)
  }

  /** Reduce, transform back, and make canonical: what both sides do to a row. */
  function Settle(v: Poly): (r: Poly)
    requires |v| == 256 && Bounded(v, 0x7000_0000)
    ensures Canonical(r)
  {
    CAddQAll(Inverse(ReduceAll(v)))
  }

  // ---- residues ---------------------------------------------------------------------------------------------

  function ResAll(v: seq<Poly>): (w: seq<RPoly>)
    ensures |w| == |v| && forall i :: 0 <= i < |v| ==> w[i] == ResV(v[i])
  {
    seq(|v|, i requires 0 <= i < |v| => ResV(v[i]))
  }

  lemma SameResidues(a: Poly, b: Poly)
    requires |a| == |b| && forall i :: 0 <= i < |a| ==> a[i] % Q == b[i] % Q
    ensures ResV(a) == ResV(b)
  {
    forall i | 0 <= i < |a| ensures ResV(a)[i] == ResV(b)[i] {
      assert Res(a[i]) == Res(b[i]);
    }
  }

  lemma ForwardResidue(p: Poly)
    requires Small(p)
    ensures ResV(Forward(p)) == RNtt(ResV(p))
  {
    TransformResidues(p);
  }

  lemma ForwardAllResidues(v: seq<Poly>)
    requires Smalls(v)
    ensures ResAll(ForwardAll(v)) == RNttAll(ResAll(v))
  {
    hide Forward, RNtt, ResV, Small, Hat;
    forall i | 0 <= i < |v| ensures ResV(Forward(v[i])) == RNtt(ResV(v[i])) {
      ForwardResidue(v[i]);
    }
  }

  lemma RowResidue(row: seq<Poly>, v: seq<Poly>)
    requires |row| == |v| && 0 < |row| <= 5 && Hats(row) && Hats(v)
    ensures Rect(ResAll(row), 256) && Rect(ResAll(v), 256) && ResV(Row(row, v)) == RRow(ResAll(row), ResAll(v))
  {
    RowBound(row, v);
    hide Hom, Res, IntOps, MontRing, RowProduct, Bounded;
    ResidueHom();
    RowHom(IntOps, MontRing, Res, 0, 256, row, v);
    assert ResAll(row) == MapAll(Res, row) && ResAll(v) == MapAll(Res, v);
  }

  lemma PointwiseResidue(a: Poly, b: Poly)
    requires Hat(a) && Hat(b)
    ensures ResV(Pointwise(a, b)) == RMul(ResV(a), ResV(b))
  {
    hide Hom, Res, IntOps, MontRing, VMul;
    ResidueHom();
    MapVectors(IntOps, MontRing, Res, 0, a, b);
  }

  /** A product of transforms, transformed back. */
  lemma ProductResidue(a: Poly, b: Poly)
    requires Hat(a) && Hat(b)
    ensures ResV(Inverse(Pointwise(a, b))) == RIntt(RMul(ResV(a), ResV(b)))
  {
    hide RIntt, RMul, InttOf, Pointwise;
    PointwiseResidue(a, b);
    TransformResidues(Pointwise(a, b));
  }

  lemma SettleResidue(v: Poly)
    requires |v| == 256 && Bounded(v, 0x7000_0000)
    ensures ResV(Settle(v)) == RIntt(ResV(v))
  {
    hide RIntt, InttOf, Reduce32, CAddQ;
    var r := ReduceAll(v);
    SameResidues(r, v);
    TransformResidues(r);
    forall i | 0 <= i < 256 ensures Settle(v)[i] % Q == Inverse(r)[i] % Q {
      ModAdd(Inverse(r)[i], 0, Q);
    }
    SameResidues(Settle(v), Inverse(r));
  }

  lemma AddResidue(a: Poly, b: Poly)
    requires |a| == |b|
    ensures ResV(PolyAdd(a, b)) == RAdd(ResV(a), ResV(b)) && ResV(PolySub(a, b)) == RSub(ResV(a), ResV(b))
  {
    hide AddM, SubM, Res;
    forall i | 0 <= i < |a|
      ensures Res(a[i] + b[i]) == AddM(Res(a[i]), Res(b[i])) && Res(a[i] - b[i]) == SubM(Res(a[i]), Res(b[i]))
    {
      ResidueHomAt(a[i], b[i]);
    }
  }
}
