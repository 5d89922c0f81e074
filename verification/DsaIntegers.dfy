/** What ML-DSA computes, said with polynomials over the integers: products modulo x^256 + 1, and coefficients modulo
    Q.  No transform and no Montgomery form appears in these statements. */
module DsaIntegers {
  import opened Rings
  import opened Vectors
  import opened Homomorphisms
  import opened ModArith
  import opened DsaField
  import opened DsaNtt
  import opened DsaProduct
  import opened DsaAlgebra
  import opened DsaEquation
  import opened DsaSignature
  import opened DsaKeys
  import opened DsaPolys
  import opened DsaScheme
  import opened DsaCompleteness

  type Poly = seq<int>

  /** The sum of the products a[j] v[j]. */
  function Combination(a: seq<Poly>, v: seq<Poly>): (r: Poly)
    requires |a| == |v| > 0 && Rect(a, 256) && Rect(v, 256)
    ensures |r| == 256
    decreases |a|
  {
    var m := |a| - 1;
    var last := Negacyclic(a[m], v[m]);
    if m == 0 then last else PolyAdd(Combination(a[..m], v[..m]), last)
  }

  /** The canonical residues of a polynomial. */
  function Canon(p: Poly): (r: Poly)
    ensures |r| == |p| && forall k :: 0 <= k < |p| ==> r[k] == p[k] % Q
  {
    seq(|p|, k requires 0 <= k < |p| => p[k] % Q)
  }

  // ---- the matrix --------------------------------------------------------------------------------------------------

  /** The matrix is sampled as transforms: a is the polynomial whose transform is the sample. */
  ghost predicate Represents(a: Poly, hat: Poly) {
    |a| == |hat| == 256 && forall k :: 0 <= k < 256 ==> NttOf(a)[k] % Q == hat[k] % Q
  }

  ghost predicate RepresentsRow(a: seq<Poly>, row: seq<Poly>) {
    |a| == |row| && forall j :: 0 <= j < |a| ==> Represents(a[j], row[j])
  }

  ghost predicate RepresentsMatrix(a: seq<seq<Poly>>, mat: seq<seq<Poly>>) {
    |a| == |mat| && forall i :: 0 <= i < |a| ==> RepresentsRow(a[i], mat[i])
  }

  /** Every sample is the transform of some polynomial. */
  lemma SampleRepresented(hat: Poly) returns (a: Poly)
    requires |hat| == 256
    ensures Represents(a, hat)
  {
    var u := InttOf(hat);
    a := seq(256, k requires 0 <= k < 256 => u[k] * RINV);
    Unscaled(u, a);
    hide InttOf, NttOf, RNtt, RIntt, VScale, MontRing, ResV;
    TransformResidues(hat);
    TransformResidues(a);
    UnitTransform(ResV(hat));
    ResiduesEqual(NttOf(a), hat);
  }

  lemma UnitTransform(w: seq<Zq>)
    requires |w| == 256
    ensures RNtt(VScale(MontRing, 1, RIntt(w))) == w
  {
    UnitFactor();
    hide RNtt, RIntt, VScale, IsRing, MontRing;
    MontIsRing();
    TransformLinear(1, RIntt(w), RIntt(w));
    TransformInverse(w);
    VScaleScale(MontRing, 1, FACTOR, w);
    VScaleOne(MontRing, w);
  }

  lemma UnitFactor()
    ensures Mul(MontRing, 1, FACTOR) == MontRing.one
  {
    assert MulM(1, FACTOR) == 4193792;
  }

  lemma Unscaled(u: Poly, a: Poly)
    requires |u| == |a| && forall k :: 0 <= k < |u| ==> a[k] == u[k] * RINV
    ensures ResV(a) == VScale(MontRing, 1, ResV(u))
  {
    hide MulM, MontRing;
    forall k | 0 <= k < |u| ensures Res(a[k]) == Mul(MontRing, 1, Res(u[k])) {
      ProductIsMulM(1, Res(u[k]));
      MulMNorm(1, u[k]);
      UnitProduct(u[k]);
    }
  }

  lemma UnitProduct(x: int)
    ensures MulM(1, x) == x * RINV % Q
  {
  }

  lemma ResiduesEqual(u: Poly, v: Poly)
    requires |u| == |v|
    ensures ResV(u) == ResV(v) <==> forall k :: 0 <= k < |u| ==> u[k] % Q == v[k] % Q
  {
    if ResV(u) == ResV(v) {
      forall k | 0 <= k < |u| ensures u[k] % Q == v[k] % Q {
        assert Res(u[k]) == ResV(u)[k] == ResV(v)[k] == Res(v[k]);
      }
    } else if forall k :: 0 <= k < |u| ==> u[k] % Q == v[k] % Q {
      SameResidues(u, v);
    }
  }

  // ---- products ----------------------------------------------------------------------------------------------------

  /** Multiplying transforms and transforming back is multiplying polynomials. */
  lemma ProductIs(a: Poly, hat: Poly, v: Poly)
    requires Represents(a, hat) && |v| == 256
    ensures RIntt(RMul(ResV(hat), RNtt(ResV(v)))) == ResV(Negacyclic(a, v))
  {
    ResiduesEqual(NttOf(a), hat);
    hide NttOf, InttOf, RNtt, RIntt, VMul, Negacyclic, Hom, MontRing, IntOps, Res;
    TransformMultiplies(a, v);
    ResidueHom();
    MapVectors(IntOps, MontRing, Res, 0, NttOf(a), NttOf(v));
    TransformResidues(v);
    TransformResidues(VMul(IntOps, NttOf(a), NttOf(v)));
  }

  lemma {:induction false} RowIs(a: seq<Poly>, row: seq<Poly>, v: seq<Poly>)
    requires |row| == |v| > 0 && RepresentsRow(a, row) && Rect(v, 256)
    ensures Rect(a, 256) && Rect(ResAll(row), 256) && Rect(RNttAll(ResAll(v)), 256)
    ensures RIntt(RRow(ResAll(row), RNttAll(ResAll(v)))) == ResV(Combination(a, v))
    decreases |row|
  {
    hide RNtt, RIntt, Negacyclic, MontRing, ResV, Represents, RowProduct, RRow, RMul;
    assert forall j :: 0 <= j < |a| ==> |a[j]| == |row[j]| == 256 by { SameSizes(a, row); }
    var m := |row| - 1;
    ProductIs(a[m], row[m], v[m]);
    RowUnfolds(row, v);
    if m > 0 {
      RowIs(a[..m], row[..m], v[..m]);
      AddResidue(Combination(a[..m], v[..m]), Negacyclic(a[m], v[m]));
    }
  }

  /** The transformed sum of products, one product at a time. */
  lemma RowUnfolds(row: seq<Poly>, v: seq<Poly>)
    requires |row| == |v| > 0 && Rect(row, 256) && Rect(v, 256)
    ensures Rect(ResAll(row), 256) && Rect(RNttAll(ResAll(v)), 256)
    ensures var m := |row| - 1;
            var last := RIntt(RMul(ResV(row[m]), RNtt(ResV(v[m]))));
            RIntt(RRow(ResAll(row), RNttAll(ResAll(v)))) ==
            if m == 0 then last else RAdd(RIntt(RRow(ResAll(row[..m]), RNttAll(ResAll(v[..m])))), last)
  {
    hide RNtt, RIntt, MontRing, ResV, VAdd, VMul;
    var m := |row| - 1;
    if m > 0 {
      assert ResAll(row)[..m] == ResAll(row[..m]) && RNttAll(ResAll(v))[..m] == RNttAll(ResAll(v[..m]));
      TransformLinear(0, RRow(ResAll(row[..m]), RNttAll(ResAll(v[..m]))), RMul(ResV(row[m]), RNtt(ResV(v[m]))));
    }
  }

  lemma SameSizes(a: seq<Poly>, row: seq<Poly>)
    requires RepresentsRow(a, row)
    ensures forall j :: 0 <= j < |a| ==> |a[j]| == |row[j]| == 256
  {
    forall j | 0 <= j < |a| ensures |a[j]| == |row[j]| == 256 {
      assert Represents(a[j], row[j]);
    }
  }

  lemma SelfRepresented(p: Poly)
    requires Small(p)
    ensures Represents(p, Forward(p))
  {
  }

  lemma CanonUnique(v: Poly, p: Poly)
    requires Canonical(v) && |p| == 256 && ResV(v) == ResV(p)
    ensures v == Canon(p)
  {
    ResiduesEqual(v, p);
    forall k | 0 <= k < 256 ensures v[k] == Canon(p)[k] {
      ModSmall(v[k], Q);
    }
  }

  // ---- what signer and verifier compute ----------------------------------------------------------------------------

  /** A z - c t1 2^13 for one row. */
  function Opening(a: seq<Poly>, z: seq<Poly>, c: Poly, t1: Poly): (r: Poly)
    requires |a| == |z| > 0 && Rect(a, 256) && Rect(z, 256) && |c| == |t1| == 256
    ensures |r| == 256
  {
    PolySub(Combination(a, z), Negacyclic(c, seq(256, k requires 0 <= k < 256 => 8192 * t1[k])))
  }

  /** The verifier's row, for every response, challenge and key: the residues of A z - c t1 2^13. */
  lemma VerifierPolyIs(a: seq<Poly>, row: seq<Poly>, z: seq<Poly>, c: Poly, t1: Poly)
    requires |row| == |z| == DsaSignature.L && Hats(row) && Smalls(z) && Small(c) && IsT1Poly(t1)
    requires RepresentsRow(a, row)
    ensures Rect(a, 256) && Rect(z, 256)
    ensures VerifierPoly(row, ForwardAll(z), Forward(c), t1) == Canon(Opening(a, z, c, t1))
  {
    var s := ShiftLeft(t1);
    assert s == seq(256, k requires 0 <= k < 256 => 8192 * t1[k]);
    var chat := Forward(c);
    SelfRepresented(c);
    assert Rect(z, 256);
    hide RNtt, RIntt, Negacyclic, MontRing, ResV, Represents, Forward, ForwardAll, VerifierPoly, NttOf, ShiftLeft,
         Combination, RRow, RMul, RNttAll, ResAll;
    VerifierResidue(row, z, chat, t1);
    RowIs(a, row, z);
    ProductIs(c, chat, s);
    var u, p := RRow(ResAll(row), RNttAll(ResAll(z))), RMul(ResV(chat), RNtt(ResV(s)));
    TransformSub(u, p);
    AddResidue(Combination(a, z), Negacyclic(c, s));
    CanonUnique(VerifierPoly(row, ForwardAll(z), chat, t1), Opening(a, z, c, t1));
  }
}
