/** The equation behind ML-DSA, over the residues: the verifier computes w - c s2 + c t0 without s2 and t0. */
module DsaEquation {
  import opened Rings
  import opened Vectors
  import opened DsaField
  import opened DsaProduct
  import opened DsaAlgebra

  type RPoly = seq<Zq>

  function RNttAll(v: seq<RPoly>): (w: seq<RPoly>)
    ensures |w| == |v| && forall j :: 0 <= j < |v| ==> w[j] == RNtt(v[j])
  {
    seq(|v|, j requires 0 <= j < |v| => RNtt(v[j]))
  }

  function RRow(row: seq<RPoly>, v: seq<RPoly>): (r: RPoly)
    requires |row| == |v| > 0 && Rect(row, 256) && Rect(v, 256)
    ensures |r| == 256
  {
    RowProduct(MontRing, 256, row, v)
  }

  function RMul(u: RPoly, v: RPoly): (r: RPoly)
    requires |u| == |v|
    ensures |r| == |u|
  {
    VMul(MontRing, u, v)
  }

  function RAdd(u: RPoly, v: RPoly): (r: RPoly)
    requires |u| == |v|
    ensures |r| == |u|
  {
    VAdd(MontRing, u, v)
  }

  function RSub(u: RPoly, v: RPoly): (r: RPoly)
    requires |u| == |v|
    ensures |r| == |u|
  {
    VSub(MontRing, u, v)
  }

  /** a + b = c determines a. */
  lemma Solve(a: RPoly, b: RPoly, c: RPoly)
    requires |a| == |b| == |c| && RAdd(a, b) == c
    ensures a == RSub(c, b)
  {
    hide MontRing;
    MontIsRing();
    forall i | 0 <= i < |a| ensures a[i] == RSub(c, b)[i] {
      assert c[i] == RAdd(a, b)[i] == Add(MontRing, a[i], b[i]);
      var n := Neg(MontRing, b[i]);
      assert SubAt(MontRing, c[i], b[i]) && AddAssocAt(MontRing, a[i], b[i], n) && ZeroAt(MontRing, b[i]);
      assert AddCommAt(MontRing, a[i], MontRing.zero) && ZeroAt(MontRing, a[i]);
    }
  }

  /** z = y + c s, with c and s given by their transforms. */
  ghost predicate IsResponse(c: RPoly, s: seq<RPoly>, y: seq<RPoly>, z: seq<RPoly>) {
    && |s| == |y| == |z| && |c| == 256 && Rect(s, 256) && Rect(y, 256) && Rect(z, 256)
    && forall j :: 0 <= j < |z| ==> z[j] == RAdd(RIntt(RMul(c, s[j])), y[j])
  }

  /** t1 + t0 = A s1 + s2, with s1 given by its transform. */
  ghost predicate IsKey(row: seq<RPoly>, s1: seq<RPoly>, s2: RPoly, t1: RPoly, t0: RPoly) {
    && |row| == |s1| > 0 && Rect(row, 256) && Rect(s1, 256) && |s2| == |t1| == |t0| == 256
    && RAdd(t1, t0) == RAdd(RIntt(RRow(row, s1)), s2)
  }

  /** The transform of the response z. */
  lemma ResponseTransform(c: RPoly, s: seq<RPoly>, y: seq<RPoly>, z: seq<RPoly>)
    requires IsResponse(c, s, y, z)
    ensures Rect(RNttAll(y), 256) && RNttAll(z) == TransformedResponse(MontRing, 256, FACTOR, c, s, RNttAll(y))
  {
    hide RNtt, RIntt, VMul, VAdd, VScale, MontRing;
    forall j | 0 <= j < |z|
      ensures RNtt(z[j]) == VAdd(MontRing, VScale(MontRing, FACTOR, VMul(MontRing, c, s[j])), RNtt(y[j]))
    {
      TransformLinear(FACTOR, RIntt(RMul(c, s[j])), y[j]);
      TransformInverse(RMul(c, s[j]));
    }
  }

  /** The transform of the rounded key t1. */
  lemma KeyTransform(row: seq<RPoly>, s1: seq<RPoly>, s2: RPoly, t1: RPoly, t0: RPoly)
    requires IsKey(row, s1, s2, t1, t0)
    ensures RNtt(t1) == RSub(RAdd(VScale(MontRing, FACTOR, RRow(row, s1)), RNtt(s2)), RNtt(t0))
  {
    hide RNtt, RIntt, VMul, VAdd, VSub, VScale, MontRing, RowProduct;
    var s := RRow(row, s1);
    Solve(t1, t0, RAdd(RIntt(s), s2));
    TransformSub(RAdd(RIntt(s), s2), t0);
    TransformLinear(FACTOR, RIntt(s), s2);
    TransformInverse(s);
  }

  /** What the verifier computes for one row, before the inverse transform. */
  function VerifierRow(row: seq<RPoly>, z: seq<RPoly>, c: RPoly, t1: RPoly): (v: RPoly)
    requires |row| == |z| > 0 && Rect(row, 256) && Rect(z, 256) && |t1| == |c| == 256
    ensures |v| == 256
  {
    RSub(RRow(row, z), RMul(c, t1))
  }

  lemma VerifierTransform(row: seq<RPoly>, s1: seq<RPoly>, s2: RPoly, t1: RPoly, t0: RPoly, y: seq<RPoly>,
      z: seq<RPoly>, c: RPoly)
    requires IsKey(row, s1, s2, t1, t0) && IsResponse(c, s1, y, z)
    ensures VerifierRow(row, RNttAll(z), c, RNtt(t1)) ==
            RAdd(RSub(RRow(row, RNttAll(y)), RMul(c, RNtt(s2))), RMul(c, RNtt(t0)))
  {
    hide RNtt, RIntt, VMul, VAdd, VSub, VScale, MontRing, IsRing, RowProduct, TransformedResponse, RNttAll;
    MontIsRing();
    ResponseTransform(c, s1, y, z);
    KeyTransform(row, s1, s2, t1, t0);
    var yh, e, t := RNttAll(y), RNtt(s2), RNtt(t0);
    RowLinear(MontRing, 256, row, FACTOR, c, s1, yh);
    Cancellation(MontRing, FACTOR, c, RRow(row, s1), RRow(row, yh), e, t);
  }

  /** One row of A, and everything the signer and the verifier compute with it: A z - c t1 = A y - c s2 + c t0. */
  lemma VerifierValue(row: seq<RPoly>, s1: seq<RPoly>, s2: RPoly, t1: RPoly, t0: RPoly, y: seq<RPoly>, z: seq<RPoly>,
      c: RPoly)
    requires IsKey(row, s1, s2, t1, t0) && IsResponse(c, s1, y, z)
    ensures RIntt(VerifierRow(row, RNttAll(z), c, RNtt(t1))) ==
            RAdd(RSub(RIntt(RRow(row, RNttAll(y))), RIntt(RMul(c, RNtt(s2)))), RIntt(RMul(c, RNtt(t0))))
  {
    hide RNtt, RIntt, VMul, VAdd, VSub, VScale, MontRing, RowProduct, RNttAll, VerifierRow;
    VerifierTransform(row, s1, s2, t1, t0, y, z, c);
    var u, p, q := RRow(row, RNttAll(y)), RMul(c, RNtt(s2)), RMul(c, RNtt(t0));
    TransformLinear(FACTOR, RSub(u, p), q);
    TransformSub(u, p);
  }
}
