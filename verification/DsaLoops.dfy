/** The loops of ML-DSA key generation, signing and verification, proved against the functions of DsaScheme. */
module DsaLoops {
  import opened MachineInts
  import opened Vectors
  import opened DsaField
  import opened DsaNtt
  import opened DsaRounding
  import opened DsaSignature
  import opened DsaKeys
  import opened DsaAlgebra
  import opened DsaPolys
  import opened DsaScheme

  type Poly = seq<int>

  /** Copies p and runs the forward transform on the copy. */
  method Transform(p: Poly) returns (r: Poly)
    requires Small(p)
    ensures r == Forward(p)
  {
    var a := new int[256](i requires 0 <= i < 256 => p[i]);
    assert a[..] == p;
    NttInPlace(a, Q - 1);
    r := a[..];
  }

  method TransformBack(p: Poly) returns (r: Poly)
    requires Small(p)
    ensures r == Inverse(p)
  {
    var a := new int[256](i requires 0 <= i < 256 => p[i]);
    assert a[..] == p;
    InvNttToMont(a);
    r := a[..];
  }

  method TransformVector(v: seq<Poly>) returns (r: seq<Poly>)
    requires Smalls(v)
    ensures r == ForwardAll(v)
  {
    hide Forward, Small, Hat;
    r := [];
    var i := 0;
    while i < |v|
      invariant 0 <= i <= |v| && |r| == i && forall k :: 0 <= k < i ==> r[k] == Forward(v[k])
    {
      var p := Transform(v[i]);
      r := r + [p];
      i := i + 1;
    }
  }

  /** One row: the first product, then the others added to it. */
  method RowLoop(row: seq<Poly>, v: seq<Poly>) returns (t: Poly)
    requires |row| == |v| == DsaSignature.L && Hats(row) && Hats(v)
    ensures t == Row(row, v)
  {
    hide Pointwise, VMul, VAdd;
    RowBound(row, v);
    t := Pointwise(row[0], v[0]);
    var j := 1;
    assert row[..1] == [row[0]] && v[..1] == [v[0]];
    while j < |row|
      invariant 1 <= j <= |row| && t == RowProduct(IntOps, 256, row[..j], v[..j])
    {
      var p := Pointwise(row[j], v[j]);
      RowBound(row[..j + 1], v[..j + 1]);
      RowBound(row[..j], v[..j]);
      assert row[..j + 1][..j] == row[..j] && v[..j + 1][..j] == v[..j];
      SumFits(t, p, j * (Q - 1));
      t := PolyAdd(t, p);
      j := j + 1;
    }
    assert row[..j] == row && v[..j] == v;
  }

  /** No addition of the row loop overflows. */
  lemma SumFits(t: Poly, p: Poly, bound: int)
    requires |t| == |p| == 256 && Bounded(t, bound) && bound <= 5 * (Q - 1) && Small(p)
    ensures forall i :: 0 <= i < 256 ==> FitsI32(t[i] + p[i])
    ensures PolyAdd(t, p) == VAdd(IntOps, t, p)
  {
    forall i | 0 <= i < 256 ensures t[i] + p[i] == VAdd(IntOps, t, p)[i] {
      IntegerOps(t[i], p[i]);
    }
  }

  method CommitmentLoop(mat: seq<seq<Poly>>, yhat: seq<Poly>) returns (w: seq<Poly>)
    requires IsMatrix(mat) && |yhat| == DsaSignature.L && Hats(yhat)
    ensures w == Commitment(mat, yhat)
  {
    hide Row, Hat, Small, Inverse, Canonical;
    w := [];
    var i := 0;
    while i < DsaSignature.K
      invariant 0 <= i <= DsaSignature.K && |w| == i && forall k :: 0 <= k < i ==> w[k] == Settle(Row(mat[k], yhat))
    {
      var t := RowLoop(mat[i], yhat);
      var p := SettleLoop(t);
      w := w + [p];
      i := i + 1;
    }
  }

  method SettleLoop(t: Poly) returns (r: Poly)
    requires |t| == 256 && Bounded(t, 0x7000_0000)
    ensures r == Settle(t)
  {
    var p := TransformBack(ReduceAll(t));
    r := CAddQAll(p);
  }

  /** True when some polynomial has a coefficient out of bounds; the code looks at all of them. */
  method AnyOut(v: seq<Poly>, bound: int) returns (reject: bool)
    requires Smalls(v) && bound <= (Q - 1) / 8
    ensures !reject <==> forall i :: 0 <= i < |v| ==> NormBelow(v[i], bound)
  {
    hide NormBelow;
    reject := false;
    var i := 0;
    while i < |v|
      invariant 0 <= i <= |v| && (!reject <==> forall k :: 0 <= k < i ==> NormBelow(v[k], bound))
    {
      assert Small(v[i]);
      var out := CheckNorm(v[i], bound);
      if out {
        reject := true;
      }
      i := i + 1;
    }
  }

  method ResponseLoop(chat: Poly, s: seq<Poly>, y: seq<Poly>) returns (z: seq<Poly>)
    requires Hat(chat) && |s| == |y| && Hats(s) && forall i :: 0 <= i < |y| ==> IsZPoly(y[i])
    ensures z == ResponseVector(chat, s, y)
  {
    hide Hat, Small, IsZPoly, Response, ResponseVector;
    z := [];
    var i := 0;
    while i < |s|
      invariant 0 <= i <= |s| && |z| == i && forall k :: 0 <= k < i ==> z[k] == Response(chat, s[k], y[k])
    {
      var p := RespondOne(chat, s[i], y[i]);
      z := z + [p];
      i := i + 1;
    }
  }

  method RespondOne(chat: Poly, s: Poly, y: Poly) returns (z: Poly)
    requires Hat(chat) && Hat(s) && IsZPoly(y)
    ensures z == Response(chat, s, y)
  {
    var p := TransformBack(Pointwise(chat, s));
    assert forall i :: 0 <= i < 256 ==> FitsI32(p[i] + y[i]) by { ZSmall(y); }
    z := ReduceAll(PolyAdd(p, y));
  }

  method ResidueLoop(chat: Poly, s: seq<Poly>, w: seq<Poly>) returns (z: seq<Poly>)
    requires Hat(chat) && |s| == |w| && Hats(s) && forall i :: 0 <= i < |w| ==> Canonical(w[i])
    ensures z == ResidueVector(chat, s, w)
  {
    hide Hat, Small, Canonical, Residue, ResidueVector, Inverse, Pointwise, LowBits;
    z := [];
    var i := 0;
    while i < |s|
      invariant 0 <= i <= |s| && |z| == i && forall k :: 0 <= k < i ==> z[k] == Residue(chat, s[k], LowBits(w[k]))
    {
      var p := ResidueOne(chat, s[i], LowBits(w[i]));
      z := z + [p];
      i := i + 1;
    }
  }

  method ResidueOne(chat: Poly, s: Poly, w0: Poly) returns (z: Poly)
    requires Hat(chat) && Hat(s) && |w0| == 256 && Bounded(w0, GAMMA2)
    ensures z == Residue(chat, s, w0)
  {
    var p := TransformBack(Pointwise(chat, s));
    assert forall i :: 0 <= i < 256 ==> FitsI32(w0[i] - p[i]);
    z := ReduceAll(PolySub(w0, p));
  }

  method CorrectionLoop(chat: Poly, t: seq<Poly>) returns (z: seq<Poly>)
    requires Hat(chat) && Hats(t)
    ensures z == CorrectionVector(chat, t)
  {
    hide Hat, Small, CorrectionVector, Inverse, Pointwise;
    z := [];
    var i := 0;
    while i < |t|
      invariant 0 <= i <= |t| && |z| == i && forall k :: 0 <= k < i ==> z[k] == Correction(chat, t[k])
    {
      var p := TransformBack(Pointwise(chat, t[i]));
      z := z + [ReduceAll(p)];
      i := i + 1;
    }
  }

  /** The hints and their number. */
  method HintLoop(f0: seq<Poly>, ct0: seq<Poly>, w: seq<Poly>) returns (h: seq<Poly>, count: nat)
    requires |f0| == |ct0| == |w| && Smalls(f0) && Smalls(ct0) && forall i :: 0 <= i < |w| ==> Canonical(w[i])
    ensures h == HintVector(f0, ct0, w) && count == |AllPositions(h)|
  {
    hide Canonical, Hints, HintVector, Positions, Bounded;
    h, count := [], 0;
    var i := 0;
    while i < |w|
      invariant 0 <= i <= |w| && |h| == i
      invariant forall k :: 0 <= k < i ==> IsHint(h[k]) && h[k] == Hints(PolyAdd(f0[k], ct0[k]), HighBits(w[k]))
      invariant count == |AllPositions(h)|
    {
      var p, n := HintOne(f0[i], ct0[i], w[i]);
      AllPositionsSnoc(h, p);
      h := h + [p];
      count := count + n;
      i := i + 1;
    }
  }

  lemma {:induction false} AllPositionsSnoc(h: seq<Poly>, p: Poly)
    requires (forall i :: 0 <= i < |h| ==> |h[i]| <= 256) && |p| <= 256
    ensures AllPositions(h + [p]) == AllPositions(h) + Positions(p, 0)
    decreases |h|
  {
    hide Positions;
    if h == [] {
      assert h + [p] == [p] && [p][1..] == [];
    } else {
      assert (h + [p])[1..] == h[1..] + [p] && (h + [p])[0] == h[0];
      AllPositionsSnoc(h[1..], p);
    }
  }

  method HintOne(f0: Poly, g: Poly, w: Poly) returns (h: Poly, count: nat)
    requires Small(f0) && Small(g) && Canonical(w)
    ensures h == Hints(PolyAdd(f0, g), HighBits(w)) && count == |Positions(h, 0)|
  {
    hide MakeHint, Decompose;
    ghost var target := Hints(PolyAdd(f0, g), HighBits(w));
    h, count := [], 0;
    var j := 0;
    while j < 256
      invariant 0 <= j <= 256 && h == target[..j] && count + |Positions(target, j)| == |Positions(target, 0)|
    {
      assert FitsI32(f0[j] + g[j]);
      var b := MakeHint(f0[j] + g[j], Decompose(w[j]).0);
      assert b == target[j];
      h := h + [b];
      count := count + b;
      j := j + 1;
    }
  }

  /** One round of the signing loop, left at the first failed check. */
  method SignRound(O: Oracles, x: Context, nonce: nat) returns (r: Option<seq<byte>>)
    requires O.Valid() && x.Valid()
    ensures r == Attempt(O, x, nonce)
  {
    hide Canonical, Hat, Small, Smalls, Hats, IsMatrix, IsZPoly, Forward, ForwardAll, Commitment, Digest, HighVector,
         MaskVector, NormBelow, AllPositions;
    hide ResponseVector, ResidueVector, CorrectionVector, HintVector, PackSig, HintBytes;
    var y := MaskVector(O, x.rhoprime, nonce);
    ZSmalls(y);
    var yhat := TransformVector(y);
    var w := CommitmentLoop(x.mat, yhat);
    var c := Digest(O, x.mu, HighVector(w));
    var chat := Transform(O.Challenge(c));
    var z := ResponseLoop(chat, x.s1hat, y);
    ghost var play := Play(O, x, nonce);
    var reject := AnyOut(z, GAMMA1 - BETA);
    if reject {
      return None;
    }
    var f0 := ResidueLoop(chat, x.s2hat, w);
    reject := AnyOut(f0, GAMMA2 - BETA);
    if reject {
      return None;
    }
    var ct0 := CorrectionLoop(chat, x.t0hat);
    reject := AnyOut(ct0, GAMMA2);
    if reject {
      return None;
    }
    var h, count := HintLoop(f0, ct0, w);
    if count > OMEGA {
      return None;
    }
    NormSigns(z);
    HintsAreVector(h);
    var sig := PackSigBytes(c, z, h);
    return Some(sig[..]);
  }

  lemma HintsAreVector(h: seq<Poly>)
    requires |h| == DsaSignature.K && (forall i :: 0 <= i < |h| ==>
             |h[i]| == 256 && IsHint(h[i])) && |AllPositions(h)| <= OMEGA
    ensures IsHintVector(h)
  {
  }

  /** The rejection loop: `limit` rounds at most. */
  method SignInternal(O: Oracles, sk: seq<byte>, msg: seq<byte>, rnd: seq<byte>,
      limit: nat) returns (r: Option<seq<byte>>)
    requires O.Valid() && |sk| == SECRET_KEY_BYTES
    ensures r == Sign(O, sk, msg, rnd, limit)
  {
    hide Attempt, UnpackSk, MakeContext, SmallKey;
    UnpackedKeySmall(sk);
    var x := PrepareContext(O, UnpackSk(sk), msg, rnd);
    var nonce := 0;
    while nonce < limit
      invariant 0 <= nonce <= limit
      invariant FirstAccepted(O, x, nonce, limit) == FirstAccepted(O, x, 0, limit)
    {
      var s := SignRound(O, x, nonce);
      if s.Some? {
        return s;
      }
      nonce := nonce + 1;
    }
    return None;
  }

  method PrepareContext(O: Oracles, sk: SecretKey, msg: seq<byte>, rnd: seq<byte>) returns (x: Context)
    requires O.Valid() && SmallKey(sk)
    ensures x == MakeContext(O, sk, msg, rnd)
  {
    hide Smalls, Hats, IsMatrix, ForwardAll, Matrix;
    var mu := O.Hash(sk.tr + msg, 64);
    var s1hat := TransformVector(sk.s1);
    var s2hat := TransformVector(sk.s2);
    var t0hat := TransformVector(sk.t0);
    x := Context(Matrix(O, sk.rho), s1hat, s2hat, t0hat, mu, O.Hash(sk.key + rnd + mu, 64));
  }

  // ---- key generation ---------------------------------------------------------------------------------------

  method KeyRowLoop(row: seq<Poly>, s1hat: seq<Poly>, s2: Poly) returns (t: Poly)
    requires |row| == |s1hat| == DsaSignature.L && Hats(row) && Hats(s1hat) && IsEtaPoly(s2)
    ensures t == KeyPoly(row, s1hat, s2)
  {
    hide Row;
    var r := RowLoop(row, s1hat);
    var p := TransformBack(ReduceAll(r));
    assert forall i :: 0 <= i < 256 ==> FitsI32(p[i] + s2[i]);
    t := CAddQAll(PolyAdd(p, s2));
  }

  method KeyGenBytes(O: Oracles, seed: seq<byte>) returns (pk: seq<byte>, sk: seq<byte>)
    requires O.Valid()
    ensures (pk, sk) == KeyGen(O, seed)
  {
    hide KeyPoly, PackPk, PackSk, Hats, Small, IsEtaPoly, Canonical, IsMatrix, Matrix, SecretVector, ForwardAll;
    var ext := O.Hash(seed + [DsaSignature.K, DsaSignature.L], 128);
    var s1, s2 := SecretVector(O, ext[32..96], 0, DsaSignature.L), SecretVector(O, ext[32..96], DsaSignature.L,
        DsaSignature.K);
    EtaSmalls(s1);
    var mat := Matrix(O, ext[..32]);
    var s1hat := TransformVector(s1);
    var t := KeyLoop(mat, s1hat, s2);
    ghost var k := Expand(O, seed);
    assert t == k.t;
    var m := KeyMaterial(ext[..32], ext[96..], s1, s2, t);
    pk := PackPk(m.rho, m.T1());
    sk := PackSk(SecretKey(m.rho, O.Hash(pk, TR_BYTES), m.key, m.T0(), m.s1, m.s2));
  }

  method KeyLoop(mat: seq<seq<Poly>>, s1hat: seq<Poly>, s2: seq<Poly>) returns (t: seq<Poly>)
    requires IsMatrix(mat) && |s1hat| == DsaSignature.L && Hats(s1hat) && |s2| == DsaSignature.K
    requires forall i :: 0 <= i < DsaSignature.K ==> IsEtaPoly(s2[i])
    ensures |t| == DsaSignature.K && forall i :: 0 <= i < DsaSignature.K ==> t[i] == KeyPoly(mat[i], s1hat, s2[i])
  {
    hide KeyPoly, Hats, IsEtaPoly;
    t := [];
    var i := 0;
    while i < DsaSignature.K
      invariant 0 <= i <= DsaSignature.K && |t| == i && forall k :: 0 <= k < i ==> t[k] == KeyPoly(mat[k], s1hat, s2[k])
    {
      var p := KeyRowLoop(mat[i], s1hat, s2[i]);
      t := t + [p];
      i := i + 1;
    }
  }

  // ---- verification -----------------------------------------------------------------------------------------

  method VerifierRowLoop(row: seq<Poly>, zhat: seq<Poly>, chat: Poly, t1: Poly) returns (w: Poly)
    requires |row| == |zhat| == DsaSignature.L && Hats(row) && Hats(zhat) && Hat(chat) && IsT1Poly(t1)
    ensures w == VerifierPoly(row, zhat, chat, t1)
  {
    hide Row, Forward, Pointwise, Settle;
    var t := RowLoop(row, zhat);
    var t1hat := Transform(ShiftLeft(t1));
    var p := Pointwise(chat, t1hat);
    assert forall i :: 0 <= i < 256 ==> FitsI32(t[i] - p[i]);
    w := SettleLoop(PolySub(t, p));
  }

  method VerifyInternal(O: Oracles, pk: seq<byte>, msg: seq<byte>, sig: seq<byte>) returns (ok: bool)
    requires O.Valid()
    ensures ok == Verify(O, pk, msg, sig)
  {
    hide UnpackPk, UnpackSig, NormBelow, Small, IsT1Poly, RecoverVector, VerifierVector, ForwardAll, Forward, Digest,
         VerifierPoly, Canonical, Hat, Smalls, Hats, IsMatrix, Matrix;
    if |pk| != PUBLIC_KEY_BYTES {
      return false;
    }
    var (rho, t1) := UnpackPk(pk);
    var parts := UnpackSigBytes(sig);
    if parts == None {
      return false;
    }
    var (c, z, h) := parts.value;
    UnpackedSignature(sig);
    UnpackPkShape(pk);
    var out := AnyOut(z, GAMMA1 - BETA);
    if out {
      return false;
    }
    var mu := O.Hash(O.Hash(pk, TR_BYTES) + msg, 64);
    var chat := Transform(O.Challenge(c));
    var mat := Matrix(O, rho);
    var zhat := TransformVector(z);
    var w := VerifierLoop(mat, zhat, chat, t1);
    return Digest(O, mu, RecoverVector(w, h)) == c;
  }

  method VerifierLoop(mat: seq<seq<Poly>>, zhat: seq<Poly>, chat: Poly, t1: seq<Poly>) returns (w: seq<Poly>)
    requires IsMatrix(mat) && |zhat| == DsaSignature.L && Hats(zhat) && Hat(chat) && |t1| == DsaSignature.K
    requires forall i :: 0 <= i < DsaSignature.K ==> IsT1Poly(t1[i])
    ensures w == VerifierVector(mat, zhat, chat, t1)
  {
    hide Hats, Hat, IsT1Poly, VerifierPoly, VerifierVector, Canonical;
    w := [];
    var i := 0;
    while i < DsaSignature.K
      invariant 0 <= i <= DsaSignature.K && |w| == i && forall k :: 0 <= k < i ==>
                w[k] == VerifierPoly(mat[k], zhat, chat, t1[k])
    {
      var p := VerifierRowLoop(mat[i], zhat, chat, t1[i]);
      w := w + [p];
      i := i + 1;
    }
  }
}
