/** Completeness of ML-DSA-65: whatever the signing loop returns, the verifier accepts. */
module DsaCompleteness {
  import opened ModArith
  import opened MachineInts
  import opened Groups
  import opened DsaField
  import opened DsaNtt
  import opened DsaProduct
  import opened DsaAlgebra
  import opened DsaEquation
  import opened DsaRounding
  import opened DsaPacking
  import opened DsaSignature
  import opened DsaKeys
  import opened DsaPolys
  import opened DsaScheme

  type Poly = seq<int>

  /** The key equation t1 2^13 + t0 = A s1 + s2, modulo Q. */
  lemma KeyResidue(row: seq<Poly>, s1: seq<Poly>, s2: Poly)
    requires |row| == |s1| == DsaSignature.L && Hats(row) && Smalls(s1) && IsEtaPoly(s2)
    ensures var t := KeyPoly(row, ForwardAll(s1), s2);
            IsKey(ResAll(row), RNttAll(ResAll(s1)), ResV(s2), ResV(ShiftLeft(HighPart(t))), ResV(LowPart(t)))
  {
    var s1hat := ForwardAll(s1);
    var r := Row(row, s1hat);
    var a := Inverse(ReduceAll(r));
    var sum := PolyAdd(a, s2);
    var t := KeyPoly(row, s1hat, s2);
    var u, v := ShiftLeft(HighPart(t)), LowPart(t);
    assert PolyAdd(u, v) == t;
    forall i | 0 <= i < 256 ensures t[i] % Q == sum[i] % Q { ModAdd(sum[i], 0, Q); }
    hide RIntt, RNtt, RMul, InttOf, RRow, ResV, Hat, Small, Reduce32, CAddQ, Power2Round;
    SameResidues(t, sum);
    AddResidue(u, v);
    AddResidue(a, s2);
    SameResidues(ReduceAll(r), r);
    TransformResidues(ReduceAll(r));
    RowResidue(row, s1hat);
    ForwardAllResidues(s1);
  }

  lemma ResponseResidue(chat: Poly, s1: seq<Poly>, y: seq<Poly>)
    requires Hat(chat) && |s1| == |y| && Smalls(s1) && forall i :: 0 <= i < |y| ==> IsZPoly(y[i])
    ensures IsResponse(ResV(chat), RNttAll(ResAll(s1)), ResAll(y), ResAll(ResponseVector(chat, ForwardAll(s1), y)))
  {
    var s1hat := ForwardAll(s1);
    var z := ResponseVector(chat, s1hat, y);
    ZSmalls(y);
    assert Rect(ResAll(y), 256) && Rect(ResAll(z), 256) && Rect(RNttAll(ResAll(s1)), 256);
    hide RIntt, RNtt, RMul, RAdd, InttOf, ResV, Reduce32, IsZPoly, Forward;
    ForwardAllResidues(s1);
    forall j | 0 <= j < |z| ensures ResV(z[j]) == RAdd(RIntt(RMul(ResV(chat), RNtt(ResV(s1[j])))), ResV(y[j])) {
      var p := Inverse(Pointwise(chat, s1hat[j]));
      SameResidues(z[j], PolyAdd(p, y[j]));
      AddResidue(p, y[j]);
      ProductResidue(chat, s1hat[j]);
      ForwardResidue(s1[j]);
    }
  }

  /** The residues of what the verifier computes for a row. */
  lemma VerifierResidue(row: seq<Poly>, z: seq<Poly>, chat: Poly, t1: Poly)
    requires |row| == |z| == DsaSignature.L && Hats(row) && Smalls(z) && Hat(chat) && IsT1Poly(t1)
    ensures Rect(ResAll(row), 256) && Rect(RNttAll(ResAll(z)), 256)
    ensures ResV(VerifierPoly(row, ForwardAll(z), chat, t1)) ==
            RIntt(VerifierRow(ResAll(row), RNttAll(ResAll(z)), ResV(chat), RNtt(ResV(ShiftLeft(t1)))))
  {
    hide RIntt, RNtt, RMul, RSub, RRow, InttOf, ResV, Reduce32, CAddQ, Forward;
    var zhat := ForwardAll(z);
    var r, p := Row(row, zhat), Pointwise(chat, Forward(ShiftLeft(t1)));
    SettleResidue(PolySub(r, p));
    AddResidue(r, p);
    RowResidue(row, zhat);
    ForwardAllResidues(z);
    PointwiseResidue(chat, Forward(ShiftLeft(t1)));
    ForwardResidue(ShiftLeft(t1));
  }

  /** The signer's w for a row. */
  lemma SignerResidue(row: seq<Poly>, y: seq<Poly>)
    requires |row| == |y| == DsaSignature.L && Hats(row) && Smalls(y)
    ensures Rect(ResAll(row), 256) && Rect(RNttAll(ResAll(y)), 256)
    ensures ResV(Settle(Row(row, ForwardAll(y)))) == RIntt(RRow(ResAll(row), RNttAll(ResAll(y))))
  {
    hide RIntt, RNtt, RRow, InttOf, ResV, Reduce32, CAddQ, Forward;
    SettleResidue(Row(row, ForwardAll(y)));
    RowResidue(row, ForwardAll(y));
    ForwardAllResidues(y);
  }

  /** v = w - s + g modulo Q, coefficient by coefficient. */
  ghost predicate Congruent(v: Poly, w: Poly, s: Poly, g: Poly) {
    |v| == |w| == |s| == |g| == 256 && forall j :: 0 <= j < 256 ==> v[j] % Q == (w[j] - s[j] + g[j]) % Q
  }

  lemma ResidueSum(v: Poly, w: Poly, s: Poly, g: Poly)
    requires |v| == |w| == |s| == |g| == 256 && ResV(v) == RAdd(RSub(ResV(w), ResV(s)), ResV(g))
    ensures Congruent(v, w, s, g)
  {
    AddResidue(w, s);
    AddResidue(PolySub(w, s), g);
    var u := PolyAdd(PolySub(w, s), g);
    forall j | 0 <= j < |v| ensures v[j] % Q == (w[j] - s[j] + g[j]) % Q {
      assert ResV(v)[j] == ResV(u)[j];
      assert Res(v[j]) == Res(u[j]);
    }
  }

  lemma LowSmall(t: Poly)
    requires Canonical(t)
    ensures Small(LowPart(t))
  {
  }

  ghost predicate RowParts(row: seq<Poly>, s1: seq<Poly>, s2: Poly, t: Poly, y: seq<Poly>, z: seq<Poly>, chat: Poly) {
    && |row| == |s1| == |y| == |z| == DsaSignature.L && Hats(row) && Smalls(s1) && Smalls(y) && Smalls(z) &&
        Small(s2) && Hat(chat)
    && Canonical(t) && Small(LowPart(t))
  }

  /** The key equation and the response equation of a row, over the Montgomery ring. */
  ghost predicate RowEquations(row: seq<Poly>, s1: seq<Poly>, s2: Poly, t: Poly, y: seq<Poly>, z: seq<Poly>, chat: Poly)
    requires RowParts(row, s1, s2, t, y, z, chat)
  {
    && IsKey(ResAll(row), RNttAll(ResAll(s1)), ResV(s2), ResV(ShiftLeft(HighPart(t))), ResV(LowPart(t)))
    && IsResponse(ResV(chat), RNttAll(ResAll(s1)), ResAll(y), ResAll(z))
  }

  /** A z - c t1 2^13 = w - c s2 + c t0, modulo Q, on what the code computes for a row. */
  lemma VerifierEquation(row: seq<Poly>, s1: seq<Poly>, s2: Poly, t: Poly, y: seq<Poly>, z: seq<Poly>, chat: Poly)
    requires RowParts(row, s1, s2, t, y, z, chat) && RowEquations(row, s1, s2, t, y, z, chat)
    ensures Congruent(VerifierPoly(row, ForwardAll(z), chat, HighPart(t)), Settle(Row(row, ForwardAll(y))),
                      Inverse(Pointwise(chat, Forward(s2))), Correction(chat, Forward(LowPart(t))))
  {
    hide RIntt, RNtt, RMul, RSub, RAdd, RRow, InttOf, ResV, Reduce32, CAddQ, Power2Round, Forward,
         ForwardAll, IsKey, IsResponse, KeyPoly, Settle, Inverse, RNttAll, ResAll, VerifierPoly, VerifierRow;
    VerifierValue(ResAll(row), RNttAll(ResAll(s1)), ResV(s2), ResV(ShiftLeft(HighPart(t))), ResV(LowPart(t)),
        ResAll(y), ResAll(z), ResV(chat));
    VerifierResidue(row, z, chat, HighPart(t));
    SignerResidue(row, y);
    var s, p := Forward(s2), Forward(LowPart(t));
    ProductResidue(chat, s);
    ForwardResidue(s2);
    ProductResidue(chat, p);
    ForwardResidue(LowPart(t));
    var g := Correction(chat, p);
    SameResidues(g, Inverse(Pointwise(chat, p)));
    ResidueSum(VerifierPoly(row, ForwardAll(z), chat, HighPart(t)), Settle(Row(row, ForwardAll(y))),
        Inverse(Pointwise(chat, s)), g);
  }

  // ---- the hints ------------------------------------------------------------------------------------------

  /** A row of hints recovers the high bits of w. */
  lemma HintsRecover(v: Poly, w: Poly, s: Poly, f0: Poly, g: Poly)
    requires Canonical(v) && Canonical(w) && |s| == |f0| == |g| == 256 && Congruent(v, w, s, g)
    requires forall j :: 0 <= j < 256 ==> f0[j] % Q == (LowBits(w)[j] - s[j]) % Q
    requires NormBelow(f0, GAMMA2 - BETA) && NormBelow(g, GAMMA2)
    ensures Recover(v, Hints(PolyAdd(f0, g), HighBits(w))) == HighBits(w)
  {
    hide UseHint, MakeHint, Decompose;
    var h := Hints(PolyAdd(f0, g), HighBits(w));
    forall j | 0 <= j < 256 ensures UseHint(v[j], h[j]) == HighBits(w)[j] {
      HintRecovers(w[j], s[j], f0[j], g[j], v[j]);
    }
  }

  lemma RowRecovers(row: seq<Poly>, s1: seq<Poly>, s2: Poly, y: seq<Poly>, chat: Poly)
    requires |row| == |s1| == |y| == DsaSignature.L && Hats(row) && Smalls(s1) && IsEtaPoly(s2) && Small(s2) &&
             Hat(chat)
    requires Smalls(y) && forall i :: 0 <= i < |y| ==> IsZPoly(y[i])
    ensures var t := KeyPoly(row, ForwardAll(s1), s2); Small(LowPart(t))
    ensures var t := KeyPoly(row, ForwardAll(s1), s2);
            var w, z := Settle(Row(row, ForwardAll(y))), ResponseVector(chat, ForwardAll(s1), y);
            var f0, g := Residue(chat, Forward(s2), LowBits(w)), Correction(chat, Forward(LowPart(t)));
            NormBelow(f0, GAMMA2 - BETA) && NormBelow(g, GAMMA2) ==>
            Recover(VerifierPoly(row, ForwardAll(z), chat, HighPart(t)), Hints(PolyAdd(f0, g), HighBits(w))) ==
                HighBits(w)
  {
    hide InttOf, Reduce32, CAddQ, Power2Round, Forward, Hat, IsZPoly,
         ForwardAll, IsKey, IsResponse, KeyPoly, Settle, Inverse, RNttAll, ResAll, VerifierPoly, VerifierRow,
             NormBelow, Congruent;
    var t := KeyPoly(row, ForwardAll(s1), s2);
    LowSmall(t);
    KeyResidue(row, s1, s2);
    ResponseResidue(chat, s1, y);
    var w, z := Settle(Row(row, ForwardAll(y))), ResponseVector(chat, ForwardAll(s1), y);
    VerifierEquation(row, s1, s2, t, y, z, chat);
    var f0, g := Residue(chat, Forward(s2), LowBits(w)), Correction(chat, Forward(LowPart(t)));
    if NormBelow(f0, GAMMA2 - BETA) && NormBelow(g, GAMMA2) {
      HintsRecover(VerifierPoly(row, ForwardAll(z), chat, HighPart(t)), w, Inverse(Pointwise(chat, Forward(s2))), f0,
          g);
    }
  }

  // ---- the whole scheme -------------------------------------------------------------------------------------

  /** The secret key that key generation packs. */
  function KeyOf(O: Oracles, k: KeyMaterial): SecretKey
    requires O.Valid() && k.Valid()
  {
    SecretKey(k.rho, O.Hash(PackPk(k.rho, k.T1()), TR_BYTES), k.key, k.T0(), k.s1, k.s2)
  }

  /** Both keys survive packing. */
  lemma KeysRoundTrip(O: Oracles, seed: seq<byte>)
    requires O.Valid()
    ensures var k := Expand(O, seed);
            && |KeyGen(O, seed).0| == PUBLIC_KEY_BYTES && UnpackPk(KeyGen(O, seed).0) == (k.rho, k.T1())
            && |KeyGen(O, seed).1| == SECRET_KEY_BYTES && UnpackSk(KeyGen(O, seed).1) == KeyOf(O, k)
  {
    hide Expand, UnpackSk, UnpackPk, PackSk, PackPk, IsT1, IsT0;
    var k := Expand(O, seed);
    assert Polys(IsT1, k.T1(), DsaSignature.K) by {
      forall i | 0 <= i < DsaSignature.K
        ensures |k.T1()[i]| == 256 && All(IsT1, k.T1()[i])
      {
        assert IsT1Poly(k.T1()[i]);
      }
    }
    assert Polys(IsT0, k.T0(), DsaSignature.K) by {
      forall i | 0 <= i < DsaSignature.K
        ensures |k.T0()[i]| == 256 && All(IsT0, k.T0()[i])
      {
        assert IsT0Poly(k.T0()[i]);
      }
    }
    PublicKeyRoundTrip(k.rho, k.T1());
    SecretKeyRoundTrip(KeyOf(O, k));
  }

  lemma GeneratedKeySmall(O: Oracles, seed: seq<byte>)
    requires O.Valid()
    ensures SmallKey(KeyOf(O, Expand(O, seed)))
  {
    hide Expand;
    var k := Expand(O, seed);
    EtaSmalls(k.s1);
    EtaSmalls(k.s2);
    forall i | 0 <= i < DsaSignature.K ensures Small(k.T0()[i]) { LowSmall(k.t[i]); }
  }

  /** The key vectors t1 and t0 of k, and that its t comes from its secrets by the matrix `mat`. */
  ghost predicate KeyFrom(mat: seq<seq<Poly>>, k: KeyMaterial)
    requires k.Valid() && IsMatrix(mat) && Smalls(k.s1)
  {
    forall i :: 0 <= i < DsaSignature.K ==> k.t[i] == KeyPoly(mat[i], ForwardAll(k.s1), k.s2[i])
  }

  lemma ExpandKey(O: Oracles, seed: seq<byte>)
    requires O.Valid()
    ensures Smalls(Expand(O, seed).s1) && Smalls(Expand(O, seed).s2) && Smalls(Expand(O, seed).T0())
    ensures KeyFrom(Matrix(O, Expand(O, seed).rho), Expand(O, seed))
  {
    GeneratedKeySmall(O, seed);
    hide Small, KeyPoly, IsEtaPoly, Canonical;
  }

  /** One component of a signing round, and of its verification. */
  ghost predicate PlayedRow(row: seq<Poly>, s1: seq<Poly>, s2: Poly, t: Poly, y: seq<Poly>, chat: Poly, w: Poly,
      f0: Poly, g: Poly)
  {
    && |row| == |s1| == |y| == DsaSignature.L && Hats(row) && Smalls(s1) && Smalls(y) && IsEtaPoly(s2) && Small(s2) &&
        Hat(chat)
    && (forall i :: 0 <= i < |y| ==> IsZPoly(y[i]))
    && Canonical(t) && t == KeyPoly(row, ForwardAll(s1), s2) && Small(LowPart(t))
    && Canonical(w) && w == Settle(Row(row, ForwardAll(y)))
    && f0 == Residue(chat, Forward(s2), LowBits(w)) && g == Correction(chat, Forward(LowPart(t)))
    && NormBelow(f0, GAMMA2 - BETA) && NormBelow(g, GAMMA2)
  }

  lemma PlayedRowRecovers(row: seq<Poly>, s1: seq<Poly>, s2: Poly, t: Poly, y: seq<Poly>, z: seq<Poly>, chat: Poly,
      w: Poly, f0: Poly, g: Poly)
    requires PlayedRow(row, s1, s2, t, y, chat, w, f0, g) && z == ResponseVector(chat, ForwardAll(s1), y)
    ensures Recover(VerifierPoly(row, ForwardAll(z), chat, HighPart(t)), Hints(PolyAdd(f0, g), HighBits(w))) ==
            HighBits(w)
  {
    hide Hats, Smalls, Hat, Small, IsZPoly, IsEtaPoly, NormBelow, Canonical, Forward, ForwardAll, KeyPoly, Settle,
         VerifierPoly, Recover, Hints;
    RowRecovers(row, s1, s2, y, chat);
  }

  lemma RoundRow(k: KeyMaterial, mat: seq<seq<Poly>>, y: seq<Poly>, chat: Poly, w: seq<Poly>, f0: seq<Poly>,
      ct0: seq<Poly>, i: nat)
    requires k.Valid() && IsMatrix(mat) && Smalls(k.s1) && Smalls(k.s2) && Smalls(k.T0()) && KeyFrom(mat, k) &&
             Hat(chat)
    requires |y| == DsaSignature.L && Smalls(y) && forall j :: 0 <= j < |y| ==> IsZPoly(y[j])
    requires w == Commitment(mat, ForwardAll(y)) && f0 == ResidueVector(chat, ForwardAll(k.s2), w)
    requires ct0 == CorrectionVector(chat, ForwardAll(k.T0()))
    requires i < DsaSignature.K && NormBelow(f0[i], GAMMA2 - BETA) && NormBelow(ct0[i], GAMMA2)
    ensures PlayedRow(mat[i], k.s1, k.s2[i], k.t[i], y, chat, w[i], f0[i], ct0[i])
  {
    hide Canonical, Hat, Small, IsZPoly, IsEtaPoly, IsT1Poly, NormBelow, Forward;
    hide Commitment, ForwardAll, ResidueVector, CorrectionVector, KeyPoly, Settle, Residue, Correction, LowBits,
         LowPart;
    assert Small(k.T0()[i]);
  }

  lemma VectorsRecover(k: KeyMaterial, mat: seq<seq<Poly>>, y: seq<Poly>, z: seq<Poly>, chat: Poly, w: seq<Poly>,
      f0: seq<Poly>, ct0: seq<Poly>, h: seq<Poly>, v: seq<Poly>)
    requires k.Valid() && IsMatrix(mat) && Smalls(k.s1) && Smalls(k.s2) && Smalls(k.T0()) && KeyFrom(mat, k) &&
             Hat(chat)
    requires |y| == DsaSignature.L && Smalls(y) && forall j :: 0 <= j < |y| ==> IsZPoly(y[j])
    requires w == Commitment(mat, ForwardAll(y)) && z == ResponseVector(chat, ForwardAll(k.s1), y)
    requires f0 == ResidueVector(chat, ForwardAll(k.s2), w) && ct0 == CorrectionVector(chat, ForwardAll(k.T0()))
    requires forall i :: 0 <= i < DsaSignature.K ==> NormBelow(f0[i], GAMMA2 - BETA) && NormBelow(ct0[i], GAMMA2)
    requires h == HintVector(f0, ct0, w) && v == VerifierVector(mat, ForwardAll(z), chat, k.T1())
    ensures RecoverVector(v, h) == HighVector(w)
  {
    hide Canonical, Hat, Small, IsZPoly, IsEtaPoly, IsT1Poly, NormBelow, Forward, Smalls, Hats, PlayedRow, KeyFrom;
    hide Commitment, ForwardAll, ResponseVector, ResidueVector, CorrectionVector, VerifierVector, HintVector,
         RecoverVector, HighVector;
    hide KeyPoly, VerifierPoly, Settle, Residue, Correction, Hints, Recover, HighBits, LowBits, HighPart, LowPart,
         Response;
    var u := RecoverVector(v, h);
    forall i | 0 <= i < DsaSignature.K ensures u[i] == HighVector(w)[i] {
      RoundRow(k, mat, y, chat, w, f0, ct0, i);
      PlayedRowRecovers(mat[i], k.s1, k.s2[i], k.t[i], y, z, chat, w[i], f0[i], ct0[i]);
    }
  }

  /** From an accepted round, the verifier recovers what the signer hashed. */
  lemma RoundRecovers(O: Oracles, seed: seq<byte>, msg: seq<byte>, rnd: seq<byte>, nonce: nat)
    requires O.Valid() && SmallKey(KeyOf(O, Expand(O, seed)))
    requires Play(O, MakeContext(O, KeyOf(O, Expand(O, seed)), msg, rnd), nonce).Accepted()
    ensures var k, r := Expand(O, seed), Play(O, MakeContext(O, KeyOf(O, Expand(O, seed)), msg, rnd), nonce);
            Recovered(O, k.rho, k.T1(), r.c, r.z, r.h) == HighVector(r.w)
  {
    var k := Expand(O, seed);
    var x := MakeContext(O, KeyOf(O, k), msg, rnd);
    var r, y, mat := Play(O, x, nonce), MaskVector(O, x.rhoprime, nonce), Matrix(O, k.rho);
    hide Canonical, Hat, Small, IsZPoly, IsEtaPoly, IsT1Poly, NormBelow, Forward, Smalls, Hats, KeyFrom;
    hide Expand, Digest, MaskVector, Commitment, ForwardAll, ResponseVector, ResidueVector, CorrectionVector,
         VerifierVector, HintVector, RecoverVector, HighVector;
    ExpandKey(O, seed);
    ZSmalls(y);
    var chat := Forward(O.Challenge(r.c));
    var v := VerifierVector(mat, ForwardAll(r.z), chat, k.T1());
    VectorsRecover(k, mat, y, r.z, chat, r.w, r.f0, r.ct0, r.h, v);
  }

  /** An accepted round gives a signature that verifies. */
  lemma RoundVerifies(O: Oracles, seed: seq<byte>, msg: seq<byte>, rnd: seq<byte>, nonce: nat)
    requires O.Valid() && SmallKey(KeyOf(O, Expand(O, seed)))
    requires Play(O, MakeContext(O, KeyOf(O, Expand(O, seed)), msg, rnd), nonce).Accepted()
    ensures var r := Play(O, MakeContext(O, KeyOf(O, Expand(O, seed)), msg, rnd), nonce);
            Verify(O, KeyGen(O, seed).0, msg, PackSig(r.c, r.z, r.h))
  {
    hide Play, Expand, UnpackPk, UnpackSig, PackSig, NormBelow, IsHint, AllPositions, Small, IsT1Poly, Recovered,
         Digest;
    var k := Expand(O, seed);
    var x := MakeContext(O, KeyOf(O, k), msg, rnd);
    var r := Play(O, x, nonce);
    KeysRoundTrip(O, seed);
    NormSigns(r.z);
    SignatureRoundTrip(r.c, r.z, r.h);
    RoundRecovers(O, seed, msg, rnd, nonce);
    DigestOfRound(O, x, nonce);
  }

  lemma DigestOfRound(O: Oracles, x: Context, nonce: nat)
    requires O.Valid() && x.Valid()
    ensures var r := Play(O, x, nonce); r.c == Digest(O, x.mu, HighVector(r.w))
  {
    hide Digest, HighVector, Commitment, ForwardAll, Smalls, Hats, Canonical, IsZPoly;
  }

  lemma {:induction false} LoopVerifies(O: Oracles, seed: seq<byte>, msg: seq<byte>, rnd: seq<byte>, nonce: nat,
      limit: nat)
    requires O.Valid() && SmallKey(KeyOf(O, Expand(O, seed)))
    ensures var s := FirstAccepted(O, MakeContext(O, KeyOf(O, Expand(O, seed)), msg, rnd), nonce, limit);
            s.Some? ==> Verify(O, KeyGen(O, seed).0, msg, s.value)
    decreases limit - nonce
  {
    hide Play, Expand, PackSig, KeyGen, Verify, MakeContext;
    if nonce < limit {
      if Play(O, MakeContext(O, KeyOf(O, Expand(O, seed)), msg, rnd), nonce).Accepted() {
        RoundVerifies(O, seed, msg, rnd, nonce);
      } else {
        LoopVerifies(O, seed, msg, rnd, nonce + 1, limit);
      }
    }
  }

  /** Completeness of ML-DSA-65: for every seed, message and randomizer, if the signing loop returns a signature
      under the generated secret key, the generated public key verifies it. */
  lemma SignedVerifies(O: Oracles, seed: seq<byte>, msg: seq<byte>, rnd: seq<byte>, limit: nat)
    requires O.Valid()
    ensures |KeyGen(O, seed).1| == SECRET_KEY_BYTES
    ensures var s := Sign(O, KeyGen(O, seed).1, msg, rnd, limit);
            s.Some? ==> Verify(O, KeyGen(O, seed).0, msg, s.value)
  {
    hide Expand, KeyGen, Verify, MakeContext, FirstAccepted, UnpackSk;
    KeysRoundTrip(O, seed);
    GeneratedKeySmall(O, seed);
    LoopVerifies(O, seed, msg, rnd, 0, limit);
  }
}
