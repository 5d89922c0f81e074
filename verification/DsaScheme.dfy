/** ML-DSA-65 key generation, signing with rejection, and verification, over bytes (sections 6.1 to 6.3 of
    FIPS 204).  The hash and the samplers are parameters, constrained only by the ranges of their results. */
module DsaScheme {
  import opened MachineInts
  import opened Groups
  import opened DsaNtt
  import opened DsaRounding
  import opened DsaPacking
  import opened DsaSignature
  import opened DsaKeys
  import opened DsaPolys

  type Poly = seq<int>

  predicate IsEtaPoly(p: Poly) { |p| == 256 && forall i :: 0 <= i < 256 ==> IsEta(p[i]) }

  predicate IsTernary(p: Poly) { |p| == 256 && forall i :: 0 <= i < 256 ==> -1 <= p[i] <= 1 }

  /** SHAKE256 with an output length, ExpandA, ExpandS and SampleInBall. */
  datatype Oracles = Oracles(shake: (seq<byte>, nat) -> seq<byte>, uniform: (seq<byte>, nat) -> Poly,
                             eta: (seq<byte>, nat) -> Poly, challenge: seq<byte> -> Poly)
  {
    ghost predicate Valid() {
      && (forall x: seq<byte>, n: nat :: |shake(x, n)| == n)
      && (forall x: seq<byte>, n: nat :: Canonical(uniform(x, n)))
      && (forall x: seq<byte>, n: nat :: IsEtaPoly(eta(x, n)))
      && (forall x: seq<byte> :: IsTernary(challenge(x)))
    }

    function Hash(x: seq<byte>, n: nat): (h: seq<byte>)
      requires Valid()
      ensures |h| == n
    {
      shake(x, n)
    }

    function Uniform(rho: seq<byte>, nonce: nat): (p: Poly)
      requires Valid()
      ensures Canonical(p) && Hat(p)
    {
      uniform(rho, nonce)
    }

    function Secret(seed: seq<byte>, nonce: nat): (p: Poly)
      requires Valid()
      ensures IsEtaPoly(p)
    {
      eta(seed, nonce)
    }

    /** ExpandMask for one polynomial: the 16-bit nonce, then unpacking. */
    function Mask(seed: seq<byte>, nonce: nat): (p: Poly)
      requires Valid()
      ensures IsZPoly(p)
    {
      var b := Hash(seed + [nonce % 256, nonce / 256 % 256], 640);
      ZPolyOnto(b);
      UnpackZ(b)
    }

    function Challenge(c: seq<byte>): (p: Poly)
      requires Valid()
      ensures Small(p)
    {
      challenge(c)
    }
  }

  function MatrixRow(O: Oracles, rho: seq<byte>, i: nat): (m: seq<Poly>)
    requires O.Valid()
    ensures |m| == L && Hats(m)
  {
    var m := seq(L, j requires 0 <= j < L => O.Uniform(rho, 256 * i + j));
    assert forall j :: 0 <= j < L ==> m[j] == O.Uniform(rho, 256 * i + j);
    m
  }

  ghost predicate IsMatrix(m: seq<seq<Poly>>) {
    |m| == K && forall i :: 0 <= i < K ==> |m[i]| == L && Hats(m[i])
  }

  function Matrix(O: Oracles, rho: seq<byte>): (m: seq<seq<Poly>>)
    requires O.Valid()
    ensures IsMatrix(m) && forall i :: 0 <= i < K ==> m[i] == MatrixRow(O, rho, i)
  {
    seq(K, i requires 0 <= i < K => MatrixRow(O, rho, i))
  }

  // ---- key generation ---------------------------------------------------------------------------------------

  function SecretVector(O: Oracles, seed: seq<byte>, first: nat, n: nat): (s: seq<Poly>)
    requires O.Valid()
    ensures |s| == n && forall i :: 0 <= i < n ==> s[i] == O.Secret(seed, first + i) && IsEtaPoly(s[i])
  {
    seq(n, i requires 0 <= i < n => O.Secret(seed, first + i))
  }

  lemma EtaSmalls(v: seq<Poly>)
    requires forall i :: 0 <= i < |v| ==> IsEtaPoly(v[i]) || IsNibblePoly(v[i])
    ensures Smalls(v)
  {
  }

  /** One component of t = A s1 + s2. */
  function KeyPoly(row: seq<Poly>, s1hat: seq<Poly>, s2: Poly): (t: Poly)
    requires |row| == |s1hat| == L && Hats(row) && Hats(s1hat) && IsEtaPoly(s2)
    ensures Canonical(t)
  {
    CAddQAll(PolyAdd(Inverse(ReduceAll(Row(row, s1hat))), s2))
  }

  function HighPart(t: Poly): (h: Poly)
    requires Canonical(t)
    ensures IsT1Poly(h)
  {
    seq(256, i requires 0 <= i < 256 => Power2Round(t[i]).0)
  }

  function LowPart(t: Poly): (h: Poly)
    requires Canonical(t)
    ensures IsT0Poly(h)
  {
    seq(256, i requires 0 <= i < 256 => Power2Round(t[i]).1)
  }

  datatype KeyMaterial = KeyMaterial(rho: seq<byte>, key: seq<byte>, s1: seq<Poly>, s2: seq<Poly>, t: seq<Poly>) {
    ghost predicate Valid() {
      && |rho| == |key| == SEED_BYTES && |s1| == L && |s2| == |t| == K
      && (forall i :: 0 <= i < L ==> IsEtaPoly(s1[i])) && (forall i :: 0 <= i < K ==> IsEtaPoly(s2[i]))
      && (forall i :: 0 <= i < K ==> Canonical(t[i]))
    }

    function T1(): (h: seq<Poly>)
      requires Valid()
      ensures |h| == K && forall i :: 0 <= i < K ==> h[i] == HighPart(t[i])
    {
      seq(K, i requires 0 <= i < K => HighPart(t[i]))
    }

    function T0(): (h: seq<Poly>)
      requires Valid()
      ensures |h| == K && forall i :: 0 <= i < K ==> h[i] == LowPart(t[i])
    {
      seq(K, i requires 0 <= i < K => LowPart(t[i]))
    }
  }

  function Expand(O: Oracles, seed: seq<byte>): (k: KeyMaterial)
    requires O.Valid()
    ensures k.Valid()
  {
    var ext := O.Hash(seed + [K, L], 128);
    var s1, s2 := SecretVector(O, ext[32..96], 0, L), SecretVector(O, ext[32..96], L, K);
    EtaSmalls(s1);
    var mat, s1hat := Matrix(O, ext[..32]), ForwardAll(s1);
    KeyMaterial(ext[..32], ext[96..], s1, s2, seq(K, i requires 0 <= i < K => KeyPoly(mat[i], s1hat, s2[i])))
  }

  /** ML-DSA.KeyGen_internal: the public and the secret key. */
  function KeyGen(O: Oracles, seed: seq<byte>): (r: (seq<byte>, seq<byte>))
    requires O.Valid()
  {
    var k := Expand(O, seed);
    var pk := PackPk(k.rho, k.T1());
    (pk, PackSk(SecretKey(k.rho, O.Hash(pk, TR_BYTES), k.key, k.T0(), k.s1, k.s2)))
  }

  // ---- signing ----------------------------------------------------------------------------------------------

  /** What the signer prepares before the loop. */
  datatype Context = Context(mat: seq<seq<Poly>>, s1hat: seq<Poly>, s2hat: seq<Poly>, t0hat: seq<Poly>, mu: seq<byte>,
      rhoprime: seq<byte>)
  {
    ghost predicate Valid() {
      && IsMatrix(mat) && |s1hat| == L && |s2hat| == |t0hat| == K && Hats(s1hat) && Hats(s2hat) && Hats(t0hat)
    }
  }

  ghost predicate SmallKey(sk: SecretKey) {
    |sk.s1| == L && |sk.s2| == |sk.t0| == K && Smalls(sk.s1) && Smalls(sk.s2) && Smalls(sk.t0)
  }

  lemma UnpackedKeySmall(sk: seq<byte>)
    requires |sk| == SECRET_KEY_BYTES
    ensures SmallKey(UnpackSk(sk))
  {
    hide UnpackSk;
    UnpackSkShape(sk);
  }

  function MakeContext(O: Oracles, sk: SecretKey, msg: seq<byte>, rnd: seq<byte>): (c: Context)
    requires O.Valid() && SmallKey(sk)
    ensures c.Valid()
  {
    var mu := O.Hash(sk.tr + msg, 64);
    Context(Matrix(O, sk.rho), ForwardAll(sk.s1), ForwardAll(sk.s2), ForwardAll(sk.t0), mu, O.Hash(sk.key + rnd + mu,
        64))
  }

  function MaskVector(O: Oracles, seed: seq<byte>, nonce: nat): (y: seq<Poly>)
    requires O.Valid()
    ensures |y| == L && forall i :: 0 <= i < L ==> y[i] == O.Mask(seed, L * nonce + i) && IsZPoly(y[i])
  {
    seq(L, i requires 0 <= i < L => O.Mask(seed, L * nonce + i))
  }

  lemma ZSmall(p: Poly)
    requires IsZPoly(p)
    ensures Small(p)
  {
  }

  lemma ZSmalls(v: seq<Poly>)
    requires forall i :: 0 <= i < |v| ==> IsZPoly(v[i])
    ensures Smalls(v)
  {
  }

  /** w = A y for every row. */
  function Commitment(mat: seq<seq<Poly>>, yhat: seq<Poly>): (w: seq<Poly>)
    requires IsMatrix(mat) && |yhat| == L && Hats(yhat)
    ensures |w| == K && forall i :: 0 <= i < K ==> Canonical(w[i]) && w[i] == Settle(Row(mat[i], yhat))
  {
    seq(K, i requires 0 <= i < K => Settle(Row(mat[i], yhat)))
  }

  function HighBits(w: Poly): (h: Poly)
    requires Canonical(w)
    ensures |h| == 256 && forall i :: 0 <= i < 256 ==> h[i] == Decompose(w[i]).0
  {
    seq(256, i requires 0 <= i < 256 => Decompose(w[i]).0)
  }

  function LowBits(w: Poly): (h: Poly)
    requires Canonical(w)
    ensures |h| == 256 && Bounded(h, GAMMA2) && forall i :: 0 <= i < 256 ==> h[i] == Decompose(w[i]).1
  {
    assert forall i :: 0 <= i < 256 ==> -GAMMA2 <= Decompose(w[i]).1 <= GAMMA2 by {
      forall i | 0 <= i < 256 ensures -GAMMA2 <= Decompose(w[i]).1 <= GAMMA2 { DecomposeRange(w[i]); }
    }
    seq(256, i requires 0 <= i < 256 => Decompose(w[i]).1)
  }

  function HighVector(w: seq<Poly>): (h: seq<Poly>)
    requires forall i :: 0 <= i < |w| ==> Canonical(w[i])
    ensures |h| == |w| && forall i :: 0 <= i < |w| ==> h[i] == HighBits(w[i])
  {
    seq(|w|, i requires 0 <= i < |w| => HighBits(w[i]))
  }

  /** z = y + c s1 */
  function Response(chat: Poly, s: Poly, y: Poly): (z: Poly)
    requires Hat(chat) && Hat(s) && IsZPoly(y)
    ensures Small(z)
  {
    ReduceAll(PolyAdd(Inverse(Pointwise(chat, s)), y))
  }

  /** w0 - c s2 */
  function Residue(chat: Poly, s: Poly, w0: Poly): (z: Poly)
    requires Hat(chat) && Hat(s) && |w0| == 256 && Bounded(w0, GAMMA2)
    ensures Small(z)
  {
    ReduceAll(PolySub(w0, Inverse(Pointwise(chat, s))))
  }

  /** c t0 */
  function Correction(chat: Poly, t: Poly): (z: Poly)
    requires Hat(chat) && Hat(t)
    ensures Small(z)
  {
    ReduceAll(Inverse(Pointwise(chat, t)))
  }

  function Hints(a0: Poly, a1: Poly): (h: Poly)
    requires |a0| == |a1| == 256
    ensures IsHint(h) && forall i :: 0 <= i < 256 ==> h[i] == MakeHint(a0[i], a1[i])
  {
    seq(256, i requires 0 <= i < 256 => MakeHint(a0[i], a1[i]))
  }

  /** The challenge hash. */
  function Digest(O: Oracles, mu: seq<byte>, w1: seq<Poly>): (c: seq<byte>)
    requires O.Valid()
    ensures |c| == CTILDE_BYTES
  {
    O.Hash(mu + PackAll(PackW1, w1), CTILDE_BYTES)
  }

  /** Everything that one round of the signing loop computes. */
  datatype Round = Round(w: seq<Poly>, c: seq<byte>, z: seq<Poly>, f0: seq<Poly>, ct0: seq<Poly>, h: seq<Poly>) {
    ghost predicate Valid() {
      && |w| == |f0| == |ct0| == |h| == K && |z| == L && |c| == CTILDE_BYTES
      && (forall i :: 0 <= i < K ==> Canonical(w[i])) && (forall i :: 0 <= i < K ==> IsHint(h[i]))
      && Smalls(z) && Smalls(f0) && Smalls(ct0)
    }

    ghost predicate Accepted()
      requires Valid()
    {
      && (forall i :: 0 <= i < L ==> NormBelow(z[i], GAMMA1 - BETA))
      && (forall i :: 0 <= i < K ==> NormBelow(f0[i], GAMMA2 - BETA))
      && (forall i :: 0 <= i < K ==> NormBelow(ct0[i], GAMMA2))
      && |AllPositions(h)| <= OMEGA
    }
  }

  function ResponseVector(chat: Poly, s: seq<Poly>, y: seq<Poly>): (z: seq<Poly>)
    requires Hat(chat) && |s| == |y| && Hats(s) && forall i :: 0 <= i < |y| ==> IsZPoly(y[i])
    ensures |z| == |s| && Smalls(z) && forall i :: 0 <= i < |s| ==> z[i] == Response(chat, s[i], y[i])
  {
    hide Hat, Small, IsZPoly;
    seq(|s|, i requires 0 <= i < |s| => Response(chat, s[i], y[i]))
  }

  function ResidueVector(chat: Poly, s: seq<Poly>, w: seq<Poly>): (z: seq<Poly>)
    requires Hat(chat) && |s| == |w| && Hats(s) && forall i :: 0 <= i < |w| ==> Canonical(w[i])
    ensures |z| == |s| && Smalls(z) && forall i :: 0 <= i < |s| ==> z[i] == Residue(chat, s[i], LowBits(w[i]))
  {
    hide Hat, Small, Canonical;
    seq(|s|, i requires 0 <= i < |s| => Residue(chat, s[i], LowBits(w[i])))
  }

  function CorrectionVector(chat: Poly, t: seq<Poly>): (z: seq<Poly>)
    requires Hat(chat) && Hats(t)
    ensures |z| == |t| && Smalls(z) && forall i :: 0 <= i < |t| ==> z[i] == Correction(chat, t[i])
  {
    hide Hat, Small;
    seq(|t|, i requires 0 <= i < |t| => Correction(chat, t[i]))
  }

  function HintVector(f0: seq<Poly>, ct0: seq<Poly>, w: seq<Poly>): (h: seq<Poly>)
    requires |f0| == |ct0| == |w| && Smalls(f0) && Smalls(ct0) && forall i :: 0 <= i < |w| ==> Canonical(w[i])
    ensures |h| == |w|
    ensures forall i :: 0 <= i < |w| ==> IsHint(h[i]) && h[i] == Hints(PolyAdd(f0[i], ct0[i]), HighBits(w[i]))
  {
    hide Canonical, Bounded;
    seq(|w|, i requires 0 <= i < |w| => Hints(PolyAdd(f0[i], ct0[i]), HighBits(w[i])))
  }

  function Play(O: Oracles, x: Context, nonce: nat): (r: Round)
    requires O.Valid() && x.Valid()
    ensures r.Valid()
  {
    var y := MaskVector(O, x.rhoprime, nonce);
    ZSmalls(y);
    hide Hat, Small, Canonical, IsZPoly, IsHint, Smalls, Hats, IsMatrix;
    var w := Commitment(x.mat, ForwardAll(y));
    var c := Digest(O, x.mu, HighVector(w));
    var chat := Forward(O.Challenge(c));
    var f0, ct0 := ResidueVector(chat, x.s2hat, w), CorrectionVector(chat, x.t0hat);
    Round(w, c, ResponseVector(chat, x.s1hat, y), f0, ct0, HintVector(f0, ct0, w))
  }

  lemma NormSigns(z: seq<Poly>)
    requires |z| == L && Smalls(z) && forall i :: 0 <= i < L ==> NormBelow(z[i], GAMMA1 - BETA)
    ensures IsZVector(z)
  {
  }

  /** The signature of a round, if it is not rejected. */
  ghost function Attempt(O: Oracles, x: Context, nonce: nat): Option<seq<byte>>
    requires O.Valid() && x.Valid()
  {
    var r := Play(O, x, nonce);
    if r.Accepted() then Some(PackSig(r.c, r.z, r.h)) else None
  }

  /** The first signature from round `nonce` on, before round `limit`. */
  ghost function FirstAccepted(O: Oracles, x: Context, nonce: nat, limit: nat): Option<seq<byte>>
    requires O.Valid() && x.Valid()
    decreases limit - nonce
  {
    if nonce >= limit then None
    else if Attempt(O, x, nonce).Some? then Attempt(O, x, nonce) else FirstAccepted(O, x, nonce + 1, limit)
  }

  /** ML-DSA.Sign_internal, given up after `limit` rounds. */
  ghost function Sign(O: Oracles, sk: seq<byte>, msg: seq<byte>, rnd: seq<byte>, limit: nat): Option<seq<byte>>
    requires O.Valid() && |sk| == SECRET_KEY_BYTES
  {
    UnpackedKeySmall(sk);
    FirstAccepted(O, MakeContext(O, UnpackSk(sk), msg, rnd), 0, limit)
  }

  // ---- verification -----------------------------------------------------------------------------------------

  /** A z - c t1 2^13 for one row. */
  function VerifierPoly(row: seq<Poly>, zhat: seq<Poly>, chat: Poly, t1: Poly): (w: Poly)
    requires |row| == |zhat| == L && Hats(row) && Hats(zhat) && Hat(chat) && IsT1Poly(t1)
    ensures Canonical(w)
  {
    Settle(PolySub(Row(row, zhat), Pointwise(chat, Forward(ShiftLeft(t1)))))
  }

  function VerifierVector(mat: seq<seq<Poly>>, zhat: seq<Poly>, chat: Poly, t1: seq<Poly>): (w: seq<Poly>)
    requires IsMatrix(mat) && |zhat| == L && Hats(zhat) && Hat(chat) && |t1| == K && forall i :: 0 <= i < K ==>
             IsT1Poly(t1[i])
    ensures |w| == K && forall i :: 0 <= i < K ==> Canonical(w[i]) && w[i] == VerifierPoly(mat[i], zhat, chat, t1[i])
  {
    hide Hat, Canonical, IsT1Poly, Hats;
    seq(K, i requires 0 <= i < K => VerifierPoly(mat[i], zhat, chat, t1[i]))
  }

  function Recover(w: Poly, h: Poly): (w1: Poly)
    requires Canonical(w) && |h| == 256
    ensures |w1| == 256 && forall i :: 0 <= i < 256 ==> w1[i] == UseHint(w[i], h[i])
  {
    seq(256, i requires 0 <= i < 256 => UseHint(w[i], h[i]))
  }

  function RecoverVector(w: seq<Poly>, h: seq<Poly>): (w1: seq<Poly>)
    requires |w| == |h| && (forall i :: 0 <= i < |w| ==> Canonical(w[i])) && forall i :: 0 <= i < |h| ==> |h[i]| == 256
    ensures |w1| == |w| && forall i :: 0 <= i < |w| ==> w1[i] == Recover(w[i], h[i])
  {
    seq(|w|, i requires 0 <= i < |w| => Recover(w[i], h[i]))
  }

  function Recovered(O: Oracles, rho: seq<byte>, t1: seq<Poly>, c: seq<byte>, z: seq<Poly>,
      h: seq<Poly>): (w1: seq<Poly>)
    requires O.Valid() && |t1| == |h| == K && |z| == L && Smalls(z)
    requires (forall i :: 0 <= i < K ==> IsT1Poly(t1[i])) && (forall i :: 0 <= i < K ==> |h[i]| == 256)
    ensures |w1| == K
  {
    hide Hat, Canonical, IsT1Poly, Hats, Small, Smalls, IsMatrix;
    RecoverVector(VerifierVector(Matrix(O, rho), ForwardAll(z), Forward(O.Challenge(c)), t1), h)
  }

  lemma UnpackedSignature(sig: seq<byte>)
    requires UnpackSig(sig).Some?
    ensures var (c, z, h) := UnpackSig(sig).value;
            |z| == L && |h| == K && Smalls(z) && (forall i :: 0 <= i < K ==> |h[i]| == 256)
  {
    hide UnpackSig, PackSig, AllPositions;
    SignatureCanonical(sig);
    ZSmalls(UnpackSig(sig).value.1);
  }

  /** ML-DSA.Verify_internal. */
  ghost predicate Verify(O: Oracles, pk: seq<byte>, msg: seq<byte>, sig: seq<byte>)
    requires O.Valid()
  {
    if |pk| != PUBLIC_KEY_BYTES then false
    else
      var (rho, t1) := UnpackPk(pk);
      match UnpackSig(sig)
      case None => false
      case Some((c, z, h)) =>
        UnpackedSignature(sig);
        UnpackPkShape(pk);
        && (forall i :: 0 <= i < L ==> NormBelow(z[i], GAMMA1 - BETA))
        && Digest(O, O.Hash(O.Hash(pk, TR_BYTES) + msg, 64), Recovered(O, rho, t1, c, z, h)) == c
  }
}
