/** What key generation and signing of ML-DSA-65 publish (sections 6.1 and 6.2 of FIPS 204), said with polynomials over
    the integers. */
module DsaSigning {
  import opened ModArith
  import opened Vectors
  import opened MachineInts
  import opened Groups
  import opened DsaField
  import opened DsaProduct
  import opened DsaAlgebra
  import opened DsaEquation
  import opened DsaRounding
  import opened DsaPacking
  import opened DsaSignature
  import opened DsaKeys
  import opened DsaPolys
  import opened DsaScheme
  import opened DsaCompleteness
  import opened DsaIntegers
  import opened DsaSoundness

  type Poly = seq<int>

  // ---- keys --------------------------------------------------------------------------------------------------------

  lemma KeyPolyIs(a: seq<Poly>, row: seq<Poly>, s1: seq<Poly>, s2: Poly)
    requires |row| == |s1| == DsaSignature.L && Hats(row) && Smalls(s1) && IsEtaPoly(s2) && RepresentsRow(a, row)
    ensures Rect(a, 256) && Rect(s1, 256)
    ensures KeyPoly(row, ForwardAll(s1), s2) == Canon(PolyAdd(Combination(a, s1), s2))
  {
    assert Rect(s1, 256);
    hide RNtt, RIntt, ResV, Represents, Forward, ForwardAll, KeyPoly, Combination, RRow, RNttAll, ResAll, Power2Round,
         VAdd, Hat, Small, Row, IsEtaPoly;
    RowIs(a, row, s1);
    var t := KeyPoly(row, ForwardAll(s1), s2);
    KeyResidueSum(row, s1, s2);
    AddResidue(Combination(a, s1), s2);
    CanonUnique(t, PolyAdd(Combination(a, s1), s2));
  }

  lemma KeyResidueSum(row: seq<Poly>, s1: seq<Poly>, s2: Poly)
    requires |row| == |s1| == DsaSignature.L && Hats(row) && Smalls(s1) && IsEtaPoly(s2)
    ensures |s2| == 256 && Rect(ResAll(row), 256) && Rect(RNttAll(ResAll(s1)), 256)
    ensures ResV(KeyPoly(row, ForwardAll(s1), s2)) == RAdd(RIntt(RRow(ResAll(row), RNttAll(ResAll(s1)))), ResV(s2))
  {
    var t := KeyPoly(row, ForwardAll(s1), s2);
    HalvesOf(t);
    hide RNtt, RIntt, ResV, Forward, ForwardAll, KeyPoly, RRow, RNttAll, ResAll, Power2Round, VAdd, Hat, Small, Row,
         ShiftLeft, HighPart, LowPart;
    KeyResidue(row, s1, s2);
    AddResidue(ShiftLeft(HighPart(t)), LowPart(t));
  }

  lemma HalvesOf(t: Poly)
    requires Canonical(t)
    ensures PolyAdd(ShiftLeft(HighPart(t)), LowPart(t)) == t
  {
  }

  /** The key equation: t1 2^13 + t0 is A s1 + s2, with the matrix, the secrets and the signing key taken from different
      parts of the expanded seed. */
  lemma KeyExact(O: Oracles, a: seq<seq<Poly>>, seed: seq<byte>)
    requires O.Valid() && RepresentsMatrix(a, Matrix(O, O.shake(seed + [6, 5], 128)[..32]))
    ensures var (pk, sk) := KeyGen(O, seed); |pk| == PUBLIC_KEY_BYTES && |sk| == SECRET_KEY_BYTES
    ensures var ext := O.shake(seed + [6, 5], 128);
            var (pk, sk) := KeyGen(O, seed);
            var (rho, t1) := UnpackPk(pk); var k := UnpackSk(sk);
            && rho == k.rho == ext[..32] && k.key == ext[96..] && k.tr == O.shake(pk, 64)
            && (forall j :: 0 <= j < DsaSignature.L ==> k.s1[j] == O.eta(ext[32..96], j))
            && (forall i :: 0 <= i < DsaSignature.K ==> k.s2[i] == O.eta(ext[32..96], DsaSignature.L + i))
            && forall i :: 0 <= i < DsaSignature.K ==> KeyRow(a[i], k.s1, k.s2[i], t1[i], k.t0[i])
  {
    KeysRoundTrip(O, seed);
    KeyParts(O, seed);
    hide UnpackPk, UnpackSk, KeyRow, Expand, PackPk, IsMatrix, Hats, IsEtaPoly, Canonical;
    KeyGenIs(O, seed);
    hide KeyGen;
    forall i | 0 <= i < DsaSignature.K
      ensures var k := Expand(O, seed); KeyRow(a[i], k.s1, k.s2[i], k.T1()[i], k.T0()[i])
    {
      KeyRowOf(O, a, seed, i);
    }
  }

  lemma KeyGenIs(O: Oracles, seed: seq<byte>)
    requires O.Valid()
    ensures var k := Expand(O, seed); KeyGen(O, seed).0 == PackPk(k.rho, k.T1())
  {
    hide Expand, PackSk, PackPk;
  }

  lemma KeyParts(O: Oracles, seed: seq<byte>)
    requires O.Valid()
    ensures var ext, k := O.shake(seed + [6, 5], 128), Expand(O, seed);
            && |ext| == 128 && k.rho == ext[..32] && k.key == ext[96..] && |k.s1| == DsaSignature.L
            && (forall j :: 0 <= j < DsaSignature.L ==> k.s1[j] == O.eta(ext[32..96], j))
            && (forall i :: 0 <= i < DsaSignature.K ==> k.s2[i] == O.eta(ext[32..96], DsaSignature.L + i))
  {
    hide KeyPoly, Hat, Small, IsEtaPoly, Canonical, ForwardAll, MatrixRow;
  }

  lemma KeyRowOf(O: Oracles, a: seq<seq<Poly>>, seed: seq<byte>, i: nat)
    requires O.Valid() && RepresentsMatrix(a, Matrix(O, Expand(O, seed).rho)) && i < DsaSignature.K
    ensures var k := Expand(O, seed); KeyRow(a[i], k.s1, k.s2[i], k.T1()[i], k.T0()[i])
  {
    hide Expand, IsEtaPoly, Canonical, Hat, Small, KeyPoly, LowPart, HighPart, MatrixRow, KeyRow, Represents;
    var k := Expand(O, seed);
    var mat := Matrix(O, k.rho);
    ExpandKey(O, seed);
    assert RepresentsRow(a[i], mat[i]);
    KeyPolyIs(a[i], mat[i], k.s1, k.s2[i]);
    EtaSize(k.s2[i]);
    KeyRowIs(a[i], k.s1, k.s2[i], k.t[i]);
  }

  lemma EtaSize(p: Poly)
    requires IsEtaPoly(p)
    ensures |p| == 256
  {
  }

  ghost predicate KeyRow(a: seq<Poly>, s1: seq<Poly>, s2: Poly, t1: Poly, t0: Poly) {
    && |a| == |s1| > 0 && Rect(a, 256) && Rect(s1, 256) && |s2| == |t1| == |t0| == 256
    && forall j :: 0 <= j < 256 ==> (8192 * t1[j] + t0[j]) % Q == (Combination(a, s1)[j] + s2[j]) % Q
  }

  lemma KeyRowIs(a: seq<Poly>, s1: seq<Poly>, s2: Poly, t: Poly)
    requires |a| == |s1| == DsaSignature.L && Rect(a, 256) && Rect(s1, 256) && |s2| == 256
    requires Canonical(t) && t == Canon(PolyAdd(Combination(a, s1), s2))
    ensures KeyRow(a, s1, s2, HighPart(t), LowPart(t))
  {
    hide Combination;
    var h, l := HighPart(t), LowPart(t);
    forall j | 0 <= j < 256 ensures (8192 * h[j] + l[j]) % Q == (Combination(a, s1)[j] + s2[j]) % Q {
      ModSmall(t[j], Q);
    }
  }

  // ---- signatures --------------------------------------------------------------------------------------------------

  /** What ExpandMask hashes for polynomial j of a round. */
  function MaskInput(seed: seq<byte>, nonce: nat, j: nat): seq<byte> {
    seed + [(DsaSignature.L * nonce + j) % 256, (DsaSignature.L * nonce + j) / 256 % 256]
  }

  /** The masks of a round. */
  function Masks(O: Oracles, seed: seq<byte>, nonce: nat): (y: seq<Poly>)
    requires O.Valid()
    ensures |y| == DsaSignature.L
    ensures forall j :: 0 <= j < DsaSignature.L ==> y[j] == UnpackZ(O.shake(MaskInput(seed, nonce, j), 640))
  {
    MaskVector(O, seed, nonce)
  }

  /** The 16-bit nonce makes all masks of the first 13107 rounds come from different strings. */
  lemma MasksFresh(seed: seq<byte>, nonce: nat, j: nat, nonce': nat, j': nat)
    requires j < DsaSignature.L && j' < DsaSignature.L && nonce < 13107 && nonce' < 13107
    ensures MaskInput(seed, nonce, j) == MaskInput(seed, nonce', j') ==> nonce == nonce' && j == j'
  {
    var n, n' := DsaSignature.L * nonce + j, DsaSignature.L * nonce' + j';
    var x, x' := MaskInput(seed, nonce, j), MaskInput(seed, nonce', j');
    if x == x' {
      assert x[|seed|] == n % 256 && x[|seed| + 1] == n / 256 % 256;
      assert x'[|seed|] == n' % 256 && x'[|seed| + 1] == n' / 256 % 256;
      assert n / 256 < 256 && n' / 256 < 256;
      assert n == n';
    }
  }

  /** c~ is the hash of mu and the encoded high parts of A y, and z is y + c s1 modulo Q, below the bound. */
  ghost predicate Signed(O: Oracles, a: seq<seq<Poly>>, s1: seq<Poly>, mu: seq<byte>, y: seq<Poly>, c: seq<byte>,
      z: seq<Poly>)
    requires O.Valid()
  {
    && |a| == K && |s1| == |y| == |z| == DsaSignature.L && Rect(s1, 256) && Rect(y, 256) && Rect(z, 256)
    && (forall i :: 0 <= i < K ==> |a[i]| == DsaSignature.L && Rect(a[i], 256))
    && (exists p: seq<byte> :: Nibbles(p, CommittedHigh(a, y)) && O.shake(mu + p, 48) == c)
    && forall j: nat :: j < DsaSignature.L ==> RespondsAt(O.Challenge(c), s1[j], y[j], z[j])
  }

  function CommittedHigh(a: seq<seq<Poly>>, y: seq<Poly>): (w: seq<Poly>)
    requires |a| == K && |y| == DsaSignature.L && Rect(y, 256)
    requires forall i :: 0 <= i < K ==> |a[i]| == DsaSignature.L && Rect(a[i], 256)
    ensures |w| == K && forall i :: 0 <= i < K ==> w[i] == HighBits(Canon(Combination(a[i], y)))
  {
    seq(K, i requires 0 <= i < K => HighBits(Canon(Combination(a[i], y))))
  }

  ghost predicate RespondsAt(c: Poly, s: Poly, y: Poly, z: Poly) {
    && |c| == |s| == |y| == |z| == 256
    && forall k :: 0 <= k < 256 ==>
         z[k] % Q == (y[k] + Negacyclic(c, s)[k]) % Q && -(GAMMA1 - BETA) < z[k] < GAMMA1 - BETA
  }

  lemma CommitmentIs(O: Oracles, a: seq<seq<Poly>>, rho: seq<byte>, y: seq<Poly>)
    requires O.Valid() && RepresentsMatrix(a, Matrix(O, rho)) && |y| == DsaSignature.L && Smalls(y) && Rect(y, 256)
    ensures |a| == K && forall i :: 0 <= i < K ==> |a[i]| == DsaSignature.L && Rect(a[i], 256)
    ensures HighVector(Commitment(Matrix(O, rho), ForwardAll(y))) == CommittedHigh(a, y)
  {
    hide Hats, Hat, Small, Canonical, Settle, Row, Forward, ForwardAll, Represents, HighBits, Smalls, Combination,
         MatrixRow;
    var mat := Matrix(O, rho);
    forall i | 0 <= i < K ensures |a[i]| == DsaSignature.L && Rect(a[i], 256) {
      assert RepresentsRow(a[i], mat[i]);
      SameSizes(a[i], mat[i]);
    }
    var w := Commitment(mat, ForwardAll(y));
    forall i | 0 <= i < K ensures w[i] == Canon(Combination(a[i], y)) {
      assert RepresentsRow(a[i], mat[i]);
      CommitmentRowIs(a[i], mat[i], y);
    }
  }

  lemma CommitmentRowIs(a: seq<Poly>, row: seq<Poly>, y: seq<Poly>)
    requires |row| == |y| == DsaSignature.L && Hats(row) && Smalls(y) && RepresentsRow(a, row) && Rect(y, 256)
    ensures Rect(a, 256) && Settle(Row(row, ForwardAll(y))) == Canon(Combination(a, y))
  {
    hide RNtt, RIntt, ResV, Represents, Forward, ForwardAll, Combination, RRow, RNttAll, ResAll, Hat, Small, Settle,
         Row;
    SignerResidue(row, y);
    RowIs(a, row, y);
    CanonUnique(Settle(Row(row, ForwardAll(y))), Combination(a, y));
  }

  /** What the code computes for c s1 is that product, modulo Q. */
  lemma ProductCongruent(c: Poly, s: Poly)
    requires Small(c) && Small(s)
    ensures forall k :: 0 <= k < 256 ==>
              Inverse(Pointwise(Forward(c), Forward(s)))[k] % Q == Negacyclic(c, s)[k] % Q
  {
    SelfRepresented(c);
    hide RNtt, RIntt, ResV, Represents, Forward, Negacyclic, Inverse, Pointwise, RMul;
    ProductResidue(Forward(c), Forward(s));
    ForwardResidue(s);
    ProductIs(c, Forward(c), s);
    ResiduesEqual(Inverse(Pointwise(Forward(c), Forward(s))), Negacyclic(c, s));
  }

  lemma ResponseIs(c: Poly, s: Poly, y: Poly)
    requires Small(c) && Small(s) && IsZPoly(y) && NormBelow(Response(Forward(c), Forward(s), y), GAMMA1 - BETA)
    ensures RespondsAt(c, s, y, Response(Forward(c), Forward(s), y))
  {
    hide Forward, Negacyclic, Inverse, Pointwise, Reduce32;
    ProductCongruent(c, s);
    var p, z, t := Inverse(Pointwise(Forward(c), Forward(s))), Response(Forward(c), Forward(s), y), Negacyclic(c, s);
    forall k | 0 <= k < 256 ensures z[k] % Q == (y[k] + t[k]) % Q {
      ModAdd(p[k], y[k], Q);
      ModAdd(t[k], y[k], Q);
    }
  }

  /** A signature of a round is what the round was played with. */
  lemma RoundSigned(O: Oracles, a: seq<seq<Poly>>, sk: SecretKey, msg: seq<byte>, rnd: seq<byte>, nonce: nat)
    requires O.Valid() && SmallKey(sk) && RepresentsMatrix(a, Matrix(O, sk.rho))
    requires Play(O, MakeContext(O, sk, msg, rnd), nonce).Accepted()
    ensures var r := Play(O, MakeContext(O, sk, msg, rnd), nonce);
            var mu := O.shake(sk.tr + msg, 64);
            Signed(O, a, sk.s1, mu, Masks(O, O.shake(sk.key + rnd + mu, 64), nonce), r.c, r.z)
  {
    hide Hat, Small, Canonical, IsZPoly, IsHint, Hats, IsMatrix, Forward, Commitment, HighVector, Nibbles, NormBelow,
         PackW1, PackAll, Response, RespondsAt, Combination, HighBits, Represents;
    var x := MakeContext(O, sk, msg, rnd);
    var r, y := Play(O, x, nonce), MaskVector(O, x.rhoprime, nonce);
    ZSmalls(y);
    PolySizes(sk.s1);
    PolySizes(y);
    PolySizes(r.z);
    CommitmentIs(O, a, sk.rho, y);
    PackedHigh(O, a, x.mu, y);
    forall j: nat | j < DsaSignature.L ensures RespondsAt(O.Challenge(r.c), sk.s1[j], y[j], r.z[j]) {
      assert r.z[j] == Response(Forward(O.Challenge(r.c)), Forward(sk.s1[j]), y[j]);
      ResponseIs(O.Challenge(r.c), sk.s1[j], y[j]);
    }
  }

  lemma PolySizes(v: seq<Poly>)
    requires Smalls(v)
    ensures Rect(v, 256)
  {
  }

  lemma PackedHigh(O: Oracles, a: seq<seq<Poly>>, mu: seq<byte>, y: seq<Poly>)
    requires O.Valid() && |a| == K && |y| == DsaSignature.L && Rect(y, 256)
    requires forall i :: 0 <= i < K ==> |a[i]| == DsaSignature.L && Rect(a[i], 256)
    ensures exists p: seq<byte> ::
              Nibbles(p, CommittedHigh(a, y)) && O.shake(mu + p, 48) == Digest(O, mu, CommittedHigh(a, y))
  {
    hide Combination, Decompose, PackW1, PackAll, Nibbles;
    var w := CommittedHigh(a, y);
    forall i | 0 <= i < K ensures IsHigh(w[i]) {
      var v := Canon(Combination(a[i], y));
      forall j | 0 <= j < 256 ensures 0 <= Decompose(v[j]).0 < 16 { DecomposeRange(v[j]); }
    }
    HighPacked(w);
    assert Nibbles(PackAll(PackW1, w), w);
  }

  /** The first round that is not rejected gives the signature. */
  lemma {:induction false} FirstIs(O: Oracles, x: Context, nonce: nat, limit: nat) returns (n: nat)
    requires O.Valid() && x.Valid() && FirstAccepted(O, x, nonce, limit).Some?
    ensures nonce <= n < limit && Attempt(O, x, n) == FirstAccepted(O, x, nonce, limit)
    ensures forall k: nat :: nonce <= k < n ==> Attempt(O, x, k) == None
    decreases limit - nonce
  {
    hide Attempt;
    if Attempt(O, x, nonce).Some? {
      n := nonce;
    } else {
      n := FirstIs(O, x, nonce + 1, limit);
    }
  }

  /** What the signer prepares from the bytes of a key. */
  ghost function ContextOf(O: Oracles, sk: seq<byte>, msg: seq<byte>, rnd: seq<byte>): (x: Context)
    requires O.Valid() && |sk| == SECRET_KEY_BYTES
    ensures x.Valid()
  {
    UnpackedKeySmall(sk);
    MakeContext(O, UnpackSk(sk), msg, rnd)
  }

  /** Signing exactly: the signature comes from the first accepted round, its masks from the secret seed, the randomizer
      and the message, and it satisfies the equations of that round. */
  lemma SignExact(O: Oracles, a: seq<seq<Poly>>, sk: seq<byte>, msg: seq<byte>, rnd: seq<byte>, limit: nat)
      returns (nonce: nat)
    requires O.Valid() && |sk| == SECRET_KEY_BYTES && RepresentsMatrix(a, Matrix(O, UnpackSk(sk).rho))
    requires Sign(O, sk, msg, rnd, limit).Some?
    ensures var k := UnpackSk(sk); var mu := O.shake(k.tr + msg, 64);
            && nonce < limit
            && (forall n: nat :: n < nonce ==> Attempt(O, ContextOf(O, sk, msg, rnd), n) == None)
            && UnpackSig(Sign(O, sk, msg, rnd, limit).value).Some?
            && var (c, z, h) := UnpackSig(Sign(O, sk, msg, rnd, limit).value).value;
               Signed(O, a, k.s1, mu, Masks(O, O.shake(k.key + rnd + mu, 64), nonce), c, z)
  {
    hide UnpackSk, UnpackSig, Play, MakeContext, Signed, Masks, AllPositions, IsHint, NormBelow, SmallKey, IsMatrix;
    UnpackedKeySmall(sk);
    var k := UnpackSk(sk);
    var x := ContextOf(O, sk, msg, rnd);
    nonce := FirstIs(O, x, 0, limit);
    var r := Play(O, x, nonce);
    RoundSigned(O, a, k, msg, rnd, nonce);
    NormSigns(r.z);
    SignatureRoundTrip(r.c, r.z, r.h);
  }
}
