/** The byte formats of ML-DSA-65 keys. */
module DsaKeys {
  import opened MachineInts
  import opened BitOps
  import opened Groups
  import opened DsaPacking
  import opened DsaSignature

  const SEED_BYTES: nat := 32
  const TR_BYTES: nat := 64
  const PUBLIC_KEY_BYTES: nat := 1952
  const SECRET_KEY_BYTES: nat := 4032

  datatype SecretKey = SecretKey(rho: seq<byte>, tr: seq<byte>, key: seq<byte>, t0: seq<Poly>, s1: seq<Poly>,
      s2: seq<Poly>)

  ghost predicate Polys(ok: int -> bool, v: seq<Poly>, n: nat) {
    |v| == n && forall i :: 0 <= i < n ==> |v[i]| == 256 && All(ok, v[i])
  }

  function PackPk(rho: seq<byte>, t1: seq<Poly>): seq<byte> {
    rho + PackAll(PackT1, t1)
  }

  function UnpackPk(pk: seq<byte>): (r: (seq<byte>, seq<Poly>))
    requires |pk| == PUBLIC_KEY_BYTES
    ensures |r.1| == K
  {
    (pk[..SEED_BYTES], UnpackAll(320, UnpackT1, pk[SEED_BYTES..], K))
  }

  function PackSk(sk: SecretKey): seq<byte> {
    sk.rho + sk.key + sk.tr + PackAll(PackEta, sk.s1) + PackAll(PackEta, sk.s2) + PackAll(PackT0, sk.t0)
  }

  function UnpackSk(sk: seq<byte>): (r: SecretKey)
    requires |sk| == SECRET_KEY_BYTES
    ensures |r.t0| == K && |r.s1| == L && |r.s2| == K
  {
    SecretKey(sk[..32], sk[64..128], sk[32..64], UnpackAll(416, UnpackT0, sk[1536..], K),
              UnpackAll(128, UnpackEta, sk[128..768], L), UnpackAll(128, UnpackEta, sk[768..1536], K))
  }

  // ---- shapes -------------------------------------------------------------------------------------------

  predicate IsT1Poly(p: Poly) { |p| == 256 && forall i :: 0 <= i < 256 ==> IsT1(p[i]) }

  predicate IsT0Poly(p: Poly) { |p| == 256 && forall i :: 0 <= i < 256 ==> IsT0(p[i]) }

  /** What `polyeta_unpack` can give: a nibble above 8 is not rejected. */
  predicate IsNibblePoly(p: Poly) { |p| == 256 && forall i :: 0 <= i < 256 ==> -11 <= p[i] <= 4 }

  lemma {:induction false} EtaRange(b: seq<byte>, count: nat)
    requires |b| == count
    ensures |UnpackEta(b)| == 2 * count && forall i :: 0 <= i < 2 * count ==> -11 <= UnpackEta(b)[i] <= 4
    decreases count
  {
    if count > 0 {
      EtaRange(b[1..], count - 1);
      assert UnpackEta(b) == EtaUnpack(b[..1]) + UnpackEta(b[1..]);
    }
  }

  lemma T1Range(b: seq<byte>)
    ensures |b| == 5 ==> |T1Unpack(b)| == 4 && forall i :: 0 <= i < 4 ==> IsT1(T1Unpack(b)[i])
  {
    hide Or;
  }

  lemma T0Range(b: seq<byte>)
    ensures |b| == 13 ==> |T0Unpack(b)| == 8 && forall i :: 0 <= i < 8 ==> IsT0(T0Unpack(b)[i])
  {
    hide Or;
  }

  lemma {:induction false} UnpackT1Range(b: seq<byte>, count: nat)
    requires |b| == 5 * count
    ensures |UnpackT1(b)| == 4 * count && forall i :: 0 <= i < 4 * count ==> IsT1(UnpackT1(b)[i])
    decreases count
  {
    if count > 0 {
      hide T1Unpack, IsT1;
      T1Range(b[..5]);
      UnpackT1Range(b[5..], count - 1);
      assert UnpackT1(b) == T1Unpack(b[..5]) + UnpackT1(b[5..]);
    }
  }

  lemma {:induction false} UnpackT0Range(b: seq<byte>, count: nat)
    requires |b| == 13 * count
    ensures |UnpackT0(b)| == 8 * count && forall i :: 0 <= i < 8 * count ==> IsT0(UnpackT0(b)[i])
    decreases count
  {
    if count > 0 {
      hide T0Unpack, IsT0;
      T0Range(b[..13]);
      UnpackT0Range(b[13..], count - 1);
      assert UnpackT0(b) == T0Unpack(b[..13]) + UnpackT0(b[13..]);
    }
  }

  /** Whatever the bytes are, the polynomials of an unpacked key are within these ranges. */
  lemma UnpackSkShape(sk: seq<byte>)
    requires |sk| == SECRET_KEY_BYTES
    ensures var r := UnpackSk(sk);
            && (forall i :: 0 <= i < L ==> IsNibblePoly(r.s1[i])) && (forall i :: 0 <= i < K ==> IsNibblePoly(r.s2[i]))
            && (forall i :: 0 <= i < K ==> IsT0Poly(r.t0[i]))
  {
    hide UnpackEta, UnpackT0, IsT0, UnpackAll;
    forall b: seq<byte> | |b| == 128 ensures IsNibblePoly(UnpackEta(b)) { EtaRange(b, 128); }
    forall b: seq<byte> | |b| == 416 ensures IsT0Poly(UnpackT0(b)) { UnpackT0Range(b, 32); }
    hide IsNibblePoly, IsT0Poly;
    UnpackAllEach(128, UnpackEta, sk[128..768], L, IsNibblePoly);
    UnpackAllEach(128, UnpackEta, sk[768..1536], K, IsNibblePoly);
    UnpackAllEach(416, UnpackT0, sk[1536..], K, IsT0Poly);
  }

  lemma UnpackPkShape(pk: seq<byte>)
    requires |pk| == PUBLIC_KEY_BYTES
    ensures forall i :: 0 <= i < K ==> IsT1Poly(UnpackPk(pk).1[i])
  {
    hide UnpackT1, IsT1, UnpackAll;
    forall b: seq<byte> | |b| == 320 ensures IsT1Poly(UnpackT1(b)) { UnpackT1Range(b, 64); }
    hide IsT1Poly;
    UnpackAllEach(320, UnpackT1, pk[SEED_BYTES..], K, IsT1Poly);
  }

  // ---- round trips --------------------------------------------------------------------------------------

  lemma PublicKeyRoundTrip(rho: seq<byte>, t1: seq<Poly>)
    requires |rho| == SEED_BYTES && Polys(IsT1, t1, K)
    ensures |PackPk(rho, t1)| == PUBLIC_KEY_BYTES && UnpackPk(PackPk(rho, t1)) == (rho, t1)
  {
    hide PackT1, UnpackT1, All, IsT1;
    forall i | 0 <= i < K ensures |PackT1(t1[i])| == 320 && UnpackT1(PackT1(t1[i])) == t1[i] { T1RoundTrip(t1[i]); }
    PackAllInverse(320, PackT1, UnpackT1, t1);
    var pk := PackPk(rho, t1);
    assert pk[..SEED_BYTES] == rho && pk[SEED_BYTES..] == PackAll(PackT1, t1);
  }

  lemma EtaVector(s: seq<Poly>, n: nat)
    requires Polys(IsEta, s, n)
    ensures |PackAll(PackEta, s)| == 128 * n && UnpackAll(128, UnpackEta, PackAll(PackEta, s), n) == s
  {
    hide PackEta, UnpackEta, All, IsEta;
    forall i | 0 <= i < n ensures |PackEta(s[i])| == 128 && UnpackEta(PackEta(s[i])) == s[i] { EtaRoundTrip(s[i]); }
    PackAllInverse(128, PackEta, UnpackEta, s);
  }

  lemma T0Vector(t: seq<Poly>)
    requires Polys(IsT0, t, K)
    ensures |PackAll(PackT0, t)| == 2496 && UnpackAll(416, UnpackT0, PackAll(PackT0, t), K) == t
  {
    hide PackT0, UnpackT0, All, IsT0;
    forall i | 0 <= i < K ensures |PackT0(t[i])| == 416 && UnpackT0(PackT0(t[i])) == t[i] { T0RoundTrip(t[i]); }
    PackAllInverse(416, PackT0, UnpackT0, t);
  }

  lemma SecretKeyRoundTrip(sk: SecretKey)
    requires |sk.rho| == |sk.key| == SEED_BYTES && |sk.tr| == TR_BYTES
    requires Polys(IsEta, sk.s1, L) && Polys(IsEta, sk.s2, K) && Polys(IsT0, sk.t0, K)
    ensures |PackSk(sk)| == SECRET_KEY_BYTES && UnpackSk(PackSk(sk)) == sk
  {
    hide PackAll, UnpackAll, Polys;
    EtaVector(sk.s1, L);
    EtaVector(sk.s2, K);
    T0Vector(sk.t0);
    var b := PackSk(sk);
    var p, q, r := PackAll(PackEta, sk.s1), PackAll(PackEta, sk.s2), PackAll(PackT0, sk.t0);
    assert b[..32] == sk.rho && b[32..64] == sk.key && b[64..128] == sk.tr;
    assert b[128..768] == p && b[768..1536] == q && b[1536..] == r;
  }
}
