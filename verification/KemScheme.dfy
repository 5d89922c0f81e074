/** ML-KEM-768 as the code arranges it, with s, t and A in the coefficient domain: key generation, encryption,
    decryption, encapsulation and decapsulation.  Hashes and samplers are parameters. */
module KemScheme {
  import opened Vectors
  import opened MachineInts
  import opened Groups
  import opened ByteNumbers
  import opened KemField
  import opened KemNtt
  import opened KemRing
  import opened KemCompress
  import opened KemCodec
  import opened InnerProducts

  const K: nat := 3
  const DU: nat := 10
  const DV: nat := 4
  const CT_BYTES: nat := 1088
  const EK_BYTES: nat := 1184
  const DK_BYTES: nat := 2400

  /** SHA3-512, SHA3-256, SHAKE256 to 32 bytes, SampleNTT of a seed and two indices, and the binomial sampler. */
  datatype Oracles = Oracles(g: seq<byte> -> seq<byte>, h: seq<byte> -> seq<byte>, j: seq<byte> -> seq<byte>,
                             uniform: (seq<byte>, nat, nat) -> Poly, binomial: (seq<byte>, nat) -> Poly)
  {
    ghost predicate Valid() {
      (forall x: seq<byte> :: |g(x)| == 64) && (forall x: seq<byte> :: |h(x)| == 32) &&
          (forall x: seq<byte> :: |j(x)| == 32)
    }

    function G(x: seq<byte>): (r: seq<byte>)
      requires Valid()
      ensures |r| == 64
    {
      g(x)
    }

    function H(x: seq<byte>): (r: seq<byte>)
      requires Valid()
      ensures |r| == 32
    {
      h(x)
    }

    function J(x: seq<byte>): (r: seq<byte>)
      requires Valid()
      ensures |r| == 32
    {
      j(x)
    }
  }

  /** A[i][j] is sampled from rho, j and i. */
  function BuildA(O: Oracles, rho: seq<byte>): (a: seq<seq<Poly>>)
    ensures |a| == K && Matrix(a, K)
  {
    [[O.uniform(rho, 0, 0), O.uniform(rho, 1, 0), O.uniform(rho, 2, 0)],
     [O.uniform(rho, 0, 1), O.uniform(rho, 1, 1), O.uniform(rho, 2, 1)],
     [O.uniform(rho, 0, 2), O.uniform(rho, 1, 2), O.uniform(rho, 2, 2)]]
  }

  /** Three samples with consecutive counters. */
  function Small(O: Oracles, seed: seq<byte>, n: nat): (s: seq<Poly>)
    ensures |s| == K
  {
    [O.binomial(seed, n), O.binomial(seed, n + 1), O.binomial(seed, n + 2)]
  }

  // ---- codecs on polynomials ---------------------------------------------------------------------------------------

  function DecodePoly(b: seq<byte>): (p: Poly)
    requires |b| == 384
    ensures p == Decode(12, b)
  {
    DecodedInField(b);
    Decode(12, b)
  }

  lemma DecodedInField(b: seq<byte>)
    requires |b| == 384
    ensures forall i :: 0 <= i < 256 ==> 0 <= Decode(12, b)[i] < Q
  {
    StreamOfBytes(b);
    ChunksInField(Each(1, ByteBits, b), 256);
  }

  lemma {:induction false} ChunksInField(bits: seq<int>, n: nat)
    requires |bits| == 12 * n
    ensures forall i :: 0 <= i < n ==> 0 <= Chunks(12, bits, n)[i] < Q
    decreases n
  {
    if n > 0 {
      ChunksInField(bits[12..], n - 1);
      var c := Chunks(12, bits, n);
      assert c == [Red(Radix.Val(2, bits[..12]))] + Chunks(12, bits[12..], n - 1);
    }
  }

  function CompressAll(d: nat, p: Poly): (c: seq<int>)
    ensures |c| == 256 && forall i :: 0 <= i < 256 ==> c[i] == Compress(d, p[i])
  {
    seq(256, i requires 0 <= i < 256 => Compress(d, p[i]))
  }

  function DecompressAll(d: nat, c: seq<int>): (p: Poly)
    requires |c| == 256
    ensures forall i :: 0 <= i < 256 ==> p[i] == Decompress(d, c[i])
  {
    seq(256, i requires 0 <= i < 256 => Decompress(d, c[i]))
  }

  function EncodeVector(s: seq<Poly>): seq<byte>
    requires |s| == K
  {
    Encode(12, s[0]) + Encode(12, s[1]) + Encode(12, s[2])
  }

  function DecodeVector(b: seq<byte>): (s: seq<Poly>)
    requires |b| >= 1152
    ensures |s| == K
  {
    [DecodePoly(b[..384]), DecodePoly(b[384..768]), DecodePoly(b[768..1152])]
  }

  function MessageBits(m: seq<byte>): (b: seq<int>)
    requires |m| == 32
    ensures |b| == 256 && forall i :: 0 <= i < 256 ==> b[i] == BitOf(m, i)
  {
    seq(256, i requires 0 <= i < 256 => BitOf(m, i))
  }

  // ---- K-PKE -------------------------------------------------------------------------------------------------------

  /** u = A^T y + e1 */
  function MaskedVector(a: seq<seq<Poly>>, y: seq<Poly>, e1: seq<Poly>): (u: seq<Poly>)
    requires |a| == K && Matrix(a, K) && |y| == |e1| == K
    ensures |u| == K
  {
    VAdd(PolyRing, ApplyTransposed(PolyRing, a, K, y), e1)
  }

  /** v = <t, y> + e2 + mu */
  function MaskedMessage(t: seq<Poly>, y: seq<Poly>, e2: Poly, mu: Poly): Poly
    requires |t| == |y| == K
  {
    PolyAdd(PolyAdd(Dot(PolyRing, t, y), e2), mu)
  }

  function PackCiphertext(u: seq<Poly>, v: Poly): seq<byte>
    requires |u| == K
  {
    Encode(DU, CompressAll(DU, u[0])) + Encode(DU, CompressAll(DU, u[1])) + Encode(DU, CompressAll(DU,
        u[2])) + Encode(DV, CompressAll(DV, v))
  }

  function Encrypt(O: Oracles, ek: seq<byte>, m: seq<byte>, r: seq<byte>): seq<byte>
    requires |ek| == EK_BYTES && |m| == 32
  {
    var a, t := BuildA(O, ek[1152..]), DecodeVector(ek);
    var y := Small(O, r, 0);
    PackCiphertext(MaskedVector(a, y, Small(O, r, K)), MaskedMessage(t, y, O.binomial(r, 2 * K), DecompressAll(1,
        MessageBits(m))))
  }

  function UnpackU(ct: seq<byte>): (u: seq<Poly>)
    requires |ct| == CT_BYTES
    ensures |u| == K
  {
    [DecompressAll(DU, Decode(DU, ct[..320])), DecompressAll(DU, Decode(DU, ct[320..640])), DecompressAll(DU,
        Decode(DU, ct[640..960]))]
  }

  function UnpackV(ct: seq<byte>): Poly
    requires |ct| == CT_BYTES
  {
    DecompressAll(DV, Decode(DV, ct[960..]))
  }

  /** w = v' - <s, u'>, rounded to bits. */
  function Decrypt(s: seq<Poly>, ct: seq<byte>): seq<byte>
    requires |s| == K && |ct| == CT_BYTES
  {
    Encode(1, CompressAll(1, PolySub(UnpackV(ct), Dot(PolyRing, s, UnpackU(ct)))))
  }

  // ---- the KEM -----------------------------------------------------------------------------------------------------

  datatype Keys = Keys(rho: seq<byte>, s: seq<Poly>, e: seq<Poly>)

  function Expand(O: Oracles, d: seq<byte>): (k: Keys)
    requires O.Valid()
    ensures |k.s| == |k.e| == K && |k.rho| == 32
  {
    var g := O.G(d + [K]);
    Keys(g[..32], Small(O, g[32..], 0), Small(O, g[32..], K))
  }

  /** t = A s + e */
  function PublicVector(O: Oracles, k: Keys): (t: seq<Poly>)
    requires |k.s| == |k.e| == K
    ensures |t| == K
  {
    VAdd(PolyRing, Apply(PolyRing, BuildA(O, k.rho), K, k.s), k.e)
  }

  function KeyGen(O: Oracles, d: seq<byte>, z: seq<byte>): (r: (seq<byte>, seq<byte>))
    requires O.Valid()
  {
    var k := Expand(O, d);
    var ek := EncodeVector(PublicVector(O, k)) + k.rho;
    (ek, EncodeVector(k.s) + ek + O.H(ek) + z)
  }

  /** The shared secret and the ciphertext. */
  function Encaps(O: Oracles, ek: seq<byte>, m: seq<byte>): (r: (seq<byte>, seq<byte>))
    requires O.Valid() && |ek| == EK_BYTES && |m| == 32
  {
    var g := O.G(m + O.H(ek));
    (g[..32], Encrypt(O, ek, m, g[32..]))
  }

  function Decaps(O: Oracles, dk: seq<byte>, ct: seq<byte>): seq<byte>
    requires O.Valid() && |dk| == DK_BYTES && |ct| == CT_BYTES
  {
    DecryptLength(DecodeVector(dk), ct);
    var m := Decrypt(DecodeVector(dk), ct);
    var g := O.G(m + dk[2336..2368]);
    if Encrypt(O, dk[1152..2336], m, g[32..]) == ct then g[..32] else O.J(dk[2368..] + ct)
  }

  lemma DecryptLength(s: seq<Poly>, ct: seq<byte>)
    requires |s| == K && |ct| == CT_BYTES
    ensures |Decrypt(s, ct)| == 32
  {
    EncodeLength(1, CompressAll(1, PolySub(UnpackV(ct), Dot(PolyRing, s, UnpackU(ct)))));
  }

  lemma EncodeLength(d: nat, f: seq<int>)
    requires |f| == 256
    ensures |Encode(d, f)| == 32 * d
  {
    StreamShape(d, f);
    forall x: seq<int> ensures LengthAt(8, 1, OneByte, x) {}
    EachLength(8, 1, OneByte, Stream(d, f), 32 * d);
  }
}
