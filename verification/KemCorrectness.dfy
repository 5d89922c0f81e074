/** Decapsulation undoes encapsulation exactly when the noise is within bounds. */
module KemCorrectness {
  import opened Rings
  import opened Vectors
  import opened ModArith
  import opened MachineInts
  import opened Radix
  import opened Groups
  import opened ByteNumbers
  import opened KemField
  import opened KemNtt
  import opened KemRing
  import opened KemCompress
  import opened KemCodec
  import opened InnerProducts
  import opened KemScheme

  // ---- codecs ------------------------------------------------------------------------------------------------------

  lemma PolyRoundTrip(p: Poly)
    ensures |Encode(12, p)| == 384 && DecodePoly(Encode(12, p)) == p
  {
    assert Pow(2, 12) == 4096;
    hide Encode, Decode, Pow;
    DecodeEncode(12, p);
  }

  lemma ThirdsOf(x: seq<byte>, y: seq<byte>, z: seq<byte>, rest: seq<byte>)
    requires |x| == |y| == |z| == 384
    ensures var b := x + y + z + rest; b[..384] == x && b[384..768] == y && b[768..1152] == z
  {
  }

  lemma VectorRoundTrip(s: seq<Poly>, rest: seq<byte>)
    requires |s| == K
    ensures |EncodeVector(s)| == 1152 && DecodeVector(EncodeVector(s) + rest) == s
  {
    hide Encode, DecodePoly;
    PolyRoundTrip(s[0]);
    PolyRoundTrip(s[1]);
    PolyRoundTrip(s[2]);
    ThirdsOf(Encode(12, s[0]), Encode(12, s[1]), Encode(12, s[2]), rest);
  }

  lemma CompressedRoundTrip(d: nat, p: Poly)
    requires 1 <= d <= 11
    ensures |Encode(d, CompressAll(d, p))| == 32 * d && Decode(d, Encode(d, CompressAll(d, p))) == CompressAll(d, p)
  {
    hide Encode, Decode, Pow;
    DecodeEncode(d, CompressAll(d, p));
  }

  /** What decryption sees of an encrypted pair: every coefficient compressed and decompressed. */
  function Lossy(d: nat, p: Poly): Poly { DecompressAll(d, CompressAll(d, p)) }

  lemma CiphertextRoundTrip(u: seq<Poly>, v: Poly)
    requires |u| == K
    ensures |PackCiphertext(u, v)| == CT_BYTES && UnpackV(PackCiphertext(u, v)) == Lossy(DV, v)
    ensures UnpackU(PackCiphertext(u, v)) == [Lossy(DU, u[0]), Lossy(DU, u[1]), Lossy(DU, u[2])]
  {
    hide Encode, Decode, CompressAll, DecompressAll;
    CompressedRoundTrip(DU, u[0]);
    CompressedRoundTrip(DU, u[1]);
    CompressedRoundTrip(DU, u[2]);
    CompressedRoundTrip(DV, v);
    var ct := PackCiphertext(u, v);
    assert ct[..320] == Encode(DU, CompressAll(DU, u[0])) && ct[320..640] == Encode(DU, CompressAll(DU, u[1]));
    assert ct[640..960] == Encode(DU, CompressAll(DU, u[2])) && ct[960..] == Encode(DV, CompressAll(DV, v));
  }

  // ---- message bits ------------------------------------------------------------------------------------------------

  lemma ByteOfBits(x: seq<byte>)
    ensures InvertsAt(1, 8, ByteBits, OneByte, x)
  {
    assert Pow(2, 8) == 256;
    hide Pow, Val, Bits;
    if |x| == 1 {
      BitsValue(8, x[0]);
    }
  }

  predicate AnyByte(b: byte) { true }

  lemma {:induction false} SingleBits(f: seq<int>)
    requires forall i :: 0 <= i < |f| ==> 0 <= f[i] <= 1
    ensures Stream(1, f) == f
    decreases |f|
  {
    if f != [] {
      SingleBits(f[1..]);
      assert Bits(1, f[0]) == [f[0]] by { assert Bits(1, f[0]) == [f[0] % 2] + Bits(0, f[0] / 2); }
      assert f == [f[0]] + f[1..];
    }
  }

  lemma {:induction false} BitsAt(d: nat, x: nat, j: nat)
    requires j < d
    ensures Bits(d, x)[j] == HighPart(x, j) % 2
    decreases d
  {
    assert Pow(2, 0) == 1;
    if j > 0 {
      BitsAt(d - 1, x / 2, j - 1);
      HalfHigh(x, j - 1);
    }
  }

  lemma HalfHigh(x: nat, j: nat)
    ensures HighPart(x, j + 1) == HighPart(x / 2, j)
  {
    PowPositive(2, j);
    var p := Pow(2, j);
    var h, q, r := x / 2, x / 2 / p, x / 2 % p;
    assert x == 2 * h + x % 2 && h == p * q + r;
    assert 2 * (p * q) == (2 * p) * q;
    DivModUnique(x, 2 * p, q, 2 * r + x % 2);
  }

  /** Bit i of the byte stream is bit i of the message. */
  lemma {:induction false} StreamBits(m: seq<byte>, i: nat)
    requires i < 8 * |m|
    ensures |Each(1, ByteBits, m)| == 8 * |m| && Each(1, ByteBits, m)[i] == BitOf(m, i)
    decreases |m|
  {
    StreamOfBytes(m);
    assert Each(1, ByteBits, m) == Bits(8, m[0]) + Each(1, ByteBits, m[1..]);
    BitAt(m, i / 8, i % 8);
    hide Bits, Pow;
    if i < 8 {
      BitsAt(8, m[0], i);
    } else {
      StreamBits(m[1..], i - 8);
      BitAt(m[1..], (i - 8) / 8, i % 8);
    }
  }

  /** The bits of a message encode to the message, and to no other. */
  lemma MessageOfBits(m: seq<byte>, f: seq<int>)
    requires |m| == 32 && |f| == 256 && forall i :: 0 <= i < 256 ==> 0 <= f[i] <= 1
    ensures Encode(1, f) == m <==> f == MessageBits(m)
  {
    hide Bits, OneByte, ByteBits, BitOf;
    SingleBits(f);
    SingleBits(MessageBits(m));
    forall i | 0 <= i < 256
      ensures |Each(1, ByteBits, m)| == 256 && Each(1, ByteBits, m)[i] == MessageBits(m)[i]
    {
      StreamBits(m, i);
    }
    StreamOfBytes(m);
    assert Each(1, ByteBits, m) == MessageBits(m);
    forall x: seq<byte> | All(AnyByte, x) ensures InvertsAt(1, 8, ByteBits, OneByte, x) { ByteOfBits(x); }
    EachInverse(1, 8, ByteBits, OneByte, AnyByte, m, 32);
    DecodeBits(f);
  }

  lemma DecodeBits(f: seq<int>)
    requires |f| == 256 && forall i :: 0 <= i < 256 ==> 0 <= f[i] <= 1
    ensures Each(1, ByteBits, Encode(1, f)) == f
  {
    hide Bits, OneByte, ByteBits;
    SingleBits(f);
    assert All(IsBit, f);
    forall x: seq<int> | All(IsBit, x) ensures InvertsAt(8, 1, OneByte, ByteBits, x) { ByteInverts(x); }
    EachInverse(8, 1, OneByte, ByteBits, IsBit, f, 32);
  }

  // ---- decryption --------------------------------------------------------------------------------------------------

  /** The noise of an encryption: e y + e2 + cv - s (e1 + cu), with cu and cv the compression errors. */
  function NoiseOf(a: seq<seq<Poly>>, s: seq<Poly>, e: seq<Poly>, y: seq<Poly>, e1: seq<Poly>, e2: Poly, mu: Poly): Poly
    requires |a| == |s| == |e| == |y| == |e1| == K && Matrix(a, K)
  {
    var t := VAdd(PolyRing, Apply(PolyRing, a, K, s), e);
    var u, v := MaskedVector(a, y, e1), MaskedMessage(t, y, e2, mu);
    var cu := VSub(PolyRing, [Lossy(DU, u[0]), Lossy(DU, u[1]), Lossy(DU, u[2])], u);
    Noise(PolyRing, s, e, y, e1, e2, cu, PolySub(Lossy(DV, v), v))
  }

  /** x + (x' - x) = x' */
  lemma Restored(x: Poly, x': Poly)
    ensures PolyAdd(x, PolySub(x', x)) == x'
  {
    PolyRingIsRing();
    PolyOps(x', x);
    PolyOps(x, PolySub(x', x));
    hide PolyRing;
    var n := Neg(PolyRing, x);
    assert SubAt(PolyRing, x', x) && AddCommAt(PolyRing, x', n) && AddAssocAt(PolyRing, x, n, x') &&
           ZeroAt(PolyRing, x) && ZeroAt(PolyRing, x');
  }

  lemma RestoredVector(u: seq<Poly>, u': seq<Poly>)
    requires |u| == |u'|
    ensures VAdd(PolyRing, u, VSub(PolyRing, u', u)) == u'
  {
    forall i | 0 <= i < |u| ensures Add(PolyRing, u[i], Sub(PolyRing, u'[i], u[i])) == u'[i] {
      Restored(u[i], u'[i]);
      PolyOps(u'[i], u[i]);
      PolyOps(u[i], PolySub(u'[i], u[i]));
    }
  }

  /** What decryption rounds is the encoded message plus the noise. */
  lemma DecryptedSum(a: seq<seq<Poly>>, s: seq<Poly>, e: seq<Poly>, y: seq<Poly>, e1: seq<Poly>, e2: Poly, mu: Poly)
    requires |a| == |s| == |e| == |y| == |e1| == K && Matrix(a, K)
    ensures var t := VAdd(PolyRing, Apply(PolyRing, a, K, s), e);
            var u, v := MaskedVector(a, y, e1), MaskedMessage(t, y, e2, mu);
            PolySub(Lossy(DV, v), Dot(PolyRing, s, [Lossy(DU, u[0]), Lossy(DU, u[1]), Lossy(DU, u[2])])) ==
            PolyAdd(mu, NoiseOf(a, s, e, y, e1, e2, mu))
  {
    hide Lossy, PolyRing, PolyAdd, PolySub, Dot, VAdd, VSub, Apply, ApplyTransposed, Noise, IsRing;
    PolyRingIsRing();
    var t := VAdd(PolyRing, Apply(PolyRing, a, K, s), e);
    var u, v := MaskedVector(a, y, e1), MaskedMessage(t, y, e2, mu);
    var u', v' := [Lossy(DU, u[0]), Lossy(DU, u[1]), Lossy(DU, u[2])], Lossy(DV, v);
    var cu, cv := VSub(PolyRing, u', u), PolySub(v', v);
    DecryptionEquation(PolyRing, a, s, e, y, e1, e2, mu, cu, cv);
    RestoredVector(u, u');
    Restored(v, v');
    PolyOps(Dot(PolyRing, t, y), e2);
    PolyOps(PolyAdd(Dot(PolyRing, t, y), e2), mu);
    PolyOps(v, cv);
    PolyOps(v', Dot(PolyRing, s, u'));
    PolyOps(mu, Noise(PolyRing, s, e, y, e1, e2, cu, cv));
  }

  /** Every centred noise coefficient is in the window of its message bit. */
  ghost predicate NoiseFits(noise: Poly, bits: seq<int>)
    requires |bits| == 256
  {
    forall i :: 0 <= i < 256 ==> -832 <= Centred(noise[i]) <= 832 - bits[i]
  }

  lemma RoundedBits(mu: Poly, noise: Poly, bits: seq<int>)
    requires |bits| == 256 && (forall i :: 0 <= i < 256 ==> 0 <= bits[i] <= 1) && mu == DecompressAll(1, bits)
    ensures CompressAll(1, PolyAdd(mu, noise)) == bits <==> NoiseFits(noise, bits)
  {
    var c := CompressAll(1, PolyAdd(mu, noise));
    hide Compress, Decompress, Centred;
    forall i | 0 <= i < 256 ensures c[i] == bits[i] <==> -832 <= Centred(noise[i]) <= 832 - bits[i] {
      BitRecovered(bits[i], noise[i]);
      CompressSum(mu[i], noise[i]);
    }
    if CompressAll(1, PolyAdd(mu, noise)) == bits {
      forall i | 0 <= i < 256 ensures -832 <= Centred(noise[i]) <= 832 - bits[i] { assert c[i] == bits[i]; }
    }
  }

  lemma CompressSum(x: int, y: int)
    ensures Compress(1, AddQ(x, y)) == Compress(1, x + y)
  {
    ModSmall((x + y) % Q, Q);
  }

  /** Decryption recovers the message if and only if every noise coefficient is in its window. */
  lemma DecryptExact(O: Oracles, d: seq<byte>, m: seq<byte>, r: seq<byte>, ek: seq<byte>)
    requires O.Valid() && |m| == 32 && ek == EncodeVector(PublicVector(O, Expand(O, d))) + Expand(O, d).rho
    ensures |ek| == EK_BYTES && |Encrypt(O, ek, m, r)| == CT_BYTES
    ensures var k := Expand(O, d);
            Decrypt(k.s, Encrypt(O, ek, m, r)) == m <==> NoiseFits(EncryptionNoise(O, k, m, r), MessageBits(m))
  {
    hide Encode, EncodeVector, DecodeVector, PublicVector, PackCiphertext, UnpackU, UnpackV, CompressAll,
         DecompressAll, Expand, Small, BuildA,
         PolyRing, Dot, MessageBits, NoiseOf, PolySub, PolyAdd, Lossy, NoiseFits, MaskedVector, MaskedMessage;
    var k := Expand(O, d);
    var t := PublicVector(O, k);
    VectorRoundTrip(t, k.rho);
    assert ek[1152..] == k.rho;
    var a, y, bits := BuildA(O, k.rho), Small(O, r, 0), MessageBits(m);
    var e1, e2, mu := Small(O, r, K), O.binomial(r, 2 * K), DecompressAll(1, bits);
    var u, v := MaskedVector(a, y, e1), MaskedMessage(t, y, e2, mu);
    CiphertextRoundTrip(u, v);
    VectorOf(O, k);
    DecryptedSum(a, k.s, k.e, y, e1, e2, mu);
    var w := PolyAdd(mu, NoiseOf(a, k.s, k.e, y, e1, e2, mu));
    CompressedBits(w);
    MessageOfBits(m, CompressAll(1, w));
    RoundedBits(mu, NoiseOf(a, k.s, k.e, y, e1, e2, mu), bits);
  }

  lemma VectorOf(O: Oracles, k: Keys)
    requires |k.s| == |k.e| == K
    ensures PublicVector(O, k) == VAdd(PolyRing, Apply(PolyRing, BuildA(O, k.rho), K, k.s), k.e)
  {
  }

  lemma CompressedBits(w: Poly)
    ensures forall i :: 0 <= i < 256 ==> 0 <= CompressAll(1, w)[i] <= 1
  {
    assert Pow(2, 1) == 2;
  }

  function EncryptionNoise(O: Oracles, k: Keys, m: seq<byte>, r: seq<byte>): Poly
    requires |m| == 32 && |k.s| == |k.e| == K
  {
    NoiseOf(BuildA(O, k.rho), k.s, k.e, Small(O, r, 0), Small(O, r, K), O.binomial(r, 2 * K), DecompressAll(1,
        MessageBits(m)))
  }

  // ---- decapsulation -----------------------------------------------------------------------------------------------

  lemma KeyParts(O: Oracles, d: seq<byte>, z: seq<byte>)
    requires O.Valid() && |z| == 32
    ensures var (ek, dk) := KeyGen(O, d, z); var k := Expand(O, d);
            && ek == EncodeVector(PublicVector(O, k)) + k.rho && |ek| == EK_BYTES && |dk| == DK_BYTES
            && DecodeVector(dk) == k.s && dk[1152..2336] == ek && dk[2336..2368] == O.H(ek) && dk[2368..] == z
  {
    hide EncodeVector, DecodeVector, PublicVector, Expand;
    var k := Expand(O, d);
    VectorRoundTrip(PublicVector(O, k), []);
    var ek := EncodeVector(PublicVector(O, k)) + k.rho;
    VectorRoundTrip(k.s, ek + O.H(ek) + z);
    assert KeyGen(O, d, z).1 == EncodeVector(k.s) + (ek + O.H(ek) + z);
  }

  /** Correctness with an explicit bound: for all seeds and messages, decapsulation returns the encapsulated secret if
      every noise coefficient is in its window, and decryption recovers the message only then. */
  lemma DecapsCorrect(O: Oracles, d: seq<byte>, z: seq<byte>, m: seq<byte>)
    requires O.Valid() && |z| == 32 && |m| == 32
    ensures var (ek, dk) := KeyGen(O, d, z); |ek| == EK_BYTES && |dk| == DK_BYTES && |Encaps(O, ek, m).1| == CT_BYTES
    ensures var (ek, dk) := KeyGen(O, d, z); var k := Expand(O, d);
            var (secret, ct) := Encaps(O, ek, m);
            var fits := NoiseFits(EncryptionNoise(O, k, m, O.G(m + O.H(ek))[32..]), MessageBits(m));
            (fits ==> Decaps(O, dk, ct) == secret) && (Decrypt(k.s, ct) == m <==> fits)
  {
    hide EncodeVector, DecodeVector, PublicVector, Expand, Encrypt, Decrypt, KeyGen, EncryptionNoise, NoiseFits,
         MessageBits;
    KeyParts(O, d, z);
    var (ek, dk) := KeyGen(O, d, z);
    var g := O.G(m + O.H(ek));
    DecryptExact(O, d, m, g[32..], ek);
  }

  /** On any ciphertext: the encapsulated secret if the re-encryption under the public key reproduces it, and
      otherwise the hash of z and the ciphertext.  Decapsulation never fails in a visible way. */
  lemma DecapsRejects(O: Oracles, d: seq<byte>, z: seq<byte>, ct: seq<byte>)
    requires O.Valid() && |z| == 32 && |ct| == CT_BYTES
    ensures var (ek, dk) := KeyGen(O, d, z); |ek| == EK_BYTES && |dk| == DK_BYTES
    ensures var (ek, dk) := KeyGen(O, d, z); var m := Decrypt(Expand(O, d).s, ct);
            |m| == 32 && Decaps(O, dk, ct) == if Encaps(O, ek, m).1 == ct then Encaps(O, ek, m).0 else O.J(z + ct)
  {
    hide EncodeVector, DecodeVector, PublicVector, Expand, Encrypt, Decrypt, KeyGen;
    KeyParts(O, d, z);
    DecryptLength(Expand(O, d).s, ct);
  }
}
