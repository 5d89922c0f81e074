/** The procedures of ML-KEM on bytes, with the transform for every product, proved against KemScheme. */
module KemLoops {
  import opened Rings
  import opened ModArith
  import opened MachineInts
  import opened BitOps
  import opened KemNtt
  import opened KemRing
  import opened KemCodec
  import opened InnerProducts
  import opened KemScheme

  /** acc = 0; for each i: acc += a[i] * b[i] */
  method DotLoop(a: seq<Poly>, b: seq<Poly>) returns (acc: Poly)
    requires |a| == |b|
    ensures acc == Dot(PolyRing, a, b)
  {
    hide RingMul, PolyAdd;
    acc := Zero();
    ZeroElement();
    assert a[..0] == [] && b[..0] == [];
    var i := 0;
    while i < |a|
      invariant 0 <= i <= |a| && acc == Dot(PolyRing, a[..i], b[..i])
    {
      var m := PolyMulNtt(a[i], b[i]);
      PolyOps(a[i], b[i]);
      PolyOps(acc, m);
      DotStep(a, b, i);
      acc := PolyAdd(acc, m);
      i := i + 1;
    }
    assert a[..i] == a && b[..i] == b;
  }

  lemma DotStep(a: seq<Poly>, b: seq<Poly>, i: nat)
    requires i < |a| == |b|
    ensures Dot(PolyRing, a[..i + 1], b[..i + 1]) == Add(PolyRing, Dot(PolyRing, a[..i], b[..i]), Mul(PolyRing, a[i],
            b[i]))
  {
    hide PolyRing;
    assert a[..i + 1][..i] == a[..i] && b[..i + 1][..i] == b[..i];
  }

  method EncodePoly(d: nat, p: Poly) returns (b: seq<byte>)
    requires 1 <= d <= 11
    ensures b == Encode(d, CompressAll(d, p))
  {
    b := ByteEncode(d, CompressAll(d, p));
  }

  method DecodePolyBytes(b: seq<byte>) returns (p: Poly)
    requires |b| == 384
    ensures p == DecodePoly(b)
  {
    hide Decode;
    var c := ByteDecode(12, b);
    DecodedInField(b);
    p := c;
  }

  method DecodeVectorLoop(b: seq<byte>) returns (s: seq<Poly>)
    requires |b| >= 1152
    ensures s == DecodeVector(b)
  {
    hide Decode, DecodePoly;
    s := [];
    var i := 0;
    while i < K
      invariant 0 <= i <= K && s == DecodeVector(b)[..i]
    {
      var p := DecodePolyBytes(b[384 * i..384 * (i + 1)]);
      s := s + [p];
      i := i + 1;
    }
  }

  method KpkeEncrypt(O: Oracles, ek: seq<byte>, m: seq<byte>, r: seq<byte>) returns (ct: seq<byte>)
    requires |ek| == EK_BYTES && |m| == 32
    ensures ct == Encrypt(O, ek, m, r)
  {
    hide Encode, DecodeVector, CompressAll, DecompressAll, Dot, BuildA, Small, PolyAdd, PolyRing, Column, MessageBits;
    var t := DecodeVectorLoop(ek);
    var a, y, e1, e2 := BuildA(O, ek[1152..]), Small(O, r, 0), Small(O, r, K), O.binomial(r, 2 * K);
    var u: seq<Poly> := [];
    var i := 0;
    while i < K
      invariant 0 <= i <= K && |u| == i && forall k :: 0 <= k < i ==>
                u[k] == Add(PolyRing, Dot(PolyRing, Column(a, k), y), e1[k])
    {
      var acc := DotLoop(Column(a, i), y);
      PolyOps(acc, e1[i]);
      u := u + [PolyAdd(acc, e1[i])];
      i := i + 1;
    }
    assert u == MaskedVector(a, y, e1);
    var mu := DecompressAll(1, MessageBits(m));
    var acc := DotLoop(t, y);
    var v := PolyAdd(PolyAdd(acc, e2), mu);
    var c0 := EncodePoly(DU, u[0]);
    var c1 := EncodePoly(DU, u[1]);
    var c2 := EncodePoly(DU, u[2]);
    var c3 := EncodePoly(DV, v);
    ct := c0 + c1 + c2 + c3;
  }

  method KpkeDecrypt(dk: seq<byte>, ct: seq<byte>) returns (m: seq<byte>)
    requires |dk| >= 1152 && |ct| == CT_BYTES
    ensures m == Decrypt(DecodeVector(dk), ct)
  {
    hide Encode, Decode, DecodeVector, CompressAll, DecompressAll, Dot, PolySub, PolyRing;
    var c0 := ByteDecode(DU, ct[..320]);
    var c1 := ByteDecode(DU, ct[320..640]);
    var c2 := ByteDecode(DU, ct[640..960]);
    var cv := ByteDecode(DV, ct[960..]);
    var u := [DecompressAll(DU, c0), DecompressAll(DU, c1), DecompressAll(DU, c2)];
    var s := DecodeVectorLoop(dk);
    var acc := DotLoop(s, u);
    m := EncodePoly(1, PolySub(DecompressAll(DV, cv), acc));
  }

  /** Every byte of the difference is accumulated; the result is a mask of ones exactly when the strings agree. */
  method EqualMask(a: seq<byte>, b: seq<byte>) returns (mask: byte)
    requires |a| == |b|
    ensures mask == if a == b then 255 else 0
  {
    hide Or, Xor;
    assert Pow(2, 8) == 256;
    var diff: int, i := 0, 0;
    while i < |a|
      invariant 0 <= i <= |a| && 0 <= diff < 256 && (diff == 0 <==> a[..i] == b[..i])
    {
      BytesStayBytes(a[i], b[i], 256, 8);
      BytesStayBytes(diff, Xor(a[i], b[i]), 256, 8);
      OrZero(diff, Xor(a[i], b[i]));
      assert a[..i + 1] == a[..i] + [a[i]] && b[..i + 1] == b[..i] + [b[i]];
      diff := Or(diff, Xor(a[i], b[i]));
      i := i + 1;
    }
    assert a[..i] == a && b[..i] == b;
    mask := (diff - 1) / 256 % 256;
  }

  /** The branch-free choice between the secret and the rejection secret. */
  method Choose(mask: byte, x: seq<byte>, y: seq<byte>) returns (r: seq<byte>)
    requires |x| == |y| && (mask == 0 || mask == 255)
    ensures r == if mask == 255 then x else y
  {
    r := [];
    var i := 0;
    while i < |x|
      invariant 0 <= i <= |x| && r == if mask == 255 then x[..i] else y[..i]
    {
      r := r + [KeepIf(x[i], mask) + KeepIf(y[i], 255 - mask)];
      i := i + 1;
    }
  }

  /** `x & mask` */
  function KeepIf(x: byte, mask: byte): byte
    requires mask == 0 || mask == 255
  {
    if mask == 255 then x else 0
  }

  method DecapsBytes(O: Oracles, dk: seq<byte>, ct: seq<byte>) returns (secret: seq<byte>)
    requires O.Valid() && |dk| == DK_BYTES && |ct| == CT_BYTES
    ensures secret == Decaps(O, dk, ct)
  {
    hide Encrypt, Decrypt, DecodeVector;
    DecryptLength(DecodeVector(dk), ct);
    var m := KpkeDecrypt(dk[..1152], ct);
    PrefixDecodes(dk);
    var g := O.G(m + dk[2336..2368]);
    var rejected := O.J(dk[2368..] + ct);
    var again := KpkeEncrypt(O, dk[1152..2336], m, g[32..]);
    EncryptLength(O, dk[1152..2336], m, g[32..]);
    var mask := EqualMask(again, ct);
    secret := Choose(mask, g[..32], rejected);
  }

  lemma PrefixDecodes(dk: seq<byte>)
    requires |dk| >= 1152
    ensures DecodeVector(dk[..1152]) == DecodeVector(dk)
  {
    hide DecodePoly;
    assert dk[..1152][..384] == dk[..384] && dk[..1152][384..768] == dk[384..768] &&
           dk[..1152][768..1152] == dk[768..1152];
  }

  lemma EncryptLength(O: Oracles, ek: seq<byte>, m: seq<byte>, r: seq<byte>)
    requires |ek| == EK_BYTES && |m| == 32
    ensures |Encrypt(O, ek, m, r)| == CT_BYTES
  {
    hide Encode, CompressAll, DecodeVector, MaskedMessage, BuildA, Small, MessageBits, DecompressAll;
    var a, t := BuildA(O, ek[1152..]), DecodeVector(ek);
    var y := Small(O, r, 0);
    var u, v := MaskedVector(a, y, Small(O, r, K)), MaskedMessage(t, y, O.binomial(r, 2 * K), DecompressAll(1,
        MessageBits(m)));
    EncodeLength(DU, CompressAll(DU, u[0]));
    EncodeLength(DU, CompressAll(DU, u[1]));
    EncodeLength(DU, CompressAll(DU, u[2]));
    EncodeLength(DV, CompressAll(DV, v));
  }

  method EncodeVectorLoop(s: seq<Poly>) returns (b: seq<byte>)
    requires |s| == K
    ensures b == EncodeVector(s)
  {
    hide Encode;
    var b0 := ByteEncode(12, s[0]);
    var b1 := ByteEncode(12, s[1]);
    var b2 := ByteEncode(12, s[2]);
    b := b0 + b1 + b2;
  }

  method KeyGenBytes(O: Oracles, d: seq<byte>, z: seq<byte>) returns (ek: seq<byte>, dk: seq<byte>)
    requires O.Valid()
    ensures (ek, dk) == KeyGen(O, d, z)
  {
    hide Dot, EncodeVector, BuildA, Small, PolyRing, PolyAdd;
    var g := O.G(d + [K]);
    var a, s, e := BuildA(O, g[..32]), Small(O, g[32..], 0), Small(O, g[32..], K);
    var t: seq<Poly> := [];
    var i := 0;
    while i < K
      invariant 0 <= i <= K && |t| == i && forall k :: 0 <= k < i ==>
                t[k] == Add(PolyRing, Dot(PolyRing, a[k], s), e[k])
    {
      var acc := DotLoop(a[i], s);
      PolyOps(acc, e[i]);
      t := t + [PolyAdd(acc, e[i])];
      i := i + 1;
    }
    assert t == PublicVector(O, Keys(g[..32], s, e));
    var tBytes := EncodeVectorLoop(t);
    var sBytes := EncodeVectorLoop(s);
    ek := tBytes + g[..32];
    dk := sBytes + ek + O.H(ek) + z;
  }

  method EncapsBytes(O: Oracles, ek: seq<byte>, m: seq<byte>) returns (secret: seq<byte>, ct: seq<byte>)
    requires O.Valid() && |ek| == EK_BYTES && |m| == 32
    ensures (secret, ct) == Encaps(O, ek, m)
  {
    hide Encrypt;
    var g := O.G(m + O.H(ek));
    ct := KpkeEncrypt(O, ek, m, g[32..]);
    secret := g[..32];
  }
}
