/** The equations of ML-KEM-768 written out: what the bytes of a key and of a ciphertext stand for, and which half of
    the hash is the secret. */
module KemEquations {
  import opened Rings
  import opened MachineInts
  import opened KemNtt
  import opened KemRing
  import opened InnerProducts
  import opened KemScheme
  import opened KemCorrectness

  /** a0 s0 + a1 s1 + a2 s2 modulo x^256 + 1. */
  function Three(a0: Poly, a1: Poly, a2: Poly, s: seq<Poly>): Poly
    requires |s| == 3
  {
    PolyAdd(PolyAdd(RingMul(a0, s[0]), RingMul(a1, s[1])), RingMul(a2, s[2]))
  }

  lemma DotIsThree(a: seq<Poly>, s: seq<Poly>)
    requires |a| == |s| == 3
    ensures Dot(PolyRing, a, s) == Three(a[0], a[1], a[2], s)
  {
    hide PolyRing, PolyAdd, RingMul, IsRing;
    PolyRingIsRing();
    var m0, m1, m2 := RingMul(a[0], s[0]), RingMul(a[1], s[1]), RingMul(a[2], s[2]);
    PolyOps(a[0], s[0]);
    PolyOps(a[1], s[1]);
    PolyOps(a[2], s[2]);
    PolyOps(m0, m1);
    PolyOps(PolyAdd(m0, m1), m2);
    assert a[..2] == [a[0], a[1]] && s[..2] == [s[0], s[1]];
    assert a[..2][..1] == [a[0]] && s[..2][..1] == [s[0]];
    FirstTerm(a[0], s[0]);
    DotSteps(a, s);
  }

  lemma DotSteps(a: seq<Poly>, s: seq<Poly>)
    requires |a| == |s| == 3
    ensures Dot(PolyRing, a, s) ==
            Add(PolyRing, Add(PolyRing, Dot(PolyRing, a[..2][..1], s[..2][..1]), Mul(PolyRing, a[1], s[1])),
                Mul(PolyRing, a[2], s[2]))
  {
    hide PolyRing;
    assert Dot(PolyRing, a[..2], s[..2]) ==
           Add(PolyRing, Dot(PolyRing, a[..2][..1], s[..2][..1]), Mul(PolyRing, a[1], s[1]));
  }

  lemma FirstTerm(a: Poly, s: Poly)
    ensures Dot(PolyRing, [a], [s]) == RingMul(a, s)
  {
    PolyRingIsRing();
    hide PolyRing, RingMul;
    PolyOps(a, s);
    var m := Mul(PolyRing, a, s);
    assert AddCommAt(PolyRing, PolyRing.zero, m) && ZeroAt(PolyRing, m);
    assert [a][..0] == [] && [s][..0] == [];
  }

  // ---- keys --------------------------------------------------------------------------------------------------------

  /** t = A s + e: the matrix from the first half of the hashed seed, entry (i, j) with the indices j and i, and the
      secrets and the errors from the second half, with the counters 0 to 5. */
  lemma KeyEquation(O: Oracles, d: seq<byte>, z: seq<byte>)
    requires O.Valid() && |z| == 32
    ensures var (ek, dk) := KeyGen(O, d, z); |ek| == EK_BYTES && |dk| == DK_BYTES
    ensures var (ek, dk) := KeyGen(O, d, z);
            var rho, sigma, s, t := O.g(d + [3])[..32], O.g(d + [3])[32..], DecodeVector(dk), DecodeVector(ek);
            && ek[1152..] == rho && dk[1152..2336] == ek && dk[2336..2368] == O.h(ek) && dk[2368..] == z
            && forall i :: 0 <= i < 3 ==>
                 && s[i] == O.binomial(sigma, i)
                 && t[i] == PolyAdd(Three(O.uniform(rho, 0, i), O.uniform(rho, 1, i), O.uniform(rho, 2, i), s),
                                    O.binomial(sigma, 3 + i))
  {
    hide PolyRing, PolyAdd, EncodeVector, DecodeVector, Three, Dot;
    KeyParts(O, d, z);
    var k := Expand(O, d);
    var t := PublicVector(O, k);
    VectorRoundTrip(t, k.rho);
    PublicIs(O, k, 0);
    PublicIs(O, k, 1);
    PublicIs(O, k, 2);
  }

  lemma PublicIs(O: Oracles, k: Keys, i: nat)
    requires |k.s| == |k.e| == K && i < 3
    ensures PublicVector(O, k)[i] ==
            PolyAdd(Three(O.uniform(k.rho, 0, i), O.uniform(k.rho, 1, i), O.uniform(k.rho, 2, i), k.s), k.e[i])
  {
    hide PolyRing, PolyAdd, Three, Dot;
    var a := BuildA(O, k.rho);
    DotIsThree(a[i], k.s);
    PolyOps(Dot(PolyRing, a[i], k.s), k.e[i]);
  }

  // ---- ciphertexts -------------------------------------------------------------------------------------------------

  /** u = A^T y + e1 and v = t y + e2 + mu, up to their compression, with the samples of the coins numbered 0 to 6. */
  lemma CiphertextEquation(O: Oracles, ek: seq<byte>, m: seq<byte>, coins: seq<byte>)
    requires |ek| == EK_BYTES && |m| == 32
    ensures |Encrypt(O, ek, m, coins)| == CT_BYTES
    ensures var rho, t, ct := ek[1152..], DecodeVector(ek), Encrypt(O, ek, m, coins);
            var y := [O.binomial(coins, 0), O.binomial(coins, 1), O.binomial(coins, 2)];
            && (forall i :: 0 <= i < 3 ==> UnpackU(ct)[i] == Lossy(DU,
                  PolyAdd(Three(O.uniform(rho, i, 0), O.uniform(rho, i, 1), O.uniform(rho, i, 2), y),
                          O.binomial(coins, 3 + i))))
            && UnpackV(ct) == Lossy(DV, PolyAdd(PolyAdd(Three(t[0], t[1], t[2], y), O.binomial(coins, 6)),
                                                DecompressAll(1, MessageBits(m))))
  {
    hide PolyRing, PolyAdd, EncodeVector, DecodeVector, Three, Dot, UnpackU, UnpackV, PackCiphertext, Lossy,
         DecompressAll, MessageBits;
    var a, t, y := BuildA(O, ek[1152..]), DecodeVector(ek), Small(O, coins, 0);
    var u, v := MaskedVector(a, y, Small(O, coins, K)), MaskedMessage(t, y, O.binomial(coins, 2 * K), DecompressAll(1,
        MessageBits(m)));
    CiphertextRoundTrip(u, v);
    DotIsThree(t, y);
    forall i | 0 <= i < 3
      ensures var rho := ek[1152..];
              u[i] == PolyAdd(Three(O.uniform(rho, i, 0), O.uniform(rho, i, 1), O.uniform(rho, i, 2), y),
                              O.binomial(coins, 3 + i))
    {
      DotIsThree(Column(a, i), y);
      PolyOps(Dot(PolyRing, Column(a, i), y), Small(O, coins, K)[i]);
    }
  }

  // ---- the secret --------------------------------------------------------------------------------------------------

  /** The hash of the message and the hashed key is the secret followed by the coins of the encryption. */
  lemma EncapsExact(O: Oracles, ek: seq<byte>, m: seq<byte>) returns (coins: seq<byte>)
    requires O.Valid() && |ek| == EK_BYTES && |m| == 32
    ensures var (secret, ct) := Encaps(O, ek, m);
            secret + coins == O.g(m + O.h(ek)) && |secret| == 32 && ct == Encrypt(O, ek, m, coins)
  {
    coins := O.g(m + O.h(ek))[32..];
  }

  /** The ciphertext does not depend on the secret half of the hash. */
  lemma SecretHidden(O: Oracles, g': seq<byte> -> seq<byte>, ek: seq<byte>, m: seq<byte>)
    requires O.Valid() && O.(g := g').Valid() && |ek| == EK_BYTES && |m| == 32
    requires forall x: seq<byte> :: g'(x)[32..] == O.g(x)[32..]
    ensures Encaps(O.(g := g'), ek, m).1 == Encaps(O, ek, m).1
    ensures Encaps(O.(g := g'), ek, m).0 == g'(m + O.h(ek))[..32]
  {
    hide PackCiphertext, MaskedVector, MaskedMessage, MessageBits, DecompressAll, DecodeVector;
  }
}
