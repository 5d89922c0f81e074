/** Exactly which signatures ML-DSA-65 verification accepts (section 6.3 of FIPS 204), and that a signature binds its
    message: an accepted signature cannot be carried over to another message without a collision of the hash. */
module DsaSoundness {
  import opened ModArith
  import opened MachineInts
  import opened Groups
  import opened DsaField
  import opened DsaAlgebra
  import opened DsaRounding
  import opened DsaPacking
  import opened DsaSignature
  import opened DsaKeys
  import opened DsaPolys
  import opened DsaScheme
  import opened DsaIntegers

  type Poly = seq<int>

  // ---- the encoding of the high bits -------------------------------------------------------------------------------

  /** Two coefficients in a byte, the first one low. */
  ghost predicate Nibbles(p: seq<byte>, w: seq<Poly>) {
    && |p| == 128 * |w| && (forall i :: 0 <= i < |w| ==> |w[i]| == 256)
    && forall i: nat, k: nat :: i < |w| && k < 128 ==> NibblesAt(p, w, i, k)
  }

  ghost predicate NibblesAt(p: seq<byte>, w: seq<Poly>, i: nat, k: nat) {
    i < |w| && 2 * k + 1 < |w[i]| && 128 * i + k < |p| && p[128 * i + k] == w[i][2 * k] + 16 * w[i][2 * k + 1]
  }

  predicate IsHigh(w: Poly) { |w| == 256 && forall j :: 0 <= j < 256 ==> 0 <= w[j] < 16 }

  lemma PairPacked(c: seq<int>)
    requires |c| == 2 && 0 <= c[0] < 16 && 0 <= c[1] < 16
    ensures W1Pack(c) == [c[0] + 16 * c[1]]
  {
    assert Pow(2, 4) == 16;
    hide Pow;
    Or8Fields(c[0], c[1], 4, 16, 16);
  }

  lemma {:induction false} PolyPacked(a: seq<int>, count: nat)
    requires |a| == 2 * count && forall j :: 0 <= j < |a| ==> 0 <= a[j] < 16
    ensures |PackW1(a)| == count && forall k :: 0 <= k < count ==> PackW1(a)[k] == a[2 * k] + 16 * a[2 * k + 1]
    decreases count
  {
    hide W1Pack;
    if count > 0 {
      PairPacked(a[..2]);
      PolyPacked(a[2..], count - 1);
      assert PackW1(a) == [a[0] + 16 * a[1]] + PackW1(a[2..]);
    }
  }

  /** The encoding writes just these bytes. */
  lemma {:induction false} HighPacked(w: seq<Poly>)
    requires forall i :: 0 <= i < |w| ==> IsHigh(w[i])
    ensures Nibbles(PackAll(PackW1, w), w)
    decreases |w|
  {
    hide PackW1;
    if w != [] {
      var rest := w[1..];
      HighPacked(rest);
      PolyPacked(w[0], 128);
      var p, q := PackAll(PackW1, w), PackAll(PackW1, rest);
      assert p == PackW1(w[0]) + q;
      forall i: nat, k: nat | i < |w| && k < 128 ensures NibblesAt(p, w, i, k) {
        if i > 0 {
          assert NibblesAt(q, rest, i - 1, k);
        }
      }
    }
  }

  lemma NibblesUnique(p: seq<byte>, q: seq<byte>, w: seq<Poly>)
    requires Nibbles(p, w) && Nibbles(q, w)
    ensures p == q
  {
    forall x | 0 <= x < |p| ensures p[x] == q[x] {
      var i, k := x / 128, x % 128;
      assert x == 128 * i + k;
      assert NibblesAt(p, w, i, k) && NibblesAt(q, w, i, k);
    }
  }

  // ---- what is accepted --------------------------------------------------------------------------------------------

  predicate Shaped(a: seq<seq<Poly>>, t1: seq<Poly>, z: seq<Poly>, h: seq<Poly>) {
    && |a| == |t1| == |h| == K && |z| == DsaSignature.L && Rect(z, 256) && Rect(t1, 256) && Rect(h, 256)
    && forall i :: 0 <= i < K ==> |a[i]| == DsaSignature.L && Rect(a[i], 256)
  }

  /** The hint-adjusted high parts of A z - c t1 2^13. */
  function Adjusted(a: seq<seq<Poly>>, z: seq<Poly>, c: Poly, t1: seq<Poly>, h: seq<Poly>): (w: seq<Poly>)
    requires Shaped(a, t1, z, h) && |c| == 256
    ensures |w| == K && forall i :: 0 <= i < K ==> w[i] == Recover(Canon(Opening(a[i], z, c, t1[i])), h[i])
  {
    seq(K, i requires 0 <= i < K => Recover(Canon(Opening(a[i], z, c, t1[i])), h[i]))
  }

  /** All response coefficients are below the bound, and the challenge is the hash of the message digest mu and the
      encoded high parts. */
  ghost predicate Opens(O: Oracles, a: seq<seq<Poly>>, t1: seq<Poly>, mu: seq<byte>, c: seq<byte>, z: seq<Poly>,
      h: seq<Poly>)
    requires O.Valid()
  {
    && Shaped(a, t1, z, h)
    && (forall i: nat, k: nat :: i < DsaSignature.L && k < 256 ==> -(GAMMA1 - BETA) < z[i][k] < GAMMA1 - BETA)
    && exists p: seq<byte> :: Nibbles(p, Adjusted(a, z, O.Challenge(c), t1, h)) && O.shake(mu + p, 48) == c
  }

  lemma OpensParts(a: seq<seq<Poly>>, pk: seq<byte>, sig: seq<byte>, mat: seq<seq<Poly>>)
    requires |pk| == PUBLIC_KEY_BYTES && UnpackSig(sig).Some? && RepresentsMatrix(a, mat) && IsMatrix(mat)
    ensures var (c, z, h) := UnpackSig(sig).value; var t1 := UnpackPk(pk).1;
            Shaped(a, t1, z, h) && Smalls(z) && forall i :: 0 <= i < K ==> IsT1Poly(t1[i])
  {
    hide UnpackSig, UnpackPk, Hats, Represents, IsT1Poly;
    UnpackedSignature(sig);
    UnpackPkShape(pk);
    var (c, z, h) := UnpackSig(sig).value;
    assert Rect(z, 256) && Rect(UnpackPk(pk).1, 256) by {
      forall i | 0 <= i < K ensures |UnpackPk(pk).1[i]| == 256 { T1Size(UnpackPk(pk).1[i]); }
    }
    forall i | 0 <= i < K ensures |a[i]| == DsaSignature.L && Rect(a[i], 256) {
      assert RepresentsRow(a[i], mat[i]);
      SameSizes(a[i], mat[i]);
    }
  }

  lemma T1Size(p: Poly)
    requires IsT1Poly(p)
    ensures |p| == 256
  {
  }

  lemma RecoveredIs(O: Oracles, a: seq<seq<Poly>>, rho: seq<byte>, t1: seq<Poly>, c: seq<byte>, z: seq<Poly>,
      h: seq<Poly>)
    requires O.Valid() && RepresentsMatrix(a, Matrix(O, rho)) && Shaped(a, t1, z, h) && Smalls(z)
    requires forall i :: 0 <= i < K ==> IsT1Poly(t1[i])
    ensures Recovered(O, rho, t1, c, z, h) == Adjusted(a, z, O.Challenge(c), t1, h)
  {
    hide Hats, Hat, Small, Canonical, IsT1Poly, VerifierPoly, Opening, Forward, ForwardAll, Represents, Recover, Smalls;
    var mat, x := Matrix(O, rho), O.Challenge(c);
    var v := VerifierVector(mat, ForwardAll(z), Forward(x), t1);
    forall i | 0 <= i < K ensures v[i] == Canon(Opening(a[i], z, x, t1[i])) {
      assert RepresentsRow(a[i], mat[i]);
      VerifierPolyIs(a[i], mat[i], z, x, t1[i]);
    }
  }

  lemma AdjustedHigh(a: seq<seq<Poly>>, z: seq<Poly>, c: Poly, t1: seq<Poly>, h: seq<Poly>)
    requires Shaped(a, t1, z, h) && |c| == 256
    ensures forall i :: 0 <= i < K ==> IsHigh(Adjusted(a, z, c, t1, h)[i])
  {
    hide Opening, UseHint, Decompose;
    forall i | 0 <= i < K ensures IsHigh(Adjusted(a, z, c, t1, h)[i]) {
      var v := Canon(Opening(a[i], z, c, t1[i]));
      forall j | 0 <= j < 256 ensures 0 <= UseHint(v[j], h[i][j]) < 16 { HighRange(v[j], h[i][j]); }
    }
  }

  lemma HighRange(x: int, hint: int)
    requires 0 <= x < Q
    ensures 0 <= UseHint(x, hint) < 16
  {
    DecomposeRange(x);
    hide Decompose;
  }

  /** Verification accepts exactly the well-formed keys and signatures that open: stated with the polynomials a of the
      matrix, over the integers, and without transforms. */
  lemma VerifyExact(O: Oracles, a: seq<seq<Poly>>, pk: seq<byte>, msg: seq<byte>, sig: seq<byte>)
    requires O.Valid() && (|pk| == PUBLIC_KEY_BYTES ==> RepresentsMatrix(a, Matrix(O, UnpackPk(pk).0)))
    ensures Verify(O, pk, msg, sig) <==>
            |pk| == PUBLIC_KEY_BYTES && UnpackSig(sig).Some? &&
            var (c, z, h) := UnpackSig(sig).value;
            Opens(O, a, UnpackPk(pk).1, O.shake(O.shake(pk, 64) + msg, 64), c, z, h)
  {
    hide UnpackPk, UnpackSig, Hats, Hat, Small, Smalls, Canonical, IsT1Poly, IsMatrix, Matrix, Recovered, Adjusted,
         Nibbles, PackW1, PackAll;
    if |pk| == PUBLIC_KEY_BYTES && UnpackSig(sig).Some? {
      var (c, z, h) := UnpackSig(sig).value;
      var (rho, t1) := UnpackPk(pk);
      OpensParts(a, pk, sig, Matrix(O, rho));
      RecoveredIs(O, a, rho, t1, c, z, h);
      var w := Adjusted(a, z, O.Challenge(c), t1, h);
      AdjustedHigh(a, z, O.Challenge(c), t1, h);
      HighPacked(w);
      var mu := O.shake(O.shake(pk, 64) + msg, 64);
      assert Digest(O, mu, w) == O.shake(mu + PackAll(PackW1, w), 48);
      if p: seq<byte> :| Nibbles(p, w) && O.shake(mu + p, 48) == c {
        NibblesUnique(p, PackAll(PackW1, w), w);
      }
    }
  }

  // ---- binding -----------------------------------------------------------------------------------------------------

  /** One signature for two messages exhibits two strings with the same hash. */
  lemma SignatureBindsMessage(O: Oracles, pk: seq<byte>, msg: seq<byte>, other: seq<byte>,
      sig: seq<byte>) returns (x: seq<byte>, y: seq<byte>, n: nat)
    requires O.Valid() && msg != other && Verify(O, pk, msg, sig) && Verify(O, pk, other, sig)
    ensures x != y && n >= 48 && O.shake(x, n) == O.shake(y, n)
  {
    hide UnpackPk, UnpackSig, Recovered, NormBelow, PackW1, PackAll, IsT1Poly, Smalls;
    var tr := O.shake(pk, 64);
    var mu, mu' := O.shake(tr + msg, 64), O.shake(tr + other, 64);
    if mu == mu' {
      x, y, n := tr + msg, tr + other, 64;
      assert x[64..] == msg && y[64..] == other;
    } else {
      UnpackedSignature(sig);
      UnpackPkShape(pk);
      var (c, z, h) := UnpackSig(sig).value;
      var p := PackAll(PackW1, Recovered(O, UnpackPk(pk).0, UnpackPk(pk).1, c, z, h));
      x, y, n := mu + p, mu' + p, 48;
      assert x[..64] == mu && y[..64] == mu';
    }
  }
}
