/** The clamping of secret scalars that X25519 and Ed25519 share. */
module Clamping {
  import opened ModArith
  import opened MachineInts
  import opened Radix
  import opened ByteNumbers

  /** Clears the low three bits and the top bit, and sets the next one. */
  function Clamp(k: seq<byte>): (r: seq<byte>)
    requires |k| == 32
    ensures |r| == 32
  {
    k[0 := k[0] - k[0] % 8][31 := k[31] % 64 + 64]
  }

  /** Bit by bit: five bits are fixed, the other 251 are those of the secret. */
  lemma ClampBits(k: seq<byte>, i: nat)
    requires |k| == 32 && i < 256
    ensures BitOf(Clamp(k), i) == if i < 3 || i == 255 then 0 else if i == 254 then 1 else BitOf(k, i)
  {
    var c, j := Clamp(k), i % 8;
    BitAt(c, i / 8, j);
    BitAt(k, i / 8, j);
    hide BitOf;
    if i < 8 {
      LowByte(k[0], j);
    } else if i >= 248 {
      TopByte(k[31], j);
    }
  }

  lemma EightPowers(j: nat)
    requires j < 8
    ensures Pow(2, j) == [1, 2, 4, 8, 16, 32, 64, 128][j]
  {
    assert Pow(2, 3) == 8 && Pow(2, 7) == 128;
    if j < 4 {
      assert j == 0 || j == 1 || j == 2 || j == 3;
    } else {
      assert j == 4 || j == 5 || j == 6 || j == 7;
    }
  }

  lemma LowByte(x: byte, j: nat)
    requires j < 8
    ensures HighPart(x - x % 8, j) % 2 == if j < 3 then 0 else HighPart(x, j) % 2
  {
    EightPowers(j);
    hide Pow;
    var p := Pow(2, j);
    if j < 3 {
      assert p == 1 || p == 2 || p == 4;
    } else {
      var m := [1, 2, 4, 8, 16][j - 3];
      assert p == 8 * m;
      ThreeBits(x, m);
    }
  }

  /** The lowest three bits do not reach the quotient by a multiple of eight. */
  lemma ThreeBits(x: nat, m: nat)
    requires m > 0
    ensures (x - x % 8) / (8 * m) == x / (8 * m)
  {
    var n, d := 8 * m, x / (8 * m);
    var e := x % n;
    assert x == n * d + e && n * d == 8 * (m * d);
    assert x % 8 == e % 8 by { ModMultiple(e, m * d, 8); }
    DivModUnique(x - x % 8, n, d, e - e % 8);
  }

  lemma TopByte(x: byte, j: nat)
    requires j < 8
    ensures HighPart(x % 64 + 64, j) % 2 == if j == 7 then 0 else if j == 6 then 1 else HighPart(x, j) % 2
  {
    EightPowers(j);
    hide Pow;
    if j < 6 {
      var p, m := Pow(2, j), [32, 16, 8, 4, 2, 1][j];
      assert 64 == p * (2 * m);
      EvenMultiple(x % 64, p, m, 1);
      EvenMultiple(x % 64, p, m, x / 64);
    }
  }

  /** Adding an even multiple of p does not change the lowest bit of the quotient by p. */
  lemma EvenMultiple(r: nat, p: nat, m: nat, k: nat)
    requires p > 0
    ensures (r + p * (2 * m) * k) / p % 2 == r / p % 2
  {
    var d := r / p;
    assert p * (2 * m) * k == p * (2 * (m * k));
    assert r + p * (2 * (m * k)) == p * (d + 2 * (m * k)) + r % p by { MulDistributes(p, d, 2 * (m * k)); }
    DivModUnique(r + p * (2 * (m * k)), p, d + 2 * (m * k), r % p);
  }
}
