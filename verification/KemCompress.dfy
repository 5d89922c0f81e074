/** Compression to d bits and back, and how far a round trip moves a coefficient. */
module KemCompress {
  import opened ModArith
  import opened Radix
  import opened KemField

  function Compress(d: nat, x: int): (y: nat)
    ensures y < Pow(2, d)
  {
    PowPositive(2, d);
    MulNonNegative(Red(x), Pow(2, d));
    (Red(x) * Pow(2, d) + Q / 2) / Q % Pow(2, d)
  }

  function Decompress(d: nat, y: int): Fq {
    PowPositive(2, d);
    Red((y * Q + Pow(2, d) / 2) / Pow(2, d))
  }

  /** The distance between residues. */
  function Distance(x: int, y: int): (r: int)
    ensures 0 <= r <= Q / 2
  {
    var e := (x - y) % Q;
    if e <= Q / 2 then e else Q - e
  }

  lemma WidthBound(d: nat)
    requires 1 <= d <= 11
    ensures 2 <= Pow(2, d) <= 2048 && Pow(2, d) % 2 == 0
  {
    assert Pow(2, 1) == 2 && Pow(2, 2) == 4 && Pow(2, 3) == 8 && Pow(2, 4) == 16 && Pow(2, 5) == 32 && Pow(2, 6) == 64;
    assert Pow(2, 7) == 128 && Pow(2, 8) == 256 && Pow(2, 9) == 512 && Pow(2, 10) == 1024 && Pow(2, 11) == 2048;
  }

  /** The rounded multiple y * q / 2^d, as a quotient and a remainder. */
  lemma Rounded(y: int, p: int)
    requires 0 <= y < p && 2 <= p <= 2048 && p % 2 == 0
    ensures var n := (y * Q + p / 2) / p; 0 <= n < Q && y * Q - p / 2 <= n * p <= y * Q + p / 2
  {
    var n, r := (y * Q + p / 2) / p, (y * Q + p / 2) % p;
    assert y * Q + p / 2 == p * n + r;
    if n < 0 { MulDistributes(p, 0, n); MulAtLeast(p, -n); }
    if n >= Q { MulDistributes(p, n, Q); MulNonNegative(p, n - Q); MulDistributes(Q, p, y); MulAtLeast(Q, p - y); }
  }

  /** Decompression followed by compression gives the value back. */
  lemma CompressDecompress(d: nat, y: nat)
    requires 1 <= d <= 11 && y < Pow(2, d)
    ensures Compress(d, Decompress(d, y)) == y
  {
    var p := Pow(2, d);
    WidthBound(d);
    Rounded(y, p);
    var n := (y * Q + p / 2) / p;
    hide Pow;
    ModSmall(n, Q);
    DivModUnique(n * p + Q / 2, Q, y, n * p + Q / 2 - y * Q);
    ModSmall(y, p);
  }

  /** Compression followed by decompression moves a coefficient by at most round(q / 2^(d+1)), cyclically. */
  lemma DecompressCompress(d: nat, x: int)
    requires 1 <= d <= 11 && 0 <= x < Q
    ensures Distance(Decompress(d, Compress(d, x)), x) <= (Q + Pow(2, d)) / (2 * Pow(2, d))
  {
    hide Pow, Distance, Red, Compress, Decompress;
    WidthBound(d);
    var p := Pow(2, d);
    var c := (x * p + Q / 2) / Q;
    QuotientRange(x, p, c);
    MovesLittle(x, p, c);
    CompressAt(d, x, p);
    DecompressAt(d, c % p, p);
    ModSmall((c % p * Q + p / 2) / p, Q);
  }

  lemma CompressAt(d: nat, x: int, p: int)
    requires p == Pow(2, d) && p > 0 && 0 <= x < Q
    ensures Compress(d, x) == (x * p + Q / 2) / Q % p
  {
    hide Pow;
    ModSmall(x, Q);
  }

  lemma DecompressAt(d: nat, y: int, p: int)
    requires p == Pow(2, d) && p > 0
    ensures Decompress(d, y) == ((y * Q + p / 2) / p) % Q
  {
    hide Pow;
  }

  lemma MovesLittle(x: int, p: int, c: int)
    requires 0 <= x < Q && 2 <= p <= 2048 && p % 2 == 0 && 0 <= c <= p && -1664 <= c * Q - x * p <= 1664
    ensures var n := (c % p * Q + p / 2) / p; 0 <= n < Q && Distance(n, x) <= (Q + p) / (2 * p)
  {
    hide Distance;
    if c == p {
      DivModUnique(p, p, 1, 0);
      SmallHalf(p);
      TopDistance(x, p);
    } else {
      ModSmall(c, p);
      Rounded(c, p);
      NearDistance(x, (c * Q + p / 2) / p, p, c);
    }
  }

  lemma QuotientRange(x: int, p: int, c: int)
    requires 0 <= x < Q && 2 <= p <= 2048 && c == (x * p + Q / 2) / Q
    ensures 0 <= c <= p && -1664 <= c * Q - x * p <= 1664
  {
    MulNonNegative(x, p);
    MulDistributes(p, Q, x);
    MulAtLeast(p, Q - x);
  }

  lemma SmallHalf(p: int)
    requires 2 <= p
    ensures (0 * Q + p / 2) / p == 0
  {
    DivModUnique(p / 2, p, 0, p / 2);
  }

  lemma TopDistance(x: int, p: int)
    requires 0 <= x < Q && 2 <= p <= 2048 && -1664 <= p * Q - x * p
    requires p * Q - x * p <= 1664
    ensures Distance(0, x) <= (Q + p) / (2 * p)
  {
    MulDistributes(p, Q, x);
    var k := Q - x;
    assert p * k <= 1664;
    HalfBound(p, k);
    ModMultiple(0 - x, 1, Q);
    ModSmall(k % Q, Q);
    if k < Q { ModSmall(k, Q); }
  }

  /** k <= 1664 / p + 1/2 */
  lemma HalfBound(p: int, k: int)
    requires 2 <= p && k >= 0 && p * k <= 1664 + p / 2
    ensures k <= (Q + p) / (2 * p)
  {
    var b, r := (Q + p) / (2 * p), (Q + p) % (2 * p);
    assert Q + p == (2 * p) * b + r;
    if k > b {
      MulDistributes(2 * p, k, b);
      MulAtLeast(2 * p, k - b);
    }
  }

  lemma NearDistance(x: int, n: int, p: int, c: int)
    requires 0 <= x < Q && 0 <= n < Q && 2 <= p <= 2048 && -1664 <= c * Q - x * p <= 1664
    requires c * Q - p / 2 <= n * p <= c * Q + p / 2
    ensures Distance(n, x) <= (Q + p) / (2 * p)
  {
    var k := if n >= x then n - x else x - n;
    MulDistributes(p, n, x);
    MulDistributes(p, x, n);
    HalfBound(p, k);
    if n >= x { ModSmall(n - x, Q); } else { DivModUnique(n - x, Q, -1, n - x + Q); }
  }

  // ---- the message bit ---------------------------------------------------------------------------------------------

  /** The centred representative, in [-1664, 1664]. */
  function Centred(x: int): (r: int)
    ensures -1664 <= r <= 1664 && r % Q == x % Q
  {
    var e := x % Q;
    ModMultiple(e, -1, Q);
    if e <= 1664 then e else e - Q
  }

  /** Adding noise to an encoded bit leaves it recoverable exactly when the centred noise is in a window, which is
      one shorter for a set bit. */
  lemma BitRecovered(bit: int, noise: int)
    requires 0 <= bit <= 1
    ensures Compress(1, Decompress(1, bit) + noise) == bit <==> -832 <= Centred(noise) <= 832 - bit
  {
    hide Compress, Decompress, Red, Pow;
    EncodedBit(bit);
    var r, x := Centred(noise), 1665 * bit;
    SameResidue(x, noise, r);
    CompressedBit(x + noise);
    if x + r < 0 {
      DivModUnique(x + r, Q, -1, x + r + Q);
    } else if x + r >= Q {
      DivModUnique(x + r, Q, 1, x + r - Q);
    } else {
      ModSmall(x + r, Q);
    }
  }

  lemma EncodedBit(bit: int)
    requires 0 <= bit <= 1
    ensures Decompress(1, bit) == 1665 * bit
  {
    hide Red;
    assert Pow(2, 1) == 2;
  }

  lemma SameResidue(x: int, noise: int, r: int)
    requires r % Q == noise % Q
    ensures (x + noise) % Q == (x + r) % Q
  {
    ModAdd(x, noise, Q);
    ModAdd(x, r, Q);
  }

  /** The middle half of the field compresses to 1. */
  lemma CompressedBit(x: int)
    ensures Compress(1, x) == if 833 <= x % Q <= 2496 then 1 else 0
  {
    hide Red;
    assert Pow(2, 1) == 2;
  }
}
