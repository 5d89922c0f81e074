/** Facts about `/` and `%` by a positive modulus, and about powers. */
module ModArith {

  lemma MulAtLeast(q: int, k: int)
    requires q > 0 && k >= 1
    ensures q * k >= q
  {
    if k > 1 {
      MulAtLeast(q, k - 1);
      assert q * k == q * (k - 1) + q;
    }
  }

  lemma MulDistributes(q: int, d: int, e: int)
    ensures q * (d - e) == q * d - q * e && q * (d + e) == q * d + q * e && q * -d == -(q * d)
  {
  }

  lemma MulNonNegative(a: int, b: int)
    requires a >= 0 && b >= 0
    ensures a * b >= 0
  {
  }

  /** Nothing is left above a value that is below p. */
  lemma NothingAbove(p: int, k: int, low: int)
    requires p > 0 && k >= 0 && low >= 0 && low + p * k < p
    ensures k == 0 && p * k == 0
  {
    if k >= 1 {
      MulAtLeast(p, k);
    }
  }

  lemma DivModUnique(x: int, q: int, d: int, r: int)
    requires 0 <= r < q && x == q * d + r
    ensures x / q == d && x % q == r
  {
    var e, s := x / q, x % q;
    assert x == q * e + s;
    MulDistributes(q, d, e);
    MulDistributes(q, e, d);
    if d > e { MulAtLeast(q, d - e); } else if d < e { MulAtLeast(q, e - d); }
  }

  /** Adding a multiple of the modulus changes nothing. */
  lemma ModMultiple(x: int, k: int, q: int)
    requires q > 0
    ensures (x + q * k) % q == x % q
  {
    DivModUnique(x + q * k, q, x / q + k, x % q);
  }

  lemma ModSmall(x: int, q: int)
    requires 0 <= x < q
    ensures x % q == x
  {
    DivModUnique(x, q, 0, x);
  }

  lemma ModAdd(x: int, y: int, q: int)
    requires q > 0
    ensures (x % q + y) % q == (x + y) % q && (x + y % q) % q == (x + y) % q
    ensures (x % q - y) % q == (x - y) % q && (x - y % q) % q == (x - y) % q
  {
    var k, l := x / q, y / q;
    assert x == q * k + x % q && y == q * l + y % q;
    MulDistributes(q, l, 0);
    ModMultiple(x % q + y, k, q);
    ModMultiple(x + y % q, l, q);
    ModMultiple(x % q - y, k, q);
    ModMultiple(x - y % q, -l, q);
  }

  lemma ModMul(x: int, y: int, q: int)
    requires q > 0
    ensures ((x % q) * y) % q == (x * y) % q && (x * (y % q)) % q == (x * y) % q
  {
    var k, l := x / q, y / q;
    assert x * y == (x % q) * y + q * (k * y) by { assert (q * k + x % q) * y == q * (k * y) + (x % q) * y; }
    assert x * y == x * (y % q) + q * (l * x) by { assert x * (q * l + y % q) == q * (l * x) + x * (y % q); }
    ModMultiple((x % q) * y, k * y, q);
    ModMultiple(x * (y % q), l * x, q);
  }

  /** Equal residues mean a difference that is a multiple of the modulus. */
  lemma ModEqual(x: int, y: int, q: int)
    requires q > 0 && x % q == y % q
    ensures x - y == q * (x / q - y / q)
  {
    assert x == q * (x / q) + x % q && y == q * (y / q) + y % q;
    assert q * (x / q - y / q) == q * (x / q) - q * (y / q);
  }

  /** Counting blocks of a fixed size: how many are left, and when all are done. */
  lemma BlocksLeft(size: nat, done: nat, blocks: nat)
    requires size > 0 && size * done < size * blocks
    ensures done < blocks && size * (done + 1) == size * done + size <= size * blocks
  {
    MulDistributes(size, done, blocks);
    MulDistributes(size, blocks, done + 1);
    MulDistributes(size, done, 1);
    if done > blocks { MulAtLeast(size, done - blocks); }
    if blocks > done + 1 { MulAtLeast(size, blocks - (done + 1)); }
  }

  lemma BlocksDone(size: nat, done: nat, blocks: nat)
    requires size > 0 && size * done == size * blocks
    ensures done == blocks
  {
    MulDistributes(size, done, blocks);
    MulDistributes(size, blocks, done);
    if done > blocks { MulAtLeast(size, done - blocks); }
    if blocks > done { MulAtLeast(size, blocks - done); }
  }

  function Pow(b: int, e: nat): int {
    if e == 0 then 1 else b * Pow(b, e - 1)
  }

  lemma {:induction false} PowAdd(b: int, m: nat, n: nat)
    ensures Pow(b, m + n) == Pow(b, m) * Pow(b, n)
    decreases m
  {
    if m > 0 {
      PowAdd(b, m - 1, n);
      assert b * (Pow(b, m - 1) * Pow(b, n)) == (b * Pow(b, m - 1)) * Pow(b, n);
    }
  }

  /** Residues of powers multiply. */
  lemma PowMod(b: int, m: nat, n: nat, q: int)
    requires q > 0
    ensures ((Pow(b, m) % q) * (Pow(b, n) % q)) % q == Pow(b, m + n) % q
  {
    PowAdd(b, m, n);
    ModMul(Pow(b, m), Pow(b, n) % q, q);
    ModMul(Pow(b, m), Pow(b, n), q);
  }

  lemma PowNextMod(b: int, m: nat, q: int)
    requires q > 0
    ensures ((Pow(b, m) % q) * b) % q == Pow(b, m + 1) % q
  {
    ModMul(Pow(b, m), b, q);
  }

  lemma ModDistributes(x: int, y: int, z: int, q: int)
    requires q > 0
    ensures (x * ((y + z) % q)) % q == ((x * y) % q + (x * z) % q) % q
  {
    ModMul(x, y + z, q);
    ModAdd(x * y, x * z, q);
    ModAdd((x * y) % q, x * z, q);
    assert x * (y + z) == x * y + x * z;
  }
}
