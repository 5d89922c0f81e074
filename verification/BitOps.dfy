/** Bitwise `|` on non-negative integers, and when it is addition. */
module BitOps {
  import opened ModArith

  function Or(x: nat, y: nat): nat
    decreases x + y
  {
    if x == 0 then y else if y == 0 then x
    else (if x % 2 == 1 || y % 2 == 1 then 1 else 0) + 2 * Or(x / 2, y / 2)
  }

  lemma Weights()
    ensures Pow(2, 1) == 2 && Pow(2, 2) == 4 && Pow(2, 3) == 8 && Pow(2, 4) == 16 && Pow(2, 5) == 32 &&
            Pow(2, 6) == 64 && Pow(2, 7) == 128
    ensures Pow(2, 8) == 256 && Pow(2, 9) == 512 && Pow(2, 10) == 1024 && Pow(2, 11) == 2048 && Pow(2, 12) == 4096 &&
            Pow(2, 16) == 0x1_0000
  {
  }

  /** Numbers with no bit in common: x below 2^k, y a multiple of 2^k. */
  lemma {:induction false} OrDisjoint(x: nat, y: nat, k: nat, p: nat)
    requires p == Pow(2, k) && x < p && y % p == 0
    ensures Or(x, y) == x + y
    decreases k
  {
    if k > 0 && x > 0 && y > 0 {
      var h := Pow(2, k - 1);
      var d := y / p;
      assert y == p * d == 2 * (h * d);
      ModMultiple(0, d, h);
      assert y / 2 == h * d;
      OrDisjoint(x / 2, y / 2, k - 1, h);
    }
  }

  /** The two digits of x + p * y to the base p. */
  lemma TwoDigits(x: nat, y: nat, p: nat)
    requires x < p
    ensures (x + p * y) / p == y && (x + p * y) % p == x
  {
    DivModUnique(x + p * y, p, y, x);
  }

  lemma ScaledDivision(y: int, p: nat, m: nat)
    requires p > 0 && m > 0
    ensures y * p == (p * m) * (y / m) + p * (y % m) && p * (y % m) + p <= p * m
  {
    var d, r := y / m, y % m;
    assert y == m * d + r;
    assert (m * d) * p == (p * m) * d;
    MulDistributes(p, m, r);
    MulAtLeast(p, m - r);
  }

  /** A low field x below p = 2^k, and a high field y kept to its low part by the mask p * m. */
  lemma OrField(x: nat, y: nat, k: nat, p: nat, m: nat)
    requires p == Pow(2, k) && x < p && m > 0
    ensures Or(x, y * p) == x + y * p
    ensures Or(x, y * p) % (p * m) == x + p * (y % m)
  {
    hide Or, Pow;
    ModMultiple(0, y, p);
    OrDisjoint(x, y * p, k, p);
    ScaledDivision(y, p, m);
    DivModUnique(x + y * p, p * m, y / m, x + p * (y % m));
  }

  /** A number is the sum of its low, middle and high parts. */
  lemma ThreeParts(x: nat, p: nat, q: nat, r: nat)
    requires p > 0 && q > 0 && p * q == r
    ensures r > 0 && x == x % p + p * (x / p % q) + r * (x / r)
  {
    var h := x / p;
    assert x == p * h + x % p && h == q * (h / q) + h % q;
    assert p * (q * (h / q) + h % q) == r * (h / q) + p * (h % q) by { assert p * (q * (h / q)) == (p * q) * (h / q); }
    MulDistributes(p, q, h % q);
    MulAtLeast(p, q - h % q);
    DivModUnique(x, r, h / q, p * (h % q) + x % p);
  }

  /** A field t stored in two bytes: its low part above v, its high part below u. */
  lemma TwoPieces(v: nat, a: nat, t: nat, p: nat, u: nat, q: nat)
    requires v < a && p > 0 && t / p < q
    ensures (v + a * (t % p)) / a + p * ((t / p + q * u) % q) == t
  {
    TwoDigits(v, t % p, a);
    TwoDigits(t / p, u, q);
  }

  /** A field t stored in three bytes, the middle one entirely its own. */
  lemma ThreePieces(v: nat, a: nat, t: nat, p: nat, m: nat, r: nat, u: nat, q: nat)
    requires v < a && p > 0 && m > 0 && p * m == r && r > 0 && t / r < q
    ensures (v + a * (t % p)) / a + p * (t / p % m) + r * ((t / r + q * u) % q) == t
  {
    TwoDigits(v, t % p, a);
    TwoDigits(t / r, u, q);
    ThreeParts(t, p, m, r);
  }

  /** Bitwise exclusive or, and when it vanishes. */
  function Xor(x: nat, y: nat): (r: nat)
    ensures r == 0 <==> x == y
    decreases x + y
  {
    if x == 0 && y == 0 then 0
    else (if x % 2 != y % 2 then 1 else 0) + 2 * Xor(x / 2, y / 2)
  }

  lemma {:induction false} OrZero(x: nat, y: nat)
    ensures Or(x, y) == 0 <==> x == 0 && y == 0
    decreases x + y
  {
    if x > 0 && y > 0 {
      OrZero(x / 2, y / 2);
    }
  }

  lemma {:induction false} BytesStayBytes(x: nat, y: nat, p: nat, k: nat)
    requires p == Pow(2, k) && x < p && y < p
    ensures Or(x, y) < p && Xor(x, y) < p
    decreases k
  {
    if k > 0 {
      BytesStayBytes(x / 2, y / 2, Pow(2, k - 1), k - 1);
    }
  }

  /** An exclusive or undoes itself. */
  lemma {:induction false} XorBack(x: nat, y: nat)
    ensures Xor(x, Xor(x, y)) == y
    decreases x + y
  {
    var z := Xor(x, y);
    XorDigits(x, y);
    XorDigits(x, z);
    hide Xor;
    if x > 0 || y > 0 {
      XorBack(x / 2, y / 2);
    }
  }

  /** The lowest bit and the rest. */
  lemma XorDigits(x: nat, y: nat)
    ensures Xor(x, y) % 2 == (if x % 2 != y % 2 then 1 else 0) && Xor(x, y) / 2 == Xor(x / 2, y / 2)
  {
  }

  lemma {:induction false} XorComm(x: nat, y: nat)
    ensures Xor(x, y) == Xor(y, x)
    decreases x + y
  {
    if x > 0 || y > 0 {
      XorComm(x / 2, y / 2);
    }
  }

  lemma {:induction false} XorZero(x: nat)
    ensures Xor(x, 0) == x && Xor(0, x) == x
  {
    if x > 0 {
      XorZero(x / 2);
    }
  }
}
