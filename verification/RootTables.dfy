/** Tables of twiddle factors in bit-reversed order: z(k) = g^rev(k), where g^(2^n) = -1.
    Such a table meets both demands of the transforms: every entry is a square root of the root of its
    block, and the entries that an inverse layer reads from the other end are the negated inverses. */
module RootTables {
  import opened Rings
  import opened Transform

  function RPow<T>(R: Ops<T>, g: T, e: nat): T {
    if e == 0 then R.one else Mul(R, g, RPow(R, g, e - 1))
  }

  lemma {:induction false} RPowAdd<T(!new)>(R: Ops<T>, g: T, m: nat, n: nat)
    requires IsRing(R)
    ensures RPow(R, g, m + n) == Mul(R, RPow(R, g, m), RPow(R, g, n))
    decreases m
  {
    hide IsRing;
    if m == 0 {
      RingOne(R, RPow(R, g, n));
    } else {
      RPowAdd(R, g, m - 1, n);
      RingAssoc(R, g, RPow(R, g, m - 1), RPow(R, g, n));
    }
  }

  lemma RingOne<T(!new)>(R: Ops<T>, x: T)
    requires IsRing(R)
    ensures Mul(R, R.one, x) == x && Mul(R, x, R.one) == x
  {
    assert OneAt(R, x) && MulCommAt(R, R.one, x);
  }

  lemma RingAssoc<T(!new)>(R: Ops<T>, x: T, y: T, z: T)
    requires IsRing(R)
    ensures Mul(R, Mul(R, x, y), z) == Mul(R, x, Mul(R, y, z))
  {
    assert MulAssocAt(R, x, y, z);
  }

  /** The low n bits of x in reverse order. */
  function Rev(n: nat, x: nat): nat {
    if n == 0 then 0 else Rev(n - 1, x / 2) + if x % 2 == 1 then Pow2(n - 1) else 0
  }

  lemma {:induction false} RevShort(n: nat, x: nat)
    requires x < Pow2(n)
    ensures Rev(n + 1, x) == 2 * Rev(n, x)
  {
    if n > 0 { RevShort(n - 1, x / 2); }
  }

  lemma {:induction false} RevZero(n: nat)
    ensures Rev(n, 0) == 0
  {
    if n > 0 { RevZero(n - 1); }
  }

  /** Entries j and 3k - 1 - j, counted from either end of a layer, have reversals that add up to 2^n. */
  lemma {:induction false} RevMirror(n: nat, k: nat, j: nat)
    requires IsPow2(k) && k <= j < 2 * k && k < Pow2(n)
    ensures Rev(n, j) + Rev(n, 3 * k - 1 - j) == Pow2(n)
    decreases n
  {
    if k == 1 {
      RevZero(n - 1);
    } else {
      var i := 3 * k - 1 - j;
      assert i / 2 == 3 * (k / 2) - 1 - j / 2 && i % 2 == 1 - j % 2;
      RevMirror(n - 1, k / 2, j / 2);
    }
  }

  ghost predicate EntryAt<T>(R: Ops<T>, g: T, n: nat, z: int -> T, k: nat) { z(k) == RPow(R, g, Rev(n, k)) }

  ghost predicate IsRootTable<T>(R: Ops<T>, g: T, n: nat, z: int -> T) {
    && n > 0
    && RPow(R, g, Pow2(n)) == Neg(R, R.one)
    && forall k | 1 <= k < Pow2(n) :: EntryAt(R, g, n, z, k)
  }

  lemma TableSquare<T(!new)>(R: Ops<T>, g: T, n: nat, z: int -> T, k: nat)
    requires IsRing(R) && IsRootTable(R, g, n, z) && 1 <= k < Pow2(n)
    ensures SquareAt(R, z, k)
  {
    var j := k / 2;
    assert EntryAt(R, g, n, z, k);
    if k == 1 {
      RevZero(n - 1);
    } else {
      assert EntryAt(R, g, n, z, j);
      RevShort(n - 1, j);
    }
    hide IsRing, RPow, Rev;
    RPowAdd(R, g, Rev(n, k), Rev(n, k));
    if k > 1 && k % 2 == 1 {
      RPowAdd(R, g, Rev(n, j), Pow2(n));
      NegMul(R, R.one, z(j));
      RingOne(R, z(j));
    }
  }

  lemma TableSquares<T(!new)>(R: Ops<T>, g: T, n: nat, z: int -> T)
    requires IsRing(R) && IsRootTable(R, g, n, z)
    ensures SquareRoots(R, z, Pow2(n))
  {
    hide IsRing, IsRootTable, SquareAt;
    forall k | 1 <= k < Pow2(n) ensures SquareAt(R, z, k) { TableSquare(R, g, n, z, k); }
  }

  lemma TablePair<T(!new)>(R: Ops<T>, g: T, n: nat, z: int -> T, j: nat, k: nat)
    requires IsRing(R) && IsRootTable(R, g, n, z) && 1 <= k < Pow2(n) && k <= j < 2 * k && IsPow2(k)
    ensures Opposite(R, z(j), z(3 * k - 1 - j))
  {
    var i := 3 * k - 1 - j;
    Pow2Gap(k, n - 1);
    hide IsRing, RPow, Rev, IsPow2;
    assert EntryAt(R, g, n, z, j) && EntryAt(R, g, n, z, i);
    RevMirror(n, k, j);
    RPowAdd(R, g, Rev(n, j), Rev(n, i));
  }

  lemma TablePairs<T(!new)>(R: Ops<T>, g: T, n: nat, z: int -> T)
    requires IsRing(R) && IsRootTable(R, g, n, z)
    ensures Paired(R, z, Pow2(n))
  {
    hide IsRing, IsRootTable, IsPow2, Opposite;
    forall j, k | 1 <= k < Pow2(n) && k <= j < 2 * k && IsPow2(k) ensures Opposite(R, z(j), z(3 * k - 1 - j)) {
      TablePair(R, g, n, z, j, k);
    }
  }
}
