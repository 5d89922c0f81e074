/** Commutative rings as plain values, so that one development of vectors, quotient rings and
    transforms serves the field of ML-KEM, the Montgomery ring of ML-DSA and the FFT alike.

    An `Ops` value only names the operations.  `IsRing` says that they obey the laws of a commutative
    ring.  Every law is reached through an instance predicate (`AddAssocAt`, ...): a proof mentions the
    instances that it needs, and the solver never unfolds the laws on its own. */
module Rings {

  datatype Ops<!T> = Ops(zero: T, one: T, add: (T, T) -> T, sub: (T, T) -> T, mul: (T, T) -> T)

  function Add<T>(R: Ops<T>, x: T, y: T): T { (R.add)(x, y) }

  function Sub<T>(R: Ops<T>, x: T, y: T): T { (R.sub)(x, y) }

  function Mul<T>(R: Ops<T>, x: T, y: T): T { (R.mul)(x, y) }

  function Neg<T>(R: Ops<T>, x: T): T { Sub(R, R.zero, x) }

  ghost predicate AddCommAt<T>(R: Ops<T>, x: T, y: T) { Add(R, x, y) == Add(R, y, x) }

  ghost predicate AddAssocAt<T>(R: Ops<T>, x: T, y: T, z: T) {
    Add(R, Add(R, x, y), z) == Add(R, x, Add(R, y, z))
  }

  ghost predicate ZeroAt<T>(R: Ops<T>, x: T) { Add(R, R.zero, x) == x && Add(R, x, Neg(R, x)) == R.zero }

  ghost predicate SubAt<T>(R: Ops<T>, x: T, y: T) { Sub(R, x, y) == Add(R, x, Neg(R, y)) }

  ghost predicate MulCommAt<T>(R: Ops<T>, x: T, y: T) { Mul(R, x, y) == Mul(R, y, x) }

  ghost predicate MulAssocAt<T>(R: Ops<T>, x: T, y: T, z: T) {
    Mul(R, Mul(R, x, y), z) == Mul(R, x, Mul(R, y, z))
  }

  ghost predicate OneAt<T>(R: Ops<T>, x: T) { Mul(R, R.one, x) == x }

  ghost predicate DistribAt<T>(R: Ops<T>, x: T, y: T, z: T) {
    Mul(R, x, Add(R, y, z)) == Add(R, Mul(R, x, y), Mul(R, x, z))
  }

  ghost predicate IsRing<T(!new)>(R: Ops<T>) {
    && (forall x, y :: AddCommAt(R, x, y))
    && (forall x, y, z :: AddAssocAt(R, x, y, z))
    && (forall x :: ZeroAt(R, x))
    && (forall x, y :: SubAt(R, x, y))
    && (forall x, y :: MulCommAt(R, x, y))
    && (forall x, y, z :: MulAssocAt(R, x, y, z))
    && (forall x :: OneAt(R, x))
    && (forall x, y, z :: DistribAt(R, x, y, z))
  }

  /** (a + b) + (c + d) = (a + c) + (b + d) */
  lemma AddSwap<T(!new)>(R: Ops<T>, a: T, b: T, c: T, d: T)
    requires IsRing(R)
    ensures Add(R, Add(R, a, b), Add(R, c, d)) == Add(R, Add(R, a, c), Add(R, b, d))
  {
    assert AddAssocAt(R, a, b, Add(R, c, d)) && AddAssocAt(R, a, c, Add(R, b, d));
    assert AddAssocAt(R, b, c, d) && AddAssocAt(R, c, b, d) && AddCommAt(R, b, c);
  }

  /** An additive equation determines its unknown. */
  lemma AddCancel<T(!new)>(R: Ops<T>, a: T, b: T, c: T)
    requires IsRing(R) && Add(R, a, b) == Add(R, a, c)
    ensures b == c
  {
    var n := Neg(R, a);
    assert AddAssocAt(R, n, a, b) && AddAssocAt(R, n, a, c) && AddCommAt(R, n, a);
    assert ZeroAt(R, a) && ZeroAt(R, b) && ZeroAt(R, c);
  }

  lemma MulZero<T(!new)>(R: Ops<T>, x: T)
    requires IsRing(R)
    ensures Mul(R, x, R.zero) == R.zero && Mul(R, R.zero, x) == R.zero
  {
    var p := Mul(R, x, R.zero);
    assert ZeroAt(R, R.zero) && DistribAt(R, x, R.zero, R.zero) && ZeroAt(R, p) && AddCommAt(R, p, R.zero);
    AddCancel(R, p, p, R.zero);
    assert MulCommAt(R, x, R.zero);
  }

  /** -(x) is determined by x + (-x) = 0. */
  lemma NegUnique<T(!new)>(R: Ops<T>, x: T, y: T)
    requires IsRing(R) && Add(R, x, y) == R.zero
    ensures y == Neg(R, x)
  {
    assert ZeroAt(R, x);
    AddCancel(R, x, y, Neg(R, x));
  }

  lemma NegNeg<T(!new)>(R: Ops<T>, x: T)
    requires IsRing(R)
    ensures Neg(R, Neg(R, x)) == x
  {
    assert ZeroAt(R, x) && AddCommAt(R, x, Neg(R, x));
    NegUnique(R, Neg(R, x), x);
  }

  lemma NegMul<T(!new)>(R: Ops<T>, x: T, y: T)
    requires IsRing(R)
    ensures Mul(R, Neg(R, x), y) == Neg(R, Mul(R, x, y))
    ensures Mul(R, y, Neg(R, x)) == Neg(R, Mul(R, y, x))
  {
    assert DistribAt(R, y, x, Neg(R, x)) && ZeroAt(R, x);
    MulZero(R, y);
    NegUnique(R, Mul(R, y, x), Mul(R, y, Neg(R, x)));
    assert MulCommAt(R, y, x) && MulCommAt(R, y, Neg(R, x));
  }

  lemma NegAdd<T(!new)>(R: Ops<T>, x: T, y: T)
    requires IsRing(R)
    ensures Neg(R, Add(R, x, y)) == Add(R, Neg(R, x), Neg(R, y))
  {
    AddSwap(R, x, y, Neg(R, x), Neg(R, y));
    assert ZeroAt(R, x) && ZeroAt(R, y) && ZeroAt(R, R.zero);
    NegUnique(R, Add(R, x, y), Add(R, Neg(R, x), Neg(R, y)));
  }

  lemma NegSquare<T(!new)>(R: Ops<T>, z: T)
    requires IsRing(R)
    ensures Mul(R, Neg(R, z), Neg(R, z)) == Mul(R, z, z)
  {
    NegMul(R, z, Neg(R, z));
    NegMul(R, z, z);
    NegNeg(R, Mul(R, z, z));
  }

  lemma DistribRight<T(!new)>(R: Ops<T>, x: T, y: T, z: T)
    requires IsRing(R)
    ensures Mul(R, Add(R, x, y), z) == Add(R, Mul(R, x, z), Mul(R, y, z))
  {
    assert MulCommAt(R, Add(R, x, y), z) && MulCommAt(R, x, z) && MulCommAt(R, y, z);
    assert DistribAt(R, z, x, y);
  }

  /** x * (y * z) = y * (x * z) */
  lemma MulSwap<T(!new)>(R: Ops<T>, x: T, y: T, z: T)
    requires IsRing(R)
    ensures Mul(R, x, Mul(R, y, z)) == Mul(R, y, Mul(R, x, z))
  {
    assert MulAssocAt(R, x, y, z) && MulAssocAt(R, y, x, z) && MulCommAt(R, x, y);
  }
}
