/** The discrete Fourier transform over any commutative ring with roots of unity, as evaluation of a
    polynomial at the powers of a root, and the radix-2 recursion that computes it.

    The roots come as a tower w: w(len) plays the part of exp(i sign 2 pi / len), so that w(2) = -1 and
    w(2 len)^2 = w(len). */
module Fourier {
  import opened Rings
  import opened Vectors
  import opened QuotientRing
  import opened Transform
  import opened RootTables

  /** p(z), by Horner's rule. */
  function Eval<T>(R: Ops<T>, p: seq<T>, z: T): T {
    if p == [] then R.zero else Add(R, p[0], Mul(R, z, Eval(R, p[1..], z)))
  }

  lemma AddZero<T(!new)>(R: Ops<T>, x: T)
    requires IsRing(R)
    ensures Add(R, R.zero, x) == x && Add(R, x, R.zero) == x
  {
    assert ZeroAt(R, x) && AddCommAt(R, R.zero, x);
  }

  lemma EvalOne<T(!new)>(R: Ops<T>, x: T, z: T)
    requires IsRing(R)
    ensures Eval(R, [x], z) == x
  {
    assert [x][1..] == [];
    MulZero(R, z);
    AddZero(R, x);
  }

  /** (p + x^|p| q)(z) = p(z) + z^|p| q(z) */
  lemma {:induction false} EvalConcat<T(!new)>(R: Ops<T>, p: seq<T>, q: seq<T>, z: T)
    requires IsRing(R)
    ensures Eval(R, p + q, z) == Add(R, Eval(R, p, z), Mul(R, RPow(R, z, |p|), Eval(R, q, z)))
    decreases |p|
  {
    var e := Eval(R, q, z);
    if p == [] {
      assert p + q == q;
      RingOne(R, e);
      AddZero(R, e);
    } else {
      assert (p + q)[1..] == p[1..] + q;
      EvalConcat(R, p[1..], q, z);
      var r, zn := Eval(R, p[1..], z), RPow(R, z, |p| - 1);
      assert DistribAt(R, z, r, Mul(R, zn, e)) && AddAssocAt(R, p[0], Mul(R, z, r), Mul(R, z, Mul(R, zn, e)));
      RingAssoc(R, z, zn, e);
    }
  }

  lemma {:induction false} EvalAdd<T(!new)>(R: Ops<T>, p: seq<T>, q: seq<T>, z: T)
    requires IsRing(R) && |p| == |q|
    ensures Eval(R, VAdd(R, p, q), z) == Add(R, Eval(R, p, z), Eval(R, q, z))
    decreases |p|
  {
    if p == [] {
      AddZero(R, R.zero);
    } else {
      assert VAdd(R, p, q)[1..] == VAdd(R, p[1..], q[1..]);
      EvalAdd(R, p[1..], q[1..], z);
      var a, b := Eval(R, p[1..], z), Eval(R, q[1..], z);
      assert DistribAt(R, z, a, b);
      AddSwap(R, p[0], q[0], Mul(R, z, a), Mul(R, z, b));
    }
  }

  lemma {:induction false} EvalScale<T(!new)>(R: Ops<T>, k: T, p: seq<T>, z: T)
    requires IsRing(R)
    ensures Eval(R, VScale(R, k, p), z) == Mul(R, k, Eval(R, p, z))
    decreases |p|
  {
    if p == [] {
      MulZero(R, k);
    } else {
      assert VScale(R, k, p)[1..] == VScale(R, k, p[1..]);
      EvalScale(R, k, p[1..], z);
      var a := Eval(R, p[1..], z);
      assert DistribAt(R, k, p[0], Mul(R, z, a));
      MulSwap(R, z, k, a);
    }
  }

  lemma {:induction false} EvalZeros<T(!new)>(R: Ops<T>, n: nat, z: T)
    requires IsRing(R)
    ensures Eval(R, Zeros(R, n), z) == R.zero
    decreases n
  {
    if n > 0 {
      assert Zeros(R, n)[1..] == Zeros(R, n - 1);
      EvalZeros(R, n - 1, z);
      MulZero(R, z);
      AddZero(R, R.zero);
    }
  }

  // ---- powers and roots ---------------------------------------------------------------------------

  lemma {:induction false} RPowOne<T(!new)>(R: Ops<T>, n: nat)
    requires IsRing(R)
    ensures RPow(R, R.one, n) == R.one
  {
    if n > 0 {
      RPowOne(R, n - 1);
      RingOne(R, R.one);
    }
  }

  /** (x y)^n = x^n y^n */
  lemma {:induction false} RPowTimes<T(!new)>(R: Ops<T>, x: T, y: T, n: nat)
    requires IsRing(R)
    ensures RPow(R, Mul(R, x, y), n) == Mul(R, RPow(R, x, n), RPow(R, y, n))
  {
    hide IsRing;
    if n == 0 {
      RingOne(R, R.one);
    } else {
      RPowTimes(R, x, y, n - 1);
      var a, b := RPow(R, x, n - 1), RPow(R, y, n - 1);
      RingAssoc(R, x, y, Mul(R, a, b));
      MulSwap(R, y, a, b);
      RingAssoc(R, x, a, Mul(R, y, b));
    }
  }

  /** (g^m)^n = g^(m n) */
  lemma {:induction false} RPowRPow<T(!new)>(R: Ops<T>, g: T, m: nat, n: nat)
    requires IsRing(R)
    ensures RPow(R, RPow(R, g, m), n) == RPow(R, g, m * n)
    decreases n
  {
    hide IsRing;
    if n > 0 {
      RPowRPow(R, g, m, n - 1);
      assert m * n == m + m * (n - 1) && m * (n - 1) >= 0;
      RPowAdd(R, g, m, m * (n - 1));
    }
  }

  ghost predicate Tower<T>(R: Ops<T>, w: int -> T, k: nat) {
    if k == 0 then w(1) == R.one
    else if k == 1 then w(2) == Neg(R, R.one) && w(1) == R.one
    else Mul(R, w(Pow2(k)), w(Pow2(k))) == w(Pow2(k - 1)) && Tower(R, w, k - 1)
  }

  /** Every root of the tower is the square of the next one. */
  lemma TowerStep<T(!new)>(R: Ops<T>, w: int -> T, k: nat)
    requires IsRing(R) && Tower(R, w, k) && k > 0
    ensures Mul(R, w(Pow2(k)), w(Pow2(k))) == w(Pow2(k - 1)) && Tower(R, w, k - 1)
  {
    NegSquare(R, R.one);
    RingOne(R, R.one);
    if k == 1 {
      assert Pow2(1) == 2 && Pow2(0) == 1;
    }
  }

  /** Half way round, the powers of the root reach -1. */
  lemma {:induction false} TowerHalf<T(!new)>(R: Ops<T>, w: int -> T, k: nat)
    requires IsRing(R) && Tower(R, w, k) && k > 0
    ensures RPow(R, w(Pow2(k)), Pow2(k - 1)) == Neg(R, R.one)
  {
    var g := w(Pow2(k));
    if k == 1 {
      assert Pow2(1) == 2 && Pow2(0) == 1;
      RingOne(R, g);
      assert RPow(R, g, 1) == Mul(R, g, RPow(R, g, 0));
    } else {
      TowerStep(R, w, k);
      TowerHalf(R, w, k - 1);
      hide IsRing, RPow, Tower;
      RPowTimes(R, g, g, Pow2(k - 2));
      RPowAdd(R, g, Pow2(k - 2), Pow2(k - 2));
    }
  }

  /** All the way round, they reach 1. */
  lemma TowerFull<T(!new)>(R: Ops<T>, w: int -> T, k: nat)
    requires IsRing(R) && Tower(R, w, k)
    ensures RPow(R, w(Pow2(k)), Pow2(k)) == R.one
  {
    hide RPow;
    RingOne(R, R.one);
    if k == 0 {
      RPowOne(R, 1);
    } else {
      TowerHalf(R, w, k);
      RPowAdd(R, w(Pow2(k)), Pow2(k - 1), Pow2(k - 1));
      NegSquare(R, R.one);
    }
  }

  // ---- the transform, directly and by halves ----------------------------------------------------------

  /** The n values of x at 1, z, z^2, ... */
  function Dft<T>(R: Ops<T>, z: T, x: seq<T>): (v: seq<T>)
    ensures |v| == |x|
  {
    seq(|x|, i requires 0 <= i < |x| => Eval(R, x, RPow(R, z, i)))
  }

  lemma DftAt<T>(R: Ops<T>, z: T, x: seq<T>, i: nat)
    requires i < |x|
    ensures Dft(R, z, x)[i] == Eval(R, x, RPow(R, z, i))
  {
  }

  function Evens<T>(x: seq<T>): (v: seq<T>)
    ensures |v| == |x| / 2
  {
    seq(|x| / 2, i requires 0 <= i < |x| / 2 => x[2 * i])
  }

  function Odds<T>(x: seq<T>): (v: seq<T>)
    ensures |v| == |x| / 2
  {
    seq(|x| / 2, i requires 0 <= i < |x| / 2 => x[2 * i + 1])
  }

  /** x(z) = even(z^2) + z odd(z^2) */
  lemma {:induction false} EvalHalves<T(!new)>(R: Ops<T>, x: seq<T>, z: T)
    requires IsRing(R) && |x| % 2 == 0
    ensures Eval(R, x, z) == Add(R, Eval(R, Evens(x), Mul(R, z, z)), Mul(R, z, Eval(R, Odds(x), Mul(R, z, z))))
    decreases |x|
  {
    if x == [] {
      MulZero(R, z);
      AddZero(R, R.zero);
    } else {
      var zz := Mul(R, z, z);
      assert Evens(x)[1..] == Evens(x[2..]) && Odds(x)[1..] == Odds(x[2..]) && x[1..][1..] == x[2..];
      EvalHalves(R, x[2..], z);
      var e, o := Eval(R, Evens(x[2..]), zz), Eval(R, Odds(x[2..]), zz);
      HalvesStep(R, x[0], x[1], z, e, o);
    }
  }

  /** a + z (b + z (e + z o)) = (a + z^2 e) + z (b + z^2 o) */
  lemma HalvesStep<T(!new)>(R: Ops<T>, a: T, b: T, z: T, e: T, o: T)
    requires IsRing(R)
    ensures Add(R, a, Mul(R, z, Add(R, b, Mul(R, z, Add(R, e, Mul(R, z, o)))))) ==
            Add(R, Add(R, a, Mul(R, Mul(R, z, z), e)), Mul(R, z, Add(R, b, Mul(R, Mul(R, z, z), o))))
  {
    var zo := Mul(R, z, o);
    assert DistribAt(R, z, e, zo);
    RingAssoc(R, z, z, e);
    RingAssoc(R, z, z, o);
    var ze, zzo := Mul(R, z, e), Mul(R, z, zo);
    assert DistribAt(R, z, b, Add(R, ze, zzo)) && DistribAt(R, z, ze, zzo) && DistribAt(R, z, b, zzo);
    var zb, zze, zzzo := Mul(R, z, b), Mul(R, z, ze), Mul(R, z, zzo);
    assert AddAssocAt(R, zb, zze, zzzo) && AddAssocAt(R, zze, zb, zzzo) && AddCommAt(R, zb, zze);
    assert AddAssocAt(R, a, zze, Add(R, zb, zzzo));
  }

  /** The butterflies that join two transforms of half the size: (e + z^i o, e - z^i o). */
  function Wings<T>(R: Ops<T>, z: T, v: seq<T>): (u: seq<T>)
    requires |v| % 2 == 0
    ensures |u| == |v|
  {
    var h := |v| / 2;
    seq(|v|, i requires 0 <= i < |v| =>
      if i < h then Add(R, v[i], Mul(R, v[h + i], RPow(R, z, i)))
      else Sub(R, v[i - h], Mul(R, v[i], RPow(R, z, i - h))))
  }

  lemma WingsAt<T>(R: Ops<T>, z: T, e: seq<T>, o: seq<T>, i: nat)
    requires |e| == |o| && i < |e|
    ensures Wings(R, z, e + o)[i] == Add(R, e[i], Mul(R, o[i], RPow(R, z, i)))
    ensures Wings(R, z, e + o)[|e| + i] == Sub(R, e[i], Mul(R, o[i], RPow(R, z, i)))
  {
    hide RPow, Add, Sub, Mul;
    var v := e + o;
    assert v[i] == e[i] && v[|e| + i] == o[i] && |v| / 2 == |e|;
  }

  function Fft<T>(R: Ops<T>, w: int -> T, k: nat, x: seq<T>): (v: seq<T>)
    requires |x| == Pow2(k)
    ensures |v| == |x|
  {
    if k == 0 then x
    else Wings(R, w(Pow2(k)), Fft(R, w, k - 1, Evens(x)) + Fft(R, w, k - 1, Odds(x)))
  }

  /** The values at z^i and z^(h + i) = -z^i share their halves. */
  lemma WingValues<T(!new)>(R: Ops<T>, w: int -> T, k: nat, x: seq<T>, i: nat)
    requires IsRing(R) && Tower(R, w, k) && k > 0 && |x| == Pow2(k) && i < Pow2(k - 1)
    ensures var z, y := RPow(R, w(Pow2(k)), i), RPow(R, w(Pow2(k - 1)), i);
            var e, o := Eval(R, Evens(x), y), Eval(R, Odds(x), y);
            && Eval(R, x, z) == Add(R, e, Mul(R, o, z))
            && Eval(R, x, RPow(R, w(Pow2(k)), Pow2(k - 1) + i)) == Sub(R, e, Mul(R, o, z))
  {
    hide IsRing, Tower, RPow, Eval, Evens, Odds, Mul, Add, Sub, Neg;
    var z, z' := RPow(R, w(Pow2(k)), i), RPow(R, w(Pow2(k)), Pow2(k - 1) + i);
    HalfTurn(R, w, k, i);
    EvalHalves(R, x, z);
    EvalHalves(R, x, z');
    var y := RPow(R, w(Pow2(k - 1)), i);
    NegatedWing(R, z, Eval(R, Evens(x), y), Eval(R, Odds(x), y));
  }

  /** Half a turn on, a power of the root is negated; both have the same square, a power of the root below. */
  lemma HalfTurn<T(!new)>(R: Ops<T>, w: int -> T, k: nat, i: nat)
    requires IsRing(R) && Tower(R, w, k) && k > 0
    ensures var z, z' := RPow(R, w(Pow2(k)), i), RPow(R, w(Pow2(k)), Pow2(k - 1) + i);
            && z' == Neg(R, z) && Mul(R, z, z) == Mul(R, z', z') == RPow(R, w(Pow2(k - 1)), i)
  {
    hide IsRing, Tower, RPow, Mul;
    var g, h := w(Pow2(k)), Pow2(k - 1);
    TowerStep(R, w, k);
    TowerHalf(R, w, k);
    hide Pow2;
    var z := RPow(R, g, i);
    RPowTimes(R, g, g, i);
    RPowAdd(R, g, h, i);
    NegMul(R, R.one, z);
    RingOne(R, z);
    NegSquare(R, z);
  }

  lemma NegatedWing<T(!new)>(R: Ops<T>, z: T, e: T, o: T)
    requires IsRing(R)
    ensures Mul(R, z, o) == Mul(R, o, z) && Add(R, e, Mul(R, Neg(R, z), o)) == Sub(R, e, Mul(R, o, z))
  {
    NegMul(R, z, o);
    assert MulCommAt(R, z, o) && SubAt(R, e, Mul(R, o, z));
  }

  /** One value of the butterflies on the transforms of the halves. */
  lemma WingJoinsAt<T(!new)>(R: Ops<T>, w: int -> T, k: nat, x: seq<T>, e: seq<T>, o: seq<T>, i: nat)
    requires IsRing(R) && Tower(R, w, k) && k > 0 && |x| == Pow2(k) && |e| == |o| == Pow2(k - 1) && i < Pow2(k - 1)
    requires e == Dft(R, w(Pow2(k - 1)), Evens(x)) && o == Dft(R, w(Pow2(k - 1)), Odds(x))
    ensures Wings(R, w(Pow2(k)), e + o)[i] == Dft(R, w(Pow2(k)), x)[i]
    ensures Wings(R, w(Pow2(k)), e + o)[|e| + i] == Dft(R, w(Pow2(k)), x)[|e| + i]
  {
    hide IsRing, Tower, Eval, RPow, Add, Sub, Mul, Evens, Odds, Wings, Dft;
    WingsAt(R, w(Pow2(k)), e, o, i);
    DftAt(R, w(Pow2(k - 1)), Evens(x), i);
    DftAt(R, w(Pow2(k - 1)), Odds(x), i);
    DftAt(R, w(Pow2(k)), x, i);
    DftAt(R, w(Pow2(k)), x, |e| + i);
    WingValues(R, w, k, x, i);
  }

  /** The butterflies join the transforms of the halves. */
  lemma WingsJoin<T(!new)>(R: Ops<T>, w: int -> T, k: nat, x: seq<T>, e: seq<T>, o: seq<T>)
    requires IsRing(R) && Tower(R, w, k) && k > 0 && |x| == Pow2(k) && |e| == |o| == Pow2(k - 1)
    requires e == Dft(R, w(Pow2(k - 1)), Evens(x)) && o == Dft(R, w(Pow2(k - 1)), Odds(x))
    ensures Wings(R, w(Pow2(k)), e + o) == Dft(R, w(Pow2(k)), x)
  {
    hide IsRing, Tower, Wings, Dft, Evens, Odds;
    var u, v := Wings(R, w(Pow2(k)), e + o), Dft(R, w(Pow2(k)), x);
    forall i | 0 <= i < |e| ensures HalvesAgree(u, v, |e|, i) {
      WingJoinsAt(R, w, k, x, e, o, i);
    }
    SameByHalves(u, v, |e|);
  }

  ghost predicate HalvesAgree<T>(u: seq<T>, v: seq<T>, h: nat, i: nat)
    requires |u| == |v| == 2 * h && i < h
  {
    u[i] == v[i] && u[h + i] == v[h + i]
  }

  lemma SameByHalves<T>(u: seq<T>, v: seq<T>, h: nat)
    requires |u| == |v| == 2 * h && forall i :: 0 <= i < h ==> HalvesAgree(u, v, h, i)
    ensures u == v
  {
    forall i | 0 <= i < |u| ensures u[i] == v[i] {
      assert HalvesAgree(u, v, h, if i < h then i else i - h);
    }
  }

  /** The recursion computes the transform. */
  lemma {:induction false} FftIsDft<T(!new)>(R: Ops<T>, w: int -> T, k: nat, x: seq<T>)
    requires IsRing(R) && Tower(R, w, k) && |x| == Pow2(k)
    ensures Fft(R, w, k, x) == Dft(R, w(Pow2(k)), x)
    decreases k
  {
    hide IsRing, Tower, Eval, RPow, Evens, Odds, Wings;
    if k == 0 {
      EvalOne(R, x[0], RPow(R, w(1), 0));
      assert x == [x[0]];
    } else {
      TowerStep(R, w, k);
      FftIsDft(R, w, k - 1, Evens(x));
      FftIsDft(R, w, k - 1, Odds(x));
      WingsJoin(R, w, k, x, Fft(R, w, k - 1, Evens(x)), Fft(R, w, k - 1, Odds(x)));
    }
  }

  // ---- the inverse ------------------------------------------------------------------------------------

  ghost predicate InverseTowers<T>(R: Ops<T>, w: int -> T, v: int -> T, k: nat) {
    Tower(R, w, k) && Tower(R, v, k) && Mul(R, w(Pow2(k)), v(Pow2(k))) == R.one
  }

  lemma InverseStep<T(!new)>(R: Ops<T>, w: int -> T, v: int -> T, k: nat)
    requires IsRing(R) && InverseTowers(R, w, v, k) && k > 0
    ensures InverseTowers(R, w, v, k - 1)
  {
    TowerStep(R, w, k);
    TowerStep(R, v, k);
    var a, b := w(Pow2(k)), v(Pow2(k));
    RingAssoc(R, a, a, Mul(R, b, b));
    MulSwap(R, a, b, b);
    RingOne(R, b);
  }

  /** (w^i)(v^i) = 1 */
  lemma InversePowers<T(!new)>(R: Ops<T>, w: int -> T, v: int -> T, k: nat, i: nat)
    requires IsRing(R) && InverseTowers(R, w, v, k)
    ensures Mul(R, RPow(R, v(Pow2(k)), i), RPow(R, w(Pow2(k)), i)) == R.one
  {
    RPowTimes(R, v(Pow2(k)), w(Pow2(k)), i);
    assert MulCommAt(R, v(Pow2(k)), w(Pow2(k)));
    RPowOne(R, i);
  }

  /** The even-numbered values of x are the transform of lo + hi. */
  function Sums<T>(R: Ops<T>, x: seq<T>): seq<T>
    requires |x| % 2 == 0
  {
    VAdd(R, x[..|x| / 2], x[|x| / 2..])
  }

  /** The odd-numbered values are the transform of (lo - hi) z^i. */
  function Twists<T>(R: Ops<T>, z: T, x: seq<T>): (v: seq<T>)
    requires |x| % 2 == 0
    ensures |v| == |x| / 2
  {
    var h := |x| / 2;
    seq(h, i requires 0 <= i < h => Mul(R, RPow(R, z, i), Sub(R, x[i], x[h + i])))
  }

  /** Substituting z y for the argument scales coefficient i by z^i. */
  lemma {:induction false} EvalTwist<T(!new)>(R: Ops<T>, p: seq<T>, t: seq<T>, s: T, z: T, y: T)
    requires IsRing(R) && |t| == |p| && forall i :: 0 <= i < |p| ==> t[i] == Mul(R, Mul(R, s, RPow(R, z, i)), p[i])
    ensures Eval(R, t, y) == Mul(R, s, Eval(R, p, Mul(R, z, y)))
    decreases |p|
  {
    if p == [] {
      MulZero(R, s);
    } else {
      var sz, zy := Mul(R, s, z), Mul(R, z, y);
      forall i | 0 <= i < |p| - 1 ensures t[1..][i] == Mul(R, Mul(R, sz, RPow(R, z, i)), p[1..][i]) {
        RingAssoc(R, s, z, RPow(R, z, i));
      }
      EvalTwist(R, p[1..], t[1..], sz, z, y);
      var e := Eval(R, p[1..], zy);
      RingOne(R, s);
      assert DistribAt(R, s, p[0], Mul(R, zy, e));
      calc {
        Mul(R, y, Mul(R, sz, e));
        { MulSwap(R, y, sz, e); RingAssoc(R, s, z, Mul(R, y, e)); RingAssoc(R, z, y, e); }
        Mul(R, s, Mul(R, zy, e));
      }
    }
  }

  lemma EvenValue<T(!new)>(R: Ops<T>, w: int -> T, k: nat, x: seq<T>, i: nat)
    requires IsRing(R) && Tower(R, w, k) && k > 0 && |x| == Pow2(k) && i < Pow2(k - 1)
    ensures Eval(R, x, RPow(R, w(Pow2(k)), 2 * i)) == Eval(R, Sums(R, x), RPow(R, w(Pow2(k - 1)), i))
  {
    hide IsRing, Tower, RPow, Eval;
    var h, z := Pow2(k - 1), RPow(R, w(Pow2(k - 1)), i);
    TowerStep(R, w, k);
    TowerFull(R, w, k - 1);
    assert |x| == 2 * h;
    hide Pow2;
    RPowTimes(R, w(Pow2(k)), w(Pow2(k)), i);
    RPowAdd(R, w(Pow2(k)), i, i);
    RPowRPow(R, w(h), i, h);
    RPowRPow(R, w(h), h, i);
    assert i * h == h * i;
    RPowOne(R, i);
    assert x == x[..h] + x[h..];
    EvalConcat(R, x[..h], x[h..], z);
    RingOne(R, Eval(R, x[h..], z));
    EvalAdd(R, x[..h], x[h..], z);
  }

  lemma OddValue<T(!new)>(R: Ops<T>, w: int -> T, k: nat, x: seq<T>, i: nat)
    requires IsRing(R) && Tower(R, w, k) && k > 0 && |x| == Pow2(k) && i < Pow2(k - 1)
    ensures Eval(R, x, RPow(R, w(Pow2(k)), 2 * i + 1)) ==
            Eval(R, Twists(R, w(Pow2(k)), x), RPow(R, w(Pow2(k - 1)), i))
  {
    hide IsRing, Tower, RPow, Eval, Mul;
    var g, h := w(Pow2(k)), Pow2(k - 1);
    var lo, hi := x[..h], x[h..];
    var d, y := VSub(R, lo, hi), RPow(R, w(h), i);
    var z := Mul(R, g, y);
    forall j | 0 <= j < h
      ensures Twists(R, g, x)[j] == Mul(R, Mul(R, R.one, RPow(R, g, j)), d[j])
    {
      RingOne(R, RPow(R, g, j));
    }
    EvalTwist(R, d, Twists(R, g, x), R.one, g, y);
    RingOne(R, Eval(R, d, z));
    OddPower(R, w, k, i);
    hide Twists, Pow2, VSub;
    assert x == lo + hi;
    EvalConcat(R, lo, hi, z);
    VSubAdd(R, lo, hi);
    EvalScale(R, Neg(R, R.one), hi, z);
    EvalAdd(R, lo, VScale(R, Neg(R, R.one), hi), z);
  }

  /** An odd power of the root is the root times a power of the one below, and its h-th power is -1. */
  lemma OddPower<T(!new)>(R: Ops<T>, w: int -> T, k: nat, i: nat)
    requires IsRing(R) && Tower(R, w, k) && k > 0 && i < Pow2(k - 1)
    ensures var z := Mul(R, w(Pow2(k)), RPow(R, w(Pow2(k - 1)), i));
            RPow(R, w(Pow2(k)), 2 * i + 1) == z && RPow(R, z, Pow2(k - 1)) == Neg(R, R.one)
  {
    var g, h := w(Pow2(k)), Pow2(k - 1);
    var y := RPow(R, w(h), i);
    TowerStep(R, w, k);
    TowerFull(R, w, k - 1);
    TowerHalf(R, w, k);
    assert RPow(R, g, 2 * i + 1) == Mul(R, g, RPow(R, g, 2 * i));
    hide Tower, RPow;
    RPowTimes(R, g, g, i);
    RPowAdd(R, g, i, i);
    RPowTimes(R, g, y, h);
    RPowRPow(R, w(h), i, h);
    RPowRPow(R, w(h), h, i);
    assert i * h == h * i;
    RPowOne(R, i);
    RingOne(R, Neg(R, R.one));
  }

  /** The transforms of even and odd values, taken apart. */
  lemma DftHalves<T(!new)>(R: Ops<T>, w: int -> T, k: nat, x: seq<T>)
    requires IsRing(R) && Tower(R, w, k) && k > 0 && |x| == Pow2(k)
    ensures Evens(Dft(R, w(Pow2(k)), x)) == Dft(R, w(Pow2(k - 1)), Sums(R, x))
    ensures Odds(Dft(R, w(Pow2(k)), x)) == Dft(R, w(Pow2(k - 1)), Twists(R, w(Pow2(k)), x))
  {
    hide IsRing, Tower, Eval, RPow, Twists, VAdd;
    forall i | 0 <= i < Pow2(k - 1)
      ensures Evens(Dft(R, w(Pow2(k)), x))[i] == Dft(R, w(Pow2(k - 1)), Sums(R, x))[i]
      ensures Odds(Dft(R, w(Pow2(k)), x))[i] == Dft(R, w(Pow2(k - 1)), Twists(R, w(Pow2(k)), x))[i]
    {
      EvenValue(R, w, k, x, i);
      OddValue(R, w, k, x, i);
    }
  }

  /** The inverse transform without its scaling undoes the transform, up to the factor 2^k. */
  lemma {:induction false} FftInverts<T(!new)>(R: Ops<T>, w: int -> T, v: int -> T, k: nat, x: seq<T>)
    requires IsRing(R) && InverseTowers(R, w, v, k) && |x| == Pow2(k)
    ensures Fft(R, v, k, Fft(R, w, k, x)) == VScale(R, TwoPow(R, k), x)
    decreases k
  {
    hide IsRing, Tower, RPow, Dft, Add, Sub, Mul, Evens, Odds;
    if k == 0 {
      VScaleOne(R, x);
    } else {
      var x1, s, t := Fft(R, w, k, x), Sums(R, x), Twists(R, w(Pow2(k)), x);
      InverseStep(R, w, v, k);
      FftInverts(R, w, v, k - 1, s);
      FftInverts(R, w, v, k - 1, t);
      assert Fft(R, v, k, x1) == Wings(R, v(Pow2(k)), Fft(R, v, k - 1, Evens(x1)) + Fft(R, v, k - 1, Odds(x1)));
      FftHalves(R, w, k, x);
      hide Fft, InverseTowers, Wings, Pow2, TwoPow;
      UntwistAll(R, w, v, k, x);
    }
  }

  /** The halves of a transform are the transforms of lo + hi and of (lo - hi) z^i. */
  lemma FftHalves<T(!new)>(R: Ops<T>, w: int -> T, k: nat, x: seq<T>)
    requires IsRing(R) && Tower(R, w, k) && k > 0 && |x| == Pow2(k)
    ensures Evens(Fft(R, w, k, x)) == Fft(R, w, k - 1, Sums(R, x))
    ensures Odds(Fft(R, w, k, x)) == Fft(R, w, k - 1, Twists(R, w(Pow2(k)), x))
  {
    hide IsRing, Tower, Dft, Fft, Evens, Odds, VAdd, Twists, Eval, RPow;
    var s, t := Sums(R, x), Twists(R, w(Pow2(k)), x);
    assert |s| == |t| == Pow2(k - 1);
    hide Sums, Pow2;
    TowerStep(R, w, k);
    DftHalves(R, w, k, x);
    FftIsDft(R, w, k, x);
    FftIsDft(R, w, k - 1, s);
    FftIsDft(R, w, k - 1, t);
  }

  lemma UntwistAll<T(!new)>(R: Ops<T>, w: int -> T, v: int -> T, k: nat, x: seq<T>)
    requires IsRing(R) && InverseTowers(R, w, v, k) && k > 0 && |x| == Pow2(k)
    ensures var c := TwoPow(R, k - 1);
            Wings(R, v(Pow2(k)), VScale(R, c, Sums(R, x)) + VScale(R, c, Twists(R, w(Pow2(k)), x))) ==
                VScale(R, TwoPow(R, k), x)
  {
    hide IsRing, InverseTowers, RPow, TwoPow, Add, Sub, Mul, Wings;
    var c, h := TwoPow(R, k - 1), Pow2(k - 1);
    assert |x| == 2 * h;
    hide Pow2;
    var e, o := VScale(R, c, Sums(R, x)), VScale(R, c, Twists(R, w(Pow2(k)), x));
    forall i | 0 <= i < |x| ensures Wings(R, v(Pow2(k)), e + o)[i] == VScale(R, TwoPow(R, k), x)[i] {
      var j := if i < h then i else i - h;
      WingsAt(R, v(Pow2(k)), e, o, j);
      InversePowers(R, w, v, k, j);
      Untwist(R, k, x[j], x[h + j], RPow(R, w(Pow2(k)), j), RPow(R, v(Pow2(k)), j));
    }
  }

  /** c (a + b) + (c (w (a - b))) v = 2c a and c (a + b) - (c (w (a - b))) v = 2c b, when v w = 1. */
  lemma Untwist<T(!new)>(R: Ops<T>, k: nat, a: T, b: T, w: T, v: T)
    requires IsRing(R) && k > 0 && Mul(R, v, w) == R.one
    ensures var c := TwoPow(R, k - 1);
            var s, t := Mul(R, c, Add(R, a, b)), Mul(R, Mul(R, c, Mul(R, w, Sub(R, a, b))), v);
            Add(R, s, t) == Mul(R, TwoPow(R, k), a) && Sub(R, s, t) == Mul(R, TwoPow(R, k), b)
  {
    var c, d := TwoPow(R, k - 1), Sub(R, a, b);
    var s, t := Mul(R, c, Add(R, a, b)), Mul(R, Mul(R, c, Mul(R, w, d)), v);
    calc {
      t;
      { assert MulCommAt(R, Mul(R, c, Mul(R, w, d)), v); MulSwap(R, v, c, Mul(R, w, d)); }
      Mul(R, c, Mul(R, v, Mul(R, w, d)));
      { RingAssoc(R, v, w, d); RingOne(R, d); }
      Mul(R, c, d);
    }
    assert DistribAt(R, c, Add(R, a, b), d);
    MulSub(R, c, Add(R, a, b), d);
    Crossed(R, a, b);
    TwoMul(R, Mul(R, c, a));
    TwoMul(R, Mul(R, c, b));
    assert DistribAt(R, c, a, a) && DistribAt(R, c, b, b);
    RingAssoc(R, Two(R), c, a);
    RingAssoc(R, Two(R), c, b);
  }

  /** (a + b) + (a - b) = 2a and (a + b) - (a - b) = 2b */
  lemma Crossed<T(!new)>(R: Ops<T>, a: T, b: T)
    requires IsRing(R)
    ensures Add(R, Add(R, a, b), Sub(R, a, b)) == Add(R, a, a)
    ensures Sub(R, Add(R, a, b), Sub(R, a, b)) == Add(R, b, b)
  {
    var n := Neg(R, b);
    SumDiff(R, a, b);
    assert SubAt(R, Add(R, a, b), Sub(R, a, b)) && SubAt(R, a, b);
    NegAdd(R, a, n);
    NegNeg(R, b);
    AddSwap(R, a, b, Neg(R, a), b);
    assert ZeroAt(R, a) && ZeroAt(R, Add(R, b, b));
  }

  // ---- convolution --------------------------------------------------------------------------------------

  /** x b(x) at an n-th root of c. */
  lemma EvalShift<T(!new)>(R: Ops<T>, c: T, b: seq<T>, z: T)
    requires IsRing(R) && RPow(R, z, |b|) == c
    ensures Eval(R, Shift(R, c, b), z) == Mul(R, z, Eval(R, b, z))
  {
    var n := |b|;
    if n == 0 {
      MulZero(R, z);
    } else {
      var init, top := b[..n - 1], b[n - 1];
      var e, zn := Eval(R, init, z), RPow(R, z, n - 1);
      assert b == init + [top];
      EvalConcat(R, init, [top], z);
      EvalOne(R, top, z);
      assert Shift(R, c, b)[1..] == init && Shift(R, c, b)[0] == Mul(R, c, top);
      assert DistribAt(R, z, e, Mul(R, zn, top)) && AddCommAt(R, Mul(R, c, top), Mul(R, z, e));
      RingAssoc(R, z, zn, top);
    }
  }

  /** Evaluation at an n-th root of c respects products modulo x^n - c. */
  lemma {:induction false} EvalAct<T(!new)>(R: Ops<T>, c: T, p: seq<T>, b: seq<T>, z: T)
    requires IsRing(R) && RPow(R, z, |b|) == c
    ensures Eval(R, Act(R, c, p, b), z) == Mul(R, Eval(R, p, z), Eval(R, b, z))
    decreases |p|
  {
    hide RPow;
    var e := Eval(R, b, z);
    if p == [] {
      EvalZeros(R, |b|, z);
      MulZero(R, e);
    } else {
      var r, q := Act(R, c, p[1..], b), Eval(R, p[1..], z);
      EvalAct(R, c, p[1..], b, z);
      EvalAdd(R, VScale(R, p[0], b), Shift(R, c, r), z);
      EvalScale(R, p[0], b, z);
      EvalShift(R, c, r, z);
      DistribRight(R, p[0], Mul(R, z, q), e);
      RingAssoc(R, z, q, e);
    }
  }

  /** The convolution theorem. */
  lemma Convolution<T(!new)>(R: Ops<T>, z: T, a: seq<T>, b: seq<T>)
    requires IsRing(R) && |a| == |b| && RPow(R, z, |b|) == R.one
    ensures Dft(R, z, Act(R, R.one, a, b)) == VMul(R, Dft(R, z, a), Dft(R, z, b))
  {
    hide Eval, RPow, Act, IsRing, Mul;
    forall i | 0 <= i < |b|
      ensures Dft(R, z, Act(R, R.one, a, b))[i] == VMul(R, Dft(R, z, a), Dft(R, z, b))[i]
    {
      RPowRPow(R, z, i, |b|);
      RPowRPow(R, z, |b|, i);
      assert i * |b| == |b| * i;
      RPowOne(R, i);
      EvalAct(R, R.one, a, b, RPow(R, z, i));
    }
  }

  /** Circular convolution: out[k] = sum over j of a[j] b[(k - j) mod n]. */
  function Circular<T>(R: Ops<T>, a: seq<T>, b: seq<T>): (v: seq<T>)
    requires |a| == |b|
    ensures |v| == |b|
  {
    seq(|b|, k requires 0 <= k < |b| => CircularSum(R, a, b, k, |b|))
  }

  /** The first m terms of the sum for position k. */
  function CircularSum<T>(R: Ops<T>, a: seq<T>, b: seq<T>, k: int, m: nat): T
    requires |a| == |b| && m <= |a|
    decreases m
  {
    if m == 0 then R.zero
    else Add(R, CircularSum(R, a, b, k, m - 1), Mul(R, a[m - 1], b[(k - (m - 1)) % |b|]))
  }

  lemma {:induction false} CircularPrefix<T(!new)>(R: Ops<T>, a: seq<T>, b: seq<T>, k: nat, m: nat)
    requires IsRing(R) && |a| == |b| && m <= |a| && k < |b|
    ensures CircularSum(R, a, b, k, m) == Act(R, R.one, a[..m], b)[k]
    decreases m
  {
    hide IsRing, Act, Mul, Add;
    if m > 0 {
      CircularPrefix(R, a, b, k, m - 1);
      Around(k - (m - 1), |b|);
      CircularTerm(R, a, b, k, m - 1, (k - (m - 1)) % |b|);
    } else {
      NoTerms(R, a[..0], b, k);
    }
  }

  lemma NoTerms<T>(R: Ops<T>, p: seq<T>, b: seq<T>, k: nat)
    requires p == [] && k < |b|
    ensures Act(R, R.one, p, b)[k] == R.zero
  {
  }

  lemma CircularTerm<T(!new)>(R: Ops<T>, a: seq<T>, b: seq<T>, k: nat, j: nat, i: nat)
    requires IsRing(R) && j < |a| == |b| && k < |b| && i == if k < j then |b| + k - j else k - j
    ensures Act(R, R.one, a[..j + 1], b)[k] == Add(R, Act(R, R.one, a[..j], b)[k], Mul(R, a[j], b[i]))
  {
    hide IsRing, ShiftN, Act, Mul, Add, VAdd, VScale;
    var p, x := a[..j], a[j];
    assert a[..j + 1] == p + [x];
    ActConcat(R, R.one, p, [x], b);
    ActSingle(R, R.one, x, b);
    ShiftNAt(R, R.one, j, VScale(R, x, b), k);
    ScaledAt(R, x, b, i);
    RingOne(R, Mul(R, x, b[i]));
    SumAt(R, Act(R, R.one, p, b), ShiftN(R, R.one, j, VScale(R, x, b)), k);
  }

  lemma ScaledAt<T>(R: Ops<T>, x: T, b: seq<T>, i: nat)
    requires i < |b|
    ensures VScale(R, x, b)[i] == Mul(R, x, b[i])
  {
  }

  lemma SumAt<T>(R: Ops<T>, u: seq<T>, v: seq<T>, k: nat)
    requires |u| == |v| && k < |u|
    ensures VAdd(R, u, v)[k] == Add(R, u[k], v[k])
  {
  }

  lemma Around(d: int, n: int)
    requires -n < d < n
    ensures d % n == if d < 0 then d + n else d
  {
  }

  /** Multiplication modulo x^n - 1 is circular convolution. */
  lemma ActIsCircular<T(!new)>(R: Ops<T>, a: seq<T>, b: seq<T>)
    requires IsRing(R) && |a| == |b|
    ensures Act(R, R.one, a, b) == Circular(R, a, b)
  {
    assert a[..|b|] == a;
    forall k | 0 <= k < |b| ensures Act(R, R.one, a, b)[k] == Circular(R, a, b)[k] {
      CircularPrefix(R, a, b, k, |b|);
    }
  }
}
