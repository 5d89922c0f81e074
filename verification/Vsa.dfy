/** Binding hypervectors by circular convolution through the transform, and exactly when that works. */
module Vsa {
  import opened Rings
  import opened Vectors
  import opened QuotientRing
  import opened Transform
  import opened RootTables
  import opened Fourier
  import opened FftLoops

  // ---- padding -----------------------------------------------------------------------------------------

  function PaddedLog(n: nat): nat {
    if n <= 1 then 0 else 1 + PaddedLog((n + 1) / 2)
  }

  /** The least power of two that is at least n, and at least 1. */
  function Padded(n: nat): nat { Pow2(PaddedLog(n)) }

  lemma {:induction false} PaddedLeast(n: nat, k: nat)
    ensures n <= Padded(n)
    ensures n <= Pow2(k) ==> PaddedLog(n) <= k
    decreases n
  {
    if n > 1 {
      PaddedLeast((n + 1) / 2, if k > 0 then k - 1 else 0);
    }
  }

  function Pad<T>(R: Ops<T>, k: nat, a: seq<T>): (x: seq<T>)
    requires |a| <= Pow2(k)
    ensures |x| == Pow2(k)
  {
    a + Zeros(R, Pow2(k) - |a|)
  }

  // ---- bind ----------------------------------------------------------------------------------------------

  /** The spectrum that is transformed back: only the first m coefficients have been multiplied. */
  function Product<T>(R: Ops<T>, m: nat, x: seq<T>, y: seq<T>): (u: seq<T>)
    requires m <= |x| && m <= |y|
    ensures |u| == |x|
  {
    seq(|x|, i requires 0 <= i < |x| => if i < m then Mul(R, x[i], y[i]) else x[i])
  }

  /** What bind returns with scratch buffers of 2^ka and 2^kb elements. */
  function Bound<T>(R: Ops<T>, w: int -> T, v: int -> T, inv: T, ka: nat, kb: nat, a: seq<T>, b: seq<T>): (u: seq<T>)
    requires |a| == |b| && Padded(|a|) <= Pow2(ka) && Padded(|a|) <= Pow2(kb)
    ensures |u| == |a|
  {
    PaddedLeast(|a|, 0);
    var x, y := Fft(R, w, ka, Pad(R, ka, a)), Fft(R, w, kb, Pad(R, kb, b));
    Scaled(R, true, inv, ka, Fft(R, v, ka, Product(R, Padded(|a|), x, y)))[..|a|]
  }

  /** Clears a buffer and copies the vector in. */
  method Load<T(!new)>(R: Ops<T>, a: seq<T>, scratch: array<T>, ghost k: nat)
    requires scratch.Length == Pow2(k) && |a| <= scratch.Length
    modifies scratch
    ensures scratch[..] == Pad(R, k, a)
  {
    var i := 0;
    while i < scratch.Length
      invariant 0 <= i <= scratch.Length
      invariant forall t :: 0 <= t < i ==> scratch[t] == R.zero
    {
      scratch[i] := R.zero;
      i := i + 1;
    }
    i := 0;
    while i < |a|
      invariant 0 <= i <= |a|
      invariant forall t :: 0 <= t < scratch.Length ==> scratch[t] == if t < i then a[t] else R.zero
    {
      scratch[i] := a[i];
      i := i + 1;
    }
  }

  method Bind<T(!new)>(R: Ops<T>, w: int -> T, v: int -> T, inv: T, a: seq<T>, b: seq<T>, out: array<T>,
                       scratchA: array<T>, scratchB: array<T>, ghost ka: nat, ghost kb: nat)
    requires IsRing(R) && |a| == |b| == out.Length
    requires scratchA.Length == Pow2(ka) && scratchB.Length == Pow2(kb)
    requires Padded(|a|) <= scratchA.Length && Padded(|a|) <= scratchB.Length
    requires out != scratchA && out != scratchB && scratchA != scratchB
    modifies out, scratchA, scratchB
    ensures out[..] == Bound(R, w, v, inv, ka, kb, a, b)
  {
    hide IsRing, Fft, Scaled;
    PaddedLeast(|a|, 0);
    Load(R, a, scratchA, ka);
    Load(R, b, scratchB, kb);
    FftInPlace(R, w, false, inv, scratchA, ka);
    FftInPlace(R, w, false, inv, scratchB, kb);
    ghost var x, y := Fft(R, w, ka, Pad(R, ka, a)), Fft(R, w, kb, Pad(R, kb, b));
    NoScaling(R, inv, ka, x);
    NoScaling(R, inv, kb, y);
    var m, i := Padded(|a|), 0;
    while i < m
      invariant 0 <= i <= m && scratchB[..] == y
      invariant scratchA[..] == Product(R, i, x, y)
    {
      scratchA[i] := Mul(R, scratchA[i], scratchB[i]);
      i := i + 1;
    }
    FftInPlace(R, v, true, inv, scratchA, ka);
    i := 0;
    while i < |a|
      invariant 0 <= i <= |a| && out[..i] == scratchA[..i]
      invariant scratchA[..] == Scaled(R, true, inv, ka, Fft(R, v, ka, Product(R, m, x, y)))
    {
      out[i] := scratchA[i];
      i := i + 1;
    }
  }

  lemma NoScaling<T>(R: Ops<T>, inv: T, k: nat, x: seq<T>)
    ensures Scaled(R, false, inv, k, x) == x
  {
  }

  // ---- when bind is circular convolution --------------------------------------------------------------------

  /** The unit vector that is 1 at position j. */
  function Spike<T>(R: Ops<T>, n: nat, j: nat): (v: seq<T>)
    ensures |v| == n
  {
    seq(n, i => if i == j then R.one else R.zero)
  }

  lemma {:induction false} SpikeValue<T(!new)>(R: Ops<T>, n: nat, j: nat, z: T)
    requires IsRing(R) && j < n
    ensures Eval(R, Spike(R, n, j), z) == RPow(R, z, j)
    decreases j
  {
    var s := Spike(R, n, j);
    if j == 0 {
      assert s[1..] == Zeros(R, n - 1);
      EvalZeros(R, n - 1, z);
      MulZero(R, z);
      AddZero(R, R.one);
    } else {
      assert s[1..] == Spike(R, n - 1, j - 1);
      SpikeValue(R, n - 1, j - 1, z);
      AddZero(R, Mul(R, z, RPow(R, z, j - 1)));
    }
  }

  /** Convolution with a unit vector rotates. */
  lemma {:induction false} SpikeRotates<T(!new)>(R: Ops<T>, n: nat, j: nat, b: seq<T>, k: nat, m: nat)
    requires IsRing(R) && |b| == n && j < n && k < n && m <= n
    ensures CircularSum(R, Spike(R, n, j), b, k, m) == if j < m then b[(k - j) % n] else R.zero
    decreases m
  {
    if m > 0 {
      SpikeRotates(R, n, j, b, k, m - 1);
      var x := b[(k - (m - 1)) % n];
      RingOne(R, x);
      MulZero(R, x);
      AddZero(R, R.zero);
      AddZero(R, x);
      AddZero(R, b[(k - j) % n]);
    }
  }

  /** The powers of two are distinct in the ring, as they are in every field of characteristic 0. */
  ghost predicate PowersDistinct<T>(R: Ops<T>) {
    forall i: nat, j: nat :: i < j ==> DistinctAt(R, i, j)
  }

  ghost predicate DistinctAt<T>(R: Ops<T>, i: nat, j: nat) { TwoPow(R, i) != TwoPow(R, j) }

  lemma Nontrivial<T(!new)>(R: Ops<T>)
    requires IsRing(R) && PowersDistinct(R)
    ensures R.one != R.zero && Neg(R, R.one) != R.one
  {
    assert DistinctAt(R, 0, 1) && DistinctAt(R, 1, 2);
    assert TwoPow(R, 1) == Mul(R, Two(R), R.one) && TwoPow(R, 2) == Mul(R, Two(R), TwoPow(R, 1));
    TwoMul(R, R.one);
    MulZero(R, Two(R));
    assert ZeroAt(R, R.one);
  }

  /** Everything a call fixes besides the two vectors. */
  ghost predicate Setting<T(!new)>(R: Ops<T>, w: int -> T, v: int -> T, inv: T, ka: nat, kb: nat) {
    && IsRing(R) && PowersDistinct(R)
    && InverseTowers(R, w, v, ka) && Tower(R, w, kb)
    && Mul(R, inv, TwoPow(R, ka)) == R.one
  }

  ghost predicate BindsAt<T>(R: Ops<T>, w: int -> T, v: int -> T, inv: T, ka: nat, kb: nat, n: nat, a: seq<T>,
      b: seq<T>)
    requires Padded(n) <= Pow2(ka) && Padded(n) <= Pow2(kb)
  {
    |a| == |b| == n ==> Bound(R, w, v, inv, ka, kb, a, b) == Circular(R, a, b)
  }

  /** The scratch buffers must be exactly as long as the vectors, and so a power of two long. */
  predicate Fits(n: nat, ka: nat, kb: nat) {
    n == 0 || (Pow2(ka) == n && (Pow2(kb) == n || n == 1))
  }

  /** Buffers of the right length. */
  lemma BindsWhenEqual<T(!new)>(R: Ops<T>, w: int -> T, v: int -> T, inv: T, k: nat, a: seq<T>, b: seq<T>)
    requires Setting(R, w, v, inv, k, k) && |a| == |b| == Pow2(k)
    ensures PaddedLog(|a|) == k && Bound(R, w, v, inv, k, k, a, b) == Circular(R, a, b)
  {
    hide IsRing, InverseTowers, PowersDistinct, Tower, Fft, Scaled, Circular, Act, PaddedLog, Product;
    PaddedLeast(|a|, k);
    PowersGrow(PaddedLog(|a|), k);
    assert Pad(R, k, a) == a && Pad(R, k, b) == b;
    TowersOf(R, w, v, k);
    SpectrumOfProduct(R, w, k, a, b);
    RoundTrip(R, w, v, inv, k, Act(R, R.one, a, b));
    ActIsCircular(R, a, b);
  }

  lemma TowersOf<T(!new)>(R: Ops<T>, w: int -> T, v: int -> T, k: nat)
    requires InverseTowers(R, w, v, k)
    ensures Tower(R, w, k) && Tower(R, v, k)
  {
    hide Tower;
  }

  /** The product of two spectra of full length is the spectrum of the product. */
  lemma SpectrumOfProduct<T(!new)>(R: Ops<T>, w: int -> T, k: nat, a: seq<T>, b: seq<T>)
    requires IsRing(R) && Tower(R, w, k) && |a| == |b| == Pow2(k)
    ensures Product(R, Pow2(k), Fft(R, w, k, a), Fft(R, w, k, b)) == Fft(R, w, k, Act(R, R.one, a, b))
  {
    hide IsRing, Tower, Fft, Dft, RPow, Act, Mul;
    var z := w(Pow2(k));
    TowerFull(R, w, k);
    FftIsDft(R, w, k, a);
    FftIsDft(R, w, k, b);
    FftIsDft(R, w, k, Act(R, R.one, a, b));
    Convolution(R, z, a, b);
    assert Product(R, Pow2(k), Dft(R, z, a), Dft(R, z, b)) == VMul(R, Dft(R, z, a), Dft(R, z, b));
  }

  /** The first element that comes back is the mean of the spectrum. */
  lemma FirstBack<T(!new)>(R: Ops<T>, v: int -> T, inv: T, k: nat, u: seq<T>)
    requires IsRing(R) && Tower(R, v, k) && Mul(R, inv, TwoPow(R, k)) == R.one && |u| == Pow2(k)
    ensures Scaled(R, true, inv, k, Fft(R, v, k, u))[0] == Mul(R, inv, Eval(R, u, R.one))
  {
    FastMatchesOracle(R, v, true, inv, k, u);
    assert RPow(R, v(Pow2(k)), 0) == R.one;
    hide IsRing, Eval, Fft, RPow, Tower;
    DftAt(R, v(Pow2(k)), u, 0);
  }

  lemma FirstOfBound<T(!new)>(R: Ops<T>, w: int -> T, v: int -> T, inv: T, ka: nat, kb: nat, a: seq<T>, b: seq<T>)
    requires Setting(R, w, v, inv, ka, kb) && |a| == |b| > 0 && Padded(|a|) <= Pow2(ka) && Padded(|a|) <= Pow2(kb)
    requires |a| <= Pow2(ka) && |a| <= Pow2(kb)
    ensures var x, y := Fft(R, w, ka, Pad(R, ka, a)), Fft(R, w, kb, Pad(R, kb, b));
            Bound(R, w, v, inv, ka, kb, a, b)[0] == Mul(R, inv, Eval(R, Product(R, Padded(|a|), x, y), R.one))
    ensures Circular(R, a, b)[0] == CircularSum(R, a, b, 0, |b|)
  {
    hide Fft, IsRing, Tower, PowersDistinct, Eval, RPow, Scaled, PaddedLog, CircularSum, TwoPow, Product, Pad;
    var x, y := Fft(R, w, ka, Pad(R, ka, a)), Fft(R, w, kb, Pad(R, kb, b));
    FirstBack(R, v, inv, ka, Product(R, Padded(|a|), x, y));
  }

  /** A mean of 0 needs a sum of 0. */
  lemma MeanZero<T(!new)>(R: Ops<T>, inv: T, k: nat, s: T)
    requires IsRing(R) && Mul(R, inv, TwoPow(R, k)) == R.one && Mul(R, inv, s) == R.zero
    ensures s == R.zero
  {
    var p := TwoPow(R, k);
    MulSwap(R, p, inv, s);
    MulZero(R, p);
    RingAssoc(R, inv, p, s);
    RingOne(R, s);
  }

  lemma PadSpike<T>(R: Ops<T>, n: nat, k: nat, j: nat)
    requires j < n <= Pow2(k)
    ensures Pad(R, k, Spike(R, n, j)) == Spike(R, Pow2(k), j)
  {
  }

  /** The transform of the unit vector at 0 is 1 everywhere, and at 1 it is the powers of the root. */
  lemma SpikeSpectrum<T(!new)>(R: Ops<T>, w: int -> T, k: nat, j: nat, i: nat)
    requires IsRing(R) && Tower(R, w, k) && j < Pow2(k) && i < Pow2(k)
    ensures Fft(R, w, k, Spike(R, Pow2(k), j))[i] == RPow(R, RPow(R, w(Pow2(k)), i), j)
  {
    hide IsRing, Tower, Eval, Fft, RPow;
    var s := Spike(R, Pow2(k), j);
    FftIsDft(R, w, k, s);
    DftAt(R, w(Pow2(k)), s, i);
    SpikeValue(R, Pow2(k), j, RPow(R, w(Pow2(k)), i));
  }

  function Ones<T>(R: Ops<T>, n: nat): (v: seq<T>)
    ensures |v| == n
  {
    seq(n, i => R.one)
  }

  lemma {:induction false} OnesConcat<T>(R: Ops<T>, m: nat, n: nat)
    ensures Ones(R, m) + Ones(R, n) == Ones(R, m + n)
  {
  }

  /** 2^k ones add up to the ring's 2^k. */
  lemma {:induction false} OnesSum<T(!new)>(R: Ops<T>, k: nat)
    requires IsRing(R)
    ensures Eval(R, Ones(R, Pow2(k)), R.one) == TwoPow(R, k)
  {
    if k == 0 {
      assert Ones(R, 1) == [R.one];
      EvalOne(R, R.one, R.one);
    } else {
      var h := Ones(R, Pow2(k - 1));
      OnesSum(R, k - 1);
      OnesConcat(R, Pow2(k - 1), Pow2(k - 1));
      assert Ones(R, Pow2(k)) == h + h;
      EvalConcat(R, h, h, R.one);
      RPowOne(R, |h|);
      RingOne(R, TwoPow(R, k - 1));
      TwoMul(R, TwoPow(R, k - 1));
    }
  }

  lemma OnesSpectrum<T(!new)>(R: Ops<T>, w: int -> T, k: nat, i: nat)
    requires IsRing(R) && Tower(R, w, k) && i < Pow2(k)
    ensures Fft(R, w, k, Spike(R, Pow2(k), 0))[i] == R.one
  {
    hide IsRing, Tower, Fft;
    SpikeSpectrum(R, w, k, 0, i);
  }

  lemma ZeroSpectrum<T(!new)>(R: Ops<T>, w: int -> T, k: nat, n: nat, i: nat)
    requires IsRing(R) && Tower(R, w, k) && n <= Pow2(k) && i < Pow2(k)
    ensures Fft(R, w, k, Pad(R, k, Zeros(R, n)))[i] == R.zero
  {
    hide IsRing, Tower, Fft, Eval, RPow;
    var x := Zeros(R, Pow2(k));
    assert Pad(R, k, Zeros(R, n)) == x;
    FftIsDft(R, w, k, x);
    DftAt(R, w(Pow2(k)), x, i);
    EvalZeros(R, Pow2(k), RPow(R, w(Pow2(k)), i));
  }

  /** m zeros and 2^k - m ones add up to 0 only if m = 2^p and 2^k are equal in the ring. */
  lemma TailSum<T(!new)>(R: Ops<T>, p: nat, k: nat)
    requires IsRing(R) && Pow2(p) <= Pow2(k)
    requires Eval(R, Zeros(R, Pow2(p)) + Ones(R, Pow2(k) - Pow2(p)), R.one) == R.zero
    ensures TwoPow(R, p) == TwoPow(R, k)
  {
    hide IsRing, Eval, RPow, TwoPow;
    var m, rest := Pow2(p), Ones(R, Pow2(k) - Pow2(p));
    var s := Eval(R, rest, R.one);
    EvalConcat(R, Zeros(R, m), rest, R.one);
    EvalConcat(R, Ones(R, m), rest, R.one);
    EvalZeros(R, m, R.one);
    RPowOne(R, m);
    RingOne(R, s);
    AddZero(R, s);
    OnesConcat(R, m, Pow2(k) - m);
    OnesSum(R, p);
    OnesSum(R, k);
    AddZero(R, TwoPow(R, p));
  }

  lemma FirstSpectrum<T(!new)>(R: Ops<T>, w: int -> T, ka: nat, kb: nat, n: nat, m: nat)
    requires IsRing(R) && Tower(R, w, ka) && Tower(R, w, kb) && 0 < n <= m <= Pow2(ka) && m <= Pow2(kb)
    ensures Product(R, m, Fft(R, w, ka, Pad(R, ka, Spike(R, n, 0))), Fft(R, w, kb, Pad(R, kb, Zeros(R, n)))) ==
            Zeros(R, m) + Ones(R, Pow2(ka) - m)
  {
    hide Fft, IsRing, Tower, Mul, Pad, Spike;
    var x, y := Fft(R, w, ka, Pad(R, ka, Spike(R, n, 0))), Fft(R, w, kb, Pad(R, kb, Zeros(R, n)));
    PadSpike(R, n, ka, 0);
    MulZero(R, R.one);
    forall i | 0 <= i < Pow2(ka) ensures Product(R, m, x, y)[i] == (Zeros(R, m) + Ones(R, Pow2(ka) - m))[i] {
      OnesSpectrum(R, w, ka, i);
      if i < m { ZeroSpectrum(R, w, kb, n, i); }
    }
  }

  /** A first buffer longer than the padding: binding with zero does not give zero. */
  lemma FirstTooLong<T(!new)>(R: Ops<T>, w: int -> T, v: int -> T, inv: T, ka: nat, kb: nat, n: nat)
    requires Setting(R, w, v, inv, ka, kb) && n > 0
    requires Padded(n) < Pow2(ka) && Padded(n) <= Pow2(kb)
    ensures !BindsAt(R, w, v, inv, ka, kb, n, Spike(R, n, 0), Zeros(R, n))
  {
    hide Fft, IsRing, Tower, PowersDistinct, Eval, RPow, Scaled, PaddedLog, CircularSum, TwoPow, Product, Pad;
    PaddedLeast(n, 0);
    var a, b, p := Spike(R, n, 0), Zeros(R, n), PaddedLog(n);
    var u := Zeros(R, Padded(n)) + Ones(R, Pow2(ka) - Padded(n));
    FirstSpectrum(R, w, ka, kb, n, Padded(n));
    FirstOfBound(R, w, v, inv, ka, kb, a, b);
    SpikeRotates(R, n, 0, b, 0, n);
    PowersGrow(ka, p);
    Distinct(R, p, ka);
    if BindsAt(R, w, v, inv, ka, kb, n, a, b) {
      MeanZero(R, inv, ka, Eval(R, u, R.one));
      TailSum(R, p, ka);
      assert false;
    }
  }

  lemma Distinct<T(!new)>(R: Ops<T>, i: nat, j: nat)
    requires PowersDistinct(R) && i < j
    ensures TwoPow(R, i) != TwoPow(R, j)
  {
    assert DistinctAt(R, i, j);
  }

  // ---- a second buffer that is too long --------------------------------------------------------------------

  function Powers<T>(R: Ops<T>, g: T, m: nat): (u: seq<T>)
    ensures |u| == m
  {
    seq(m, i requires 0 <= i < m => RPow(R, g, i))
  }

  /** 1 + g (1 + g + ... + g^(m-1)) = (1 + g + ... + g^(m-1)) + g^m, so a sum of 0 means g^m = 1. */
  lemma GeometricSum<T(!new)>(R: Ops<T>, g: T, m: nat)
    requires IsRing(R) && Eval(R, Powers(R, g, m), R.one) == R.zero
    ensures RPow(R, g, m) == R.one
  {
    var ones, s := Ones(R, m), Eval(R, Ones(R, m), g);
    assert ones + [R.one] == [R.one] + ones;
    assert ([R.one] + ones)[1..] == ones;
    assert Eval(R, [R.one] + ones, g) == Add(R, R.one, Mul(R, g, s));
    hide IsRing, Eval, RPow;
    forall i | 0 <= i < m ensures Powers(R, g, m)[i] == Mul(R, Mul(R, R.one, RPow(R, g, i)), ones[i]) {
      RingOne(R, RPow(R, g, i));
    }
    EvalTwist(R, ones, Powers(R, g, m), R.one, g, R.one);
    RingOne(R, g);
    RingOne(R, s);
    EvalConcat(R, ones, [R.one], g);
    EvalOne(R, R.one, g);
    RingOne(R, RPow(R, g, m));
    AddZero(R, RPow(R, g, m));
    MulZero(R, g);
    AddZero(R, R.one);
  }

  /** A root does not reach 1 before its time. */
  lemma PrimitiveRoot<T(!new)>(R: Ops<T>, w: int -> T, j: nat, k: nat)
    requires IsRing(R) && Tower(R, w, k) && j < k && RPow(R, w(Pow2(k)), Pow2(j)) == R.one
    ensures Neg(R, R.one) == R.one
  {
    hide IsRing, Tower, RPow;
    TowerHalf(R, w, k);
    PowersApart(j, k - 1);
    RPowRPow(R, w(Pow2(k)), Pow2(j), Pow2(k - 1 - j));
    RPowOne(R, Pow2(k - 1 - j));
  }

  /** A second buffer longer than the first: binding unit vectors does not give a unit vector. */
  lemma SecondTooLong<T(!new)>(R: Ops<T>, w: int -> T, v: int -> T, inv: T, ka: nat, kb: nat, n: nat)
    requires Setting(R, w, v, inv, ka, kb) && n > 1
    requires Padded(n) == Pow2(ka) < Pow2(kb)
    ensures !BindsAt(R, w, v, inv, ka, kb, n, Spike(R, n, 0), Spike(R, n, 1))
  {
    hide Fft, IsRing, Tower, PowersDistinct, Eval, RPow, Scaled, PaddedLog, CircularSum, TwoPow;
    PaddedLeast(n, 0);
    var a, b, m, g := Spike(R, n, 0), Spike(R, n, 1), Padded(n), w(Pow2(kb));
    var x, y := Fft(R, w, ka, Pad(R, ka, a)), Fft(R, w, kb, Pad(R, kb, b));
    var u := Product(R, m, x, y);
    PadSpike(R, n, ka, 0);
    PadSpike(R, n, kb, 1);
    forall i | 0 <= i < m ensures u[i] == Powers(R, g, m)[i] {
      OnesSpectrum(R, w, ka, i);
      SpikeSpectrum(R, w, kb, 1, i);
      PowerStep(R, RPow(R, g, i), 0);
      RingOne(R, RPow(R, g, i));
    }
    assert u == Powers(R, g, m);
    FirstOfBound(R, w, v, inv, ka, kb, a, b);
    SpikeRotates(R, n, 0, b, 0, n);
    if BindsAt(R, w, v, inv, ka, kb, n, a, b) {
      MeanZero(R, inv, ka, Eval(R, u, R.one));
      GeometricSum(R, g, m);
      PowersGrow(kb, ka);
      PrimitiveRoot(R, w, ka, kb);
      Nontrivial(R);
      assert false;
    }
  }

  // ---- a length that is not a power of two --------------------------------------------------------------------

  /** Padding: the product of x^(n-1) and x is x^n, which no longer wraps around to 1. */
  lemma NotPowerOfTwo<T(!new)>(R: Ops<T>, w: int -> T, v: int -> T, inv: T, k: nat, n: nat)
    requires Setting(R, w, v, inv, k, k) && 1 < n < Pow2(k) == Padded(n)
    ensures !BindsAt(R, w, v, inv, k, k, n, Spike(R, n, n - 1), Spike(R, n, 1))
  {
    hide Fft, IsRing, Tower, PowersDistinct, Eval, RPow, Scaled, PaddedLog, CircularSum, TwoPow;
    var a, b, m, g := Spike(R, n, n - 1), Spike(R, n, 1), Padded(n), w(Pow2(k));
    var x, y := Fft(R, w, k, Pad(R, k, a)), Fft(R, w, k, Pad(R, k, b));
    var u, c := Product(R, m, x, y), Spike(R, m, n);
    assert Tower(R, w, k);
    PadSpike(R, n, k, n - 1);
    PadSpike(R, n, k, 1);
    forall i | 0 <= i < m ensures u[i] == Fft(R, w, k, c)[i] {
      var z := RPow(R, g, i);
      SpikeSpectrum(R, w, k, n - 1, i);
      SpikeSpectrum(R, w, k, 1, i);
      SpikeSpectrum(R, w, k, n, i);
      PowerStep(R, z, 0);
      PowerStep(R, z, n - 1);
      RingOne(R, z);
      RingComm(R, RPow(R, z, n - 1), z);
    }
    assert u == Fft(R, w, k, c);
    RoundTrip(R, w, v, inv, k, c);
    SpikeRotates(R, n, n - 1, b, 0, n);
    Around(0 - (n - 1), n);
    if BindsAt(R, w, v, inv, k, k, n, a, b) {
      assert Circular(R, a, b)[0] == R.one;
      assert Bound(R, w, v, inv, k, k, a, b)[0] == c[0] == R.zero;
      Nontrivial(R);
      assert false;
    }
  }

  // ---- vectors of one element -------------------------------------------------------------------------------

  /** A single element is never transformed, whatever the second buffer. */
  lemma BindsWhenOne<T(!new)>(R: Ops<T>, w: int -> T, v: int -> T, inv: T, kb: nat, a: seq<T>, b: seq<T>)
    requires Setting(R, w, v, inv, 0, kb) && |a| == |b| == 1
    ensures Padded(1) == Pow2(0) <= Pow2(kb) && Bound(R, w, v, inv, 0, kb, a, b) == Circular(R, a, b)
  {
    PowersGrow(0, kb);
    var x, y := Pad(R, 0, a), Fft(R, w, kb, Pad(R, kb, b));
    assert x == a && CircularSum(R, a, b, 0, 1) == Add(R, CircularSum(R, a, b, 0, 0), Mul(R, a[0], b[0]));
    AddZero(R, Mul(R, a[0], b[0]));
    PowerStep(R, w(Pow2(kb)), 0);
    hide IsRing, Tower, Eval, RPow;
    FftIsDft(R, w, kb, Pad(R, kb, b));
    DftAt(R, w(Pow2(kb)), Pad(R, kb, b), 0);
    FirstValue(R, b, Pow2(kb) - 1);
  }

  lemma FirstValue<T(!new)>(R: Ops<T>, b: seq<T>, n: nat)
    requires IsRing(R) && |b| == 1
    ensures Eval(R, b + Zeros(R, n), R.one) == b[0]
  {
    assert b == [b[0]];
    EvalConcat(R, b, Zeros(R, n), R.one);
    EvalOne(R, b[0], R.one);
    EvalZeros(R, n, R.one);
    MulZero(R, RPow(R, R.one, 1));
    AddZero(R, b[0]);
  }

  /** Binding is circular convolution, for all vectors of n elements, exactly when the buffers fit. */
  lemma BindExact<T(!new)>(R: Ops<T>, w: int -> T, v: int -> T, inv: T, ka: nat, kb: nat, n: nat)
    requires Setting(R, w, v, inv, ka, kb) && Padded(n) <= Pow2(ka) && Padded(n) <= Pow2(kb)
    ensures (forall a: seq<T>, b: seq<T> :: BindsAt(R, w, v, inv, ka, kb, n, a, b)) <==> Fits(n, ka, kb)
  {
    hide Setting, Padded, Bound, Circular;
    PaddedLeast(n, 0);
    if Fits(n, ka, kb) {
      forall a: seq<T>, b: seq<T> | |a| == |b| == n ensures BindsAt(R, w, v, inv, ka, kb, n, a, b) {
        BindsWhenFit(R, w, v, inv, ka, kb, a, b);
      }
    } else if Padded(n) < Pow2(ka) {
      FirstTooLong(R, w, v, inv, ka, kb, n);
    } else {
      LengthOne(n);
      PowersGrow(ka, kb);
      PowersGrow(kb, ka);
      if ka == kb {
        NotPowerOfTwo(R, w, v, inv, ka, n);
      } else {
        SecondTooLong(R, w, v, inv, ka, kb, n);
      }
    }
  }

  lemma LengthOne(n: nat)
    ensures n == 1 ==> Padded(n) == 1
  {
  }

  lemma BindsWhenFit<T(!new)>(R: Ops<T>, w: int -> T, v: int -> T, inv: T, ka: nat, kb: nat, a: seq<T>, b: seq<T>)
    requires Setting(R, w, v, inv, ka, kb) && |a| == |b| && Fits(|a|, ka, kb)
    requires Padded(|a|) <= Pow2(ka) && Padded(|a|) <= Pow2(kb)
    ensures Bound(R, w, v, inv, ka, kb, a, b) == Circular(R, a, b)
  {
    hide Setting, Bound, PaddedLog;
    PowersGrow(ka, kb);
    PowersGrow(ka, 0);
    if |a| == 0 {
      assert Bound(R, w, v, inv, ka, kb, a, b) == [] && Circular(R, a, b) == [];
    } else if ka == kb {
      BindsWhenEqual(R, w, v, inv, ka, a, b);
    } else {
      BindsWhenOne(R, w, v, inv, kb, a, b);
    }
  }

  // ---- circulant matrices --------------------------------------------------------------------------------------

  method CirculantEigenvalues<T(!new)>(R: Ops<T>, w: int -> T, row: seq<T>) returns (buf: array<T>)
    requires IsRing(R)
    ensures fresh(buf) && buf.Length == Padded(|row|) >= |row|
    ensures buf[..] == Fft(R, w, PaddedLog(|row|), Pad(R, PaddedLog(|row|), row))
  {
    hide IsRing, Fft;
    PaddedLeast(|row|, 0);
    ghost var k := PaddedLog(|row|);
    buf := new T[Padded(|row|)](_ => R.zero);
    var i := 0;
    while i < |row|
      invariant 0 <= i <= |row|
      invariant forall t :: 0 <= t < buf.Length ==> buf[t] == if t < i then row[t] else R.zero
    {
      buf[i] := row[i];
      i := i + 1;
    }
    assert buf[..] == Pad(R, k, row);
    FftInPlace(R, w, false, R.one, buf, k);
    NoScaling(R, R.one, k, Fft(R, w, k, Pad(R, k, row)));
  }

  /** The transform makes the circulant operator diagonal, with those eigenvalues. */
  lemma CirculantIsDiagonal<T(!new)>(R: Ops<T>, w: int -> T, k: nat, row: seq<T>, x: seq<T>)
    requires IsRing(R) && Tower(R, w, k) && |row| == |x| == Pow2(k)
    ensures Fft(R, w, k, Circular(R, row, x)) == VMul(R, Fft(R, w, k, row), Fft(R, w, k, x))
  {
    hide IsRing, Tower, RPow, Fft, Dft, Act, Circular, VMul;
    TowerFull(R, w, k);
    FftIsDft(R, w, k, row);
    FftIsDft(R, w, k, x);
    FftIsDft(R, w, k, Circular(R, row, x));
    ActIsCircular(R, row, x);
    Convolution(R, w(Pow2(k)), row, x);
  }
}
