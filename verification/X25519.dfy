/** X25519 (section 5 of RFC 7748): the ladder with deferred swaps, over abstract laws of differential addition. */
module X25519 {
  import opened ModArith
  import opened MachineInts
  import opened Radix
  import opened BitOps
  import opened ByteNumbers
  import opened Clamping
  import opened Prime25519
  import opened MontgomeryCurve
  import opened X25519Field

  /** What the curve gives: `rep(u, n, x, z)` says that x : z stands for the n-th multiple of a point with coordinate
      u, and `times(n, u)` is the coordinate of that multiple. */
  datatype Curve = Curve(rep: (int, nat, int, int) -> bool, times: (nat, int) -> int)

  datatype Pair = Pair(x: int, z: int)

  /** What the ladder is made of: doubling, the sum of two points whose difference has a given coordinate, and
      inversion in the field. */
  datatype Steps = Steps(double: Pair -> Pair, add: (int, Pair, Pair) -> Pair, invert: int -> int)

  // ---- the formulas ------------------------------------------------------------------------------------------------

  function Plus(a: int, b: int): int { (a + b) % P }

  function Minus(a: int, b: int): int { (a - b) % P }

  function Product(a: int, b: int): int { a * b % P }

  function Square(a: int): int { Product(a, a) }

  /** Doubling, from the sum and the difference of the coordinates. */
  function Doubled(p: Pair): Pair {
    var aa, bb := Square(Plus(p.x, p.z)), Square(Minus(p.x, p.z));
    var e := Minus(aa, bb);
    Pair(Product(aa, bb), Product(e, Plus(aa, Product(e, 121665))))
  }

  /** The sum of two points whose difference has coordinate u. */
  function Added(u: int, p: Pair, q: Pair): Pair {
    var da, cb := Product(Minus(q.x, q.z), Plus(p.x, p.z)), Product(Plus(q.x, q.z), Minus(p.x, p.z));
    Pair(Square(Plus(da, cb)), Product(u, Square(Minus(da, cb))))
  }

  /** The steps of the code, whose inverse is a power with this exponent. */
  function Formulas(exponent: nat): Steps {
    Steps(p => Doubled(p), (u, p, q) => Added(u, p, q), z => Pow(z, exponent) % P)
  }

  // ---- what the formulas compute -----------------------------------------------------------------------------------

  lemma FieldOps(a: int, a': int, b: int, b': int)
    requires Same(P, a, a') && Same(P, b, b')
    ensures Same(P, Plus(a, b), a' + b') && Same(P, Minus(a, b), a' - b') && Same(P, Product(a, b), a' * b')
  {
    SameOps(P, a, a', b, b');
    ModAdd(a + b, 0, P);
    ModAdd(a - b, 0, P);
    ModAdd(a * b, 0, P);
  }

  /** Doubling on the curve v^2 = u^3 + 486662 u^2 + u, in projective coordinates: at z = 1 the quotient that
      `TangentLaw` gives. */
  lemma DoubledIs(x: int, z: int)
    ensures Same(P, Doubled(Pair(x, z)).x, (x * x - z * z) * (x * x - z * z))
    ensures Same(P, Doubled(Pair(x, z)).z, 4 * x * z * (x * x + 486662 * x * z + z * z))
  {
    hide Same, Plus, Minus, Product;
    SameSelf(P, x);
    SameSelf(P, z);
    SameSelf(P, 121665);
    FieldOps(x, x, z, z);
    var s, d := x + z, x - z;
    FieldOps(Plus(x, z), s, Plus(x, z), s);
    FieldOps(Minus(x, z), d, Minus(x, z), d);
    var aa, bb := Square(Plus(x, z)), Square(Minus(x, z));
    FieldOps(aa, s * s, bb, d * d);
    var e := Minus(aa, bb);
    FieldOps(e, s * s - d * d, 121665, 121665);
    FieldOps(aa, s * s, Product(e, 121665), (s * s - d * d) * 121665);
    FieldOps(e, s * s - d * d, Plus(aa, Product(e, 121665)), s * s + (s * s - d * d) * 121665);
    DoubledPolynomials(x, z);
  }

  lemma DoubledPolynomials(x: int, z: int)
    ensures var s, d := x + z, x - z;
            && s * s * (d * d) == (x * x - z * z) * (x * x - z * z)
            && (s * s - d * d) * (s * s + (s * s - d * d) * 121665) ==
               4 * x * z * (x * x + 486662 * x * z + z * z)
  {
    var s, d, q := x + z, x - z, x * z;
    assert s * s == x * x + 2 * q + z * z && d * d == x * x - 2 * q + z * z;
    assert s * d == x * x - z * z;
    assert s * s * (d * d) == (s * d) * (s * d);
    assert 4 * x * z == 4 * q && 486662 * x * z == 486662 * q;
  }

  /** Differential addition: the sum of two points, from the coordinate of their difference, as `SumLaw` gives it. */
  lemma AddedIs(u: int, p: Pair, q: Pair)
    ensures Same(P, Added(u, p, q).x, 4 * ((p.x * q.x - p.z * q.z) * (p.x * q.x - p.z * q.z)))
    ensures Same(P, Added(u, p, q).z, 4 * u * ((p.x * q.z - p.z * q.x) * (p.x * q.z - p.z * q.x)))
  {
    hide Same, Plus, Minus, Product;
    SameSelf(P, p.x);
    SameSelf(P, p.z);
    SameSelf(P, q.x);
    SameSelf(P, q.z);
    SameSelf(P, u);
    FieldOps(p.x, p.x, p.z, p.z);
    FieldOps(q.x, q.x, q.z, q.z);
    var ps, pd, qs, qd := p.x + p.z, p.x - p.z, q.x + q.z, q.x - q.z;
    FieldOps(Minus(q.x, q.z), qd, Plus(p.x, p.z), ps);
    FieldOps(Plus(q.x, q.z), qs, Minus(p.x, p.z), pd);
    var da, cb := Product(Minus(q.x, q.z), Plus(p.x, p.z)), Product(Plus(q.x, q.z), Minus(p.x, p.z));
    FieldOps(da, qd * ps, cb, qs * pd);
    var s, d := qd * ps + qs * pd, qd * ps - qs * pd;
    FieldOps(Plus(da, cb), s, Plus(da, cb), s);
    FieldOps(Minus(da, cb), d, Minus(da, cb), d);
    FieldOps(u, u, Square(Minus(da, cb)), d * d);
    AddedPolynomials(u, p.x, p.z, q.x, q.z);
  }

  lemma AddedPolynomials(u: int, x: int, z: int, x': int, z': int)
    ensures var s, d := (x' - z') * (x + z) + (x' + z') * (x - z), (x' - z') * (x + z) - (x' + z') * (x - z);
            && s * s == 4 * ((x * x' - z * z') * (x * x' - z * z'))
            && u * (d * d) == 4 * u * ((x * z' - z * x') * (x * z' - z * x'))
  {
    var s, d := (x' - z') * (x + z) + (x' + z') * (x - z), (x' - z') * (x + z) - (x' + z') * (x - z);
    var a, b := x * x' - z * z', z * x' - x * z';
    assert s == 2 * a && d == 2 * b;
    assert s * s == 4 * (a * a) && d * d == 4 * (b * b);
    assert u * (4 * (b * b)) == 4 * u * (b * b);
    assert b * b == (x * z' - z * x') * (x * z' - z * x');
  }

  // ---- the laws ---------------------------------------------------------------------------------------------------

  predicate Stands(C: Curve, u: int, n: nat, p: Pair) { C.rep(u, n, p.x, p.z) }

  /** The laws: start, doubling, differential addition of neighbours in either order, the affine coordinate, and
      commuting multiples. */
  ghost predicate Laws(C: Curve, S: Steps) {
    && (forall u: int :: 0 <= u < P ==> StartAt(C, u))
    && (forall u: int, m: nat, p: Pair :: DoubleAt(C, S, u, m, p))
    && (forall u: int, m: nat, n: nat, p: Pair, q: Pair :: AddAt(C, S, u, m, n, p, q))
    && (forall u: int, n: nat, p: Pair :: AffineAt(C, S, u, n, p))
    && (forall m: nat, n: nat, u: int :: C.times(m, C.times(n, u)) == C.times(n, C.times(m, u)))
    && (forall n: nat, u: int :: 0 <= C.times(n, u) < P)
  }

  ghost predicate StartAt(C: Curve, u: int) { Stands(C, u, 0, Pair(1, 0)) && Stands(C, u, 1, Pair(u, 1)) }

  ghost predicate DoubleAt(C: Curve, S: Steps, u: int, m: nat, p: Pair) {
    Stands(C, u, m, p) ==> Stands(C, u, 2 * m, (S.double)(p))
  }

  ghost predicate AddAt(C: Curve, S: Steps, u: int, m: nat, n: nat, p: Pair, q: Pair) {
    Stands(C, u, m, p) && Stands(C, u, n, q) && (m == n + 1 || n == m + 1) ==> Stands(C, u, m + n, (S.add)(u, p, q))
  }

  ghost predicate AffineAt(C: Curve, S: Steps, u: int, n: nat, p: Pair) {
    Stands(C, u, n, p) ==> Affine(S, p) == C.times(n, u)
  }

  /** x / z */
  function Affine(S: Steps, p: Pair): int { p.x * (S.invert)(p.z) % P }

  // ---- the ladder --------------------------------------------------------------------------------------------------

  datatype State = State(p: Pair, q: Pair, swap: bool)

  function Swapped(swap: bool, p: Pair, q: Pair): (Pair, Pair) { if swap then (q, p) else (p, q) }

  /** One iteration: the swap is the exclusive or with the last bit. */
  function Round(S: Steps, u: int, bit: bool, s: State): State {
    var (p, q) := Swapped(s.swap != bit, s.p, s.q);
    State((S.double)(p), (S.add)(u, p, q), bit)
  }

  function Bit(k: seq<byte>, t: nat): bool
    requires t < 8 * |k|
  {
    BitOf(k, t) == 1
  }

  /** The state after the bits from 254 down to t. */
  function Rounds(S: Steps, u: int, k: seq<byte>, t: nat): State
    requires |k| == 32 && t <= 255
    decreases 255 - t
  {
    if t == 255 then State(Pair(1, 0), Pair(u, 1), false) else Round(S, u, Bit(k, t), Rounds(S, u, k, t + 1))
  }

  /** The number that the bits from t to 254 form. */
  function TopBits(k: seq<byte>, t: nat): nat
    requires |k| == 32 && t <= 255
    decreases 255 - t
  {
    if t == 255 then 0 else 2 * TopBits(k, t + 1) + (if Bit(k, t) then 1 else 0)
  }

  /** The pairs in their natural order: n and n + 1 times the point. */
  ghost predicate Holds(C: Curve, u: int, n: nat, s: State) {
    var (p, q) := Swapped(s.swap, s.p, s.q);
    Stands(C, u, n, p) && Stands(C, u, n + 1, q)
  }

  lemma RoundKeeps(C: Curve, S: Steps, u: int, n: nat, bit: bool, s: State)
    requires Laws(C, S) && Holds(C, u, n, s)
    ensures Holds(C, u, 2 * n + (if bit then 1 else 0), Round(S, u, bit, s))
  {
    hide Stands;
    var (p, q) := Swapped(s.swap != bit, s.p, s.q);
    var m, k := if bit then n + 1 else n, if bit then n else n + 1;
    assert Stands(C, u, m, p) && Stands(C, u, k, q);
    assert DoubleAt(C, S, u, m, p) && AddAt(C, S, u, m, k, p, q);
  }

  /** For each scalar prefix n the state holds n and n + 1 times the point, up to the deferred swap. */
  lemma {:induction false} RoundsHold(C: Curve, S: Steps, u: int, k: seq<byte>, t: nat)
    requires Laws(C, S) && 0 <= u < P && |k| == 32 && t <= 255
    ensures Holds(C, u, TopBits(k, t), Rounds(S, u, k, t))
    decreases 255 - t
  {
    hide Round, Bit, Holds, Stands, Laws;
    if t == 255 {
      StartHolds(C, S, u);
    } else {
      RoundsHold(C, S, u, k, t + 1);
      RoundKeeps(C, S, u, TopBits(k, t + 1), Bit(k, t), Rounds(S, u, k, t + 1));
    }
  }

  lemma StartHolds(C: Curve, S: Steps, u: int)
    requires Laws(C, S) && 0 <= u < P
    ensures Holds(C, u, 0, State(Pair(1, 0), Pair(u, 1), false))
  {
    hide Stands;
    assert StartAt(C, u);
  }

  // ---- the function ------------------------------------------------------------------------------------------------

  function Scalar(k: seq<byte>): nat
    requires |k| == 32
  {
    TopBits(Clamp(k), 0)
  }

  function Decoded(u: seq<byte>): int
    requires |u| == 32
  {
    LeVal(u) % TWO255 % P
  }

  function X(S: Steps, k: seq<byte>, u: seq<byte>): seq<byte>
    requires |k| == |u| == 32
  {
    var s := Rounds(S, Decoded(u), Clamp(k), 0);
    var p := Swapped(s.swap, s.p, s.q).0;
    ResidueNat(p.x * (S.invert)(p.z));
    LittleEndian(Affine(S, p), 32)
  }

  lemma ResidueNat(x: int)
    ensures 0 <= x % P < P
  {
  }

  /** The ladder reads the whole clamped scalar: bit 255 is clear. */
  lemma ScalarValue(k: seq<byte>)
    requires |k| == 32
    ensures Scalar(k) == LeVal(Clamp(k))
  {
    var c := Clamp(k);
    hide Pow, LeVal, Clamp, LowBits, BitOf;
    BitsMeet(c, 0);
    LowBitsAll(c);
    TopBitClear(k);
    StartOfBits(c);
  }

  lemma TopBitClear(k: seq<byte>)
    requires |k| == 32
    ensures BitOf(Clamp(k), 255) == 0
  {
    assert Pow(2, 7) == 128;
    hide Pow;
    BitAt(Clamp(k), 31, 7);
  }

  lemma StartOfBits(c: seq<byte>)
    requires |c| == 32 && BitOf(c, 255) == 0
    ensures LowBits(c, 0) == 0 && LowBits(c, 256) == LowBits(c, 255) && Pow(2, 0) == 1
  {
    hide DigitBit, Pow;
    assert Pow(2, 255) * 0 == 0;
    PowerSteps();
  }

  lemma PowerSteps()
    ensures Pow(2, 0) == 1
  {
  }

  /** The low bits and the top bits make up the low 255 bits. */
  lemma {:induction false} BitsMeet(c: seq<byte>, t: nat)
    requires |c| == 32 && t <= 255
    ensures LowBits(c, t) + Pow(2, t) * TopBits(c, t) == LowBits(c, 255)
    decreases 255 - t
  {
    if t == 255 {
      hide Pow, DigitBit;
      assert Pow(2, t) * 0 == 0;
    } else {
      hide DigitBit, TopBits;
      BitsMeet(c, t + 1);
      TopBitsStep(c, t);
      Regroup(Pow(2, t), TopBits(c, t + 1), if Bit(c, t) then 1 else 0);
    }
  }

  lemma TopBitsStep(c: seq<byte>, t: nat)
    requires |c| == 32 && t < 255
    ensures TopBits(c, t) == 2 * TopBits(c, t + 1) + (if Bit(c, t) then 1 else 0)
  {
    hide Bit;
  }

  lemma Regroup(p: int, v: int, b: int)
    ensures p * (2 * v + b) == (2 * p) * v + p * b
  {
  }

  /** X25519 computes the coordinate of the multiple of the clamped scalar. */
  lemma XIsMultiple(C: Curve, S: Steps, k: seq<byte>, u: seq<byte>)
    requires Laws(C, S) && |k| == |u| == 32
    ensures |X(S, k, u)| == 32 && LeVal(X(S, k, u)) == C.times(Scalar(k), Decoded(u))
  {
    hide Rounds, TopBits, Pow, Stands, LeVal;
    var s := Rounds(S, Decoded(u), Clamp(k), 0);
    var p := Swapped(s.swap, s.p, s.q).0;
    ResidueNat(LeVal(u) % TWO255);
    RoundsHold(C, S, Decoded(u), Clamp(k), 0);
    assert AffineAt(C, S, Decoded(u), Scalar(k), p);
    ResidueNat(p.x * (S.invert)(p.z));
    Widths();
    LittleEndianValue(Affine(S, p), 32);
  }

  const BASEPOINT: seq<byte> := [9, 0, 0, 0, 0, 0, 0, 0, 0, 0, 0, 0, 0, 0, 0, 0, 0, 0, 0, 0, 0, 0, 0, 0, 0, 0, 0, 0, 0,
      0, 0, 0]

  /** A computed coordinate decodes to itself. */
  lemma CanonicalDecodes(s: seq<byte>)
    requires |s| == 32 && 0 <= LeVal(s) < P
    ensures Decoded(s) == LeVal(s)
  {
    ModSmall(LeVal(s), TWO255);
    ModSmall(LeVal(s), P);
  }

  /** Key agreement: decapsulation computes the secret of encapsulation, for all seeds. */
  lemma SecretsAgree(C: Curve, S: Steps, sk: seq<byte>, ephemeral: seq<byte>)
    requires Laws(C, S) && |sk| == |ephemeral| == 32
    ensures |X(S, sk, BASEPOINT)| == 32 && |X(S, ephemeral, BASEPOINT)| == 32
    ensures X(S, ephemeral, X(S, sk, BASEPOINT)) == X(S, sk, X(S, ephemeral, BASEPOINT))
  {
    hide X, LeVal, Scalar, Decoded, Laws;
    var pk, ct := X(S, sk, BASEPOINT), X(S, ephemeral, BASEPOINT);
    XIsMultiple(C, S, sk, BASEPOINT);
    XIsMultiple(C, S, ephemeral, BASEPOINT);
    MultiplesAgree(C, S, Scalar(sk), Scalar(ephemeral), Decoded(BASEPOINT));
    CanonicalDecodes(pk);
    CanonicalDecodes(ct);
    XIsMultiple(C, S, ephemeral, pk);
    XIsMultiple(C, S, sk, ct);
    LeUnique(X(S, ephemeral, pk), X(S, sk, ct));
  }

  lemma MultiplesAgree(C: Curve, S: Steps, m: nat, n: nat, u: int)
    requires Laws(C, S)
    ensures 0 <= C.times(m, u) < P && 0 <= C.times(n, u) < P && C.times(n, C.times(m, u)) == C.times(m, C.times(n, u))
  {
  }

  /** The instance that the code computes: keys, encapsulation and decapsulation with the formulas of the ladder. */
  lemma CodeSecretsAgree(C: Curve, exponent: nat, sk: seq<byte>, ephemeral: seq<byte>)
    requires Laws(C, Formulas(exponent)) && |sk| == |ephemeral| == 32
    ensures var S := Formulas(exponent);
            |X(S, sk, BASEPOINT)| == 32 && |X(S, ephemeral, BASEPOINT)| == 32
            && X(S, ephemeral, X(S, sk, BASEPOINT)) == X(S, sk, X(S, ephemeral, BASEPOINT))
  {
    hide X, Laws, Formulas;
    SecretsAgree(C, Formulas(exponent), sk, ephemeral);
  }

  // ---- the code ----------------------------------------------------------------------------------------------------

  /** The branch-free swap: `t = (p ^ q) & m; p ^= t; q ^= t` on every limb, for a mask of ones or zeros. */
  method CswapFe(swap: bool, p: seq<int>, q: seq<int>) returns (pp: seq<int>, qq: seq<int>)
    requires Limbs(p, 8) && Limbs(q, 8)
    ensures pp == (if swap then q else p) && qq == (if swap then p else q)
  {
    hide Xor;
    var m := MaskOf(swap);
    pp, qq := [], [];
    var i := 0;
    while i < 8
      invariant 0 <= i <= 8 && pp == (if swap then q[..i] else p[..i]) && qq == (if swap then p[..i] else q[..i])
    {
      XorBack(p[i], q[i]);
      XorBack(q[i], p[i]);
      XorComm(p[i], q[i]);
      XorZero(p[i]);
      XorZero(q[i]);
      var t := AndMask(Xor(p[i], q[i]), m);
      pp := pp + [Xor(p[i], t)];
      qq := qq + [Xor(q[i], t)];
      i := i + 1;
    }
  }

  method LadderStep(x1: seq<int>, x2: seq<int>, z2: seq<int>, x3: seq<int>, z3: seq<int>) returns (x2': seq<int>,
      z2': seq<int>, x3': seq<int>, z3': seq<int>)
    requires IsFe(x1) && IsFe(x2) && IsFe(z2) && IsFe(x3) && IsFe(z3)
    ensures IsFe(x2') && IsFe(z2') && IsFe(x3') && IsFe(z3')
    ensures Pair(Num(x2'), Num(z2')) == Doubled(Pair(Num(x2), Num(z2)))
    ensures Pair(Num(x3'), Num(z3')) == Added(Num(x1), Pair(Num(x2), Num(z2)), Pair(Num(x3), Num(z3)))
  {
    hide Num;
    A24IsFe();
    var a := FeAdd(x2, z2);
    var aa := FeMul(a, a);
    var b := FeSub(x2, z2);
    var bb := FeMul(b, b);
    var e := FeSub(aa, bb);
    var c := FeAdd(x3, z3);
    var d := FeSub(x3, z3);
    var da := FeMul(d, a);
    var cb := FeMul(c, b);
    var daPlus := FeAdd(da, cb);
    x3' := FeMul(daPlus, daPlus);
    var daSub := FeSub(da, cb);
    var daSquare := FeMul(daSub, daSub);
    z3' := FeMul(x1, daSquare);
    x2' := FeMul(aa, bb);
    var scaled := FeMul(e, A24);
    var sum := FeAdd(aa, scaled);
    z2' := FeMul(e, sum);
  }

  const A24: seq<int> := [121665, 0, 0, 0, 0, 0, 0, 0]

  lemma A24IsFe()
    ensures IsFe(A24) && Num(A24) == 121665
  {
    FrontLimb(121665, A24[1..]);
    assert A24 == [121665] + A24[1..];
    ValZeros(X25519Field.B, A24[1..]);
  }

  method XBytes(kIn: seq<byte>, uIn: seq<byte>, ghost exponent: nat) returns (r: seq<byte>)
    requires |kIn| == |uIn| == 32 && exponent == P - 2
    ensures r == X(Formulas(exponent), kIn, uIn)
  {
    hide Num, LeVal, Bit, Round, Clamp, Pow, Formulas;
    ghost var S := Formulas(exponent);
    var k := Clamp(kIn);
    var x1 := FeFromBytes(uIn);
    OneIsFe();
    var x2, z2, x3, z3, swap := ONE, ZERO, x1, ONE, false;
    var t := 255;
    while t > 0
      invariant 0 <= t <= 255 && IsFe(x2) && IsFe(z2) && IsFe(x3) && IsFe(z3)
      invariant State(Pair(Num(x2), Num(z2)), Pair(Num(x3), Num(z3)), swap) == Rounds(S, Num(x1), k, t)
    {
      t := t - 1;
      var bit := Bit(k, t);
      ghost var was := State(Pair(Num(x2), Num(z2)), Pair(Num(x3), Num(z3)), swap);
      swap := swap != bit;
      x2, x3 := CswapFe(swap, x2, x3);
      z2, z3 := CswapFe(swap, z2, z3);
      swap := bit;
      RoundIs(exponent, Num(x1), bit, was);
      x2, z2, x3, z3 := LadderStep(x1, x2, z2, x3, z3);
    }
    x2, x3 := CswapFe(swap, x2, x3);
    z2, z3 := CswapFe(swap, z2, z3);
    var inv := FeInvert(z2, exponent);
    InverseIs(exponent, Num(z2));
    var product := FeMul(x2, inv);
    r := FeToBytes(product);
    NumBound(product, 8);
    Widths();
    LittleEndianValue(Num(product), 32);
    LeUnique(r, LittleEndian(Num(product), 32));
  }

  lemma RoundIs(exponent: nat, u: int, bit: bool, s: State)
    ensures Round(Formulas(exponent), u, bit, s) == (var (p, q) := Swapped(s.swap != bit, s.p, s.q);
            State(Doubled(p), Added(u, p, q), bit))
  {
    hide Doubled, Added, Pow;
  }

  lemma InverseIs(exponent: nat, z: int)
    ensures (Formulas(exponent).invert)(z) == Pow(z, exponent) % P
  {
    hide Doubled, Added, Pow;
  }
}
