/** The field of X25519 in eight 32-bit limbs: branch-free comparison and subtraction, wide products, and reduction. */
module X25519Field {
  import opened ModArith
  import opened MachineInts
  import opened Radix
  import opened ByteNumbers
  import opened BitOps
  import opened Prime25519

  const B: int := 0x1_0000_0000

  const P_LIMBS: seq<int> := [0xffff_ffed, 0xffff_ffff, 0xffff_ffff, 0xffff_ffff, 0xffff_ffff, 0xffff_ffff,
      0xffff_ffff, 0x7fff_ffff]

  function Num(s: seq<int>): int { Val(B, s) }

  predicate Limbs(s: seq<int>, n: nat) { |s| == n && Digits(B, s) }

  /** A canonical element. */
  predicate IsFe(s: seq<int>) { Limbs(s, 8) && Num(s) < P }

  lemma NumBound(s: seq<int>, n: nat)
    requires Limbs(s, n)
    ensures 0 <= Num(s) < Pow(B, n)
  {
    ValBound(B, s);
  }

  lemma LimbPowers()
    ensures Pow(B, 7) == 0x1_0000_0000_0000_0000_0000_0000_0000_0000_0000_0000_0000_0000_0000_0000
    ensures Pow(B, 8) == 2 * TWO255 && Pow(B, 16) == 4 * TWO255 * TWO255
  {
    assert Pow(B, 2) == B * B;
    hide Pow;
    PowAdd(B, 2, 2);
    PowAdd(B, 4, 2);
    NextPower(B, 6);
    PowAdd(B, 4, 4);
    PowAdd(B, 8, 8);
  }

  lemma FrontLimb(x: int, t: seq<int>)
    ensures Num([x] + t) == x + B * Num(t) && Num([]) == 0
  {
    assert ([x] + t)[1..] == t;
  }

  lemma ValueOfP()
    ensures IsLimbsOfP(P_LIMBS) && Num(P_LIMBS) == P
  {
    hide Num;
    var t7 := [0x7fff_ffff] + [];
    var t6 := [0xffff_ffff] + t7;
    var t5 := [0xffff_ffff] + t6;
    var t4 := [0xffff_ffff] + t5;
    var t3 := [0xffff_ffff] + t4;
    var t2 := [0xffff_ffff] + t3;
    var t1 := [0xffff_ffff] + t2;
    FrontLimb(0x7fff_ffff, []);
    FrontLimb(0xffff_ffff, t7);
    FrontLimb(0xffff_ffff, t6);
    FrontLimb(0xffff_ffff, t5);
    FrontLimb(0xffff_ffff, t4);
    FrontLimb(0xffff_ffff, t3);
    FrontLimb(0xffff_ffff, t2);
    FrontLimb(0xffff_ffed, t1);
    assert P_LIMBS == [0xffff_ffed] + t1;
  }

  predicate IsLimbsOfP(s: seq<int>) { Limbs(s, 8) }

  // ---- branch-free comparison and subtraction ----------------------------------------------------------------------

  predicate IsMask(m: int) { m == 0 || m == 0xffff_ffff }

  /** `(flag as u32).wrapping_neg()` */
  function MaskOf(flag: bool): (m: int)
    ensures IsMask(m)
  {
    if flag then 0xffff_ffff else 0
  }

  /** `x & m`, `x | y` and `!m` for masks. */
  function AndMask(x: int, m: int): int
    requires IsMask(m)
  {
    if m == 0 then 0 else x
  }

  function OrMask(m: int, n: int): int
    requires IsMask(m) && IsMask(n)
  {
    if m == 0 then n else m
  }

  function NotMask(m: int): (r: int)
    requires IsMask(m)
    ensures IsMask(r)
  {
    0xffff_ffff - m
  }

  lemma TailStep(s: seq<int>, i: nat)
    requires i < |s|
    ensures Num(s[i..]) == s[i] + B * Num(s[i + 1..])
  {
    assert s[i..][1..] == s[i + 1..];
  }

  /** Compares from the top limb down, over all limbs: the mask is set if and only if a >= b. */
  method CtGeMask(a: seq<int>, b: seq<int>) returns (m: int)
    requires Limbs(a, 8) && Limbs(b, 8)
    ensures m == if Num(a) >= Num(b) then 0xffff_ffff else 0
  {
    hide Num;
    var eq, gt := 0xffff_ffff, 0;
    var i := 8;
    NoTail(a, b);
    while i > 0
      invariant 0 <= i <= 8 && IsMask(eq) && IsMask(gt) && (eq != 0 ==> gt == 0)
      invariant eq != 0 <==> Num(a[i..]) == Num(b[i..])
      invariant gt != 0 <==> Num(a[i..]) > Num(b[i..])
    {
      i := i - 1;
      TailStep(a, i);
      TailStep(b, i);
      var aGt, aLt := MaskOf(a[i] > b[i]), MaskOf(a[i] < b[i]);
      gt := OrMask(gt, AndMask(aGt, eq));
      eq := AndMask(eq, NotMask(OrMask(aGt, aLt)));
    }
    assert a[0..] == a && b[0..] == b;
    m := OrMask(gt, eq);
  }

  lemma NoTail(a: seq<int>, b: seq<int>)
    ensures Num(a[|a|..]) == 0 && Num(b[|b|..]) == 0
  {
  }

  /** r - p if r >= p, without a branch: the difference is always computed, then selected limb by limb. */
  method CtSubIfGe(r: seq<int>) returns (out: seq<int>)
    requires Limbs(r, 8)
    ensures Limbs(out, 8) && Num(out) == if Num(r) >= P then Num(r) - P else Num(r)
  {
    hide Num;
    ValueOfP();
    var m := CtGeMask(r, P_LIMBS);
    var sub, borrow := SubDigits(B, r, P_LIMBS);
    NumBound(r, 8);
    NumBound(sub, 8);
    NumBound(P_LIMBS, 8);
    BorrowTimes(borrow);
    assert Num(r) == Val(B, r) && Num(sub) == Val(B, sub) && Num(P_LIMBS) ==
           Val(B, P_LIMBS) by { NumIsVal(r, sub, P_LIMBS); }
    out := SelectLimbs(m, r, sub);
  }

  lemma NumIsVal(a: seq<int>, b: seq<int>, c: seq<int>)
    ensures Num(a) == Val(B, a) && Num(b) == Val(B, b) && Num(c) == Val(B, c)
  {
  }

  lemma BorrowTimes(borrow: int)
    requires 0 <= borrow <= 1
    ensures borrow * Pow(B, 8) == if borrow == 1 then Pow(B, 8) else 0
  {
  }

  /** `(b & m) | (a & !m)` on every limb. */
  method SelectLimbs(m: int, a: seq<int>, b: seq<int>) returns (out: seq<int>)
    requires IsMask(m) && |a| == |b| == 8
    ensures out == if m == 0 then a else b
  {
    out := [];
    var i := 0;
    while i < 8
      invariant 0 <= i <= 8 && out == if m == 0 then a[..i] else b[..i]
    {
      out := out + [AndMask(b[i], m) + AndMask(a[i], NotMask(m))];
      i := i + 1;
    }
  }

  method FeAdd(a: seq<int>, b: seq<int>) returns (r: seq<int>)
    requires IsFe(a) && IsFe(b)
    ensures IsFe(r) && Num(r) == (Num(a) + Num(b)) % P
  {
    hide Val, Pow;
    var s, carry := AddDigits(B, a, b);
    LimbPowers();
    NumBound(a, 8);
    NumBound(b, 8);
    NumBound(s, 8);
    BorrowTimes(carry);
    ModOnce(Num(a) + Num(b));
    r := CtSubIfGe(s);
  }

  method FeSub(a: seq<int>, b: seq<int>) returns (r: seq<int>)
    requires IsFe(a) && IsFe(b)
    ensures IsFe(r) && Num(r) == (Num(a) - Num(b)) % P
  {
    hide Val, Pow;
    ValueOfP();
    var t, carry := AddDigits(B, a, P_LIMBS);
    LimbPowers();
    NumBound(a, 8);
    NumBound(b, 8);
    NumBound(t, 8);
    BorrowTimes(carry);
    var d, borrow := SubDigits(B, t, b);
    NumBound(d, 8);
    BorrowTimes(borrow);
    assert carry == 0 && borrow == 0;
    ModOnce(Num(a) + P - Num(b));
    ModMultiple(Num(a) - Num(b), 1, P);
    r := CtSubIfGe(d);
  }

  // ---- products ----------------------------------------------------------------------------------------------------

  /** The sixteen columns of the product, not yet carried. */
  method Columns(a: seq<int>, b: seq<int>) returns (p: seq<int>)
    requires Limbs(a, 8) && Limbs(b, 8)
    ensures |p| == 16 && Num(p) == Num(a) * Num(b) && forall k :: 0 <= k < 16 ==> 0 <= p[k] <= 8 * (B - 1) * (B - 1)
  {
    hide Val, Pow;
    p := seq(16, k => 0);
    ValZeros(B, p);
    ValNothing(B, a);
    var i := 0;
    while i < 8
      invariant 0 <= i <= 8 && |p| == 16 && Num(p) == Num(a[..i]) * Num(b)
      invariant forall k :: 0 <= k < 16 ==> 0 <= p[k] <= i * ((B - 1) * (B - 1))
    {
      p := ColumnRow(p, a[i], i, b);
      RowDone(B, a, i, Num(b));
      i := i + 1;
    }
    assert a[..i] == a;
  }

  method ColumnRow(p: seq<int>, x: int, i: nat, b: seq<int>) returns (r: seq<int>)
    requires |p| == 16 && i < 8 && 0 <= x < B && Limbs(b, 8)
    requires forall k :: 0 <= k < 16 ==> 0 <= p[k] <= i * ((B - 1) * (B - 1))
    ensures |r| == 16 && Num(r) == Num(p) + x * Pow(B, i) * Num(b)
    ensures forall k :: 0 <= k < 16 ==> 0 <= r[k] <= (i + 1) * ((B - 1) * (B - 1))
  {
    hide Val, Pow;
    r := p;
    var j := 0;
    ValNothing(B, b);
    ZeroTimes(x * Pow(B, i));
    while j < 8
      invariant 0 <= j <= 8 && |r| == 16 && Num(r) == Num(p) + x * Pow(B, i) * Num(b[..j])
      invariant forall k :: 0 <= k < 16 ==> 0 <= r[k] <= (i + 1) * ((B - 1) * (B - 1))
      invariant forall k :: 0 <= k < 16 && !(i <= k < i + j) ==> r[k] == p[k]
    {
      LimbProduct(x, b[j]);
      RowProgress(B, x, i, b, j);
      ValUpdate(B, r, i + j, r[i + j] + x * b[j]);
      r := r[i + j := r[i + j] + x * b[j]];
      j := j + 1;
    }
    assert b[..j] == b;
  }

  lemma ZeroTimes(x: int)
    ensures x * 0 == 0
  {
  }

  lemma LimbProduct(x: int, y: int)
    requires 0 <= x < B && 0 <= y < B
    ensures 0 <= x * y <= (B - 1) * (B - 1)
  {
    MulNonNegative(x, y);
    MulNonNegative(B - 1 - x, y);
    MulNonNegative(B - 1, B - 1 - y);
    MulDistributes(y, B - 1, x);
  }

  /** Carries non-canonical columns into limbs; the carry out of the last column is 0. */
  method CarryColumns(p: seq<int>) returns (out: seq<int>)
    requires |p| == 16 && (forall k :: 0 <= k < 16 ==> 0 <= p[k] <= 8 * (B - 1) * (B - 1)) && Num(p) < Pow(B, 16)
    ensures Limbs(out, 16) && Num(out) == Num(p)
  {
    hide Val, Pow;
    out := [];
    var carry, i := 0, 0;
    ValNothing(B, p);
    ValNothing(B, out);
    assert out == out[..0];
    ZeroTimes(Pow(B, 0));
    while i < 16
      invariant 0 <= i <= 16 && Limbs(out, i) && 0 <= carry <= 8 * B
      invariant Num(out) + carry * Pow(B, i) == Num(p[..i])
    {
      var v := p[i] + carry;
      ValSnoc(B, out, v % B);
      ValPrefix(B, p, i);
      CarryStep(B, Pow(B, i), Num(out), carry, p[i], 0, Num(p[..i]));
      NextPower(B, i);
      ZeroTimes(Pow(B, i));
      out := out + [v % B];
      carry := v / B;
      i := i + 1;
    }
    assert p[..i] == p;
    NumBound(out, 16);
    PowPositive(B, 16);
    NothingAbove(Pow(B, 16), carry, Num(out));
  }

  method MulWide(a: seq<int>, b: seq<int>) returns (out: seq<int>)
    requires Limbs(a, 8) && Limbs(b, 8)
    ensures Limbs(out, 16) && Num(out) == Num(a) * Num(b)
  {
    hide Val, Pow;
    var p := Columns(a, b);
    ProductFits(a, b);
    out := CarryColumns(p);
  }

  lemma ProductFits(a: seq<int>, b: seq<int>)
    requires Limbs(a, 8) && Limbs(b, 8)
    ensures Num(a) * Num(b) < Pow(B, 16)
  {
    hide Num, Pow;
    NumBound(a, 8);
    NumBound(b, 8);
    PowAdd(B, 8, 8);
    var x, y, p := Num(a), Num(b), Pow(B, 8);
    MulDistributes(p, p, x);
    MulNonNegative(p, p - 1 - x);
    MulNonNegative(x, p - y);
    MulDistributes(x, p, y);
  }

  // ---- reduction ---------------------------------------------------------------------------------------------------

  const HALF: int := 0x8000_0000

  /** The limbs above bit 31 of the first limb: `(x[i] >> 31) | (x[i + 1] << 1)`, limb by limb. */
  function ShiftedLimbs(x: seq<int>): (r: seq<int>)
    ensures |r| == |x|
  {
    if x == [] then []
    else [x[0] / HALF + (if |x| > 1 then 2 * x[1] % B else 0)] + ShiftedLimbs(x[1..])
  }

  lemma {:induction false} ShiftedNum(x: seq<int>)
    requires |x| > 0 && Digits(B, x)
    ensures Digits(B, ShiftedLimbs(x)) && Num(ShiftedLimbs(x)) == x[0] / HALF + 2 * Num(x[1..])
    decreases |x|
  {
    if |x| == 1 {
      assert ShiftedLimbs(x[1..]) == [];
      FrontLimb(x[0] / HALF, []);
    } else {
      ShiftedNum(x[1..]);
      var t := x[1..];
      TopBit(x[1]);
      FrontLimb(x[0] / HALF + 2 * x[1] % B, ShiftedLimbs(t));
      assert t == [x[1]] + t[1..];
      FrontLimb(x[1], t[1..]);
      assert ShiftedLimbs(x) == [x[0] / HALF + 2 * x[1] % B] + ShiftedLimbs(t);
    }
  }

  lemma TopBit(x: int)
    requires 0 <= x < B
    ensures 2 * x == B * (x / HALF) + 2 * x % B && 0 <= 2 * x % B <= B - 2 && 0 <= x / HALF <= 1 &&
            2 * x % B == 2 * (x % HALF)
  {
    DivModUnique(2 * x, B, x / HALF, 2 * (x % HALF));
  }

  /** `x >> 255` on sixteen limbs: nine limbs remain, the others are zero. */
  method ShrBits255(x: seq<int>) returns (out: seq<int>)
    requires Limbs(x, 16)
    ensures Limbs(out, 16) && Num(out) == Num(x) / TWO255
  {
    hide Val, Pow, Num, ShiftedLimbs;
    out := [];
    var i := 0;
    while i < 16 && i + 7 < 16
      invariant 0 <= i <= 9 && |out| == i && out + ShiftedLimbs(x[i + 7..]) == ShiftedLimbs(x[7..])
    {
      var v := x[i + 7] / HALF;
      if i + 8 < 16 {
        v := v + 2 * x[i + 8] % B;
      }
      NextShifted(x, i + 7);
      ghost var was, rest := out, ShiftedLimbs(x[i + 8..]);
      out := out + [v];
      assert out + rest == was + ([v] + rest);
      i := i + 1;
    }
    ShiftedTail(x);
    assert i == 9 && out + [] == out == ShiftedLimbs(x[7..]);
    out := out + ZeroLimbs(16 - i);
    PadNum(ShiftedLimbs(x[7..]), 7);
  }

  lemma ShiftedTail(x: seq<int>)
    requires Limbs(x, 16)
    ensures ShiftedLimbs(x[16..]) == [] && Limbs(ShiftedLimbs(x[7..]), 9) &&
            Num(ShiftedLimbs(x[7..])) == Num(x) / TWO255
  {
    hide Num, Pow;
    assert x[16..] == [] && x[7..][1..] == x[8..];
    ShiftedNum(x[7..]);
    SplitAt255(x);
  }

  lemma NextShifted(x: seq<int>, j: nat)
    requires j < |x|
    ensures ShiftedLimbs(x[j..]) == [x[j] / HALF + (if j + 1 < |x| then 2 * x[j + 1] % B else 0)] + ShiftedLimbs(x[j +
            1..])
  {
    assert x[j..][1..] == x[j + 1..] && x[j..][0] == x[j];
  }

  function ZeroLimbs(n: nat): (z: seq<int>)
    ensures |z| == n && forall i :: 0 <= i < n ==> z[i] == 0
  {
    seq(n, k => 0)
  }

  lemma PadNum(s: seq<int>, n: nat)
    ensures Num(s + ZeroLimbs(n)) == Num(s)
  {
    var z := ZeroLimbs(n);
    ValConcat(B, s, z);
    ValZeros(B, z);
    ZeroTimes(Pow(B, |s|));
  }

  /** A sixteen-limb number, cut at bit 255. */
  lemma SplitAt255(x: seq<int>)
    requires Limbs(x, 16)
    ensures Num(x) / TWO255 == x[7] / HALF + 2 * Num(x[8..])
    ensures Num(x) % TWO255 == Num(x[..7] + [x[7] % HALF])
  {
    hide Num, Pow;
    LimbPowers();
    NumSplit(x, 7);
    assert x[7..] == [x[7]] + x[8..];
    FrontLimb(x[7], x[8..]);
    assert Limbs(x[..7] + [x[7] % HALF], 8);
    NumSnoc(x[..7], x[7] % HALF);
    NumBound(x[..7], 7);
    DivModUnique(Num(x), TWO255, x[7] / HALF + 2 * Num(x[8..]), Num(x[..7] + [x[7] % HALF]));
  }

  lemma NumSplit(s: seq<int>, k: nat)
    requires k <= |s|
    ensures Num(s) == Num(s[..k]) + Pow(B, k) * Num(s[k..])
  {
    assert s == s[..k] + s[k..];
    ValConcat(B, s[..k], s[k..]);
  }

  lemma NumSnoc(s: seq<int>, x: int)
    ensures Num(s + [x]) == Num(s) + Pow(B, |s|) * x
  {
    ValSnoc(B, s, x);
  }

  /** `x mod 2^255` */
  method LowBits255(x: seq<int>) returns (out: seq<int>)
    requires Limbs(x, 16)
    ensures Limbs(out, 16) && Num(out) == Num(x) % TWO255
  {
    hide Num;
    out := [];
    var i := 0;
    while i < 7
      invariant 0 <= i <= 7 && out == x[..i]
    {
      out := out + [x[i]];
      i := i + 1;
    }
    SplitAt255(x);
    out := out + [x[7] % HALF];
    PadNum(out, 8);
    out := out + ZeroLimbs(8);
  }

  method MulSmall(x: seq<int>, m: int) returns (out: seq<int>)
    requires Limbs(x, 16) && 0 <= m < B && m * Num(x) < Pow(B, 16)
    ensures Limbs(out, 16) && Num(out) == m * Num(x)
  {
    hide Val, Pow;
    out := [];
    var carry, i := 0, 0;
    ValNothing(B, x);
    ValNothing(B, out);
    assert out == out[..0];
    ZeroTimes(Pow(B, 0));
    ZeroTimes(m);
    while i < 16
      invariant 0 <= i <= 16 && Limbs(out, i) && 0 <= carry < B
      invariant Num(out) + carry * Pow(B, i) == m * Num(x[..i])
    {
      LimbProduct(x[i], m);
      var v := x[i] * m + carry;
      ValSnoc(B, out, v % B);
      ValPrefix(B, x, i);
      CarryStep(B, Pow(B, i), Num(out), carry, x[i] * m, 0, m * Num(x[..i]));
      NextPower(B, i);
      ZeroTimes(Pow(B, i));
      Scaled(m, Num(x[..i]), Pow(B, i), x[i]);
      out := out + [v % B];
      carry := v / B;
      i := i + 1;
    }
    assert x[..i] == x;
    NumBound(out, 16);
    PowPositive(B, 16);
    NothingAbove(Pow(B, 16), carry, Num(out));
  }

  lemma Scaled(m: int, v: int, p: int, x: int)
    ensures m * (v + p * x) == m * v + p * (x * m)
  {
    assert m * (p * x) == p * (x * m);
  }

  /** One fold of a 512-bit value. */
  method Fold(r: seq<int>) returns (out: seq<int>)
    requires Limbs(r, 16)
    ensures Limbs(out, 16) && Num(out) == Folded(Num(r))
  {
    hide Val, Pow;
    NumBound(r, 16);
    LimbPowers();
    FoldFits(Num(r));
    var hi := ShrBits255(r);
    var lo := LowBits255(r);
    var scaled := MulSmall(hi, 19);
    var sum, carry := AddDigits(B, lo, scaled);
    NumBound(sum, 16);
    NothingAbove(Pow(B, 16), carry, Num(sum));
    out := sum;
  }

  lemma FoldFits(v: int)
    requires 0 <= v < 4 * TWO255 * TWO255
    ensures 0 <= 19 * (v / TWO255) < 4 * TWO255 * TWO255 && 0 <= Folded(v) < 4 * TWO255 * TWO255
  {
  }

  /** Four folds and two conditional subtractions reduce every 512-bit value to its canonical residue. */
  method ModP(x: seq<int>) returns (out: seq<int>)
    requires Limbs(x, 16)
    ensures IsFe(out) && Num(out) == Num(x) % P
  {
    hide Val, Pow, Folded;
    NumBound(x, 16);
    LimbPowers();
    var r, k := x, 0;
    while k < 4
      invariant 0 <= k <= 4 && Limbs(r, 16) && 0 <= Num(r) && Num(r) % P == Num(x) % P
      invariant Num(r) < (if k == 0 then 4 * TWO255 * TWO255 else if k == 1 then 77 * TWO255 else if k ==
                2 then TWO255 + 1444 else TWO255)
    {
      FoldShrinks(Num(r));
      FoldKeepsResidue(Num(r));
      r := Fold(r);
      k := k + 1;
    }
    LowLimbs(r);
    out := r[..8];
    ModMultiple(Num(r), -1, P);
    out := CtSubIfGe(out);
    out := CtSubIfGe(out);
    SmallResidue(Num(x), Num(out));
  }

  lemma LowLimbs(r: seq<int>)
    requires Limbs(r, 16) && Num(r) < TWO255
    ensures Limbs(r[..8], 8) && Num(r[..8]) == Num(r)
  {
    hide Num, Pow;
    LimbPowers();
    NumSplit(r, 8);
    NumBound(r[..8], 8);
    NumBound(r[8..], 8);
    NothingAbove(Pow(B, 8), Num(r[8..]), Num(r[..8]));
  }

  method FeMul(a: seq<int>, b: seq<int>) returns (r: seq<int>)
    requires IsFe(a) && IsFe(b)
    ensures IsFe(r) && Num(r) == Num(a) * Num(b) % P
  {
    hide Num;
    var wide := MulWide(a, b);
    r := ModP(wide);
  }

  // ---- bytes -------------------------------------------------------------------------------------------------------

  /** `load_le32` */
  function LoadLe32(a: byte, b: byte, c: byte, d: byte): (r: int)
    ensures r == a + 0x100 * Widen(b) + 0x1_0000 * Widen(c) + 0x100_0000 * Widen(d) && 0 <= r < B
  {
    LoadParts(a, b, c, d);
    Or(Or(Or(a, Widen(b) * 0x100), Widen(c) * 0x1_0000), Widen(d) * 0x100_0000)
  }

  function Widen(b: byte): (r: nat)
    ensures r == b
  {
    b
  }

  lemma LoadParts(a: nat, b: nat, c: nat, d: nat)
    requires a < 256 && b < 256 && c < 256 && d < 256
    ensures Or(Or(Or(a, b * 0x100), c * 0x1_0000), d * 0x100_0000) == a + 0x100 * b + 0x1_0000 * c + 0x100_0000 * d
  {
    Weights();
    hide Or, Pow;
    OrField(a, b, 8, 0x100, 1);
    OrField(a + b * 0x100, c, 16, 0x1_0000, 1);
    TopWeight();
    OrField(a + b * 0x100 + c * 0x1_0000, d, 24, 0x100_0000, 1);
  }

  lemma TopWeight()
    ensures Pow(2, 24) == 0x100_0000
  {
    Weights();
    hide Pow;
    PowAdd(2, 8, 16);
  }

  /** The limbs of a byte string. */
  function Words(s: seq<byte>): (w: seq<int>)
    requires |s| % 4 == 0
    ensures |w| == |s| / 4
  {
    if s == [] then [] else [LoadLe32(s[0], s[1], s[2], s[3])] + Words(s[4..])
  }

  lemma {:induction false} WordsValue(s: seq<byte>)
    requires |s| % 4 == 0
    ensures Digits(B, Words(s)) && Num(Words(s)) == LeVal(s)
    decreases |s|
  {
    hide LoadLe32, LeVal, Num;
    if s == [] {
      FrontLimb(0, []);
      NoBytes();
    } else {
      WordsValue(s[4..]);
      FrontWord(s[0], s[1], s[2], s[3], s[4..]);
      assert s == [s[0], s[1], s[2], s[3]] + s[4..];
      FrontLimb(LoadLe32(s[0], s[1], s[2], s[3]), Words(s[4..]));
    }
  }

  lemma NoBytes()
    ensures LeVal([]) == 0
  {
  }

  /** Decoding ignores the top bit and reduces. */
  method FeFromBytes(s: seq<byte>) returns (r: seq<int>)
    requires |s| == 32
    ensures IsFe(r) && Num(r) == LeVal(s) % TWO255 % P
  {
    hide Num, LeVal, Words, LoadLe32;
    var w: seq<int> := [];
    var i := 0;
    while i < 8
      invariant 0 <= i <= 8 && |w| == i && w + Words(s[4 * i..]) == Words(s)
    {
      NextWord(s, 4 * i);
      ghost var was, rest := w, Words(s[4 * i + 4..]);
      var limb := LoadLe32(s[4 * i], s[4 * i + 1], s[4 * i + 2], s[4 * i + 3]);
      w := w + [limb];
      assert was + ([limb] + rest) == w + rest;
      i := i + 1;
    }
    WordsEnd(s, w);
    WordsValue(s);
    ClearTop(w);
    w := w[7 := w[7] % HALF];
    PadNum(w, 8);
    r := ModP(w + ZeroLimbs(8));
  }

  lemma NextWord(s: seq<byte>, j: nat)
    requires j + 4 <= |s| && (|s| - j) % 4 == 0
    ensures Words(s[j..]) == [LoadLe32(s[j], s[j + 1], s[j + 2], s[j + 3])] + Words(s[j + 4..])
  {
    assert s[j..][4..] == s[j + 4..];
  }

  lemma WordsEnd(s: seq<byte>, w: seq<int>)
    requires |s| == 32 && w + Words(s[32..]) == Words(s)
    ensures w == Words(s)
  {
    assert s[32..] == [] && w + [] == w;
  }

  lemma ClearTop(w: seq<int>)
    requires Limbs(w, 8)
    ensures Limbs(w[7 := w[7] % HALF], 8) && Num(w[7 := w[7] % HALF]) == Num(w) % TWO255
  {
    hide Num, Pow;
    LimbPowers();
    var low := w[..7];
    assert w == low + [w[7]] && w[7 := w[7] % HALF] == low + [w[7] % HALF];
    NumSnoc(low, w[7]);
    NumSnoc(low, w[7] % HALF);
    NumBound(low, 7);
    DivModUnique(Num(w), TWO255, w[7] / HALF, Num(low + [w[7] % HALF]));
  }

  /** `store_le32` */
  function StoreLe32(v: int): (w: seq<byte>)
    requires 0 <= v < B
    ensures |w| == 4 && v == Widen(w[0]) + 0x100 * Widen(w[1]) + 0x1_0000 * Widen(w[2]) + 0x100_0000 * Widen(w[3])
  {
    WordParts(v);
    [v % 256, v / 0x100 % 256, v / 0x1_0000 % 256, v / 0x100_0000]
  }

  lemma WordParts(v: int)
    requires 0 <= v < B
    ensures v == v % 256 + 0x100 * (v / 0x100 % 256) + 0x1_0000 * (v / 0x1_0000 % 256) + 0x100_0000 * (v / 0x100_0000)
    ensures 0 <= v / 0x100_0000 < 256
  {
    assert v / 0x1_0000 == v / 0x100 / 0x100;
    assert v / 0x100_0000 == v / 0x1_0000 / 0x100;
  }

  method FeToBytes(f: seq<int>) returns (out: seq<byte>)
    requires Limbs(f, 8)
    ensures |out| == 32 && LeVal(out) == Num(f)
  {
    hide Num, LeVal, StoreLe32;
    out := [];
    var i := 8;
    NoBytes();
    FrontLimb(0, []);
    assert f[8..] == [];
    while i > 0
      invariant 0 <= i <= 8 && |out| == 4 * (8 - i) && LeVal(out) == Num(f[i..])
    {
      i := i - 1;
      TailStep(f, i);
      var word := StoreLe32(f[i]);
      FrontWord(word[0], word[1], word[2], word[3], out);
      assert word == [word[0], word[1], word[2], word[3]];
      out := word + out;
    }
    assert f[0..] == f;
  }

  // ---- inversion ---------------------------------------------------------------------------------------------------

  const EXPONENT: seq<int> := [0xffff_ffeb, 0xffff_ffff, 0xffff_ffff, 0xffff_ffff, 0xffff_ffff, 0xffff_ffff,
      0xffff_ffff, 0x7fff_ffff]

  lemma ExponentValue()
    ensures Limbs(EXPONENT, 8) && Num(EXPONENT) == P - 2
  {
    ValueOfP();
    hide Num;
    assert EXPONENT == [0xffff_ffeb] + P_LIMBS[1..] && P_LIMBS == [0xffff_ffed] + P_LIMBS[1..];
    FrontLimb(0xffff_ffeb, P_LIMBS[1..]);
    FrontLimb(0xffff_ffed, P_LIMBS[1..]);
  }

  /** The 255 low bits of the exponent are all of it. */
  lemma ExponentBits()
    ensures LowDigitBits(32, EXPONENT, 255) == P - 2
  {
    ExponentValue();
    Power32();
    hide Pow, LowDigitBits;
    LowDigitBitsAll(32, EXPONENT, B);
    LastBit();
  }

  lemma Power32()
    ensures Pow(2, 32) == B
  {
    Weights();
    hide Pow;
    PowAdd(2, 16, 16);
  }

  lemma LastBit()
    ensures LowDigitBits(32, EXPONENT, 256) == LowDigitBits(32, EXPONENT, 255)
  {
    hide Pow;
    TopLimbBit(EXPONENT[7]);
    ZeroTimes(Pow(2, 255));
  }

  lemma TopLimbBit(y: int)
    requires 0 <= y < HALF
    ensures HighPart(y, 31) % 2 == 0
  {
    Weights();
    Pow31();
  }

  lemma Pow31()
    ensures Pow(2, 31) == HALF
  {
    Weights();
    Power32();
    NextPower(2, 31);
  }

  lemma PowerOne(a: int)
    requires 0 <= a < P
    ensures Pow(a, 0) % P == 1 && Pow(a, 1) % P == a && Pow(2, 0) == 1
  {
    ModSmall(a, P);
  }

  const ONE: seq<int> := [1, 0, 0, 0, 0, 0, 0, 0]

  lemma OneIsFe()
    ensures IsFe(ONE) && Num(ONE) == 1 && IsFe(ZERO) && Num(ZERO) == 0
  {
    FrontLimb(1, ZERO[1..]);
    assert ONE == [1] + ZERO[1..];
    ValZeros(B, ZERO[1..]);
    ValZeros(B, ZERO);
  }

  const ZERO: seq<int> := [0, 0, 0, 0, 0, 0, 0, 0]

  /** z^(p - 2), least significant bit first, with a branch-free selection of every product.  The exponent is named,
      so that the solver does not unfold the power. */
  method FeInvert(z: seq<int>, ghost exponent: nat) returns (acc: seq<int>)
    requires IsFe(z) && exponent == P - 2
    ensures IsFe(acc) && Num(acc) == Pow(Num(z), exponent) % P
  {
    hide Val, Pow, LowDigitBits, DigitBit;
    OneIsFe();
    NumBound(z, 8);
    PowerOne(Num(z));
    acc := ONE;
    var base, i := z, 0;
    ghost var e: nat, weight: nat := 0, 1;
    NoExponentBits();
    while i < 255
      invariant 0 <= i <= 255 && IsFe(acc) && IsFe(base) && e == LowDigitBits(32, EXPONENT, i) && weight == Pow(2, i)
      invariant Num(acc) == Pow(Num(z), e) % P && Num(base) == Pow(Num(z), weight) % P
    {
      NextExponentBit(i);
      var bit := DigitBit(32, EXPONENT, i);
      var prod := FeMul(acc, base);
      PowMod(Num(z), e, weight, P);
      acc := SelectLimbs(MaskOf(bit == 1), acc, prod);
      e := if bit == 1 then e + weight else e;
      PowMod(Num(z), weight, weight, P);
      base := FeMul(base, base);
      weight := 2 * weight;
      i := i + 1;
    }
    ExponentBits();
  }

  lemma NoExponentBits()
    ensures LowDigitBits(32, EXPONENT, 0) == 0
  {
  }

  lemma NextExponentBit(i: nat)
    requires i < 255
    ensures LowDigitBits(32, EXPONENT, i + 1) == LowDigitBits(32, EXPONENT, i) + (if DigitBit(32, EXPONENT, i) ==
            1 then Pow(2, i) else 0)
    ensures Pow(2, i + 1) == 2 * Pow(2, i)
  {
    hide DigitBit;
    ZeroTimes(Pow(2, i));
    OneTimes(Pow(2, i));
  }

  lemma OneTimes(x: int)
    ensures x * 1 == x
  {
  }
}
