/** The field of 2^255 - 19 elements in 64-bit limbs: exact products, folding, and canonical reduction. */
module Ed25519Field {
  import opened ModArith
  import opened MachineInts
  import opened Radix
  import opened ByteNumbers
  import opened BitOps
  import opened Prime25519

  const B: int := 0x1_0000_0000_0000_0000

  type u64 = x: int | 0 <= x < 0x1_0000_0000_0000_0000

  const P_LIMBS: seq<u64> := [0xffff_ffff_ffff_ffed, 0xffff_ffff_ffff_ffff, 0xffff_ffff_ffff_ffff,
      0x7fff_ffff_ffff_ffff]

  /** The number that little-endian limbs stand for. */
  function Num(s: seq<int>): int { Val(B, s) }

  lemma NumBound(s: seq<u64>)
    ensures 0 <= Num(s) < Pow(B, |s|)
  {
    ValBound(B, s);
  }

  lemma LimbPowers()
    ensures Pow(B, 0) == 1 && Pow(B, 1) == B && Pow(B, 4) == 2 * TWO255 && Pow(B, 8) == 4 * TWO255 * TWO255
  {
    assert Pow(B, 2) == B * B;
    PowAdd(B, 2, 2);
    PowAdd(B, 4, 4);
  }

  /** Short numbers, limb by limb. */
  lemma Num4(s: seq<int>)
    requires |s| == 4
    ensures Num(s) == s[0] + 0x1_0000_0000_0000_0000 * s[1] + 0x1_0000_0000_0000_0000_0000_0000_0000_0000 * s[2]
                      + 0x1_0000_0000_0000_0000_0000_0000_0000_0000_0000_0000_0000_0000 * s[3]
  {
    hide Num;
    assert s == [s[0]] + ([s[1]] + ([s[2]] + ([s[3]] + [])));
    FrontLimb(s[0], [s[1]] + ([s[2]] + ([s[3]] + [])));
    FrontLimb(s[1], [s[2]] + ([s[3]] + []));
    FrontLimb(s[2], [s[3]] + []);
    FrontLimb(s[3], []);
  }

  lemma FrontLimb(x: int, t: seq<int>)
    ensures Num([x] + t) == x + B * Num(t) && Num([]) == 0
  {
    assert ([x] + t)[1..] == t;
  }

  lemma NumSplit(s: seq<int>, k: nat)
    requires k <= |s|
    ensures Num(s) == Num(s[..k]) + Pow(B, k) * Num(s[k..])
  {
    assert s == s[..k] + s[k..];
    ValConcat(B, s[..k], s[k..]);
  }

  // ---- the product --------------------------------------------------------------------------------------------------

  /** A product of limbs fits a u128, with room for a digit and a carry. */
  function Product(x: int, y: int): (p: int)
    requires 0 <= x < B && 0 <= y < B
    ensures p == x * y && 0 <= p <= (B - 1) * (B - 1)
  {
    MulNonNegative(x, y);
    MulNonNegative(B - 1 - x, y);
    MulNonNegative(B - 1, B - 1 - y);
    MulDistributes(y, B - 1, x);
    x * y
  }

  method LimbsMul(a: seq<u64>, b: seq<u64>) returns (p: array<u64>)
    requires |a| == |b| == 4
    ensures fresh(p) && p.Length == 8 && Num(p[..]) == Num(a) * Num(b)
  {
    hide Val;
    p := new u64[8](i => 0);
    NothingYet(p[..], a);
    var i := 0;
    while i < 4
      invariant 0 <= i <= 4 && Num(p[..]) == Num(a[..i]) * Num(b)
      invariant forall k :: i + 4 <= k < 8 ==> p[k] == 0
    {
      LimbsRow(p, i, a[i], b);
      RowDone(B, a, i, Num(b));
      i := i + 1;
    }
    assert a[..i] == a;
  }

  lemma NothingYet(p: seq<u64>, a: seq<u64>)
    requires forall i :: 0 <= i < |p| ==> p[i] == 0
    ensures Num(p) == 0 && Num(a[..0]) == 0
  {
    ValZeros(B, p);
  }

  /** One row, and the carry loop after it, which never runs past the next limb. */
  method LimbsRow(p: array<u64>, i: nat, x: u64, b: seq<u64>)
    requires p.Length == 8 && |b| == 4 && i < 4 && p[i + 4] == 0
    modifies p
    ensures Num(p[..]) == old(Num(p[..])) + x * Pow(B, i) * Num(b)
    ensures forall k :: i + 4 < k < 8 ==> p[k] == old(p[k])
  {
    hide Val, Pow;
    ghost var was := p[..];
    var carry, j := 0, 0;
    RowStart(p[..], i, x, b);
    while j < 4
      invariant 0 <= j <= 4 && 0 <= carry < B
      invariant Num(p[..]) + carry * Pow(B, i + j) == Num(was) + x * Pow(B, i) * Num(b[..j])
      invariant forall k :: i + j <= k < 8 ==> p[k] == was[k]
    {
      var y, z: int := b[j], p[i + j];
      var v := Product(x, y) + z + carry;
      assert 0 <= v < B * B;
      ghost var before := p[..];
      ColumnStep(B, before, i, j, x, b, v, carry);
      var digit: u64 := v % B;
      p[i + j] := digit;
      assert p[..] == before[i + j := digit];
      carry := v / B;
      j := j + 1;
    }
    assert b[..j] == b;
    var k, c := i + 4, carry;
    while c > 0
      invariant i + 4 <= k <= i + 5 && 0 <= c < B && (k == i + 5 ==> c == 0) && (k == i + 4 ==> p[i + 4] == 0)
      invariant Num(p[..]) + c * Pow(B, k) == Num(was) + x * Pow(B, i) * Num(b)
      invariant forall m :: i + 4 < m < 8 ==> p[m] == was[m]
      decreases i + 5 - k
    {
      ghost var before := p[..];
      var z: int := p[k];
      var v := z + c;
      var digit: u64 := v % B;
      p[k] := digit;
      assert p[..] == before[k := digit];
      TopStep(before, k, c);
      c := v / B;
      k := k + 1;
    }
  }

  lemma RowStart(p: seq<u64>, i: nat, x: u64, b: seq<u64>)
    ensures Num(p) + 0 * Pow(B, i + 0) == Num(p) + x * Pow(B, i) * Num(b[..0])
  {
    var q: int := x;
    assert q * Pow(B, i) * 0 == 0;
  }

  lemma TopStep(p: seq<u64>, k: nat, c: u64)
    requires k < |p| && p[k] == 0
    ensures Num(p[k := c]) + 0 * Pow(B, k + 1) == Num(p) + c * Pow(B, k)
  {
    hide Val, Pow;
    ValUpdate(B, p, k, c);
  }

  // ---- folding -----------------------------------------------------------------------------------------------------

  /** `(v[k+4] << 1) | (v[k+3] >> 63)`, truncated to 64 bits. */
  function Shifted(hi: int, lo: int): (r: u64)
    requires 0 <= hi < B && 0 <= lo < B
    ensures r == 2 * hi - B * (hi / 0x8000_0000_0000_0000) + lo / 0x8000_0000_0000_0000
  {
    var top, low := hi / 0x8000_0000_0000_0000, hi % 0x8000_0000_0000_0000;
    assert 2 * hi % B == 2 * low by { DivModUnique(2 * hi, B, top, 2 * low); }
    LowBitFree(lo / 0x8000_0000_0000_0000, low);
    Or(2 * hi % B, lo / 0x8000_0000_0000_0000)
  }

  lemma LowBitFree(bit: nat, low: nat)
    requires bit <= 1
    ensures Or(2 * low, bit) == 2 * low + bit
  {
    OrComm(2 * low, bit);
    assert Pow(2, 1) == 2;
    OrDisjoint(bit, 2 * low, 1, 2);
  }

  lemma {:induction false} OrComm(x: nat, y: nat)
    ensures Or(x, y) == Or(y, x)
    decreases x + y
  {
    if x > 0 && y > 0 {
      OrComm(x / 2, y / 2);
    }
  }

  /** The limbs above bit 255, shifted down to bit 0. */
  lemma HighLimbs(h: seq<int>, l: int, b: seq<int>)
    requires |h| == 4 && |b| == 6 && Digits(B, h) && 0 <= l < B
    requires b[0] == Shifted(h[0], l) && b[1] == Shifted(h[1], h[0]) && b[2] == Shifted(h[2], h[1]) &&
             b[3] == Shifted(h[3], h[2])
    requires b[4] == h[3] / 0x8000_0000_0000_0000 && b[5] == 0
    ensures Num(b) == 2 * Num(h) + l / 0x8000_0000_0000_0000
  {
    hide Num, Shifted, Pow;
    LimbPowers();
    NumSplit(b, 4);
    Num4(h);
    Num4(b[..4]);
    assert b[4..] == [b[4]] + ([b[5]] + []);
    FrontLimb(b[4], [b[5]] + []);
    FrontLimb(b[5], []);
  }

  /** The parts of V below and above bit 255. */
  lemma PartsOf(v: seq<int>, b: seq<int>, low: seq<int>)
    requires |v| == 8 && |low| == 4 && Digits(B, v) && Num(b) == 2 * Num(v[4..]) + v[3] / 0x8000_0000_0000_0000
    requires low[0] == v[0] && low[1] == v[1] && low[2] == v[2] && low[3] == v[3] % 0x8000_0000_0000_0000
    ensures Num(b) == Num(v) / TWO255 && Num(low) == Num(v) % TWO255
  {
    hide Num, Pow;
    LimbPowers();
    NumSplit(v, 4);
    Num4(v[..4]);
    Num4(low);
    DivModUnique(Num(v), TWO255, Num(b), Num(low));
  }

  method TimesNineteen(b: seq<u64>) returns (t: array<u64>)
    requires |b| == 6 && 19 * Num(b) < Pow(B, 6)
    ensures fresh(t) && t.Length == 6 && Num(t[..]) == 19 * Num(b)
  {
    hide Val, Pow;
    t := new u64[6](i => 0);
    var carry, i := 0, 0;
    LimbPowers();
    NothingYet([], t[..]);
    NothingYet([], b);
    while i < 6
      invariant 0 <= i <= 6 && 0 <= carry < 19
      invariant Num(t[..i]) + carry * Pow(B, i) == 19 * Num(b[..i])
    {
      var x: int := b[i];
      var v := x * 19 + carry;
      ghost var was := t[..i];
      var digit: u64 := v % B;
      t[i] := digit;
      assert t[..i + 1] == was + [digit];
      ValSnoc(B, was, digit);
      ValPrefix(B, b, i);
      CarryStep(B, Pow(B, i), Num(was), carry, 19 * x, 0, 19 * Num(b[..i]));
      NextPower(i);
      Nineteen(Pow(B, i), x);
      carry := v / B;
      i := i + 1;
    }
    assert t[..i] == t[..] && b[..i] == b;
    NumBound(t[..]);
    PowPositive(B, 6);
    NothingAbove(Pow(B, 6), carry, Num(t[..]));
  }

  lemma NextPower(i: nat)
    ensures Pow(B, i + 1) == Pow(B, i) * B
  {
  }

  lemma Nineteen(p: int, x: int)
    ensures p * (19 * x) == 19 * (p * x) && p * 0 == 0
  {
  }

  /** Adds t to the low six limbs of r; a carry goes to the seventh. */
  method AddLimbs(r: array<u64>, t: seq<u64>)
    requires r.Length == 7 && |t| == 6 && r[6] == 0
    modifies r
    ensures Num(r[..]) == old(Num(r[..])) + Num(t)
  {
    hide Val, Pow;
    ghost var was := r[..];
    var c, i := 0, 0;
    NothingYet([], was);
    NothingYet([], t);
    NothingYet([], r[..]);
    while i < 6
      invariant 0 <= i <= 6 && 0 <= c <= 1 && forall k :: i <= k < 7 ==> r[k] == was[k]
      invariant Num(r[..i]) + c * Pow(B, i) == Num(was[..i]) + Num(t[..i])
    {
      var x, y: int := r[i], t[i];
      var v := x + y + c;
      ghost var before := r[..i];
      var digit: u64 := v % B;
      r[i] := digit;
      assert r[..i + 1] == before + [digit];
      ValSnoc(B, before, digit);
      ValPrefix(B, was, i);
      ValPrefix(B, t, i);
      CarryStep(B, Pow(B, i), Num(before), c, x, y, Num(was[..i]) + Num(t[..i]));
      NextPower(i);
      c := v / B;
      i := i + 1;
    }
    assert t[..i] == t;
    ghost var low := r[..6];
    if c > 0 {
      r[6] := c;
    }
    assert r[..] == low + [c];
    ValSnoc(B, low, c);
    assert was == was[..6] + [0];
    ValSnoc(B, was[..6], 0);
    assert Pow(B, 6) * 0 == 0 && c * Pow(B, 6) == Pow(B, 6) * c;
  }

  lemma WidePower()
    ensures Pow(B, 6) == 2 * TWO255 * (B * B) && 76 * TWO255 < Pow(B, 6)
  {
    LimbPowers();
    PowAdd(B, 4, 2);
    assert Pow(B, 2) == B * B;
  }

  method FoldVal(v: seq<u64>) returns (r: array<u64>)
    requires |v| == 8
    ensures fresh(r) && r.Length == 7 && Num(r[..]) == Folded(Num(v))
  {
    hide Num, Shifted, Pow;
    var b: seq<u64> := [Shifted(v[4], v[3]), Shifted(v[5], v[4]), Shifted(v[6], v[5]), Shifted(v[7], v[6]),
        v[7] / 0x8000_0000_0000_0000, 0];
    var low: seq<u64> := [v[0], v[1], v[2], v[3] % 0x8000_0000_0000_0000];
    HighLimbs(v[4..], v[3], b);
    PartsOf(v, b, low);
    HighBound(v);
    var t := TimesNineteen(b);
    r := new u64[7](i requires 0 <= i < 7 => if i < 4 then low[i] else 0);
    assert r[..] == low + [0, 0, 0];
    PadNum(low, [0, 0, 0]);
    AddLimbs(r, t[..]);
  }

  lemma HighBound(v: seq<u64>)
    requires |v| == 8
    ensures 0 <= Num(v) / TWO255 < 4 * TWO255 && 19 * (Num(v) / TWO255) < Pow(B, 6)
  {
    hide Num, Pow;
    NumBound(v);
    LimbPowers();
    WidePower();
  }

  lemma PadNum(s: seq<int>, z: seq<int>)
    requires forall i :: 0 <= i < |z| ==> z[i] == 0
    ensures Num(s + z) == Num(s)
  {
    ValConcat(B, s, z);
    ValZeros(B, z);
    assert Pow(B, |s|) * 0 == 0;
  }

  // ---- canonical reduction -----------------------------------------------------------------------------------------

  /** The loop condition asks whether the number reaches 2^255. */
  lemma SizeTest(r: seq<int>)
    requires |r| == 7 && Digits(B, r)
    ensures (r[4] != 0 || r[5] != 0 || r[6] != 0 || r[3] >= 0x8000_0000_0000_0000) <==> Num(r) >= TWO255
    ensures r[4] == 0 && r[5] == 0 && r[6] == 0 ==> Num(r) == Num(r[..4])
  {
    hide Num, Pow;
    LimbPowers();
    NumSplit(r, 4);
    Num4(r[..4]);
    var h := r[4..];
    assert h == [h[0]] + ([h[1]] + ([h[2]] + []));
    FrontLimb(h[0], [h[1]] + ([h[2]] + []));
    FrontLimb(h[1], [h[2]] + []);
    FrontLimb(h[2], []);
  }

  lemma ValueOfP()
    ensures Num(P_LIMBS) == P
  {
    Num4(P_LIMBS);
  }

  /** Reduction modulo 2^255 - 19: at most three folds, so the guard never breaks the loop, then one subtraction. */
  method ReduceP(prod: seq<u64>) returns (out: seq<u64>)
    requires |prod| == 8
    ensures |out| == 4 && Num(out) == Num(prod) % P
  {
    hide Num, Folded, Pow;
    NumBound(prod);
    LimbPowers();
    var r := FoldVal(prod);
    FoldShrinks(Num(prod));
    FoldKeepsResidue(Num(prod));
    var guard := 0;
    SizeTest(r[..]);
    while r[4] != 0 || r[5] != 0 || r[6] != 0 || r[3] >= 0x8000_0000_0000_0000
      invariant fresh(r) && 0 <= guard <= 2 && r.Length == 7 && Num(r[..]) >= 0 && Num(r[..]) % P == Num(prod) % P
      invariant Num(r[..]) < (if guard == 0 then 77 * TWO255 else if guard == 1 then TWO255 + 1444 else TWO255)
      decreases 2 - guard
    {
      SizeTest(r[..]);
      FoldShrinks(Num(r[..]));
      FoldKeepsResidue(Num(r[..]));
      var v8: seq<u64> := r[..] + [0];
      PadNum(r[..], [0]);
      r := FoldVal(v8);
      guard := guard + 1;
      if guard > 8 {
        assert false;
        break;
      }
    }
    SizeTest(r[..]);
    out := Canonical(r, Num(prod));
  }

  /** The conditional subtraction, and the four limbs that remain. */
  method Canonical(r: array<u64>, ghost v: int) returns (out: seq<u64>)
    requires r.Length == 7 && 0 <= Num(r[..]) < TWO255 && Num(r[..]) % P == v % P
    modifies r
    ensures |out| == 4 && Num(out) == v % P
  {
    hide Num;
    ghost var x := Num(r[..]);
    var ge := LimbsGeP(r[..]);
    if ge {
      LimbsSubP(r);
      ModMultiple(x, -1, P);
    }
    NumBound(r[..]);
    SizeTest(r[..]);
    out := r[..4];
    SmallResidue(v, Num(out));
  }

  /** r >= p, from the top limb down. */
  method LimbsGeP(r: seq<u64>) returns (ge: bool)
    requires |r| == 7
    ensures ge <==> Num(r) >= P
  {
    hide Num;
    SizeTest(r);
    var i := 6;
    while i >= 4
      invariant 3 <= i <= 6 && forall k :: i < k < 7 ==> r[k] == 0
    {
      if r[i] != 0 {
        return true;
      }
      i := i - 1;
    }
    Num4(r[..4]);
    Num4(P_LIMBS);
    ValueOfP();
    while i >= 0
      invariant -1 <= i <= 3 && forall k :: i < k < 4 ==> r[k] == P_LIMBS[k]
    {
      if r[i] > P_LIMBS[i] {
        return true;
      }
      if r[i] < P_LIMBS[i] {
        return false;
      }
      i := i - 1;
    }
    return true;
  }

  /** Subtracts p in place, with the borrow running into the upper limbs only while there is one. */
  method LimbsSubP(r: array<u64>)
    requires r.Length == 7 && Num(r[..]) >= P
    modifies r
    ensures Num(r[..]) == old(Num(r[..])) - P
  {
    hide Val, Pow;
    ghost var was, p: seq<u64> := r[..], P_LIMBS + [0, 0, 0];
    ValueOfP();
    PadNum(P_LIMBS, [0, 0, 0]);
    NothingYet([], was);
    NothingYet([], p);
    NothingYet([], r[..]);
    var borrow, i := 0, 0;
    while i < 4
      invariant 0 <= i <= 4 && 0 <= borrow <= 1 && forall k :: i <= k < 7 ==> r[k] == was[k]
      invariant Num(r[..i]) - borrow * Pow(B, i) == Num(was[..i]) - Num(p[..i])
    {
      borrow := SubLimb(r, was, p, i, P_LIMBS[i], borrow);
      i := i + 1;
    }
    while i < 7
      invariant 4 <= i <= 7 && 0 <= borrow <= 1 && forall k :: i <= k < 7 ==> r[k] == was[k]
      invariant Num(r[..i]) - borrow * Pow(B, i) == Num(was[..i]) - Num(p[..i])
    {
      if borrow == 0 {
        break;
      }
      borrow := SubLimb(r, was, p, i, 0, borrow);
      i := i + 1;
    }
    assert r[i..] == was[i..] && r[..7] == r[..] && was[..7] == was;
    NumSplit(r[..], i);
    NumSplit(was, i);
    NumSplit(p, i);
    ValZeros(B, p[i..]);
    TailZero(Pow(B, i));
    NumBound(r[..]);
    if i == 7 {
      NoBorrowLeft(r[..], was, borrow);
    }
  }

  lemma TailZero(p: int)
    ensures p * 0 == 0 && 0 * p == 0 && 1 * p == p
  {
  }

  /** One limb of the subtraction. */
  method SubLimb(r: array<u64>, ghost was: seq<u64>, ghost p: seq<u64>, i: nat, y: u64, borrow: int) returns (next: int)
    requires r.Length == |was| == |p| == 7 && i < 7 && p[i] == y && 0 <= borrow <= 1 && r[i] == was[i]
    requires Num(r[..i]) - borrow * Pow(B, i) == Num(was[..i]) - Num(p[..i])
    modifies r
    ensures 0 <= next <= 1 && Num(r[..i + 1]) - next * Pow(B, i + 1) == Num(was[..i + 1]) - Num(p[..i + 1])
    ensures forall k :: i < k < 7 ==> r[k] == old(r[k])
  {
    hide Val, Pow;
    ghost var low := r[..i];
    var x, z: int := r[i], y;
    var v := x - z - borrow;
    BorrowStep(B, Pow(B, i), Num(low), borrow, x, z, Num(was[..i]) - Num(p[..i]));
    NextPower(i);
    var digit: u64;
    if v < 0 {
      digit := v + B;
      next := 1;
    } else {
      digit := v;
      next := 0;
    }
    r[i] := digit;
    assert r[..i + 1] == low + [digit];
    ValSnoc(B, low, digit);
    ValPrefix(B, was, i);
    ValPrefix(B, p, i);
  }

  lemma NoBorrowLeft(r: seq<u64>, was: seq<u64>, borrow: int)
    requires |r| == |was| == 7 && Num(was) >= P && 0 <= borrow <= 1 && Num(r) - borrow * Pow(B, 7) == Num(was) - P
    ensures borrow == 0
  {
    hide Num, Pow;
    NumBound(r);
    BorrowProduct(borrow, Pow(B, 7));
  }

  lemma BorrowProduct(borrow: int, p: int)
    requires 0 <= borrow <= 1
    ensures borrow * p == if borrow == 1 then p else 0
  {
  }

  // ---- 32-byte elements --------------------------------------------------------------------------------------------

  lemma {:induction false} LimbWidth(i: nat)
    ensures Pow(256, 8 * i) == Pow(B, i)
    decreases i
  {
    if i > 0 {
      LimbWidth(i - 1);
      PowAdd(256, 8, 8 * (i - 1));
      Widths();
    }
  }

  /** One limb from eight bytes: every byte is shifted to its place and merged by `|`. */
  method LimbOf(a: seq<byte>) returns (limb: u64)
    requires |a| == 8
    ensures limb == LeVal(a)
  {
    hide Val, Or, Pow;
    var x, j := 0, 0;
    LeStart(a);
    while j < 8
      invariant 0 <= j <= 8 && x == LeVal(a[..j])
    {
      LeBound(a[..j]);
      ShiftedByte(x, a[j], j);
      ValPrefix(256, a, j);
      x := Or(x, Shift(a[j], j));
      j := j + 1;
    }
    assert a[..j] == a;
    LeBound(a);
    Widths();
    limb := x;
  }

  lemma LeStart(a: seq<byte>)
    ensures LeVal(a[..0]) == 0
  {
  }

  /** `x << (8 * j)` for a byte. */
  function Shift(x: int, j: nat): (r: nat)
    requires 0 <= x
    ensures r == Pow(256, j) * x
  {
    PowPositive(256, j);
    MulNonNegative(Pow(256, j), x);
    Pow(256, j) * x
  }

  lemma ShiftedByte(x: int, y: int, j: nat)
    requires 0 <= x < Pow(256, j) && 0 <= y
    ensures Or(x, Shift(y, j)) == x + Shift(y, j)
  {
    hide Or, Pow;
    PowTwos(j);
    ModMultiple(0, y, Pow(256, j));
    OrDisjoint(x, Shift(y, j), 8 * j, Pow(256, j));
  }

  method FeToLimbs(a: seq<byte>) returns (out: seq<u64>)
    requires |a| == 32
    ensures |out| == 4 && Num(out) == LeVal(a)
  {
    hide Val, Pow;
    out := [];
    var i := 0;
    LeStart(a);
    NothingYet([], out);
    while i < 4
      invariant 0 <= i <= 4 && |out| == i && Num(out) == LeVal(a[..8 * i])
    {
      var limb := LimbOf(a[8 * i..8 * i + 8]);
      ValSnoc(B, out, limb);
      LimbWidth(i);
      assert a[..8 * (i + 1)] == a[..8 * i] + a[8 * i..8 * i + 8];
      ValConcat(256, a[..8 * i], a[8 * i..8 * i + 8]);
      out := out + [limb];
      i := i + 1;
    }
    assert a[..8 * i] == a;
  }

  /** The eight bytes of a limb. */
  method BytesOf(limb: u64) returns (out: seq<byte>)
    ensures |out| == 8 && LeVal(out) == limb
  {
    hide Val, Pow;
    out := [];
    var j := 0;
    var rest: int := limb;
    LeStart([]);
    Widths();
    LimbPowers256();
    while j < 8
      invariant 0 <= j <= 8 && |out| == j && 0 <= rest && rest == ShiftRight(limb, j)
      invariant LeVal(out) + Pow(256, j) * rest == limb
    {
      var digit: byte := rest % 256;
      ValSnoc(256, out, digit);
      ByteStep(Pow(256, j), rest);
      NextByteShift(limb, j);
      out := out + [digit];
      rest := ShiftRight(limb, j + 1);
      j := j + 1;
    }
    LeBound(out);
    NothingAbove(Pow(256, 8), rest, LeVal(out));
  }

  lemma LimbPowers256()
    ensures Pow(256, 0) == 1
  {
  }

  /** `limb >> (8 * j)` */
  function ShiftRight(x: int, j: nat): (r: int)
    requires 0 <= x
    ensures 0 <= r && (j == 0 ==> r == x)
  {
    PowPositive(256, j);
    assert Pow(256, 0) == 1;
    QuotientNonNegative(x, Pow(256, j));
    x / Pow(256, j)
  }

  lemma QuotientNonNegative(x: int, p: int)
    requires x >= 0 && p > 0
    ensures x / p >= 0 && x / 1 == x
  {
  }

  lemma NextByteShift(x: int, j: nat)
    requires 0 <= x
    ensures ShiftRight(x, j + 1) == ShiftRight(x, j) / 256 && Pow(256, j + 1) == 256 * Pow(256, j)
  {
    PowPositive(256, j);
    var p, d := Pow(256, j), x / Pow(256, j);
    assert x == p * d + x % p && d == 256 * (d / 256) + d % 256;
    assert p * (256 * (d / 256) + d % 256) == (256 * p) * (d / 256) + p * (d % 256);
    MulDistributes(p, 255, d % 256);
    MulNonNegative(p, 255 - d % 256);
    MulNonNegative(p, d % 256);
    DivModUnique(x, 256 * p, d / 256, p * (d % 256) + x % p);
  }

  lemma ByteStep(p: int, rest: int)
    ensures p * rest == p * (rest % 256) + (256 * p) * (rest / 256)
  {
    assert rest == 256 * (rest / 256) + rest % 256;
    assert p * (256 * (rest / 256) + rest % 256) == (256 * p) * (rest / 256) + p * (rest % 256);
  }

  method FeFromLimbs(a: seq<u64>) returns (out: seq<byte>)
    requires |a| == 4
    ensures |out| == 32 && LeVal(out) == Num(a)
  {
    hide Val, Pow;
    out := [];
    var i := 0;
    LeStart([]);
    NothingYet([], a);
    while i < 4
      invariant 0 <= i <= 4 && |out| == 8 * i && LeVal(out) == Num(a[..i])
    {
      var b := BytesOf(a[i]);
      ValConcat(256, out, b);
      LimbWidth(i);
      ValPrefix(B, a, i);
      out := out + b;
      i := i + 1;
    }
    assert a[..i] == a;
  }

  // ---- field operations --------------------------------------------------------------------------------------------

  method FeMul(a: seq<byte>, b: seq<byte>) returns (r: seq<byte>)
    requires |a| == |b| == 32
    ensures |r| == 32 && LeVal(r) == LeVal(a) * LeVal(b) % P
  {
    hide LeVal, Num;
    var la := FeToLimbs(a);
    var lb := FeToLimbs(b);
    var prod := LimbsMul(la, lb);
    var c := ReduceP(prod[..]);
    r := FeFromLimbs(c);
  }

  /** a + b with its carry, then reduced; the operands need not be canonical. */
  method FeAdd(a: seq<byte>, b: seq<byte>) returns (r: seq<byte>)
    requires |a| == |b| == 32
    ensures |r| == 32 && LeVal(r) == (LeVal(a) + LeVal(b)) % P
  {
    hide LeVal, Val, Pow;
    var la := FeToLimbs(a);
    var lb := FeToLimbs(b);
    var s, carry := AddFour(la, lb);
    ValSnoc(B, s, carry);
    var prod: seq<u64> := s + [carry] + [0, 0, 0];
    PadNum(s + [carry], [0, 0, 0]);
    var c := ReduceP(prod);
    r := FeFromLimbs(c);
  }

  method AddFour(a: seq<u64>, b: seq<u64>) returns (s: seq<u64>, carry: u64)
    requires |a| == |b| == 4
    ensures |s| == 4 && carry <= 1 && Num(s) + Pow(B, 4) * carry == Num(a) + Num(b)
  {
    hide Val, Pow;
    s := [];
    var c, i := 0, 0;
    NothingYet([], a);
    NothingYet([], b);
    LimbPowers();
    while i < 4
      invariant 0 <= i <= 4 && |s| == i && 0 <= c <= 1 && Num(s) + c * Pow(B, i) == Num(a[..i]) + Num(b[..i])
    {
      var x, y: int := a[i], b[i];
      var v := x + y + c;
      var digit: u64 := v % B;
      ValSnoc(B, s, digit);
      ValPrefix(B, a, i);
      ValPrefix(B, b, i);
      CarryStep(B, Pow(B, i), Num(s), c, x, y, Num(a[..i]) + Num(b[..i]));
      NextPower(i);
      s := s + [digit];
      c := v / B;
      i := i + 1;
    }
    assert a[..i] == a && b[..i] == b;
    carry := c;
  }

  /** p + a - b; for canonical operands the borrow that the code drops at the top is 0, and so is the carry. */
  method FeSub(a: seq<byte>, b: seq<byte>) returns (r: seq<byte>)
    requires |a| == |b| == 32 && LeVal(a) < P && LeVal(b) < P
    ensures |r| == 32 && LeVal(r) == (LeVal(a) - LeVal(b)) % P
  {
    hide LeVal, Val, Pow;
    var la := FeToLimbs(a);
    var lb := FeToLimbs(b);
    ValueOfP();
    LimbPowers();
    LeBound(a);
    LeBound(b);
    var pa, top := AddFour(P_LIMBS, la);
    NumBound(pa);
    assert top == 0;
    var d, borrow := SubFour(pa, lb);
    NumBound(d);
    assert borrow == 0;
    var prod: seq<u64> := d + [top, 0, 0, 0];
    PadNum(d, [top, 0, 0, 0]);
    var c := ReduceP(prod);
    ModMultiple(LeVal(a) - LeVal(b), 1, P);
    r := FeFromLimbs(c);
  }

  method SubFour(a: seq<u64>, b: seq<u64>) returns (d: seq<u64>, borrow: int)
    requires |a| == |b| == 4
    ensures |d| == 4 && 0 <= borrow <= 1 && Num(d) - borrow * Pow(B, 4) == Num(a) - Num(b)
  {
    hide Val, Pow;
    d := [];
    borrow := 0;
    var i := 0;
    NothingYet([], a);
    NothingYet([], b);
    LimbPowers();
    while i < 4
      invariant 0 <= i <= 4 && |d| == i && 0 <= borrow <= 1 && Num(d) - borrow * Pow(B, i) == Num(a[..i]) - Num(b[..i])
    {
      var x, y: int := a[i], b[i];
      var v := x - y - borrow;
      BorrowStep(B, Pow(B, i), Num(d), borrow, x, y, Num(a[..i]) - Num(b[..i]));
      NextPower(i);
      var digit: u64;
      if v < 0 {
        digit := v + B;
        borrow := 1;
      } else {
        digit := v;
        borrow := 0;
      }
      ValSnoc(B, d, digit);
      ValPrefix(B, a, i);
      ValPrefix(B, b, i);
      d := d + [digit];
      i := i + 1;
    }
    assert a[..i] == a && b[..i] == b;
  }

  // ---- inversion ---------------------------------------------------------------------------------------------------

  /** p - 2, the exponent. */
  const EXPONENT_LIMBS: seq<u64> := [0xffff_ffff_ffff_ffeb, 0xffff_ffff_ffff_ffff, 0xffff_ffff_ffff_ffff,
      0x7fff_ffff_ffff_ffff]

  function BitOfLimbs(s: seq<u64>, i: nat): (b: int)
    requires i < 64 * |s|
    ensures 0 <= b <= 1
  {
    HighPart(s[i / 64], i % 64) % 2
  }

  /** The number that the bits from i on form. */
  function BitsFrom(s: seq<u64>, i: nat): (n: nat)
    requires i <= 64 * |s|
    decreases 64 * |s| - i
  {
    if i == 64 * |s| then 0 else 2 * BitsFrom(s, i + 1) + BitOfLimbs(s, i)
  }

  lemma LimbParts(y: u64)
    ensures HighPart(y, 64) == 0 && HighPart(y, 0) == y
  {
    assert Pow(2, 0) == 1;
    PowTwos(8);
    Widths();
  }

  lemma {:induction false} BitsOfLimb(s: seq<u64>, k: nat, j: nat, p: int)
    requires k < |s| && j <= 64 && p == Pow(2, 64 - j)
    ensures BitsFrom(s, 64 * k + j) == HighPart(s[k], j) + p * BitsFrom(s, 64 * (k + 1))
    decreases 64 - j
  {
    hide Pow, HighPart;
    if j == 64 {
      LimbParts(s[k]);
      PowOne();
    } else {
      var i := 64 * k + j;
      assert i / 64 == k && i % 64 == j;
      BitsOfLimb(s, k, j + 1, Pow(2, 63 - j));
      NextHigh(s[k], j);
      TwicePower(63 - j, BitsFrom(s, 64 * (k + 1)));
    }
  }

  lemma PowOne()
    ensures Pow(2, 0) == 1
  {
  }

  lemma TwicePower(j: nat, v: int)
    ensures Pow(2, j + 1) * v == 2 * (Pow(2, j) * v)
  {
  }

  lemma {:induction false} BitsAreNumber(s: seq<u64>, k: nat)
    requires k <= |s|
    ensures BitsFrom(s, 64 * k) == Num(s[k..])
    decreases |s| - k
  {
    if k == |s| {
      NothingYet([], s);
      assert s[k..] == s[..0];
    } else {
      BitsAreNumber(s, k + 1);
      PowTwos(8);
      Widths();
      BitsOfLimb(s, k, 0, B);
      LimbParts(s[k]);
      assert s[k..] == [s[k]] + s[k + 1..];
      FrontLimb(s[k], s[k + 1..]);
    }
  }

  /** The bits of the exponent from bit 254 down are all of it. */
  lemma ExponentBits()
    ensures BitsFrom(EXPONENT_LIMBS, 0) == P - 2 && BitsFrom(EXPONENT_LIMBS, 255) == 0
  {
    ExponentValue();
    ExponentTop(EXPONENT_LIMBS);
  }

  lemma ExponentValue()
    ensures BitsFrom(EXPONENT_LIMBS, 0) == P - 2
  {
    hide BitsFrom, Num;
    var s := EXPONENT_LIMBS;
    BitsAreNumber(s, 0);
    assert s[0..] == s;
    Num4(s);
  }

  lemma ExponentTop(s: seq<u64>)
    requires |s| == 4 && s[3] < 0x8000_0000_0000_0000
    ensures BitsFrom(s, 255) == 0
  {
    hide Pow, BitsFrom, Num, HighPart;
    BitsOfLimb(s, 3, 63, Pow(2, 1));
    BitsAreNumber(s, 4);
    TopBit(s[3]);
    assert s[4..] == [];
    NoLimbs(s[4..]);
  }

  lemma NoLimbs(s: seq<int>)
    requires s == []
    ensures Num(s) == 0
  {
  }

  lemma TopBit(y: u64)
    requires y < 0x8000_0000_0000_0000
    ensures HighPart(y, 63) == 0
  {
    PowTwos(7);
    Pow63();
  }

  lemma Pow63()
    ensures Pow(2, 63) == 0x8000_0000_0000_0000
  {
    assert Pow(2, 7) == 128 && Pow(256, 7) == 0x100_0000_0000_0000;
    hide Pow;
    PowTwos(7);
    PowAdd(2, 56, 7);
  }

  /** Square and multiply over the 255 bits of p - 2, most significant first: a^(p - 2).  The exponent is named, so that
      the solver does not unfold the power. */
  method FeInvert(a: seq<byte>, ghost exponent: nat) returns (acc: seq<byte>)
    requires |a| == 32 && exponent == P - 2
    ensures |acc| == 32 && LeVal(acc) == Pow(LeVal(a), exponent) % P
  {
    hide LeVal, Pow, BitsFrom, BitOfLimbs;
    acc := LittleEndian(1, 32);
    Widths();
    LittleEndianValue(1, 32);
    ExponentBits();
    PowZero(LeVal(a));
    ghost var e: nat := 0;
    var i := 255;
    while i > 0
      invariant 0 <= i <= 255 && e == BitsFrom(EXPONENT_LIMBS, i) && |acc| == 32 && LeVal(acc) == Pow(LeVal(a), e) % P
    {
      i := i - 1;
      NextBit(i);
      PowMod(LeVal(a), e, e, P);
      acc := FeMul(acc, acc);
      e := 2 * e;
      var bit := BitOfLimbs(EXPONENT_LIMBS, i);
      if bit == 1 {
        PowNextMod(LeVal(a), e, P);
        acc := FeMul(acc, a);
        e := e + 1;
      }
    }
  }

  lemma NextBit(i: nat)
    requires i < 255
    ensures BitsFrom(EXPONENT_LIMBS, i) == 2 * BitsFrom(EXPONENT_LIMBS, i + 1) + BitOfLimbs(EXPONENT_LIMBS, i)
  {
    hide BitOfLimbs;
  }
}
