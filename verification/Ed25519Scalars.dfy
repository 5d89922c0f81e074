/** Ed25519 scalar arithmetic: branch-free byte operations, long multiplication, and reduction modulo L. */
module Ed25519Scalars {
  import opened ModArith
  import opened MachineInts
  import opened Radix
  import opened ByteNumbers

  /** The group order, 2^252 + 27742317777372353535851937790883648493. */
  const L: int := 0x1000_0000_0000_0000_0000_0000_0000_0000_14de_f9de_a2f7_9cd6_5812_631a_5cf5_d3ed

  /** An all-ones or all-zeros byte. */
  predicate IsMask(m: byte) { m == 0 || m == 255 }

  /** `0u8.wrapping_sub(flag as u8)` */
  function MaskOf(flag: bool): (m: byte)
    ensures IsMask(m)
  {
    if flag then 255 else 0
  }

  /** `x & m` for a mask m. */
  function And(x: byte, m: byte): byte
    requires IsMask(m)
  {
    if m == 255 then x else 0
  }

  /** `m | n` and `!m` for masks. */
  function OrMask(m: byte, n: byte): byte
    requires IsMask(m) && IsMask(n)
  {
    if m == 255 then 255 else n
  }

  function NotMask(m: byte): (r: byte)
    requires IsMask(m)
    ensures IsMask(r)
  {
    255 - m
  }

  /** Comparison without a branch on the data: 255 if a >= b, and 0 otherwise. */
  method CtGe(a: seq<byte>, b: seq<byte>) returns (mask: byte)
    requires |a| == |b|
    ensures mask == if BeVal(a) >= BeVal(b) then 255 else 0
  {
    hide BeVal;
    var eq, gt: byte := 255, 0;
    var i := 0;
    NothingBefore(a, b);
    while i < |a|
      invariant 0 <= i <= |a| && IsMask(eq) && IsMask(gt) && (eq == 255 ==> gt == 0)
      invariant eq == 255 <==> BeVal(a[..i]) == BeVal(b[..i])
      invariant gt == 255 <==> BeVal(a[..i]) > BeVal(b[..i])
    {
      BePrefix(a, i);
      BePrefix(b, i);
      var aGt, aLt := MaskOf(a[i] > b[i]), MaskOf(a[i] < b[i]);
      var newGt, newLt := And(aGt, eq), And(aLt, eq);
      gt := OrMask(gt, newGt);
      eq := And(eq, NotMask(newLt));
      eq := And(eq, NotMask(newGt));
      i := i + 1;
    }
    assert a[..i] == a && b[..i] == b;
    mask := OrMask(gt, eq);
  }

  lemma NothingBefore(a: seq<byte>, b: seq<byte>)
    ensures BeVal(a[..0]) == BeVal(b[..0])
    ensures BeVal(a[|a|..]) == 0
  {
    assert a[..0] == [] && b[..0] == [] && a[|a|..] == [];
    assert Rev<byte>([]) == [];
  }

  /** One column of the subtraction. */
  lemma SubColumn(a: seq<byte>, b: seq<byte>, i: nat, lo: seq<byte>, borrow: int, d: byte, need: int)
    requires i < |a| == |b| && |lo| == |a| - 1 - i && 0 <= borrow <= 1
    requires BeVal(lo) - borrow * Pow(256, |a| - 1 - i) == BeVal(a[i + 1..]) - BeVal(b[i + 1..])
    requires d as int == (a[i] as int - b[i] as int - borrow) % 256 &&
             need == if a[i] as int < b[i] as int + borrow then 1 else 0
    ensures BeVal([d] + lo) - need * Pow(256, |a| - i) == BeVal(a[i..]) - BeVal(b[i..])
  {
    hide BeVal, Pow;
    var p, x, y: int := Pow(256, |a| - 1 - i), a[i], b[i];
    BeSuffix(a, i);
    BeSuffix(b, i);
    BeCons(d, lo);
    BorrowStep(256, p, BeVal(lo), borrow, x, y, BeVal(a[i + 1..]) - BeVal(b[i + 1..]));
    PowNext(|a| - 1 - i);
    ColumnDigit(p, x, y, borrow, d, need);
  }

  lemma ColumnDigit(p: int, x: int, y: int, borrow: int, d: int, need: int)
    requires 0 <= x < 256 && 0 <= y < 256 && 0 <= borrow <= 1
    requires d == (x - y - borrow) % 256 && need == if x < y + borrow then 1 else 0
    ensures d == x - y - borrow + 256 * need && d * p == p * (if need ==
            1 then x - y - borrow + 256 else x - y - borrow)
  {
  }

  /** a - b, modulo the width. */
  method CtSub(a: seq<byte>, b: seq<byte>) returns (out: array<byte>)
    requires |a| == |b|
    ensures fresh(out) && out.Length == |a|
    ensures BeVal(a) >= BeVal(b) ==> BeVal(out[..]) == BeVal(a) - BeVal(b)
    ensures BeVal(a) < BeVal(b) ==> BeVal(out[..]) == BeVal(a) - BeVal(b) + Pow(256, |a|)
  {
    hide BeVal, Pow;
    var n := |a|;
    out := new byte[n](i => 0);
    var borrow, i := 0, n;
    NothingBefore(a, b);
    NothingBefore(b, a);
    NothingBefore(out[..], b);
    assert out[..][n..] == out[n..];
    while i > 0
      invariant 0 <= i <= n && 0 <= borrow <= 1
      invariant BeVal(out[i..]) - borrow * Pow(256, n - i) == BeVal(a[i..]) - BeVal(b[i..])
    {
      i := i - 1;
      ghost var lo := out[i + 1..];
      var d := (a[i] - b[i] - borrow) % 256;
      var need := if a[i] < b[i] + borrow then 1 else 0;
      out[i] := d;
      assert out[i + 1..] == lo && out[i..] == [d] + lo;
      SubColumn(a, b, i, lo, borrow, d, need);
      borrow := need;
    }
    assert out[0..] == out[..] && a[0..] == a && b[0..] == b;
    BeBound(a);
    BeBound(b);
    BeBound(out[..]);
  }

  lemma PowNext(k: nat)
    ensures Pow(256, k + 1) == Pow(256, k) * 256
  {
  }

  /** a + b, modulo the width. */
  method CtAdd(a: seq<byte>, b: seq<byte>) returns (out: array<byte>)
    requires |a| == |b|
    ensures fresh(out) && out.Length == |a|
    ensures BeVal(a) + BeVal(b) < Pow(256, |a|) ==> BeVal(out[..]) == BeVal(a) + BeVal(b)
  {
    hide BeVal, Pow;
    var n := |a|;
    out := new byte[n](i => 0);
    var carry, i := 0, n;
    NothingBefore(a, b);
    NothingBefore(b, a);
    NothingBefore(out[..], b);
    assert out[..][n..] == out[n..];
    while i > 0
      invariant 0 <= i <= n && 0 <= carry <= 1
      invariant BeVal(out[i..]) + carry * Pow(256, n - i) == BeVal(a[i..]) + BeVal(b[i..])
    {
      i := i - 1;
      ghost var lo := out[i + 1..];
      BeSuffix(a, i);
      BeSuffix(b, i);
      var v := a[i] + b[i] + carry;
      out[i] := v % 256;
      assert out[i + 1..] == lo && out[i..] == [v % 256] + lo;
      BeCons(v % 256, lo);
      CarryStep(256, Pow(256, n - 1 - i), BeVal(lo), carry, a[i], b[i], BeVal(a[i + 1..]) + BeVal(b[i + 1..]));
      PowNext(n - 1 - i);
      carry := v / 256;
    }
    assert out[0..] == out[..] && a[0..] == a && b[0..] == b;
    BeBound(out[..]);
    if carry == 1 {
      assert carry * Pow(256, n) == Pow(256, n);
    }
  }

  method CtSelect(mask: byte, a: seq<byte>, b: seq<byte>) returns (out: array<byte>)
    requires IsMask(mask) && |a| == |b|
    ensures fresh(out) && out[..] == if mask == 0 then a else b
  {
    out := new byte[|a|](i => 0);
    var i := 0;
    while i < |a|
      invariant 0 <= i <= |a| && out[..i] == if mask == 0 then a[..i] else b[..i]
    {
      out[i] := And(a[i], NotMask(mask)) + And(b[i], mask);
      i := i + 1;
    }
  }

  /** One column of the doubling. */
  lemma DoubleColumn(rem: seq<byte>, i: nat, lo: seq<byte>, carry: int, d: byte)
    requires i < |rem| && |lo| == |rem| - 1 - i && 0 <= carry <= 1 && d as int == (2 * rem[i] as int + carry) % 256
    requires BeVal(lo) + carry * Pow(256, |rem| - 1 - i) == BeVal(rem[i + 1..]) + BeVal(rem[i + 1..])
    ensures BeVal([d] + lo) + rem[i] / 128 * Pow(256, |rem| - i) == BeVal(rem[i..]) + BeVal(rem[i..])
  {
    hide BeVal, Pow;
    var p, x: int := Pow(256, |rem| - 1 - i), rem[i];
    BeSuffix(rem, i);
    BeCons(d, lo);
    CarryStep(256, p, BeVal(lo), carry, x, x, BeVal(rem[i + 1..]) + BeVal(rem[i + 1..]));
    PowNext(|rem| - 1 - i);
    assert (x + x + carry) / 256 == x / 128 && (x + x + carry) % 256 == d;
    Flip(p, d);
    Flip(p, x);
  }

  lemma Flip(p: int, x: int)
    ensures p * x == x * p
  {
  }

  /** Shifts left by one bit; the top bit is lost. */
  method Double(rem: seq<byte>) returns (out: array<byte>)
    ensures fresh(out) && out.Length == |rem|
    ensures 2 * BeVal(rem) < Pow(256, |rem|) ==> BeVal(out[..]) == 2 * BeVal(rem)
  {
    hide BeVal, Pow;
    var n := |rem|;
    out := new byte[n](i => 0);
    var i := n;
    ghost var carry := 0;
    NothingBefore(rem, rem);
    NothingBefore(out[..], rem);
    assert out[..][n..] == out[n..];
    while i > 0
      invariant 0 <= i <= n && 0 <= carry <= 1 && carry == if i < n then rem[i] / 128 else 0
      invariant BeVal(out[i..]) + carry * Pow(256, n - i) == BeVal(rem[i..]) + BeVal(rem[i..])
    {
      i := i - 1;
      ghost var lo := out[i + 1..];
      var carryIn := if i + 1 < n then rem[i + 1] / 128 else 0;
      var cur: int := rem[i];
      var d := (2 * cur + carryIn) % 256;
      out[i] := d;
      assert out[i + 1..] == lo && out[i..] == [d] + lo;
      DoubleColumn(rem, i, lo, carry, d);
      carry := rem[i] / 128;
    }
    assert out[0..] == out[..] && rem[0..] == rem;
    BeBound(out[..]);
    if carry == 1 {
      assert carry * Pow(256, n) == Pow(256, n);
    }
  }

  // ---- reduction modulo L ---------------------------------------------------------------------------------------

  /** The bytes of L, least significant first. */
  const L_BYTES: seq<byte> :=
    [0xed, 0xd3, 0xf5, 0x5c, 0x1a, 0x63, 0x12, 0x58, 0xd6, 0x9c, 0xf7, 0xa2, 0xde, 0xf9, 0xde, 0x14,
     0x00, 0x00, 0x00, 0x00, 0x00, 0x00, 0x00, 0x00, 0x00, 0x00, 0x00, 0x00, 0x00, 0x00, 0x00, 0x10]

  lemma HighHalfOfL(t4: seq<byte>)
    requires t4 == [0, 0, 0, 0, 0, 0, 0, 0, 0, 0, 0, 0, 0, 0, 0, 0x10]
    ensures LeVal(t4) == 0x1000_0000_0000_0000_0000_0000_0000_0000
  {
    hide LeVal;
    var t7 := [0, 0, 0, 0x10] + [];
    var t6 := [0, 0, 0, 0] + t7;
    var t5 := [0, 0, 0, 0] + t6;
    NoBytes();
    FrontWord(0, 0, 0, 0x10, []);
    FrontWord(0, 0, 0, 0, t7);
    FrontWord(0, 0, 0, 0, t6);
    FrontWord(0, 0, 0, 0, t5);
    assert t4 == [0, 0, 0, 0] + t5;
  }

  lemma ValueOfL()
    ensures LeVal(L_BYTES) == L
  {
    hide LeVal;
    var t4 := HighOfL();
    HighHalfOfL(t4);
    LowHalfOfL(t4);
    LParts();
  }

  function HighOfL(): seq<byte> { [0, 0, 0, 0, 0, 0, 0, 0, 0, 0, 0, 0, 0, 0, 0, 0x10] }

  lemma LParts()
    ensures L_BYTES == [0xed, 0xd3, 0xf5, 0x5c] + ([0x1a, 0x63, 0x12, 0x58] + ([0xd6, 0x9c, 0xf7, 0xa2] + ([0xde, 0xf9,
            0xde, 0x14] + HighOfL())))
  {
  }

  lemma LowHalfOfL(t4: seq<byte>)
    requires LeVal(t4) == 0x1000_0000_0000_0000_0000_0000_0000_0000
    ensures LeVal([0xed, 0xd3, 0xf5, 0x5c] + ([0x1a, 0x63, 0x12, 0x58] + ([0xd6, 0x9c, 0xf7, 0xa2] + ([0xde, 0xf9,
            0xde, 0x14] + t4)))) == L
  {
    hide LeVal;
    var t3 := [0xde, 0xf9, 0xde, 0x14] + t4;
    var t2 := [0xd6, 0x9c, 0xf7, 0xa2] + t3;
    var t1 := [0x1a, 0x63, 0x12, 0x58] + t2;
    FrontWord(0xde, 0xf9, 0xde, 0x14, t4);
    FrontWord(0xd6, 0x9c, 0xf7, 0xa2, t3);
    FrontWord(0x1a, 0x63, 0x12, 0x58, t2);
    FrontWord(0xed, 0xd3, 0xf5, 0x5c, t1);
  }

  lemma NoBytes()
    ensures LeVal([]) == 0
  {
  }

  /** The 64-byte form of L, most significant byte first. */
  function WideL(): (w: seq<byte>)
    ensures |w| == 64 && BeVal(w) == L
  {
    ValueOfL();
    RevLe(L_BYTES);
    BePad(32, Rev(L_BYTES));
    Zeros(32) + Rev(L_BYTES)
  }

  lemma Widths64()
    ensures 4 * L < Pow(256, 32) < Pow(256, 64)
  {
    Widths();
  }

  /** Doubling, adding a bit and one conditional subtraction reduce 2 X + bit. */
  lemma BitReduced(x: int, bit: int)
    requires 0 <= x && 0 <= bit <= 1
    ensures var y := 2 * (x % L) + bit;
            0 <= y < 2 * L && (2 * x + bit) % L == if y >= L then y - L else y
  {
    var r, q := x % L, x / L;
    var y := 2 * r + bit;
    if y >= L { DivModUnique(2 * x + bit, L, 2 * q + 1, y - L); } else { DivModUnique(2 * x + bit, L, 2 * q, y); }
  }

  /** One of the 512 iterations: rem becomes 2 rem + bit, modulo L. */
  method NextBit(rem: seq<byte>, bitval: byte, ghost x: int) returns (next: seq<byte>)
    requires |rem| == 64 && bitval <= 1 && x >= 0 && BeVal(rem) == x % L
    ensures |next| == 64 && BeVal(next) == (2 * x + bitval) % L
  {
    hide BeVal, Pow, WideL;
    Widths64();
    BitReduced(x, bitval);
    var bitMask := MaskOf(bitval == 1);
    var shifted := Double(rem);
    var bitword := Zeros(63) + [bitval];
    BeSnoc(Zeros(63), bitval);
    BeZeros(63);
    var added := CtAdd(shifted[..], bitword);
    var chosen := CtSelect(bitMask, shifted[..], added[..]);
    var ge := CtGe(chosen[..], WideL());
    var subbed := CtSub(chosen[..], WideL());
    var result := CtSelect(ge, chosen[..], subbed[..]);
    next := result[..];
  }

  lemma MoreBits(x: int, m: int, y: nat, bit: nat)
    ensures 2 * (x * m + HighPart(y, bit + 1)) + HighPart(y, bit) % 2 == x * (2 * m) + HighPart(y, bit)
  {
    NextHigh(y, bit);
  }

  /** Reduction of a big-endian number modulo L; bytes after the 64th are not looked at. */
  method ModL(num: seq<byte>) returns (out: seq<byte>)
    ensures |out| == 32 && LeVal(out) == BeVal(if |num| <= 64 then num else num[..64]) % L
    ensures LeVal(out) < L
  {
    hide BeVal, LeVal, Pow;
    var rem := Zeros(64);
    BeZeros(64);
    var n := if |num| <= 64 then |num| else 64;
    var i := 0;
    NothingBefore(num, num);
    BeZeros(0);
    assert num[..0] == Zeros(0);
    while i < n
      invariant 0 <= i <= n && |rem| == 64 && BeVal(rem) == BeVal(num[..i]) % L
    {
      BeBound(num[..i]);
      rem := NextByte(rem, num[i], BeVal(num[..i]));
      BePrefix(num, i);
      i := i + 1;
    }
    assert num[..i] == if |num| <= 64 then num else num[..64];
    BeBound(num[..i]);
    Widths64();
    LowBytes(rem, 32);
    RevRev(rem[32..]);
    RevLe(Rev(rem[32..]));
    out := Rev(rem[32..]);
  }

  method NextByte(rem: seq<byte>, y: byte, ghost x: int) returns (next: seq<byte>)
    requires |rem| == 64 && x >= 0 && BeVal(rem) == x % L
    ensures |next| == 64 && BeVal(next) == (256 * x + y) % L
  {
    hide BeVal, HighPart, Pow;
    next := rem;
    ByteParts(y);
    PowerSteps(0);
    var bit := 7;
    ghost var m := 1;
    while bit >= 0
      invariant -1 <= bit <= 7 && m == Pow(2, 7 - bit)
      invariant |next| == 64 && BeVal(next) == (x * m + HighPart(y, bit + 1)) % L
    {
      MoreBits(x, m, y, bit);
      PowPositive(2, 7 - bit);
      MulNonNegative(x, m);
      next := NextBit(next, HighPart(y, bit) % 2, x * m + HighPart(y, bit + 1));
      PowerSteps(7 - bit);
      m := 2 * m;
      bit := bit - 1;
    }
  }

  lemma PowerSteps(k: nat)
    ensures Pow(2, k + 1) == 2 * Pow(2, k) && Pow(2, 0) == 1 && Pow(2, 8) == 256
  {
  }

  // ---- sum and product of big-endian numbers ----------------------------------------------------------------------

  /** Exact addition: one byte longer than the longer operand. */
  method AddBe(a: seq<byte>, b: seq<byte>) returns (out: array<byte>)
    ensures fresh(out) && out.Length == 1 + (if |a| > |b| then |a| else |b|)
    ensures BeVal(out[..]) == BeVal(a) + BeVal(b)
  {
    hide BeVal, Pow;
    var n := 1 + (if |a| > |b| then |a| else |b|);
    var pa, pb := Zeros(n - |a|) + a, Zeros(n - |b|) + b;
    BePad(n - |a|, a);
    BePad(n - |b|, b);
    out := CtAdd(pa, pb);
    SumFits(a, b, n - 1);
  }

  lemma SumFits(a: seq<byte>, b: seq<byte>, m: nat)
    requires |a| <= m && |b| <= m
    ensures BeVal(a) + BeVal(b) < Pow(256, m + 1)
  {
    hide BeVal;
    BeBound(a);
    BeBound(b);
    PowMonotone(|a|, m);
    PowMonotone(|b|, m);
  }

  lemma {:induction false} PowMonotone(i: nat, m: nat)
    requires i <= m
    ensures Pow(256, i) <= Pow(256, m)
    decreases m
  {
    if i < m {
      PowMonotone(i, m - 1);
      PowPositive(256, m - 1);
    }
  }

  /** Grade-school multiplication on the reversed operands. */
  method MulBe(a: seq<byte>, b: seq<byte>) returns (out: seq<byte>)
    ensures |out| == |a| + |b| && BeVal(out) == BeVal(a) * BeVal(b)
  {
    hide LeVal, BeVal, Rev;
    var al, bl := Rev(a), Rev(b);
    var r := new byte[|al| + |bl|](i => 0);
    assert LeVal(r[..]) == 0 && LeVal(al[..0]) == 0 by { EmptyProduct(r[..], al); }
    var i := 0;
    while i < |al|
      invariant 0 <= i <= |al| && LeVal(r[..]) == LeVal(al[..i]) * LeVal(bl)
      invariant forall k :: i + |bl| <= k < r.Length ==> r[k] == 0
    {
      MulRow(r, i, al[i], bl);
      RowOf(al, i, LeVal(bl));
      i := i + 1;
    }
    assert al[..i] == al;
    out := Rev(r[..]);
    Reversals(a, b, r[..]);
  }

  lemma Reversals(a: seq<byte>, b: seq<byte>, r: seq<byte>)
    ensures LeVal(Rev(a)) == BeVal(a) && LeVal(Rev(b)) == BeVal(b) && BeVal(Rev(r)) == LeVal(r)
  {
    RevLe(r);
  }

  lemma EmptyProduct(r: seq<byte>, al: seq<byte>)
    requires forall i :: 0 <= i < |r| ==> r[i] == 0
    ensures LeVal(r) == 0 && LeVal(al[..0]) == 0
  {
    ValZeros(256, r);
  }

  lemma RowOf(al: seq<byte>, i: nat, v: int)
    requires i < |al|
    ensures LeVal(al[..i + 1]) * v == LeVal(al[..i]) * v + al[i] * Pow(256, i) * v
  {
    RowDone(256, al, i, v);
  }

  /** One row: x times b, added from position i on. */
  method MulRow(r: array<byte>, i: nat, x: byte, b: seq<byte>)
    requires i + |b| < r.Length && r[i + |b|] == 0
    modifies r
    ensures LeVal(r[..]) == old(LeVal(r[..])) + x * Pow(256, i) * LeVal(b)
    ensures forall k :: i + |b| < k < r.Length ==> r[k] == old(r[k])
  {
    hide Val, Pow;
    ghost var was := r[..];
    var carry, j := 0, 0;
    RowStart(r[..], i, x, b);
    while j < |b|
      invariant 0 <= j <= |b| && 0 <= carry < 256
      invariant LeVal(r[..]) + carry * Pow(256, i + j) == LeVal(was) + x * Pow(256, i) * LeVal(b[..j])
      invariant forall k :: i + j <= k < r.Length ==> r[k] == was[k]
    {
      var y, z: int := b[j], r[i + j];
      var v := Product(x, y) + z + carry;
      ghost var before := r[..];
      var digit: byte := v % 256;
      ColumnStep(256, before, i, j, x, b, v, carry);
      r[i + j] := digit;
      assert r[..] == before[i + j := digit];
      carry := v / 256;
      j := j + 1;
    }
    assert b[..j] == b;
    ghost var before := r[..];
    var top: byte := carry;
    r[i + |b|] := r[i + |b|] + top;
    assert r[..] == before[i + |b| := top];
    TopStep(before, i + |b|, top);
  }

  /** A product of bytes. */
  function Product(x: int, y: int): (p: int)
    requires 0 <= x < 256 && 0 <= y < 256
    ensures 0 <= p <= 65025 && p == x * y
  {
    assert 0 <= x * y <= 255 * y;
    x * y
  }

  lemma RowStart(r: seq<byte>, i: nat, x: byte, b: seq<byte>)
    ensures LeVal(r) + 0 * Pow(256, i + 0) == LeVal(r) + x * Pow(256, i) * LeVal(b[..0])
  {
    var q: int := x;
    assert q * Pow(256, i) * 0 == 0;
  }

  lemma TopStep(r: seq<byte>, k: nat, carry: byte)
    requires k < |r| && r[k] == 0
    ensures LeVal(r[k := carry]) == LeVal(r) + carry * Pow(256, k)
  {
    hide Val, Pow;
    ValUpdate(256, r, k, carry);
  }

  /** Products and sums modulo L of little-endian scalars. */
  method ScalarMulModL(a: seq<byte>, b: seq<byte>) returns (r: seq<byte>)
    requires |a| == |b| == 32
    ensures |r| == 32 && LeVal(r) == LeVal(a) * LeVal(b) % L && LeVal(r) < L
  {
    RevLe(a);
    RevLe(b);
    hide LeVal, BeVal;
    var p := MulBe(Rev(a), Rev(b));
    r := ModL(p);
  }

  method ScalarAddModL(a: seq<byte>, b: seq<byte>) returns (r: seq<byte>)
    requires |a| == |b| == 32
    ensures |r| == 32 && LeVal(r) == (LeVal(a) + LeVal(b)) % L && LeVal(r) < L
  {
    RevLe(a);
    RevLe(b);
    hide LeVal, BeVal;
    var s := AddBe(Rev(a), Rev(b));
    r := ModL(s[..]);
  }

  datatype Ordering = Less | Equal | Greater

  /** Comparison of numbers of any lengths, after padding with leading zeros. */
  method CmpBe(a: seq<byte>, b: seq<byte>) returns (o: Ordering)
    ensures o == if BeVal(a) < BeVal(b) then Less else if BeVal(a) > BeVal(b) then Greater else Equal
  {
    hide BeVal;
    var n := if |a| > |b| then |a| else |b|;
    var pa, pb := Zeros(n - |a|) + a, Zeros(n - |b|) + b;
    BePad(n - |a|, a);
    BePad(n - |b|, b);
    NothingBefore(pa, pb);
    var i := 0;
    while i < n
      invariant 0 <= i <= n && BeVal(pa[..i]) == BeVal(pb[..i])
    {
      BePrefix(pa, i);
      BePrefix(pb, i);
      if pa[i] != pb[i] {
        PrefixDecides(pa, pb, i + 1);
        return if pa[i] < pb[i] then Less else Greater;
      }
      i := i + 1;
    }
    assert pa[..i] == pa && pb[..i] == pb;
    return Equal;
  }

  /** Numbers of equal length are ordered as their prefixes are, if those differ. */
  lemma PrefixDecides(a: seq<byte>, b: seq<byte>, i: nat)
    requires i <= |a| == |b|
    ensures BeVal(a[..i]) < BeVal(b[..i]) ==> BeVal(a) < BeVal(b)
    ensures BeVal(a[..i]) > BeVal(b[..i]) ==> BeVal(a) > BeVal(b)
  {
    hide BeVal, Pow;
    var p := Pow(256, |a| - i);
    assert a == a[..i] + a[i..] && b == b[..i] + b[i..];
    BeConcat(a[..i], a[i..]);
    BeConcat(b[..i], b[i..]);
    BeBound(a[i..]);
    BeBound(b[i..]);
    Scaled(BeVal(a[..i]), BeVal(b[..i]), p);
    Scaled(BeVal(b[..i]), BeVal(a[..i]), p);
  }

  lemma Scaled(x: int, y: int, p: int)
    requires p > 0
    ensures x < y ==> x * p + p <= y * p
  {
    if x < y {
      MulDistributes(p, y, x);
      MulAtLeast(p, y - x);
    }
  }
}
