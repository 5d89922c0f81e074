/** Numbers as digit sequences, least significant first, to any base: what carry and borrow loops compute. */
module Radix {
  import opened ModArith

  function Val(b: int, s: seq<int>): int {
    if s == [] then 0 else s[0] + b * Val(b, s[1..])
  }

  predicate Digits(b: int, s: seq<int>) { forall i :: 0 <= i < |s| ==> 0 <= s[i] < b }

  lemma {:induction false} ValConcat(b: int, s: seq<int>, t: seq<int>)
    ensures Val(b, s + t) == Val(b, s) + Pow(b, |s|) * Val(b, t)
    decreases |s|
  {
    if s == [] {
      assert s + t == t;
    } else {
      ValConcat(b, s[1..], t);
      assert (s + t)[1..] == s[1..] + t;
      var p, v, u := Pow(b, |s| - 1), Val(b, t), Val(b, s[1..]);
      assert b * (u + p * v) == b * u + (b * p) * v;
    }
  }

  lemma ValOne(b: int, x: int)
    ensures Val(b, [x]) == x
  {
    assert [x][1..] == [] && Val(b, []) == 0;
  }

  lemma ValSnoc(b: int, s: seq<int>, x: int)
    ensures Val(b, s + [x]) == Val(b, s) + Pow(b, |s|) * x
  {
    ValOne(b, x);
    ValConcat(b, s, [x]);
  }

  lemma ValPrefix(b: int, s: seq<int>, i: nat)
    requires i < |s|
    ensures Val(b, s[..i + 1]) == Val(b, s[..i]) + Pow(b, i) * s[i]
  {
    assert s[..i + 1] == s[..i] + [s[i]];
    ValSnoc(b, s[..i], s[i]);
  }

  lemma {:induction false} PowPositive(b: int, n: nat)
    requires b > 0
    ensures Pow(b, n) > 0
    decreases n
  {
    if n > 0 {
      PowPositive(b, n - 1);
      MulAtLeast(b, Pow(b, n - 1));
    }
  }

  lemma {:induction false} ValBound(b: int, s: seq<int>)
    requires b > 0 && Digits(b, s)
    ensures 0 <= Val(b, s) < Pow(b, |s|)
    decreases |s|
  {
    if s != [] {
      ValBound(b, s[1..]);
      var v, p := Val(b, s[1..]), Pow(b, |s| - 1);
      MulNonNegative(b, v);
      MulDistributes(b, p, v);
      MulAtLeast(b, p - v);
    }
  }

  /** Digits are determined by the value. */
  lemma {:induction false} ValUnique(b: int, s: seq<int>, t: seq<int>)
    requires b > 0 && Digits(b, s) && Digits(b, t) && |s| == |t| && Val(b, s) == Val(b, t)
    ensures s == t
    decreases |s|
  {
    if s != [] {
      var u, v := Val(b, s[1..]), Val(b, t[1..]);
      DivModUnique(Val(b, s), b, u, s[0]);
      DivModUnique(Val(b, t), b, v, t[0]);
      ValUnique(b, s[1..], t[1..]);
      assert s == [s[0]] + s[1..] && t == [t[0]] + t[1..];
    }
  }

  lemma ValUpdate(b: int, s: seq<int>, k: nat, x: int)
    requires k < |s|
    ensures Val(b, s[k := x]) == Val(b, s) + (x - s[k]) * Pow(b, k)
  {
    var lo, hi := s[..k], s[k + 1..];
    assert s == lo + ([s[k]] + hi) && s[k := x] == lo + ([x] + hi);
    ValConcat(b, lo, [s[k]] + hi);
    ValConcat(b, lo, [x] + hi);
    assert ([s[k]] + hi)[1..] == hi && ([x] + hi)[1..] == hi;
    var p, h := Pow(b, k), b * Val(b, hi);
    assert p * (x + h) == p * (s[k] + h) + (x - s[k]) * p;
  }

  lemma {:induction false} ValZeros(b: int, s: seq<int>)
    requires forall i :: 0 <= i < |s| ==> s[i] == 0
    ensures Val(b, s) == 0
    decreases |s|
  {
    if s != [] {
      ValZeros(b, s[1..]);
      assert b * 0 == 0;
    }
  }

  /** A column sum v splits into its digit and its carry. */
  lemma Column(b: int, p: int, v: int)
    requires b > 0
    ensures p * (v % b) + (v / b) * (p * b) == p * v
  {
    assert v == b * (v / b) + v % b;
    assert p * (b * (v / b) + v % b) == (p * b) * (v / b) + p * (v % b);
  }

  /** One step of an addition with carry, on the values of the prefixes. */
  lemma CarryStep(b: int, p: int, lo: int, carry: int, x: int, y: int, sum: int)
    requires b > 0 && lo + carry * p == sum
    ensures (lo + p * ((x + y + carry) % b)) + ((x + y + carry) / b) * (p * b) == sum + p * x + p * y
  {
    Column(b, p, x + y + carry);
    assert p * (x + y + carry) == p * x + p * y + carry * p;
  }

  /** One step of a subtraction: the digit is x - y - borrow, taken into range by adding the base. */
  lemma BorrowStep(b: int, p: int, lo: int, borrow: int, x: int, y: int, diff: int)
    requires b > 0 && lo - borrow * p == diff
    ensures x - y - borrow < 0 ==> (lo + p * (x - y - borrow + b)) - p * b == diff + p * x - p * y
    ensures lo + p * (x - y - borrow) == diff + p * x - p * y
  {
    assert p * (x - y - borrow) == p * x - p * y - borrow * p;
    assert p * (x - y - borrow + b) == p * (x - y - borrow) + p * b;
  }

  /** One step of a row of a long multiplication: digit k of the result receives the column, the rest is carried. */
  lemma RowStep(b: int, s: seq<int>, k: nat, v: int, carry: int)
    requires b > 0 && k < |s|
    ensures Val(b, s[k := v % b]) + (v / b) * Pow(b, k + 1) ==
            Val(b, s) + carry * Pow(b, k) + (v - s[k] - carry) * Pow(b, k)
  {
    ValUpdate(b, s, k, v % b);
    var p := Pow(b, k);
    Column(b, p, v);
    assert Pow(b, k + 1) == b * p == p * b;
    assert (v % b - s[k]) * p == p * (v % b) - s[k] * p;
    assert (v - s[k] - carry) * p == p * v - s[k] * p - carry * p;
  }

  /** a_i * b_j in its column, added to the row. */
  lemma RowProgress(b: int, x: int, i: nat, t: seq<int>, j: nat)
    requires j < |t|
    ensures x * Pow(b, i) * Val(b, t[..j + 1]) == x * Pow(b, i) * Val(b, t[..j]) + x * t[j] * Pow(b, i + j)
  {
    ValPrefix(b, t, j);
    PowAdd(b, i, j);
    hide Pow, Val;
    Regroup(x, Pow(b, i), Pow(b, j), Val(b, t[..j]), t[j]);
  }

  lemma Regroup(x: int, p: int, q: int, v: int, y: int)
    ensures x * p * (v + q * y) == x * p * v + x * y * (p * q)
  {
    assert x * p * (q * y) == x * y * (p * q);
  }

  lemma RowDone(b: int, s: seq<int>, i: nat, v: int)
    requires i < |s|
    ensures Val(b, s[..i + 1]) * v == Val(b, s[..i]) * v + s[i] * Pow(b, i) * v
  {
    ValPrefix(b, s, i);
    assert (Val(b, s[..i]) + Pow(b, i) * s[i]) * v == Val(b, s[..i]) * v + s[i] * Pow(b, i) * v;
  }

  /** One column of a row: v is x * t[j], plus the digit below it, plus the carry. */
  lemma ColumnStep(b: int, r: seq<int>, i: nat, j: nat, x: int, t: seq<int>, v: int, carry: int)
    requires b > 0 && j < |t| && i + j < |r| && v == x * t[j] + r[i + j] + carry
    ensures Val(b, r[i + j := v % b]) + (v / b) * Pow(b, i + (j + 1)) - x * Pow(b, i) * Val(b, t[..j + 1]) ==
            Val(b, r) + carry * Pow(b, i + j) - x * Pow(b, i) * Val(b, t[..j])
  {
    hide Val, Pow;
    RowStep(b, r, i + j, v, carry);
    RowProgress(b, x, i, t, j);
    assert v - r[i + j] - carry == x * t[j];
  }

  // ---- carry and borrow loops --------------------------------------------------------------------------------------

  lemma NextPower(b: int, i: nat)
    ensures Pow(b, i + 1) == Pow(b, i) * b && Pow(b, 0) == 1
  {
  }

  lemma ValNothing(b: int, s: seq<int>)
    ensures Val(b, s[..0]) == 0
  {
  }

  /** x + y, digit by digit. */
  method AddDigits(b: int, x: seq<int>, y: seq<int>) returns (s: seq<int>, carry: int)
    requires b >= 2 && |x| == |y| && Digits(b, x) && Digits(b, y)
    ensures |s| == |x| && Digits(b, s) && 0 <= carry <= 1 && Val(b, s) + carry * Pow(b, |x|) == Val(b, x) + Val(b, y)
  {
    hide Val, Pow;
    s, carry := [], 0;
    var i := 0;
    ValNothing(b, x);
    ValNothing(b, y);
    ValNothing(b, s);
    assert s == s[..0];
    while i < |x|
      invariant 0 <= i <= |x| && |s| == i && Digits(b, s) && 0 <= carry <= 1
      invariant Val(b, s) + carry * Pow(b, i) == Val(b, x[..i]) + Val(b, y[..i])
    {
      var v := x[i] + y[i] + carry;
      DigitRange(b, v);
      ValSnoc(b, s, v % b);
      ValPrefix(b, x, i);
      ValPrefix(b, y, i);
      CarryStep(b, Pow(b, i), Val(b, s), carry, x[i], y[i], Val(b, x[..i]) + Val(b, y[..i]));
      NextPower(b, i);
      s := s + [v % b];
      carry := v / b;
      i := i + 1;
    }
    assert x[..i] == x && y[..i] == y;
  }

  lemma DigitRange(b: int, v: int)
    requires b >= 2 && 0 <= v < 2 * b
    ensures 0 <= v % b < b && 0 <= v / b <= 1
  {
    if v < b { DivModUnique(v, b, 0, v); } else { DivModUnique(v, b, 1, v - b); }
  }

  /** x - y, digit by digit. */
  method SubDigits(b: int, x: seq<int>, y: seq<int>) returns (s: seq<int>, borrow: int)
    requires b >= 2 && |x| == |y| && Digits(b, x) && Digits(b, y)
    ensures |s| == |x| && Digits(b, s) && 0 <= borrow <= 1 && Val(b, s) - borrow * Pow(b, |x|) == Val(b, x) - Val(b, y)
  {
    hide Val, Pow;
    s, borrow := [], 0;
    var i := 0;
    ValNothing(b, x);
    ValNothing(b, y);
    ValNothing(b, s);
    assert s == s[..0];
    while i < |x|
      invariant 0 <= i <= |x| && |s| == i && Digits(b, s) && 0 <= borrow <= 1
      invariant Val(b, s) - borrow * Pow(b, i) == Val(b, x[..i]) - Val(b, y[..i])
    {
      var v := x[i] - y[i] - borrow;
      BorrowStep(b, Pow(b, i), Val(b, s), borrow, x[i], y[i], Val(b, x[..i]) - Val(b, y[..i]));
      NextPower(b, i);
      var digit := if v < 0 then v + b else v;
      ValSnoc(b, s, digit);
      ValPrefix(b, x, i);
      ValPrefix(b, y, i);
      borrow := if v < 0 then 1 else 0;
      s := s + [digit];
      i := i + 1;
    }
    assert x[..i] == x && y[..i] == y;
  }

  // ---- bits of digits ----------------------------------------------------------------------------------------------

  /** The low j bits of y, and the bits above them. */
  function LowPart(y: int, j: nat): int {
    PowPositive(2, j);
    y % Pow(2, j)
  }

  function HighPart(y: int, j: nat): (h: int)
    ensures y >= 0 ==> h >= 0
  {
    PowPositive(2, j);
    QuotientSign(y, Pow(2, j));
    y / Pow(2, j)
  }

  lemma QuotientSign(y: int, p: int)
    requires p > 0
    ensures y >= 0 ==> y / p >= 0
  {
  }

  /** Dividing once more by 2. */
  lemma HalfAgain(y: int, p: int)
    requires p > 0
    ensures y / (2 * p) == y / p / 2 && y % (2 * p) == y % p + p * (y / p % 2)
  {
    var d, r := y / p, y % p;
    var h, e := d / 2, d % 2;
    assert y == p * d + r && d == 2 * h + e;
    MulDistributes(p, 2 * h, e);
    TwiceProduct(p, h);
    DivModUnique(y, 2 * p, h, if e == 0 then r else p + r);
  }

  lemma TwiceProduct(p: int, h: int)
    ensures p * (2 * h) == (2 * p) * h && p * 0 == 0 && p * 1 == p
  {
  }

  lemma NextLow(y: int, j: nat)
    ensures LowPart(y, j + 1) == LowPart(y, j) + Pow(2, j) * (HighPart(y, j) % 2)
  {
    PowPositive(2, j);
    HalfAgain(y, Pow(2, j));
  }

  lemma NextHigh(y: int, j: nat)
    ensures HighPart(y, j) == 2 * HighPart(y, j + 1) + HighPart(y, j) % 2
  {
    PowPositive(2, j);
    HalfAgain(y, Pow(2, j));
  }

  /** Bit i of a number with w-bit digits: `(s[i / w] >> (i % w)) & 1`. */
  function DigitBit(w: nat, s: seq<int>, i: nat): (b: int)
    requires w > 0 && i < w * |s|
    ensures 0 <= b <= 1
  {
    DigitIndex(w, i, |s|);
    HighPart(s[i / w], i % w) % 2
  }

  lemma DigitIndex(w: nat, i: nat, n: nat)
    requires w > 0 && i < w * n
    ensures 0 <= i / w < n && 0 <= i % w < w
  {
    var d := i / w;
    assert i == w * d + i % w;
    if d >= n {
      MulDistributes(w, d, n);
      MulNonNegative(w, d - n);
    }
  }

  /** The number that bits 0 to i - 1 form. */
  function LowDigitBits(w: nat, s: seq<int>, i: nat): (n: int)
    requires w > 0 && i <= w * |s|
    ensures n >= 0
  {
    if i == 0 then 0 else
      PowPositive(2, i - 1);
      MulNonNegative(Pow(2, i - 1), DigitBit(w, s, i - 1));
      LowDigitBits(w, s, i - 1) + Pow(2, i - 1) * DigitBit(w, s, i - 1)
  }

  lemma DigitStart(w: nat, k: nat, n: nat)
    requires k < n
    ensures w * (k + 1) == w * k + w <= w * n && 0 <= w * k
  {
    MulDistributes(w, k, 1);
    MulDistributes(w, n, k + 1);
    MulNonNegative(w, n - (k + 1));
    MulNonNegative(w, k);
  }

  lemma {:induction false} PowPow(w: nat, k: nat, b: int)
    requires b == Pow(2, w)
    ensures w * k >= 0 && Pow(2, w * k) == Pow(b, k)
    decreases k
  {
    MulNonNegative(w, k);
    if k > 0 {
      PowPow(w, k - 1, b);
      MulDistributes(w, k - 1, 1);
      PowAdd(2, w, w * (k - 1));
    }
  }

  lemma {:induction false} LowBitsWithin(w: nat, s: seq<int>, k: nat, j: nat, b: int)
    requires w > 0 && k < |s| && j <= w && b == Pow(2, w) && w * k + j <= w * |s|
    requires LowDigitBits(w, s, w * k) == Val(b, s[..k])
    ensures LowDigitBits(w, s, w * k + j) == Val(b, s[..k]) + Pow(b, k) * LowPart(s[k], j)
    decreases j
  {
    hide LowDigitBits, Val, LowPart, HighPart;
    if j == 0 {
      NoBits(s[k]);
      TwiceProduct(Pow(b, k), 0);
    } else {
      LowBitsWithin(w, s, k, j - 1, b);
      NextDigitBit(w, s, k, j - 1);
      NextLow(s[k], j - 1);
      PowPow(w, k, b);
      PowAdd(2, w * k, j - 1);
      BitTerm(Pow(b, k), Pow(2, j - 1), LowPart(s[k], j - 1), HighPart(s[k], j - 1) % 2);
    }
  }

  lemma NextDigitBit(w: nat, s: seq<int>, k: nat, j: nat)
    requires w > 0 && k < |s| && j < w && w * k + j < w * |s|
    ensures LowDigitBits(w, s, w * k + j + 1) == LowDigitBits(w, s, w * k + j) + Pow(2, w * k + j) * (HighPart(s[k],
            j) % 2)
  {
    hide Pow, HighPart;
    DivModUnique(w * k + j, w, k, j);
  }

  lemma NoBits(y: int)
    ensures LowPart(y, 0) == 0 && HighPart(y, 0) == y
  {
    assert Pow(2, 0) == 1;
  }

  lemma BitTerm(q: int, p: int, low: int, bit: int)
    ensures q * low + (q * p) * bit == q * (low + p * bit)
  {
  }

  lemma {:induction false} LowBitsPrefix(w: nat, s: seq<int>, k: nat, b: int)
    requires w > 0 && k <= |s| && b == Pow(2, w) && Digits(b, s)
    ensures w * k >= 0 && w * k <= w * |s| && LowDigitBits(w, s, w * k) == Val(b, s[..k])
    decreases k
  {
    hide Pow, LowPart;
    MulNonNegative(w, k);
    MulDistributes(w, |s|, k);
    MulNonNegative(w, |s| - k);
    if k == 0 {
      assert w * 0 == 0;
    } else {
      LowBitsPrefix(w, s, k - 1, b);
      DigitStart(w, k - 1, |s|);
      LowBitsWithin(w, s, k - 1, w, b);
      WholeDigit(s[k - 1], w, b);
      ValPrefix(b, s, k - 1);
    }
  }

  lemma WholeDigit(y: int, w: nat, b: int)
    requires b == Pow(2, w) && 0 <= y < b
    ensures LowPart(y, w) == y && HighPart(y, w) == 0
  {
    DivModUnique(y, b, 0, y);
  }

  /** All the bits form the number. */
  lemma LowDigitBitsAll(w: nat, s: seq<int>, b: int)
    requires w > 0 && b == Pow(2, w) && Digits(b, s)
    ensures w * |s| >= 0 && LowDigitBits(w, s, w * |s|) == Val(b, s)
  {
    LowBitsPrefix(w, s, |s|, b);
    assert s[..|s|] == s;
  }
}
