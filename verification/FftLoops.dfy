/** The in-place radix-2 transform and the direct transform that checks it. */
module FftLoops {
  import opened Rings
  import opened Vectors
  import opened Transform
  import opened RootTables
  import opened Fourier

  // ---- the bit-reversal permutation -----------------------------------------------------------------

  lemma {:induction false} RevBound(n: nat, x: nat)
    ensures Rev(n, x) < Pow2(n)
  {
    if n > 0 { RevBound(n - 1, x / 2); }
  }

  /** The top bit of x becomes the lowest. */
  lemma {:induction false} RevTop(n: nat, x: nat, top: bool)
    requires x < Pow2(n)
    ensures Rev(n + 1, x + if top then Pow2(n) else 0) == 2 * Rev(n, x) + if top then 1 else 0
  {
    if n == 0 {
      assert Rev(1, x + if top then 1 else 0) == if top then 1 else 0;
    } else {
      var p := Pow2(n - 1);
      var y := x + if top then 2 * p else 0;
      assert y / 2 == x / 2 + (if top then p else 0) && y % 2 == x % 2;
      RevTop(n - 1, x / 2, top);
    }
  }

  /** Reversing twice restores. */
  lemma {:induction false} RevRev(n: nat, x: nat)
    requires x < Pow2(n)
    ensures Rev(n, Rev(n, x)) == x
  {
    if n > 0 {
      var h := x / 2;
      RevRev(n - 1, h);
      RevBound(n - 1, h);
      RevTop(n - 1, Rev(n - 1, h), x % 2 == 1);
      assert Rev(n, x) == Rev(n - 1, h) + if x % 2 == 1 then Pow2(n - 1) else 0;
    }
  }

  function BitReversed<T>(k: nat, x: seq<T>): (v: seq<T>)
    requires |x| == Pow2(k)
    ensures |v| == |x|
  {
    seq(|x|, i requires 0 <= i < |x| => RevBound(k, i); x[Rev(k, i)])
  }

  lemma ReversedAt<T>(k: nat, x: seq<T>, i: nat)
    requires |x| == Pow2(k) && i < Pow2(k)
    ensures Rev(k, i) < Pow2(k) && BitReversed(k, x)[i] == x[Rev(k, i)]
  {
    RevBound(k, i);
  }

  /** One step of the reversed carry: the top bit of j is the lowest bit of the number it reverses. */
  lemma TopBit(m: nat, y: nat)
    requires m > 0 && y + 1 < Pow2(m)
    ensures Rev(m, y) / Pow2(m - 1) % 2 == y % 2
    ensures y % 2 == 1 ==> m > 1 && Pow2(m - 1) / 2 == Pow2(m - 2) && y / 2 + 1 < Pow2(m - 1)
    ensures y % 2 == 1 ==> Rev(m, y) - Pow2(m - 1) == Rev(m - 1, y / 2) && Rev(m, y + 1) == Rev(m - 1, y / 2 + 1)
    ensures y % 2 == 0 ==> Rev(m, y + 1) == Rev(m, y) + Pow2(m - 1)
  {
    RevBound(m - 1, y / 2);
    var b, q := Pow2(m - 1), Rev(m - 1, y / 2);
    assert Rev(m, y) == q + if y % 2 == 1 then b else 0;
    assert Rev(m, y + 1) == Rev(m - 1, (y + 1) / 2) + if (y + 1) % 2 == 1 then b else 0;
    assert y % 2 == 1 ==> (y + 1) / 2 == y / 2 + 1 && (y + 1) % 2 == 0;
    assert y % 2 == 0 ==> (y + 1) / 2 == y / 2 && (y + 1) % 2 == 1;
    hide Rev;
    HighDigit(q, b);
  }

  lemma HighDigit(q: nat, b: nat)
    requires q < b
    ensures q / b == 0 && (q + b) / b == 1
  {
  }

  /** The reversed carry: turns Rev(k, i - 1) into Rev(k, i). */
  method NextReversed(j: nat, n: nat, i: nat, ghost k: nat) returns (r: nat)
    requires n == Pow2(k) && 0 < i < n && j == Rev(k, i - 1)
    ensures r == Rev(k, i)
  {
    hide Rev;
    r := j;
    var bit := n / 2;
    assert bit == Pow2(k - 1);
    ghost var y: nat, m: nat := i - 1, k;
    while r / bit % 2 == 1
      invariant m > 0 && bit == Pow2(m - 1) && y + 1 < Pow2(m)
      invariant r == Rev(m, y) && Rev(m, y + 1) == Rev(k, i)
      decreases m
    {
      TopBit(m, y);
      r, bit := r - bit, bit / 2;
      y, m := y / 2, m - 1;
    }
    TopBit(m, y);
    r := r + bit;
  }

  /** What has been moved once all pairs whose smaller index is below i have been swapped. */
  ghost predicate SwappedAt<T>(k: nat, was: seq<T>, now: seq<T>, i: nat, x: nat)
    requires |was| == |now| == Pow2(k) && x < Pow2(k)
  {
    RevBound(k, x);
    now[x] == if x < i || Rev(k, x) < i then was[Rev(k, x)] else was[x]
  }

  method BitReverse<T>(data: array<T>, ghost k: nat)
    requires data.Length == Pow2(k)
    modifies data
    ensures data[..] == BitReversed(k, old(data[..]))
  {
    ghost var was := data[..];
    var j := 0;
    RevZero(k);
    forall x | 0 <= x < Pow2(k) ensures SwappedAt(k, was, data[..], 1, x) {
      FirstInPlace(k, x);
    }
    var i := 1;
    while i < data.Length
      invariant 1 <= i <= data.Length && j == Rev(k, i - 1)
      invariant forall x :: 0 <= x < Pow2(k) ==> SwappedAt(k, was, data[..], i, x)
    {
      j := NextReversed(j, data.Length, i, k);
      ghost var before := data[..];
      RevBound(k, i);
      RevRev(k, i);
      assert SwappedAt(k, was, before, i, i) && SwappedAt(k, was, before, i, j);
      if i < j {
        data[i], data[j] := data[j], data[i];
      }
      ghost var after, next := data[..], i + 1;
      forall x | 0 <= x < Pow2(k) ensures SwappedAt(k, was, after, next, x) {
        assert SwappedAt(k, was, before, i, x);
        RevRev(k, x);
        RevBound(k, x);
      }
      i := i + 1;
    }
    forall x | 0 <= x < Pow2(k) ensures data[..][x] == BitReversed(k, was)[x] {
      assert SwappedAt(k, was, data[..], i, x);
    }
  }

  /** Only index 0 reverses to 0. */
  lemma FirstInPlace(k: nat, x: nat)
    requires x < Pow2(k)
    ensures Rev(k, x) < 1 || x < 1 ==> x == 0 && Rev(k, x) == 0
  {
    RevZero(k);
    RevRev(k, x);
  }

  // ---- the stages ---------------------------------------------------------------------------------------

  /** Butterflies on every block of len elements. */
  function Blocks<T>(R: Ops<T>, z: T, len: nat, v: seq<T>): (u: seq<T>)
    requires len % 2 == 0
    ensures |u| == |v|
    decreases |v|
  {
    if len == 0 || |v| < len then v
    else Blocks(R, z, len, v[..|v| - len]) + Wings(R, z, v[|v| - len..])
  }

  lemma BlocksSnoc<T>(R: Ops<T>, z: T, len: nat, u: seq<T>, b: seq<T>)
    requires len % 2 == 0 && |b| == len > 0
    ensures Blocks(R, z, len, u + b) == Blocks(R, z, len, u) + Wings(R, z, b)
  {
    var v := u + b;
    assert v[..|v| - len] == u && v[|v| - len..] == b;
  }

  lemma {:induction false} BlocksConcat<T>(R: Ops<T>, z: T, len: nat, u: seq<T>, v: seq<T>, count: nat)
    requires len % 2 == 0 && len > 0 && |v| == len * count
    ensures Blocks(R, z, len, u + v) == Blocks(R, z, len, u) + Blocks(R, z, len, v)
    decreases count
  {
    hide Wings, Blocks;
    if count == 0 {
      EmptyBlocks(R, z, len);
      assert v == [] && u + v == u;
    } else {
      BlockStep(len, count);
      var rest, b := v[..|v| - len], v[|v| - len..];
      BlocksConcat(R, z, len, u, rest, count - 1);
      BlocksSnoc(R, z, len, u + rest, b);
      BlocksSnoc(R, z, len, rest, b);
      assert v == rest + b && u + v == (u + rest) + b;
    }
  }

  /** The buffer after j stages: every block of 2^j elements holds the transform of its share of x. */
  function Stage<T>(R: Ops<T>, w: int -> T, k: nat, j: nat, x: seq<T>): (v: seq<T>)
    requires j <= k && |x| == Pow2(k)
    ensures |v| == |x|
    decreases k
  {
    if j == k then Fft(R, w, k, x)
    else Stage(R, w, k - 1, j, Evens(x)) + Stage(R, w, k - 1, j, Odds(x))
  }

  /** Before the first stage the buffer is in bit-reversed order. */
  lemma {:induction false} StageZero<T>(R: Ops<T>, w: int -> T, k: nat, x: seq<T>)
    requires |x| == Pow2(k)
    ensures Stage(R, w, k, 0, x) == BitReversed(k, x)
    decreases k
  {
    if k == 0 {
      assert Rev(0, 0) == 0;
    } else {
      StageZero(R, w, k - 1, Evens(x));
      StageZero(R, w, k - 1, Odds(x));
      hide Stage, BitReversed, Rev;
      var h := Pow2(k - 1);
      forall i | 0 <= i < |x|
        ensures (BitReversed(k - 1, Evens(x)) + BitReversed(k - 1, Odds(x)))[i] == BitReversed(k, x)[i]
      {
        ReversedHalf(k, i);
        ReversedAt(k, x, i);
        if i < h {
          ReversedAt(k - 1, Evens(x), i);
        } else {
          ReversedAt(k - 1, Odds(x), i - h);
        }
      }
    }
  }

  lemma ReversedHalf(k: nat, i: nat)
    requires k > 0 && i < Pow2(k)
    ensures var h := Pow2(k - 1);
            Rev(k, i) == if i < h then 2 * Rev(k - 1, i) else 2 * Rev(k - 1, i - h) + 1
  {
    var h := Pow2(k - 1);
    RevTop(k - 1, if i < h then i else i - h, i >= h);
  }

  lemma PowersApart(a: nat, b: nat)
    requires a <= b
    ensures Pow2(b) == Pow2(a) * Pow2(b - a)
    decreases b
  {
    if a < b {
      PowersApart(a, b - 1);
      assert Pow2(b - a) == 2 * Pow2(b - 1 - a);
    }
  }

  /** A pass of butterflies takes one stage to the next. */
  lemma {:induction false} StageStep<T>(R: Ops<T>, w: int -> T, k: nat, j: nat, x: seq<T>)
    requires j < k && |x| == Pow2(k)
    ensures Blocks(R, w(Pow2(j + 1)), Pow2(j + 1), Stage(R, w, k, j, x)) == Stage(R, w, k, j + 1, x)
    decreases k
  {
    hide Evens, Odds, Blocks, Stage;
    if k == j + 1 {
      StageLast(R, w, k, x);
      OneBlock(R, w(Pow2(k)), Pow2(k), Stage(R, w, k, j, x));
    } else {
      StageStep(R, w, k - 1, j, Evens(x));
      StageStep(R, w, k - 1, j, Odds(x));
      StageHalves(R, w, k, j, x);
      StageHalves(R, w, k, j + 1, x);
      HalvesOfBlocks(R, w(Pow2(j + 1)), k, j, Stage(R, w, k - 1, j, Evens(x)), Stage(R, w, k - 1, j, Odds(x)));
    }
  }

  lemma OneBlock<T>(R: Ops<T>, z: T, len: nat, v: seq<T>)
    requires len % 2 == 0 && |v| == len > 0
    ensures Blocks(R, z, len, v) == Wings(R, z, v)
  {
    hide Wings, Blocks;
    BlocksSnoc(R, z, len, [], v);
    EmptyBlocks(R, z, len);
    assert [] + v == v;
  }

  /** Blocks do not straddle the middle. */
  lemma HalvesOfBlocks<T>(R: Ops<T>, z: T, k: nat, j: nat, u: seq<T>, v: seq<T>)
    requires j + 1 < k && |u| == |v| == Pow2(k - 1)
    ensures Blocks(R, z, Pow2(j + 1), u + v) == Blocks(R, z, Pow2(j + 1), u) + Blocks(R, z, Pow2(j + 1), v)
  {
    hide Blocks;
    PowersApart(j + 1, k - 1);
    BlocksConcat(R, z, Pow2(j + 1), u, v, Pow2(k - 1 - (j + 1)));
  }

  lemma StageHalves<T>(R: Ops<T>, w: int -> T, k: nat, j: nat, x: seq<T>)
    requires j < k && |x| == Pow2(k)
    ensures Stage(R, w, k, j, x) == Stage(R, w, k - 1, j, Evens(x)) + Stage(R, w, k - 1, j, Odds(x))
  {
    hide Evens, Odds, Fft;
  }

  /** The last stage joins the two halves into the transform. */
  lemma StageLast<T>(R: Ops<T>, w: int -> T, k: nat, x: seq<T>)
    requires k > 0 && |x| == Pow2(k)
    ensures Stage(R, w, k, k, x) == Wings(R, w(Pow2(k)), Stage(R, w, k, k - 1, x))
  {
    hide Wings, Evens, Odds;
  }

  lemma EmptyBlocks<T>(R: Ops<T>, z: T, len: nat)
    requires len % 2 == 0
    ensures Blocks(R, z, len, []) == []
  {
  }

  /** The butterflies of one block, with the twiddle factor carried from step to step. */
  method WingsInPlace<T(!new)>(R: Ops<T>, z: T, data: array<T>, i: nat, len: nat)
    requires IsRing(R) && len % 2 == 0 && i + len <= data.Length
    modifies data
    ensures data[..] == old(data[..i]) + Wings(R, z, old(data[i..i + len])) + old(data[i + len..])
  {
    PowerStep(R, z, 0);
    hide IsRing, Add, Sub, Mul, RPow, Wings;
    var w, k, h := R.one, 0, len / 2;
    ghost var was := data[..];
    while k < h
      invariant 0 <= k <= h && w == RPow(R, z, k)
      invariant forall t :: 0 <= t < data.Length ==> data[t] == WingAt(R, z, was, i, h, k, t)
    {
      var u, v := data[i + k], Mul(R, data[i + k + h], w);
      data[i + k] := Add(R, u, v);
      data[i + k + h] := Sub(R, u, v);
      RingComm(R, w, z);
      PowerStep(R, z, k);
      w := Mul(R, w, z);
      k := k + 1;
    }
    assert was[..] == was;
    WingsDone(R, z, was, data[..], i, len);
  }

  /** What stands at position t once the first k pairs of the block at i have been through. */
  function WingAt<T>(R: Ops<T>, z: T, was: seq<T>, i: nat, h: nat, k: nat, t: nat): T
    requires i + 2 * h <= |was| && k <= h && t < |was|
  {
    if i <= t < i + k then Add(R, was[t], Mul(R, was[h + t], RPow(R, z, t - i)))
    else if i + h <= t < i + h + k then Sub(R, was[t - h], Mul(R, was[t], RPow(R, z, t - h - i)))
    else was[t]
  }

  lemma PowerStep<T>(R: Ops<T>, z: T, k: nat)
    ensures RPow(R, z, 0) == R.one && RPow(R, z, k + 1) == Mul(R, z, RPow(R, z, k))
  {
  }

  lemma WingsDone<T>(R: Ops<T>, z: T, was: seq<T>, now: seq<T>, i: nat, len: nat)
    requires len % 2 == 0 && i + len <= |was| == |now|
    requires forall t :: 0 <= t < |was| ==> now[t] == WingAt(R, z, was, i, len / 2, len / 2, t)
    ensures now == was[..i] + Wings(R, z, was[i..i + len]) + was[i + len..]
  {
    hide RPow, Add, Sub, Mul, Wings, WingAt;
    var block := was[i..i + len];
    forall t | 0 <= t < |was| && !(i <= t < i + len) ensures now[t] == was[t] {
      WingOutside(R, z, was, i, len, t);
    }
    forall t | 0 <= t < len ensures now[i + t] == Wings(R, z, block)[t] {
      WingInside(R, z, was, i, len, t);
    }
    Assemble(was, now, i, Wings(R, z, block));
  }

  lemma WingOutside<T>(R: Ops<T>, z: T, was: seq<T>, i: nat, len: nat, t: nat)
    requires len % 2 == 0 && i + len <= |was| && t < |was| && !(i <= t < i + len)
    ensures WingAt(R, z, was, i, len / 2, len / 2, t) == was[t]
  {
  }

  lemma WingInside<T>(R: Ops<T>, z: T, was: seq<T>, i: nat, len: nat, t: nat)
    requires len % 2 == 0 && i + len <= |was| && t < len
    ensures WingAt(R, z, was, i, len / 2, len / 2, i + t) == Wings(R, z, was[i..i + len])[t]
  {
    hide RPow, Add, Sub, Mul, Wings;
    var h, j := len / 2, if t < len / 2 then t else t - len / 2;
    var e, o := was[i..i + h], was[i + h..i + len];
    assert was[i..i + len] == e + o;
    WingsAt(R, z, e, o, j);
  }

  lemma RingComm<T(!new)>(R: Ops<T>, x: T, y: T)
    requires IsRing(R)
    ensures Mul(R, x, y) == Mul(R, y, x)
  {
    assert MulCommAt(R, x, y);
  }

  /** One stage: all blocks of len elements. */
  method BlocksInPlace<T(!new)>(R: Ops<T>, z: T, data: array<T>, len: nat, ghost count: nat)
    requires IsRing(R) && len % 2 == 0 && len > 0 && data.Length == len * count
    modifies data
    ensures data[..] == Blocks(R, z, len, old(data[..]))
  {
    hide IsRing, Wings, Blocks;
    ghost var was := data[..];
    ghost var done: nat := 0;
    var i := 0;
    EmptyBlocks(R, z, len);
    assert was[..0] == [] && was == [] + was[0..];
    while i < data.Length
      invariant done <= count && i == len * done && i <= data.Length
      invariant data[..] == Blocks(R, z, len, was[..i]) + was[i..]
    {
      BlocksRoom(len, done, count);
      ghost var before := data[..];
      WingsInPlace(R, z, data, i, len);
      NextBlock(R, z, len, was, i, before);
      i := i + len;
      done := done + 1;
    }
    BlocksRoom(len, done, count);
    assert was[..i] == was && was[i..] == [];
  }

  lemma BlocksRoom(len: nat, done: nat, count: nat)
    requires len > 0 && done <= count
    ensures len * done < len * count ==> done < count && len * done + len == len * (done + 1) <= len * count
    ensures len * done <= len * count
    ensures len * done >= len * count ==> done == count
  {
    if done < count {
      assert len * count - len * (done + 1) == len * (count - done - 1) >= 0;
      assert len * (done + 1) == len * done + len;
    }
  }

  lemma NextBlock<T>(R: Ops<T>, z: T, len: nat, was: seq<T>, i: nat, before: seq<T>)
    requires len % 2 == 0 && len > 0 && i + len <= |was| && before == Blocks(R, z, len, was[..i]) + was[i..]
    ensures before[..i] + Wings(R, z, before[i..i + len]) + before[i + len..] ==
            Blocks(R, z, len, was[..i + len]) + was[i + len..]
  {
    hide Wings, Blocks;
    assert before[i..i + len] == was[i..i + len];
    BlocksSnoc(R, z, len, was[..i], was[i..i + len]);
    assert was[..i + len] == was[..i] + was[i..i + len];
  }

  /** The inverse transform is scaled by 1/n, except that a single element is left alone. */
  function Scaled<T>(R: Ops<T>, inverse: bool, inv: T, k: nat, v: seq<T>): (u: seq<T>)
    ensures |u| == |v|
  {
    if inverse && k > 0 then VScale(R, inv, v) else v
  }

  method FftInPlace<T(!new)>(R: Ops<T>, w: int -> T, inverse: bool, inv: T, data: array<T>, ghost k: nat)
    requires IsRing(R) && data.Length == Pow2(k)
    modifies data
    ensures data[..] == Scaled(R, inverse, inv, k, Fft(R, w, k, old(data[..])))
  {
    hide IsRing;
    ghost var x := data[..];
    if data.Length <= 1 {
      assert k == 0;
      return;
    }
    hide Fft, BitReversed;
    BitReverse(data, k);
    Stages(R, w, data, k, x);
    if inverse {
      Rescale(R, inv, data);
    }
  }

  /** The stages, with blocks of 2, 4, ..., n elements. */
  method Stages<T(!new)>(R: Ops<T>, w: int -> T, data: array<T>, ghost k: nat, ghost x: seq<T>)
    requires IsRing(R) && data.Length == |x| == Pow2(k) && data[..] == BitReversed(k, x)
    modifies data
    ensures data[..] == Fft(R, w, k, x)
  {
    hide IsRing, Stage, Blocks, BitReversed, Fft;
    StageZero(R, w, k, x);
    var len := 2;
    ghost var j: nat := 0;
    assert Pow2(1) == 2;
    while len <= data.Length
      invariant j <= k && len == Pow2(j + 1)
      invariant data[..] == Stage(R, w, k, j, x)
      decreases k - j
    {
      StageRoom(j, k);
      PowersApart(j + 1, k);
      StageStep(R, w, k, j, x);
      BlocksInPlace(R, w(len), data, len, Pow2(k - (j + 1)));
      len := 2 * len;
      j := j + 1;
    }
    StageRoom(j, k);
    LastStage(R, w, k, x);
  }

  lemma {:induction false} PowersGrow(j: nat, k: nat)
    ensures Pow2(j) == Pow2(k) ==> j == k
    ensures j < k ==> 2 * Pow2(j) <= Pow2(k)
    decreases j + k
  {
    if j > 0 && k > 0 {
      PowersGrow(j - 1, k - 1);
    }
  }

  lemma StageRoom(j: nat, k: nat)
    requires j <= k
    ensures Pow2(j + 1) <= Pow2(k) <==> j < k
  {
    PowersGrow(j, k);
  }

  lemma LastStage<T>(R: Ops<T>, w: int -> T, k: nat, x: seq<T>)
    requires |x| == Pow2(k)
    ensures Stage(R, w, k, k, x) == Fft(R, w, k, x)
  {
  }

  /** The scaling loop at the end of both transforms. */
  method Rescale<T(!new)>(R: Ops<T>, inv: T, data: array<T>)
    requires IsRing(R)
    modifies data
    ensures data[..] == VScale(R, inv, old(data[..]))
  {
    var i := 0;
    while i < data.Length
      invariant 0 <= i <= data.Length
      invariant forall t :: 0 <= t < i ==> data[t] == Mul(R, inv, old(data[t]))
      invariant forall t :: i <= t < data.Length ==> data[t] == old(data[t])
    {
      RingComm(R, data[i], inv);
      data[i] := Mul(R, data[i], inv);
      i := i + 1;
    }
  }

  /** The direct transform: no code and no recursion in common with the fast one. */
  method DftOracle<T(!new)>(R: Ops<T>, w: int -> T, inverse: bool, inv: T, x: seq<T>) returns (out: array<T>)
    requires IsRing(R)
    ensures fresh(out)
    ensures out[..] == if inverse then VScale(R, inv, Dft(R, w(|x|), x)) else Dft(R, w(|x|), x)
  {
    hide IsRing, Eval, RPow;
    var n := |x|;
    out := new T[n](_ => R.zero);
    var k := 0;
    while k < n
      invariant 0 <= k <= n
      invariant forall t :: 0 <= t < k ==> out[t] == Eval(R, x, RPow(R, w(n), t))
    {
      out[k] := OracleValue(R, w(n), x, k);
      k := k + 1;
    }
    assert out[..] == Dft(R, w(n), x);
    if inverse {
      Rescale(R, inv, out);
    }
  }

  /** One value: the sum of x[m] g^(k m). */
  method OracleValue<T(!new)>(R: Ops<T>, g: T, x: seq<T>, k: nat) returns (acc: T)
    requires IsRing(R)
    ensures acc == Eval(R, x, RPow(R, g, k))
  {
    assert x[..0] == [] && Eval(R, x[..0], RPow(R, g, k)) == R.zero;
    hide IsRing, Eval, RPow, Add, Mul;
    acc := R.zero;
    var m := 0;
    while m < |x|
      invariant 0 <= m <= |x| && acc == Eval(R, x[..m], RPow(R, g, k))
    {
      OracleTerm(R, g, x, k, m);
      acc := Add(R, acc, Mul(R, x[m], RPow(R, g, k * m)));
      m := m + 1;
    }
    assert x[..m] == x;
  }

  lemma OracleTerm<T(!new)>(R: Ops<T>, g: T, x: seq<T>, k: nat, m: nat)
    requires IsRing(R) && m < |x|
    ensures k * m >= 0
    ensures Eval(R, x[..m + 1], RPow(R, g, k)) == Add(R, Eval(R, x[..m], RPow(R, g, k)), Mul(R, x[m], RPow(R, g,
            k * m)))
  {
    hide IsRing, Eval, RPow;
    assert x[..m + 1] == x[..m] + [x[m]];
    var z := RPow(R, g, k);
    EvalConcat(R, x[..m], [x[m]], z);
    EvalOne(R, x[m], z);
    RPowRPow(R, g, k, m);
    RingComm(R, x[m], RPow(R, z, m));
  }

  // ---- what the transforms promise ----------------------------------------------------------------------

  /** The fast transform and the oracle agree, in both directions. */
  lemma FastMatchesOracle<T(!new)>(R: Ops<T>, w: int -> T, inverse: bool, inv: T, k: nat, x: seq<T>)
    requires IsRing(R) && Tower(R, w, k) && |x| == Pow2(k) && Mul(R, inv, TwoPow(R, k)) == R.one
    ensures Scaled(R, inverse, inv, k, Fft(R, w, k, x)) ==
            if inverse then VScale(R, inv, Dft(R, w(|x|), x)) else Dft(R, w(|x|), x)
  {
    FftIsDft(R, w, k, x);
    if inverse && k == 0 {
      RingOne(R, inv);
      VScaleOne(R, Dft(R, w(|x|), x));
    }
  }

  /** Synthesis undoes analysis, and analysis undoes synthesis. */
  lemma RoundTrip<T(!new)>(R: Ops<T>, w: int -> T, v: int -> T, inv: T, k: nat, x: seq<T>)
    requires IsRing(R) && InverseTowers(R, w, v, k) && |x| == Pow2(k) && Mul(R, inv, TwoPow(R, k)) == R.one
    ensures Scaled(R, true, inv, k, Fft(R, v, k, Fft(R, w, k, x))) == x
    ensures Fft(R, w, k, Scaled(R, true, inv, k, Fft(R, v, k, x))) == x
  {
    assert InverseTowers(R, v, w, k) by { RingComm(R, w(Pow2(k)), v(Pow2(k))); }
    FftInverts(R, w, v, k, x);
    FftInverts(R, v, w, k, x);
    VScaleScale(R, inv, TwoPow(R, k), x);
    VScaleOne(R, x);
    if k > 0 {
      FftScale(R, w, k, inv, Fft(R, v, k, x));
    }
  }

  lemma FftScale<T(!new)>(R: Ops<T>, w: int -> T, k: nat, c: T, x: seq<T>)
    requires IsRing(R) && Tower(R, w, k) && |x| == Pow2(k)
    ensures Fft(R, w, k, VScale(R, c, x)) == VScale(R, c, Fft(R, w, k, x))
  {
    hide IsRing, Tower, Eval, RPow, Fft;
    var z := w(Pow2(k));
    FftIsDft(R, w, k, x);
    FftIsDft(R, w, k, VScale(R, c, x));
    forall i | 0 <= i < |x| ensures Dft(R, z, VScale(R, c, x))[i] == VScale(R, c, Dft(R, z, x))[i] {
      EvalScale(R, c, x, RPow(R, z, i));
    }
  }
}
