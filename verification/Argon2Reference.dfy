/** Which block `index_alpha` chooses (section 3.4.1.2 of RFC 9106): the non-uniform position in the window of the
    blocks that may be referenced, counted from the oldest. */
module Argon2Reference {
  import opened ModArith
  import opened Argon2Layout

  // ---- the position ------------------------------------------------------------------------------------------------

  /** x = floor(j^2 / 2^32), and area - 1 - p = floor(area x / 2^32). */
  ghost predicate Chosen(area: nat, j: nat, x: nat, p: int) {
    && x * TWO32 <= j * j < (x + 1) * TWO32
    && (area - 1 - p) * TWO32 <= area * x < (area - p) * TWO32
  }

  lemma FloorUnique(n: nat, q: int)
    ensures q * TWO32 <= n < (q + 1) * TWO32 <==> n / TWO32 == q
  {
  }

  lemma PositionExact(area: nat, j: nat, p: int)
    ensures RelativePosition(area, j) == p <==> exists x: nat :: Chosen(area, j, x, p)
  {
    MulNonNegative(j, j);
    var x := j * j / TWO32;
    MulNonNegative(area, x);
    FloorUnique(j * j, x);
    FloorUnique(area * x, area - 1 - p);
    if RelativePosition(area, j) == p {
      assert Chosen(area, j, x, p);
    }
    if y: nat :| Chosen(area, j, y, p) {
      FloorUnique(j * j, y);
    }
  }

  lemma FloorMonotone(m: nat, n: nat)
    requires m <= n
    ensures m / TWO32 <= n / TWO32
  {
  }

  lemma ProductMonotone(a: nat, m: nat, n: nat)
    requires m <= n
    ensures 0 <= a * m <= a * n
  {
    MulNonNegative(a, m);
    MulNonNegative(a, n - m);
    MulDistributes(a, m, n - m);
  }

  /** The larger the number, the older the block. */
  lemma PositionFalls(area: nat, j: nat, k: nat)
    requires j <= k
    ensures RelativePosition(area, k) <= RelativePosition(area, j)
  {
    ProductMonotone(j, j, k);
    ProductMonotone(k, j, k);
    FloorMonotone(j * j, k * k);
    var x, y := j * j / TWO32, k * k / TWO32;
    ProductMonotone(area, x, y);
    FloorMonotone(area * x, area * y);
  }

  /** Half of all numbers choose among the newest quarter of the window, up to one. */
  lemma RecentFavoured(area: nat, j: nat)
    requires area >= 1 && j < 0x8000_0000
    ensures RelativePosition(area, j) >= area - 1 - area / 4
  {
    ProductMonotone(j, j, 0x8000_0000);
    var x := j * j / TWO32;
    assert x < 0x4000_0000;
    ProductMonotone(area, x, 0x4000_0000);
    FloorMonotone(area * x, area * 0x4000_0000);
    assert area * 0x4000_0000 / TWO32 == area / 4;
  }

  // ---- the window --------------------------------------------------------------------------------------------------

  /** When the present content of a block was written: pass after pass, offset after offset. */
  function Written(s: Shape, pass: nat, slice: nat, lane: nat, index: nat, l: nat, o: nat): int {
    var now := o < slice * s.segment || (l == lane && o < Current(s, slice, index));
    (if now then pass else pass - 1) * s.laneLength + o
  }

  /** The blocks of lane l that may be referenced: filled, not in the segment that the lanes fill now unless it is the
      lane's own part of it, and older than the block before the current one. */
  predicate Window(s: Shape, pass: nat, slice: nat, lane: nat, index: nat, l: nat, o: nat) {
    && FilledBefore(s, pass, slice, lane, index, l, o)
    && (InSegment(s, slice, o) ==> l == lane && o < Current(s, slice, index))
    && Written(s, pass, slice, lane, index, l, o) < pass * s.laneLength + Current(s, slice, index) - 1
  }

  /** The blocks of the window that are older than block r. */
  ghost function Older(s: Shape, pass: nat, slice: nat, lane: nat, index: nat, l: nat, r: nat): set<nat> {
    set o: nat | o < s.laneLength && Window(s, pass, slice, lane, index, l, o) &&
      Written(s, pass, slice, lane, index, l, o) < Written(s, pass, slice, lane, index, l, r)
  }

  /** The place of an offset in the cycle that starts after the current segment, or at 0 in the first pass. */
  function Rank(s: Shape, pass: nat, slice: nat, o: nat): int {
    var end := StartOf(s, pass, slice);
    if o >= end then o - end else s.laneLength - end + o
  }

  function StartOf(s: Shape, pass: nat, slice: nat): int {
    if pass == 0 || slice == SYNC_POINTS - 1 then 0 else slice * s.segment + s.segment
  }

  /** How many blocks the window holds. */
  function WindowSize(s: Shape, pass: nat, slice: nat, index: nat, sameLane: bool): int {
    (if pass == 0 then slice * s.segment else s.laneLength - s.segment) +
    (if sameLane then index - 1 else if index == 0 then -1 else 0)
  }

  /** The window holds the offsets of low rank, and their age falls with the rank. */
  lemma WindowIs(s: Shape, pass: nat, slice: nat, lane: nat, index: nat, l: nat, o: nat)
    requires s.Valid() && Position(s, pass, slice, lane, index) && l < s.lanes
    requires pass == 0 && slice == 0 ==> l == lane
    requires o < s.laneLength
    ensures Window(s, pass, slice, lane, index, l, o) <==>
            Rank(s, pass, slice, o) < WindowSize(s, pass, slice, index, l == lane)
    ensures Window(s, pass, slice, lane, index, l, o) ==>
            Written(s, pass, slice, lane, index, l, o) == Rank(s, pass, slice, o) + Oldest(s, pass, slice)
  {
    Segments(s, slice);
    assert (pass - 1) * s.laneLength == pass * s.laneLength - s.laneLength;
  }

  /** When the oldest block of the window was written. */
  function Oldest(s: Shape, pass: nat, slice: nat): int {
    if pass == 0 || slice == SYNC_POINTS - 1 then pass * s.laneLength
    else (pass - 1) * s.laneLength + StartOf(s, pass, slice)
  }

  /** Ranks are places: k offsets have a rank below k. */
  lemma {:induction false} RankedBelow(s: Shape, pass: nat, slice: nat, k: nat, below: set<nat>)
    requires s.Valid() && slice < SYNC_POINTS && k <= s.laneLength
    requires forall o: nat :: o in below <==> o < s.laneLength && Rank(s, pass, slice, o) < k
    ensures |below| == k
    decreases k
  {
    Segments(s, slice);
    if k == 0 {
      assert below == {};
    } else {
      var end := StartOf(s, pass, slice);
      var last: nat := if end + k - 1 < s.laneLength then end + k - 1 else end + k - 1 - s.laneLength;
      assert Rank(s, pass, slice, last) == k - 1;
      RankedBelow(s, pass, slice, k - 1, below - {last});
    }
  }

  lemma SizeIsArea(s: Shape, pass: nat, slice: nat, lane: nat, index: nat, l: nat)
    requires s.Valid() && Position(s, pass, slice, lane, index) && l < s.lanes
    requires pass == 0 && slice == 0 ==> l == lane
    ensures 0 < WindowSize(s, pass, slice, index, l == lane) < s.laneLength
    ensures AreaSize(s, pass, slice, index, l == lane) == WindowSize(s, pass, slice, index, l == lane)
  {
    AreaExact(s, pass, slice, lane, index, l == lane);
    Segments(s, slice);
  }

  /** The area is the number of blocks in the window. */
  lemma AreaIsWindow(s: Shape, pass: nat, slice: nat, lane: nat, index: nat, l: nat)
    requires s.Valid() && Position(s, pass, slice, lane, index) && l < s.lanes
    requires pass == 0 && slice == 0 ==> l == lane
    ensures AreaSize(s, pass, slice, index, l == lane) ==
            |set o: nat | o < s.laneLength && Window(s, pass, slice, lane, index, l, o)|
  {
    hide AreaSize, Window, Written, Rank, WindowSize;
    SizeIsArea(s, pass, slice, lane, index, l);
    var w := set o: nat | o < s.laneLength && Window(s, pass, slice, lane, index, l, o);
    forall o: nat | o < s.laneLength
      ensures o in w <==> Rank(s, pass, slice, o) < WindowSize(s, pass, slice, index, l == lane)
    {
      WindowIs(s, pass, slice, lane, index, l, o);
    }
    RankedBelow(s, pass, slice, WindowSize(s, pass, slice, index, l == lane), w);
  }

  lemma OlderIs(s: Shape, pass: nat, slice: nat, lane: nat, index: nat, l: nat, r: nat, o: nat)
    requires s.Valid() && Position(s, pass, slice, lane, index) && l < s.lanes
    requires pass == 0 && slice == 0 ==> l == lane
    requires r < s.laneLength && Window(s, pass, slice, lane, index, l, r)
    ensures o in Older(s, pass, slice, lane, index, l, r) <==>
            o < s.laneLength && Rank(s, pass, slice, o) < Rank(s, pass, slice, r)
  {
    hide Window, Written, WindowSize, Rank;
    WindowIs(s, pass, slice, lane, index, l, r);
    if o < s.laneLength {
      WindowIs(s, pass, slice, lane, index, l, o);
    }
  }

  /** A block of the window has as many older ones in it as its rank says. */
  lemma OlderCount(s: Shape, pass: nat, slice: nat, lane: nat, index: nat, l: nat, r: nat)
    requires s.Valid() && Position(s, pass, slice, lane, index) && l < s.lanes
    requires pass == 0 && slice == 0 ==> l == lane
    requires r < s.laneLength && Window(s, pass, slice, lane, index, l, r) &&
             0 <= Rank(s, pass, slice, r) <= s.laneLength
    ensures |Older(s, pass, slice, lane, index, l, r)| == Rank(s, pass, slice, r)
  {
    hide Window, Older, Rank;
    var older := Older(s, pass, slice, lane, index, l, r);
    forall o: nat ensures o in older <==> o < s.laneLength && Rank(s, pass, slice, o) < Rank(s, pass, slice, r) {
      OlderIs(s, pass, slice, lane, index, l, r, o);
    }
    RankedBelow(s, pass, slice, Rank(s, pass, slice, r), older);
  }

  lemma RankOfReference(s: Shape, pass: nat, slice: nat, index: nat, rand: nat, sameLane: bool)
    requires s.Valid() && slice < SYNC_POINTS && index < s.segment && rand < TWO32
    requires 0 < AreaSize(s, pass, slice, index, sameLane) < s.laneLength
    ensures var r := IndexAlpha(s, pass, slice, index, rand, sameLane);
            r < s.laneLength &&
            Rank(s, pass, slice, r) == RelativePosition(AreaSize(s, pass, slice, index, sameLane), rand)
  {
    hide AreaSize, RelativePosition, Wrap;
    Segments(s, slice);
    var area := AreaSize(s, pass, slice, index, sameLane);
    RelativeRange(area, rand);
    Around(StartOf(s, pass, slice) + RelativePosition(area, rand), s.laneLength);
  }

  /** The reference is the block of the window that has as many older ones as the position says: position 0 is the
      oldest block of the window, and area - 1 the newest. */
  lemma ReferenceIsNthOldest(s: Shape, pass: nat, slice: nat, lane: nat, index: nat, rand: nat, l: nat)
    requires s.Valid() && Position(s, pass, slice, lane, index) && rand < TWO32 && l < s.lanes
    requires pass == 0 && slice == 0 ==> l == lane
    ensures var r := IndexAlpha(s, pass, slice, index, rand, l == lane);
            && r < s.laneLength && Window(s, pass, slice, lane, index, l, r)
            && |Older(s, pass, slice, lane, index, l, r)| ==
               RelativePosition(AreaSize(s, pass, slice, index, l == lane), rand)
  {
    hide AreaSize, RelativePosition, Window, WindowSize, Rank, Older, IndexAlpha;
    var r := IndexAlpha(s, pass, slice, index, rand, l == lane);
    SizeIsArea(s, pass, slice, lane, index, l);
    RelativeRange(AreaSize(s, pass, slice, index, l == lane), rand);
    RankOfReference(s, pass, slice, index, rand, l == lane);
    WindowIs(s, pass, slice, lane, index, l, r);
    OlderCount(s, pass, slice, lane, index, l, r);
  }
}
