/** The memory layout of Argon2id and its reference indexing, in 32-bit modular arithmetic. */
module Argon2Layout {
  import opened ModArith

  const TWO32: nat := 0x1_0000_0000
  const SYNC_POINTS: nat := 4

  /** `wrapping_*` on u32. */
  function Wrap(x: int): (r: nat)
    ensures 0 <= x < TWO32 ==> r == x
  {
    x % TWO32
  }

  /** The sizes of one run; `blocks` is the rounded memory size m'. */
  datatype Shape = Shape(lanes: nat, passes: nat, laneLength: nat, segment: nat, blocks: nat) {
    ghost predicate Valid() {
      && lanes >= 1 && passes >= 1 && segment >= 2 && laneLength == 4 * segment
      && blocks == lanes * laneLength && blocks < TWO32
    }
  }

  /** The sizes for p lanes, t passes and m KiB. */
  function MakeShape(p: nat, t: nat, m: nat): (s: Shape)
    requires p >= 1 && t >= 1 && 8 * p <= m < TWO32
    ensures s.Valid() && m - 4 * p < s.blocks <= m && s.lanes == p && s.passes == t
  {
    var q := m / (4 * p);
    LayoutSizes(p, m, q);
    var blocks := 4 * p * q;
    Shape(p, t, blocks / p, blocks / p / SYNC_POINTS, blocks)
  }

  lemma LayoutSizes(p: nat, m: nat, q: nat)
    requires p >= 1 && 8 * p <= m && q == m / (4 * p)
    ensures 4 * p * q / p == 4 * q && 4 * q / 4 == q && q >= 2 && 4 * p * q == p * (4 * q)
    ensures m - 4 * p < 4 * p * q <= m
  {
    assert m == (4 * p) * q + m % (4 * p);
    assert 4 * p * q == p * (4 * q);
    DivModUnique(4 * p * q, p, 4 * q, 0);
    if q < 2 {
      MulDistributes(4 * p, 1, q);
      MulNonNegative(4 * p, 1 - q);
    }
  }

  // ---- index_alpha ----------------------------------------------------------------------------------------

  /** How many blocks may be referenced; every subtraction wraps. */
  function AreaSize(s: Shape, pass: nat, slice: nat, index: nat, sameLane: bool): nat {
    if pass == 0 then
      if slice == 0 then Wrap(index - 1)
      else if sameLane then Wrap(Wrap(Wrap(slice * s.segment) + index) - 1)
      else Wrap(Wrap(slice * s.segment) + (if index == 0 then 0xffff_ffff else 0))
    else if sameLane then Wrap(Wrap(Wrap(s.laneLength - s.segment) + index) - 1)
    else Wrap(Wrap(s.laneLength - s.segment) + (if index == 0 then 0xffff_ffff else 0))
  }

  function StartPosition(s: Shape, pass: nat, slice: nat): nat {
    if pass != 0 && slice != SYNC_POINTS - 1 then Wrap((slice + 1) * s.segment) else 0
  }

  /** The non-uniform map of a 32-bit number into the area. */
  function RelativePosition(area: nat, rand: nat): int {
    area - 1 - area * (rand * rand / TWO32) / TWO32
  }

  function IndexAlpha(s: Shape, pass: nat, slice: nat, index: nat, rand: nat, sameLane: bool): nat
    requires s.laneLength > 0
  {
    (StartPosition(s, pass, slice) + RelativePosition(AreaSize(s, pass, slice, index, sameLane), rand)) % s.laneLength
  }

  /** A position at which a block is computed: the first two blocks of a lane are not. */
  predicate Position(s: Shape, pass: nat, slice: nat, lane: nat, index: nat) {
    slice < SYNC_POINTS && lane < s.lanes && index < s.segment && (pass == 0 && slice == 0 ==> index >= 2)
  }

  lemma Segments(s: Shape, slice: nat)
    requires s.Valid() && slice < SYNC_POINTS
    ensures slice * s.segment + s.segment == (slice + 1) * s.segment <= s.laneLength && s.laneLength < TWO32
    ensures 0 <= slice * s.segment && (slice >= 1 ==> slice * s.segment >= s.segment)
  {
    MulAtLeast(s.laneLength, s.lanes);
  }

  /** No wrap-around happens, and the area is never empty. */
  lemma AreaExact(s: Shape, pass: nat, slice: nat, lane: nat, index: nat, sameLane: bool)
    requires s.Valid() && Position(s, pass, slice, lane, index) && (pass == 0 && slice == 0 ==> sameLane)
    ensures AreaSize(s, pass, slice, index, sameLane) ==
            (if pass == 0 then slice * s.segment else s.laneLength - s.segment) +
            (if sameLane then index - 1 else if index == 0 then -1 else 0)
    ensures AreaSize(s, pass, slice, index, sameLane) >= 1
  {
    Segments(s, slice);
    if !sameLane && index == 0 {
      WrapMinusOne(if pass == 0 then slice * s.segment else s.laneLength - s.segment);
    }
  }

  lemma WrapMinusOne(x: nat)
    requires 1 <= x < TWO32
    ensures Wrap(x + 0xffff_ffff) == x - 1
  {
  }

  lemma HighPart(a: nat, x: nat)
    requires 1 <= a && x < TWO32
    ensures 0 <= a * x / TWO32 < a
  {
    MulDistributes(a, TWO32, x);
    MulAtLeast(a, TWO32 - x);
    MulNonNegative(a, x);
  }

  lemma RelativeRange(area: nat, rand: nat)
    requires 1 <= area < TWO32 && rand < TWO32
    ensures 0 <= RelativePosition(area, rand) < area
  {
    if rand > 0 {
      HighPart(rand, rand);
    }
    HighPart(area, rand * rand / TWO32);
  }

  /** The offset of the block being computed, and the one before it in the cycle of its lane. */
  function Current(s: Shape, slice: nat, index: nat): nat { slice * s.segment + index }

  function Previous(s: Shape, slice: nat, index: nat): nat
    requires s.laneLength > 0
  {
    (Current(s, slice, index) + s.laneLength - 1) % s.laneLength
  }

  lemma PreviousIs(s: Shape, slice: nat, index: nat)
    requires s.Valid() && slice < SYNC_POINTS && index < s.segment
    ensures Previous(s, slice, index) == if Current(s, slice, index) ==
            0 then s.laneLength - 1 else Current(s, slice, index) - 1
    ensures 0 <= Current(s, slice, index) < s.laneLength
  {
    Segments(s, slice);
    var c := Current(s, slice, index);
    if c == 0 { ModSmall(s.laneLength - 1, s.laneLength); } else { DivModUnique(c + s.laneLength - 1, s.laneLength, 1,
        c - 1); }
  }

  predicate InSegment(s: Shape, slice: nat, offset: nat) {
    slice * s.segment <= offset < slice * s.segment + s.segment
  }

  /** The blocks filled when (pass, slice, lane, index) is about to be computed. */
  predicate FilledBefore(s: Shape, pass: nat, slice: nat, lane: nat, index: nat, l: nat, offset: nat) {
    l < s.lanes && offset < s.laneLength
    && (pass > 0 || offset < slice * s.segment || (l == lane && offset < slice * s.segment + index))
  }

  /** A reference in another lane never falls into the segment that the lanes are computing now; one in the same
      lane is neither the current nor the previous block; either way it has been filled. */
  lemma ReferenceSafe(s: Shape, pass: nat, slice: nat, lane: nat, index: nat, rand: nat, l: nat)
    requires s.Valid() && Position(s, pass, slice, lane, index) && rand < TWO32 && l < s.lanes
    requires pass == 0 && slice == 0 ==> l == lane
    ensures var r := IndexAlpha(s, pass, slice, index, rand, l == lane);
            && r < s.laneLength && FilledBefore(s, pass, slice, lane, index, l, r)
            && (l != lane ==> !InSegment(s, slice, r))
            && (l == lane ==> r != Current(s, slice, index) && r != Previous(s, slice, index)
                              && (InSegment(s, slice, r) ==> r < Current(s, slice, index)))
  {
    hide AreaSize, RelativePosition, Wrap, Previous;
    var area := AreaSize(s, pass, slice, index, l == lane);
    var rel := RelativePosition(area, rand);
    AreaExact(s, pass, slice, lane, index, l == lane);
    Segments(s, slice);
    RelativeRange(area, rand);
    PreviousIs(s, slice, index);
    var end := if pass == 0 || slice == SYNC_POINTS - 1 then 0 else slice * s.segment + s.segment;
    Around(end + rel, s.laneLength);
  }

  lemma Around(x: nat, n: nat)
    requires n <= x < 2 * n || x < n
    ensures x % n == if x < n then x else x - n
  {
    if x < n { ModSmall(x, n); } else { DivModUnique(x, n, 1, x - n); }
  }
}
