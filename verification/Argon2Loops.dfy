/** The loops of Argon2id: segments, slices and passes, with every index in range and every block read already
    written. */
module Argon2Loops {
  import opened Argon2Layout
  import opened Argon2Fill

  /** One more address block; the buffer that it overwrites does not matter. */
  method NextAddresses<B>(E: Engine<B>, s: Shape, pass: nat, slice: nat, lane: nat, counter: nat,
      address: B) returns (next: B)
    ensures next == AddressBlock(E, s, pass, slice, lane, counter)
  {
    next := FillBlock(E, E.zero, E.input(pass, lane, slice, s.blocks, s.passes, counter), address, false);
    next := FillBlock(E, E.zero, next, next, false);
  }

  /** Everything filled before the block at (pass, slice, lane, index) is in `written`. */
  ghost predicate Covered(s: Shape, pass: nat, slice: nat, lane: nat, index: nat, written: set<nat>) {
    forall l: nat, o: nat :: FilledBefore(s, pass, slice, lane, index, l, o) ==> At(s, l, o) in written
  }

  /** The places that a block computation reads. */
  lemma ReadsCovered(s: Shape, pass: nat, slice: nat, lane: nat, i: nat, rand: nat, written: set<nat>)
    requires s.Valid() && Position(s, pass, slice, lane, i) && Covered(s, pass, slice, lane, i, written)
    ensures At(s, lane, Previous(s, slice, i)) in written
    ensures At(s, RefLane(s, pass, slice, lane, rand), RefIndex(s, pass, slice, lane, i, rand)) in written
  {
    hide At, IndexAlpha;
    ReferenceSafe(s, pass, slice, lane, i, rand % TWO32, RefLane(s, pass, slice, lane, rand));
    PreviousIs(s, slice, i);
    assert FilledBefore(s, pass, slice, lane, i, lane, Previous(s, slice, i));
  }

  lemma NextCovered(s: Shape, pass: nat, slice: nat, lane: nat, i: nat, written: set<nat>)
    requires s.Valid() && Position(s, pass, slice, lane, i) && Covered(s, pass, slice, lane, i, written)
    ensures Covered(s, pass, slice, lane, i + 1, written + {At(s, lane, Current(s, slice, i))})
  {
    hide At;
    forall l: nat, o: nat | FilledBefore(s, pass, slice, lane, i + 1, l, o)
      ensures At(s, l, o) in written + {At(s, lane, Current(s, slice, i))}
    {
      assert FilledBefore(s, pass, slice, lane, i, l, o) || (l == lane && o == Current(s, slice, i));
    }
  }

  /** The first offset of a segment, and the offset before it. */
  lemma PreviousStep(s: Shape, slice: nat, lane: nat, i: nat, cur: nat, prev: nat)
    requires s.Valid() && slice < SYNC_POINTS && i + 1 < s.segment && cur == At(s, lane, Current(s, slice, i))
    requires prev == At(s, lane, Previous(s, slice, i))
    ensures (cur + 1) % s.laneLength != 1 ==> prev + 1 == At(s, lane, Previous(s, slice, i + 1))
  {
    PreviousIs(s, slice, i);
    PreviousIs(s, slice, i + 1);
    AtUnique(s, lane, Current(s, slice, i + 1));
  }

  lemma CurrentPlace(s: Shape, slice: nat, lane: nat, i: nat, cur: nat)
    requires s.Valid() && slice < SYNC_POINTS && i < s.segment && lane < s.lanes &&
             cur == At(s, lane, Current(s, slice, i))
    ensures cur % s.laneLength == Current(s, slice, i) && cur < s.blocks
    ensures cur % s.laneLength == 1 ==> cur - 1 == At(s, lane, Previous(s, slice, i))
    ensures At(s, lane, Previous(s, slice, i)) == if cur % s.laneLength == 0 then cur + s.laneLength - 1 else cur - 1
  {
    PreviousIs(s, slice, i);
    AtUnique(s, lane, Current(s, slice, i));
    AtBound(s, lane, Current(s, slice, i));
  }

  /** The reference, the new block and its place, for one index. */
  method StoreBlock<B(!new)>(E: Engine<B>, s: Shape, mem: array<B>, pass: nat, slice: nat, lane: nat, i: nat, cur: nat,
      prev: nat, rand: nat, ghost written: set<nat>)
    requires s.Valid() && Words(E) && mem.Length == s.blocks && Position(s, pass, slice, lane, i)
    requires cur == At(s, lane, Current(s, slice, i)) && prev == At(s, lane, Previous(s, slice, i))
    requires rand == PseudoRand(E, s, mem[..], pass, slice, lane, i) && Covered(s, pass, slice, lane, i, written)
    modifies mem
    ensures mem[..] == Compute(E, s, old(mem[..]), pass, slice, lane, i)
  {
    hide At, Current, Previous, PseudoRand, FillBlock, Covered, RefLane, RefIndex, Words;
    PlacesInRange(s, slice, lane, i);
    ReadsCovered(s, pass, slice, lane, i, rand, written);
    var ref := RefPlace(s, RefLane(s, pass, slice, lane, rand), RefIndex(s, pass, slice, lane, i, rand));
    AtBound(s, RefLane(s, pass, slice, lane, rand), RefIndex(s, pass, slice, lane, i, rand));
    assert prev in written && ref in written;
    ghost var was := mem[..];
    mem[cur] := FillBlock(E, mem[prev], mem[ref], mem[cur], pass != 0);
    assert mem[cur] == NewBlock(E, s, was, pass, slice, lane, i);
  }

  /** The address generator at index i: as many calls as blocks of 128 begun, and the last block made. */
  ghost predicate Addresses<B>(E: Engine<B>, s: Shape, pass: nat, slice: nat, lane: nat, i: nat, address: B,
      counter: nat)
  {
    if i % 128 == 0 then
      counter == i / 128
    else
      counter == i / 128 + 1 && address == AddressBlock(E, s, pass, slice, lane, counter)
  }

  /** The 64-bit word that chooses the reference of index i, from the address block or from the block before. */
  method NextRandom<B(!new)>(E: Engine<B>, s: Shape, mem: array<B>, pass: nat, slice: nat, lane: nat, i: nat, prev: nat,
                             address: B, counter: nat, ghost written: set<nat>)
      returns (rand: nat, address': B, counter': nat)
    requires s.Valid() && Words(E) && mem.Length == s.blocks && Position(s, pass, slice, lane, i)
    requires prev == At(s, lane, Previous(s, slice, i)) && Covered(s, pass, slice, lane, i, written)
    requires Independent(pass, slice) ==> Addresses(E, s, pass, slice, lane, i, address, counter)
    ensures rand == PseudoRand(E, s, mem[..], pass, slice, lane, i)
    ensures Independent(pass, slice) ==> Addresses(E, s, pass, slice, lane, i + 1, address', counter')
  {
    hide At, Previous, AddressBlock, Covered, RefLane, RefIndex;
    address', counter' := address, counter;
    PlacesInRange(s, slice, lane, i);
    if Independent(pass, slice) {
      if i % 128 == 0 {
        counter' := counter' + 1;
        address' := NextAddresses(E, s, pass, slice, lane, counter', address');
      }
      rand := E.word(address', i % 128);
    } else {
      assert prev in written by { ReadsCovered(s, pass, slice, lane, i, 0, written); }
      rand := E.word(mem[prev], 0);
    }
  }

  method FillSegment<B(!new)>(E: Engine<B>, s: Shape, mem: array<B>, pass: nat, slice: nat, lane: nat,
      ghost written: set<nat>)
      returns (ghost after: set<nat>)
    requires s.Valid() && Words(E) && mem.Length == s.blocks && slice < SYNC_POINTS && lane < s.lanes
    requires Covered(s, pass, slice, lane, First(pass, slice), written)
    modifies mem
    ensures mem[..] == Solo(E, s, old(mem[..]), pass, slice, lane, s.segment)
    ensures written <= after && Covered(s, pass, slice, lane, s.segment, after)
  {
    hide At, Current, Previous, AddressBlock, Covered, Words, Compute, PseudoRand;
    ghost var start := mem[..];
    after := written;
    var address, counter, starting := E.zero, 0, 0;
    if pass == 0 && slice == 0 {
      starting := 2;
      if Independent(pass, slice) {
        counter := counter + 1;
        address := NextAddresses(E, s, pass, slice, lane, counter, address);
      }
    }
    assert Addresses(E, s, pass, slice, lane, starting, address, counter);
    hide Addresses;
    var cur := lane * s.laneLength + slice * s.segment + starting;
    StartPlace(s, slice, lane, starting);
    if starting < s.segment {
      CurrentPlace(s, slice, lane, starting, cur);
    }
    var prev := if cur % s.laneLength == 0 then cur + s.laneLength - 1 else cur - 1;
    var i := starting;
    while i < s.segment
      invariant starting <= i <= s.segment && starting == First(pass, slice)
      invariant i < s.segment ==> cur == At(s, lane, Current(s, slice, i))
      invariant i < s.segment && cur % s.laneLength != 1 ==> prev == At(s, lane, Previous(s, slice, i))
      invariant mem[..] == Solo(E, s, start, pass, slice, lane, i)
      invariant Independent(pass, slice) ==> Addresses(E, s, pass, slice, lane, i, address, counter)
      invariant written <= after && Covered(s, pass, slice, lane, i, after)
    {
      CurrentPlace(s, slice, lane, i, cur);
      if cur % s.laneLength == 1 {
        prev := cur - 1;
      }
      var rand;
      rand, address, counter := NextRandom(E, s, mem, pass, slice, lane, i, prev, address, counter, after);
      StoreBlock(E, s, mem, pass, slice, lane, i, cur, prev, rand, after);
      NextCovered(s, pass, slice, lane, i, after);
      after := after + {cur};
      if i + 1 < s.segment {
        PreviousStep(s, slice, lane, i, cur, prev);
        NextPlace(s, slice, lane, i);
      }
      i, cur, prev := i + 1, cur + 1, prev + 1;
    }
  }

  lemma StartPlace(s: Shape, slice: nat, lane: nat, i: nat)
    ensures lane * s.laneLength + slice * s.segment + i == At(s, lane, Current(s, slice, i))
  {
  }

  lemma NextPlace(s: Shape, slice: nat, lane: nat, i: nat)
    ensures At(s, lane, Current(s, slice, i)) + 1 == At(s, lane, Current(s, slice, i + 1))
  {
  }

  lemma PlacesInRange(s: Shape, slice: nat, lane: nat, i: nat)
    requires s.Valid() && slice < SYNC_POINTS && lane < s.lanes && i < s.segment
    ensures At(s, lane, Current(s, slice, i)) < s.blocks && At(s, lane, Previous(s, slice, i)) < s.blocks
  {
    PreviousIs(s, slice, i);
    AtBound(s, lane, Current(s, slice, i));
    AtBound(s, lane, Previous(s, slice, i));
  }

  /** The index arithmetic of the reference, which fits a u32. */
  function RefPlace(s: Shape, lane: nat, index: nat): (x: nat)
    requires s.Valid() && lane < s.lanes && index < s.laneLength
    ensures x == At(s, lane, index) && x < TWO32
  {
    AtBound(s, lane, index);
    lane * s.laneLength + index
  }

  // ---- slices and passes --------------------------------------------------------------------------------------

  /** Everything filled before slice `slice` of pass `pass`. */
  ghost predicate SliceCovered(s: Shape, pass: nat, slice: nat, written: set<nat>) {
    forall l: nat, o: nat :: l < s.lanes && o < s.laneLength && (pass > 0 || o < 2 || o < slice * s.segment) ==>
        At(s, l, o) in written
  }

  /** Everything that lanes below n have filled by the end of their segments of the slice. */
  ghost predicate LanesCovered(s: Shape, slice: nat, n: nat, written: set<nat>) {
    forall l: nat, o: nat :: l < n && o < slice * s.segment + s.segment ==> At(s, l, o) in written
  }

  lemma SliceToSegment(s: Shape, pass: nat, slice: nat, lane: nat, written: set<nat>)
    requires s.Valid() && SliceCovered(s, pass, slice, written)
    ensures Covered(s, pass, slice, lane, First(pass, slice), written)
  {
    hide At;
  }

  lemma SegmentToLanes(s: Shape, pass: nat, slice: nat, lane: nat, written: set<nat>, after: set<nat>)
    requires s.Valid() && slice < SYNC_POINTS && lane < s.lanes && Covered(s, pass, slice, lane, s.segment, after)
    requires LanesCovered(s, slice, lane, written) && SliceCovered(s, pass, slice, written) && written <= after
    ensures LanesCovered(s, slice, lane + 1, after) && SliceCovered(s, pass, slice, after)
  {
    hide At;
    Segments(s, slice);
    forall l: nat, o: nat | l < lane + 1 && o < slice * s.segment + s.segment ensures At(s, l, o) in after {
      assert l == lane ==> FilledBefore(s, pass, slice, lane, s.segment, lane, o);
    }
  }

  lemma LanesToSlice(s: Shape, pass: nat, slice: nat, written: set<nat>)
    requires s.Valid() && slice < SYNC_POINTS && LanesCovered(s, slice, s.lanes, written) &&
             SliceCovered(s, pass, slice, written)
    ensures SliceCovered(s, pass, slice + 1, written)
    ensures slice == SYNC_POINTS - 1 ==> SliceCovered(s, pass + 1, 0, written)
  {
    hide At;
    Segments(s, slice);
  }

  /** One slice: every lane in turn. */
  method FillSlice<B(!new)>(E: Engine<B>, s: Shape, mem: array<B>, pass: nat, slice: nat,
      ghost written: set<nat>) returns (ghost after: set<nat>)
    requires s.Valid() && Words(E) && mem.Length == s.blocks && slice < SYNC_POINTS &&
             SliceCovered(s, pass, slice, written)
    modifies mem
    ensures mem[..] == Lanes(E, s, old(mem[..]), pass, slice, s.lanes)
    ensures SliceCovered(s, pass, slice, after) && LanesCovered(s, slice, s.lanes, after)
  {
    hide Solo, Covered, LanesCovered, SliceCovered;
    ghost var start := mem[..];
    after := written;
    assert LanesCovered(s, slice, 0, after) by { NoLanes(s, slice, after); }
    var l := 0;
    while l < s.lanes
      invariant 0 <= l <= s.lanes && mem[..] == Lanes(E, s, start, pass, slice, l)
      invariant SliceCovered(s, pass, slice, after) && LanesCovered(s, slice, l, after)
    {
      SliceToSegment(s, pass, slice, l, after);
      ghost var was := after;
      after := FillSegment(E, s, mem, pass, slice, l, after);
      SegmentToLanes(s, pass, slice, l, was, after);
      l := l + 1;
    }
  }

  lemma NoLanes(s: Shape, slice: nat, written: set<nat>)
    ensures LanesCovered(s, slice, 0, written)
  {
  }

  /** The four-level loop.  The ghost set `written` says which blocks have been written; the assertions in the
      inner methods show that no other block is ever read. */
  method FillMemoryBlocks<B(!new)>(E: Engine<B>, s: Shape, mem: array<B>, ghost written: set<nat>)
    requires s.Valid() && Words(E) && mem.Length == s.blocks && SliceCovered(s, 0, 0, written)
    modifies mem
    ensures mem[..] == Slices(E, s, old(mem[..]), SYNC_POINTS * s.passes)
  {
    hide Lanes, LanesCovered, SliceCovered;
    ghost var start, after := mem[..], written;
    var r := 0;
    while r < s.passes
      invariant 0 <= r <= s.passes && SliceCovered(s, r, 0, after)
      invariant mem[..] == Slices(E, s, start, SYNC_POINTS * r)
    {
      var slice := 0;
      while slice < SYNC_POINTS
        invariant 0 <= slice <= SYNC_POINTS && (slice < SYNC_POINTS ==> SliceCovered(s, r, slice, after))
        invariant slice == SYNC_POINTS ==> SliceCovered(s, r + 1, 0, after)
        invariant mem[..] == Slices(E, s, start, SYNC_POINTS * r + slice)
      {
        after := FillSlice(E, s, mem, r, slice, after);
        LanesToSlice(s, r, slice, after);
        slice := slice + 1;
      }
      r := r + 1;
    }
  }

  // ---- the whole derivation ---------------------------------------------------------------------------------

  /** The memory after the two initial blocks of every lane, over blocks of zeros. */
  function Initial<B>(E: Engine<B>, s: Shape, first: (nat, nat) -> B, mem: seq<B>, n: nat): (r: seq<B>)
    requires s.Valid() && |mem| == s.blocks && n <= s.lanes
    ensures |r| == |mem|
    decreases n
  {
    if n == 0 then mem else
      AtBound(s, n - 1, 0);
      AtBound(s, n - 1, 1);
      Initial(E, s, first, mem, n - 1)[At(s, n - 1, 0) := first(0, n - 1)][At(s, n - 1, 1) := first(1, n - 1)]
  }

  /** The exclusive or of the last blocks of the first n lanes. */
  function LastColumn<B>(E: Engine<B>, s: Shape, mem: seq<B>, n: nat): B
    requires s.Valid() && |mem| == s.blocks && n <= s.lanes
    decreases n
  {
    if n == 0 then E.zero else
      AtBound(s, n - 1, s.laneLength - 1);
      E.xor(LastColumn(E, s, mem, n - 1), mem[At(s, n - 1, s.laneLength - 1)])
  }

  method InitialLoop<B(!new)>(E: Engine<B>, s: Shape, first: (nat, nat) -> B,
      mem: array<B>) returns (ghost written: set<nat>)
    requires s.Valid() && mem.Length == s.blocks
    modifies mem
    ensures mem[..] == Initial(E, s, first, old(mem[..]), s.lanes) && SliceCovered(s, 0, 0, written)
  {
    hide At, Shape.Valid;
    ghost var start := mem[..];
    written := {};
    var l := 0;
    while l < s.lanes
      invariant 0 <= l <= s.lanes && mem[..] == Initial(E, s, first, start, l)
      invariant forall k: nat :: k < l ==> At(s, k, 0) in written && At(s, k, 1) in written
    {
      LanesLong(s);
      AtBound(s, l, 0);
      AtBound(s, l, 1);
      NextTwo(s, l);
      mem[l * s.laneLength] := first(0, l);
      mem[l * s.laneLength + 1] := first(1, l);
      written := written + {At(s, l, 0), At(s, l, 1)};
      l := l + 1;
    }
    assert SliceCovered(s, 0, 0, written) by {
      forall k: nat, o: nat | k < s.lanes && o < 2 ensures At(s, k, o) in written { assert o == 0 || o == 1; }
    }
  }

  lemma LanesLong(s: Shape)
    requires s.Valid()
    ensures s.laneLength >= 8
  {
  }

  method LastColumnLoop<B(!new)>(E: Engine<B>, s: Shape, mem: array<B>) returns (c: B)
    requires s.Valid() && mem.Length == s.blocks
    ensures c == LastColumn(E, s, mem[..], s.lanes)
  {
    hide At, Shape.Valid;
    c := E.zero;
    var l := 0;
    while l < s.lanes
      invariant 0 <= l <= s.lanes && c == LastColumn(E, s, mem[..], l)
    {
      LanesLong(s);
      AtBound(s, l, s.laneLength - 1);
      LastPlace(s, l);
      c := E.xor(c, mem[l * s.laneLength + s.laneLength - 1]);
      l := l + 1;
    }
  }

  /** Argon2id between the hashes: `first` gives the initial blocks, the result is the block to be hashed. */
  method Derive<B(!new)>(E: Engine<B>, p: nat, t: nat, m: nat, first: (nat, nat) -> B) returns (c: B)
    requires Words(E) && p >= 1 && t >= 1 && 8 * p <= m < TWO32
    ensures var s := MakeShape(p, t, m);
            c == LastColumn(E, s, Slices(E, s, Initial(E, s, first, Zeros(E, s.blocks), s.lanes), SYNC_POINTS * t),
                s.lanes)
  {
    hide Slices, Words, Shape.Valid, Initial, LastColumn;
    var s := MakeShape(p, t, m);
    var mem := new B[s.blocks](i => E.zero);
    assert mem[..] == Zeros(E, s.blocks);
    ghost var written := InitialLoop(E, s, first, mem);
    FillMemoryBlocks(E, s, mem, written);
    c := LastColumnLoop(E, s, mem);
  }

  function Zeros<B>(E: Engine<B>, n: nat): (z: seq<B>)
    ensures |z| == n
  {
    seq(n, i => E.zero)
  }

  lemma NextTwo(s: Shape, l: nat)
    ensures At(s, l, 0) == l * s.laneLength && At(s, l, 1) == l * s.laneLength + 1
  {
  }

  lemma LastPlace(s: Shape, l: nat)
    requires s.laneLength > 0
    ensures At(s, l, s.laneLength - 1) == l * s.laneLength + s.laneLength - 1
  {
  }
}
