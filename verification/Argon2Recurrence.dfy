/** The filled memory as RFC 9106 defines it (section 3.2): every block of every pass is a function of two earlier
    blocks, and of its own value in the pass before.  The array holds one pass only; the loops compute the same. */
module Argon2Recurrence {
  import opened ModArith
  import opened Argon2Layout
  import opened Argon2Fill
  import opened Argon2Loops

  ghost predicate XorAt<B>(E: Engine<B>, a: B, b: B, c: B) {
    E.xor(a, b) == E.xor(b, a) && E.xor(E.xor(a, b), c) == E.xor(a, E.xor(b, c))
  }

  ghost predicate XorLaws<B(!new)>(E: Engine<B>) { forall a: B, b: B, c: B :: XorAt(E, a, b, c) }

  /** The compression function of section 3.5: with R = X xor Y, the exclusive or of R and its permutation. */
  function G<B>(E: Engine<B>, x: B, y: B): B {
    var r := E.xor(x, y);
    E.xor(r, E.permute(r))
  }

  lemma FillBlockIsG<B(!new)>(E: Engine<B>, prev: B, ref: B, before: B)
    requires XorLaws(E)
    ensures FillBlock(E, prev, ref, before, false) == G(E, prev, ref)
    ensures FillBlock(E, prev, ref, before, true) == E.xor(G(E, prev, ref), before)
  {
    var r := E.xor(prev, ref);
    var p := E.permute(r);
    assert XorAt(E, ref, prev, before) && XorAt(E, r, before, p) && XorAt(E, before, p, r) && XorAt(E, r, p, before);
  }

  // ---- the recurrence ----------------------------------------------------------------------------------------------

  /** The slice and the index of an offset. */
  lemma OffsetParts(s: Shape, slice: nat, index: nat)
    requires s.Valid() && slice < SYNC_POINTS && index < s.segment
    ensures Current(s, slice, index) / s.segment == slice && Current(s, slice, index) % s.segment == index
    ensures slice * s.segment <= Current(s, slice, index) < s.laneLength
  {
    Segments(s, slice);
    DivModUnique(Current(s, slice, index), s.segment, slice, index);
  }

  lemma SecondBlock(s: Shape, pass: nat, slice: nat, lane: nat, i: nat)
    requires s.Valid() && Position(s, pass, slice, lane, i)
    ensures pass > 0 || Current(s, slice, i) >= 2
  {
    Segments(s, slice);
  }

  lemma PartsOf(s: Shape, pass: nat, lane: nat, o: nat)
    requires s.Valid() && lane < s.lanes && o < s.laneLength && (pass > 0 || o >= 2)
    ensures 0 <= o / s.segment && 0 <= o % s.segment && Position(s, pass, o / s.segment, lane, o % s.segment)
    ensures Current(s, o / s.segment, o % s.segment) == o
  {
    QuotientBelow(o, s.segment, SYNC_POINTS);
  }

  /** The word that chooses the reference: from the address generator in the first half of the first pass, and from the
      block before otherwise. */
  function Chooser<B>(E: Engine<B>, s: Shape, pass: nat, slice: nat, lane: nat, index: nat, prev: B): nat {
    if pass == 0 && slice < 2 then E.word(AddressBlock(E, s, pass, slice, lane, index / 128 + 1), index % 128)
    else E.word(prev, 0)
  }

  /** Block `o` of a lane in a pass. */
  function Block<B(!new)>(E: Engine<B>, s: Shape, first: (nat, nat) -> B, pass: nat, lane: nat, o: nat): B
    requires s.Valid() && Words(E) && lane < s.lanes && o < s.laneLength
    decreases pass, o, 2
  {
    if pass == 0 && o < 2 then first(o, lane)
    else
      PartsOf(s, pass, lane, o);
      var slice, index := o / s.segment, o % s.segment;
      var prev := BlockBefore(E, s, first, pass, lane, o);
      var j := Chooser(E, s, pass, slice, lane, index, prev);
      var ref := Referenced(E, s, first, pass, slice, lane, index, j);
      if pass == 0 then G(E, prev, ref) else E.xor(G(E, prev, ref), Block(E, s, first, pass - 1, lane, o))
  }

  function BlockBefore<B(!new)>(E: Engine<B>, s: Shape, first: (nat, nat) -> B, pass: nat, lane: nat, o: nat): B
    requires s.Valid() && Words(E) && lane < s.lanes && o < s.laneLength && (pass > 0 || o > 0)
    decreases pass, o, 0
  {
    if o == 0 then Block(E, s, first, pass - 1, lane, s.laneLength - 1) else Block(E, s, first, pass, lane, o - 1)
  }

  /** The block that a 64-bit number chooses: of the pass at hand if it has been computed in it, and of the pass before
      otherwise. */
  function Referenced<B(!new)>(E: Engine<B>, s: Shape, first: (nat, nat) -> B, pass: nat, slice: nat, lane: nat,
      index: nat, j: nat): B
    requires s.Valid() && Words(E) && Position(s, pass, slice, lane, index) && Current(s, slice, index) < s.laneLength
    decreases pass, Current(s, slice, index), 1
  {
    var l := if pass == 0 && slice == 0 then lane else j / TWO32 % s.lanes;
    ReferenceSafe(s, pass, slice, lane, index, j % TWO32, l);
    var z := IndexAlpha(s, pass, slice, index, j % TWO32, l == lane);
    if z < slice * s.segment || (l == lane && z < Current(s, slice, index)) then Block(E, s, first, pass, l, z)
    else Block(E, s, first, pass - 1, l, z)
  }

  // ---- what the array holds ----------------------------------------------------------------------------------------

  /** If a lane has been computed up to offset `bound` in the pass, the array holds this pass below the bound, and the
      pass before from there on. */
  ghost predicate Holds<B(!new)>(E: Engine<B>, s: Shape, first: (nat, nat) -> B, mem: seq<B>, pass: nat, bound: nat,
      l: nat, o: nat)
    requires s.Valid() && Words(E) && |mem| == s.blocks && l < s.lanes && o < s.laneLength
  {
    AtBound(s, l, o);
    && (o < bound || (pass == 0 && o < 2) ==> mem[At(s, l, o)] == Block(E, s, first, pass, l, o))
    && (o >= bound && pass > 0 ==> mem[At(s, l, o)] == Block(E, s, first, pass - 1, l, o))
  }

  /** Lanes below n have finished the slice, lane n is at index i, and the others have not started. */
  function Bound(s: Shape, slice: nat, n: nat, i: nat, l: nat): nat {
    slice * s.segment + (if l < n then s.segment else if l == n then i else 0)
  }

  ghost predicate HoldsAt<B(!new)>(E: Engine<B>, s: Shape, first: (nat, nat) -> B, mem: seq<B>, pass: nat, slice: nat,
      n: nat, i: nat, l: nat, o: nat)
    requires s.Valid() && Words(E) && |mem| == s.blocks && l < s.lanes && o < s.laneLength
  {
    Holds(E, s, first, mem, pass, Bound(s, slice, n, i, l), l, o)
  }

  ghost predicate State<B(!new)>(E: Engine<B>, s: Shape, first: (nat, nat) -> B, mem: seq<B>, pass: nat, slice: nat,
      n: nat, i: nat)
    requires s.Valid() && Words(E) && |mem| == s.blocks
  {
    forall l: nat, o: nat :: l < s.lanes && o < s.laneLength ==> HoldsAt(E, s, first, mem, pass, slice, n, i, l, o)
  }

  /** The block before the current one, and the current one's old value. */
  lemma OwnBlocks<B(!new)>(E: Engine<B>, s: Shape, first: (nat, nat) -> B, mem: seq<B>, pass: nat, slice: nat,
      lane: nat, i: nat)
    requires s.Valid() && Words(E) && Position(s, pass, slice, lane, i)
    requires |mem| == s.blocks && State(E, s, first, mem, pass, slice, lane, i)
    ensures var o, p := Current(s, slice, i), Previous(s, slice, i);
            && o < s.laneLength && p < s.laneLength && At(s, lane, o) < s.blocks && At(s, lane, p) < s.blocks
            && (pass > 0 || o > 0) && mem[At(s, lane, p)] == BlockBefore(E, s, first, pass, lane, o)
            && (pass > 0 ==> mem[At(s, lane, o)] == Block(E, s, first, pass - 1, lane, o))
  {
    hide Words, At, Block, Previous;
    PreviousIs(s, slice, i);
    OffsetParts(s, slice, i);
    AtBound(s, lane, Previous(s, slice, i));
    AtBound(s, lane, Current(s, slice, i));
    assert HoldsAt(E, s, first, mem, pass, slice, lane, i, lane, Previous(s, slice, i));
    assert HoldsAt(E, s, first, mem, pass, slice, lane, i, lane, Current(s, slice, i));
  }

  /** The referenced block. */
  lemma ReferencedBlock<B(!new)>(E: Engine<B>, s: Shape, first: (nat, nat) -> B, mem: seq<B>, pass: nat, slice: nat,
      lane: nat, i: nat, j: nat)
    requires s.Valid() && Words(E) && Position(s, pass, slice, lane, i) && Current(s, slice, i) < s.laneLength
    requires |mem| == s.blocks && State(E, s, first, mem, pass, slice, lane, i)
    ensures var l, z := RefLane(s, pass, slice, lane, j), RefIndex(s, pass, slice, lane, i, j);
            At(s, l, z) < s.blocks && mem[At(s, l, z)] == Referenced(E, s, first, pass, slice, lane, i, j)
  {
    hide Words, At, Block, IndexAlpha;
    var l, z := RefLane(s, pass, slice, lane, j), RefIndex(s, pass, slice, lane, i, j);
    ReferenceSafe(s, pass, slice, lane, i, j % TWO32, l);
    AtBound(s, l, z);
    assert HoldsAt(E, s, first, mem, pass, slice, lane, i, l, z);
  }

  /** The recurrence for one block, from the block before it and the referenced one. */
  lemma BlockUnfolds<B(!new)>(E: Engine<B>, s: Shape, first: (nat, nat) -> B, pass: nat, slice: nat, lane: nat, i: nat,
      o: nat)
    requires s.Valid() && Words(E) && Position(s, pass, slice, lane, i) && (pass > 0 || o >= 2)
    requires o == Current(s, slice, i) < s.laneLength && o / s.segment == slice && o % s.segment == i
    ensures var prev := BlockBefore(E, s, first, pass, lane, o);
            var ref := Referenced(E, s, first, pass, slice, lane, i, Chooser(E, s, pass, slice, lane, i, prev));
            Block(E, s, first, pass, lane, o) ==
            if pass == 0 then G(E, prev, ref) else E.xor(G(E, prev, ref), Block(E, s, first, pass - 1, lane, o))
  {
    hide Words, G, Chooser, BlockBefore, Referenced, Position, Shape.Valid, Current;
  }

  /** The loops compute the recurrence: from such a memory, the new block is the block of the recurrence. */
  lemma NewBlockIs<B(!new)>(E: Engine<B>, s: Shape, first: (nat, nat) -> B, mem: seq<B>, pass: nat, slice: nat,
      lane: nat, i: nat)
    requires s.Valid() && Words(E) && XorLaws(E) && Position(s, pass, slice, lane, i)
    requires |mem| == s.blocks && State(E, s, first, mem, pass, slice, lane, i)
    ensures Current(s, slice, i) < s.laneLength
    ensures NewBlock(E, s, mem, pass, slice, lane, i) == Block(E, s, first, pass, lane, Current(s, slice, i))
  {
    hide XorLaws, Words, AddressBlock, FillBlock, G, IndexAlpha, At, State, Block, BlockBefore, Referenced, Previous;
    var o, p := Current(s, slice, i), Previous(s, slice, i);
    OwnBlocks(E, s, first, mem, pass, slice, lane, i);
    var rand := PseudoRand(E, s, mem, pass, slice, lane, i);
    var prev := mem[At(s, lane, p)];
    assert rand == Chooser(E, s, pass, slice, lane, i, prev);
    ReferencedBlock(E, s, first, mem, pass, slice, lane, i, rand);
    var l := RefLane(s, pass, slice, lane, rand);
    OffsetParts(s, slice, i);
    SecondBlock(s, pass, slice, lane, i);
    BlockUnfolds(E, s, first, pass, slice, lane, i, o);
    FillBlockIsG(E, prev, mem[At(s, l, RefIndex(s, pass, slice, lane, i, rand))], mem[At(s, lane, o)]);
  }

  lemma StateStep<B(!new)>(E: Engine<B>, s: Shape, first: (nat, nat) -> B, mem: seq<B>, pass: nat, slice: nat,
      lane: nat, i: nat)
    requires s.Valid() && Words(E) && XorLaws(E) && Position(s, pass, slice, lane, i)
    requires |mem| == s.blocks && State(E, s, first, mem, pass, slice, lane, i)
    ensures State(E, s, first, Compute(E, s, mem, pass, slice, lane, i), pass, slice, lane, i + 1)
  {
    NewBlockIs(E, s, first, mem, pass, slice, lane, i);
    hide XorLaws, Words, NewBlock, Block, At;
    PreviousIs(s, slice, i);
    var after, next := Compute(E, s, mem, pass, slice, lane, i), i + 1;
    forall l: nat, o: nat | l < s.lanes && o < s.laneLength
      ensures HoldsAt(E, s, first, after, pass, slice, lane, next, l, o)
    {
      assert HoldsAt(E, s, first, mem, pass, slice, lane, i, l, o);
      Stored(s, mem, lane, Current(s, slice, i), NewBlock(E, s, mem, pass, slice, lane, i), l, o);
    }
  }

  lemma {:induction false} SoloState<B(!new)>(E: Engine<B>, s: Shape, first: (nat, nat) -> B, mem: seq<B>, pass: nat,
      slice: nat, lane: nat, i: nat)
    requires s.Valid() && Words(E) && XorLaws(E) && slice < SYNC_POINTS && lane < s.lanes && i <= s.segment
    requires |mem| == s.blocks && State(E, s, first, mem, pass, slice, lane, 0)
    ensures State(E, s, first, Solo(E, s, mem, pass, slice, lane, i), pass, slice, lane, i)
    decreases i
  {
    hide XorLaws, Words, Compute, Block, At;
    if i <= First(pass, slice) {
      forall l: nat, o: nat | l < s.lanes && o < s.laneLength
        ensures HoldsAt(E, s, first, mem, pass, slice, lane, i, l, o)
      {
        assert HoldsAt(E, s, first, mem, pass, slice, lane, 0, l, o);
      }
    } else {
      hide State;
      SoloState(E, s, first, mem, pass, slice, lane, i - 1);
      StateStep(E, s, first, Solo(E, s, mem, pass, slice, lane, i - 1), pass, slice, lane, i - 1);
    }
  }

  lemma NextLane<B(!new)>(E: Engine<B>, s: Shape, first: (nat, nat) -> B, mem: seq<B>, pass: nat, slice: nat, n: nat)
    requires s.Valid() && Words(E) && |mem| == s.blocks && State(E, s, first, mem, pass, slice, n, s.segment)
    ensures State(E, s, first, mem, pass, slice, n + 1, 0)
  {
    hide Holds, Words;
    var next := n + 1;
    forall l: nat, o: nat | l < s.lanes && o < s.laneLength
      ensures HoldsAt(E, s, first, mem, pass, slice, next, 0, l, o)
    {
      assert HoldsAt(E, s, first, mem, pass, slice, n, s.segment, l, o);
    }
  }

  lemma {:induction false} LanesState<B(!new)>(E: Engine<B>, s: Shape, first: (nat, nat) -> B, mem: seq<B>, pass: nat,
      slice: nat, n: nat)
    requires s.Valid() && Words(E) && XorLaws(E) && slice < SYNC_POINTS && n <= s.lanes
    requires |mem| == s.blocks && State(E, s, first, mem, pass, slice, 0, 0)
    ensures State(E, s, first, Lanes(E, s, mem, pass, slice, n), pass, slice, n, 0)
    decreases n
  {
    hide State, Solo, XorLaws, Words;
    if n > 0 {
      LanesState(E, s, first, mem, pass, slice, n - 1);
      SoloState(E, s, first, Lanes(E, s, mem, pass, slice, n - 1), pass, slice, n - 1, s.segment);
      NextLane(E, s, first, Lanes(E, s, mem, pass, slice, n), pass, slice, n - 1);
    }
  }

  /** The end of a slice is the start of the next one, or of the next pass. */
  lemma NextSlice<B(!new)>(E: Engine<B>, s: Shape, first: (nat, nat) -> B, mem: seq<B>, pass: nat, slice: nat)
    requires s.Valid() && Words(E) && slice < SYNC_POINTS && |mem| == s.blocks
    requires State(E, s, first, mem, pass, slice, s.lanes, 0)
    ensures slice < SYNC_POINTS - 1 ==> State(E, s, first, mem, pass, slice + 1, 0, 0)
    ensures slice == SYNC_POINTS - 1 ==> State(E, s, first, mem, pass + 1, 0, 0, 0)
  {
    hide Block, At, Words;
    Segments(s, slice);
    var (pass', slice') := if slice < SYNC_POINTS - 1 then (pass, slice + 1) else (pass + 1, 0);
    forall l: nat, o: nat | l < s.lanes && o < s.laneLength
      ensures HoldsAt(E, s, first, mem, pass', slice', 0, 0, l, o)
    {
      assert HoldsAt(E, s, first, mem, pass, slice, s.lanes, 0, l, o);
    }
  }

  lemma {:induction false} SlicesState<B(!new)>(E: Engine<B>, s: Shape, first: (nat, nat) -> B, mem: seq<B>, k: nat)
    requires s.Valid() && Words(E) && XorLaws(E) && |mem| == s.blocks && State(E, s, first, mem, 0, 0, 0, 0)
    ensures State(E, s, first, Slices(E, s, mem, k), k / SYNC_POINTS, k % SYNC_POINTS, 0, 0)
    decreases k
  {
    hide State, Lanes, XorLaws, Words;
    if k > 0 {
      SlicesState(E, s, first, mem, k - 1);
      var pass, slice := (k - 1) / SYNC_POINTS, (k - 1) % SYNC_POINTS;
      LanesState(E, s, first, Slices(E, s, mem, k - 1), pass, slice, s.lanes);
      NextSlice(E, s, first, Slices(E, s, mem, k), pass, slice);
    }
  }

  lemma {:induction false} InitialBlocks<B(!new)>(E: Engine<B>, s: Shape, first: (nat, nat) -> B, mem: seq<B>, n: nat,
      l: nat, o: nat)
    requires s.Valid() && |mem| == s.blocks && l < n <= s.lanes && o < 2
    ensures At(s, l, o) < s.blocks && Initial(E, s, first, mem, n)[At(s, l, o)] == first(o, l)
    decreases n
  {
    hide At;
    AtBound(s, n - 1, 0);
    AtBound(s, n - 1, 1);
    var was := Initial(E, s, first, mem, n - 1);
    Stored(s, was, n - 1, 0, first(0, n - 1), l, o);
    Stored(s, was[At(s, n - 1, 0) := first(0, n - 1)], n - 1, 1, first(1, n - 1), l, o);
    if l < n - 1 {
      InitialBlocks(E, s, first, mem, n - 1, l, o);
    }
  }

  /** After t passes the array holds the blocks of the last pass of the recurrence. */
  lemma MemoryIsRecurrence<B(!new)>(E: Engine<B>, s: Shape, first: (nat, nat) -> B, mem: seq<B>, t: nat, l: nat, o: nat)
    requires s.Valid() && Words(E) && XorLaws(E) && |mem| == s.blocks && t > 0 && l < s.lanes && o < s.laneLength
    ensures At(s, l, o) < s.blocks
    ensures Slices(E, s, Initial(E, s, first, mem, s.lanes), SYNC_POINTS * t)[At(s, l, o)] ==
            Block(E, s, first, t - 1, l, o)
  {
    hide Initial, Slices, XorLaws, Words, At, State, Block;
    var start := Initial(E, s, first, mem, s.lanes);
    StartState(E, s, first, mem);
    SlicesState(E, s, first, start, SYNC_POINTS * t);
    EndState(E, s, first, Slices(E, s, start, SYNC_POINTS * t), t, l, o);
  }

  lemma EndState<B(!new)>(E: Engine<B>, s: Shape, first: (nat, nat) -> B, mem: seq<B>, t: nat, l: nat, o: nat)
    requires s.Valid() && Words(E) && |mem| == s.blocks && t > 0 && l < s.lanes && o < s.laneLength
    requires State(E, s, first, mem, t, 0, 0, 0)
    ensures At(s, l, o) < s.blocks && mem[At(s, l, o)] == Block(E, s, first, t - 1, l, o)
  {
    hide Words, At, Block;
    AtBound(s, l, o);
    assert HoldsAt(E, s, first, mem, t, 0, 0, 0, l, o);
  }

  lemma StartState<B(!new)>(E: Engine<B>, s: Shape, first: (nat, nat) -> B, mem: seq<B>)
    requires s.Valid() && Words(E) && |mem| == s.blocks
    ensures State(E, s, first, Initial(E, s, first, mem, s.lanes), 0, 0, 0, 0)
  {
    hide Initial, Words, At;
    var start := Initial(E, s, first, mem, s.lanes);
    forall l: nat, o: nat | l < s.lanes && o < s.laneLength
      ensures HoldsAt(E, s, first, start, 0, 0, 0, 0, l, o)
    {
      if o < 2 {
        InitialBlocks(E, s, first, mem, s.lanes, l, o);
      }
    }
  }

  /** The exclusive or of the last blocks of the first n lanes in the last pass. */
  function FinalBlock<B(!new)>(E: Engine<B>, s: Shape, first: (nat, nat) -> B, pass: nat, n: nat): B
    requires s.Valid() && Words(E) && n <= s.lanes
    decreases n
  {
    if n == 0 then E.zero
    else E.xor(FinalBlock(E, s, first, pass, n - 1), Block(E, s, first, pass, n - 1, s.laneLength - 1))
  }

  lemma {:induction false} ColumnIsFinal<B(!new)>(E: Engine<B>, s: Shape, first: (nat, nat) -> B, mem: seq<B>, t: nat,
      n: nat)
    requires s.Valid() && Words(E) && XorLaws(E) && |mem| == s.blocks && t > 0 && n <= s.lanes
    ensures LastColumn(E, s, Slices(E, s, Initial(E, s, first, mem, s.lanes), SYNC_POINTS * t), n) ==
            FinalBlock(E, s, first, t - 1, n)
    decreases n
  {
    hide Initial, Slices, XorLaws, Words, At, Block;
    if n > 0 {
      ColumnIsFinal(E, s, first, mem, t, n - 1);
      MemoryIsRecurrence(E, s, first, mem, t, n - 1, s.laneLength - 1);
    }
  }

  /** What the whole derivation returns is the final block of the recurrence. */
  lemma DeriveIsRecurrence<B(!new)>(E: Engine<B>, p: nat, t: nat, m: nat, first: (nat, nat) -> B)
    requires Words(E) && XorLaws(E) && p >= 1 && t >= 1 && 8 * p <= m < TWO32
    ensures var s := MakeShape(p, t, m);
            var mem := Slices(E, s, Initial(E, s, first, Zeros(E, s.blocks), s.lanes), SYNC_POINTS * t);
            LastColumn(E, s, mem, s.lanes) ==
            FinalBlock(E, s, first, t - 1, p)
  {
    hide Initial, Slices, XorLaws, Words, LastColumn, FinalBlock;
    var s := MakeShape(p, t, m);
    ColumnIsFinal(E, s, first, Zeros(E, s.blocks), t, s.lanes);
  }
}
