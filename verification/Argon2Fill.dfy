/** Filling the Argon2id memory (section 3.4 of RFC 9106).  The block operations are parameters; what is proved
    is about the schedule: which blocks are read and written, and that the lanes of a slice are independent. */
module Argon2Fill {
  import opened ModArith
  import opened Argon2Layout

  /** Block operations: bitwise exclusive or, the permutation of the compression function, the i-th 64-bit word,
      and the input block of the address generator (pass, lane, slice, blocks, passes, counter). */
  datatype Engine<!B> = Engine(xor: (B, B) -> B, permute: B -> B, word: (B, nat) -> nat,
                               input: (nat, nat, nat, nat, nat, nat) -> B, zero: B)

  ghost predicate Words<B(!new)>(E: Engine<B>) {
    forall b: B, i: nat :: E.word(b, i) < TWO32 * TWO32
  }

  function FillBlock<B>(E: Engine<B>, prev: B, ref: B, next: B, withXor: bool): B {
    var r := E.xor(ref, prev);
    E.xor(if withXor then E.xor(r, next) else r, E.permute(r))
  }

  /** The address block of a counter value; the old address block plays no part in it. */
  function AddressBlock<B>(E: Engine<B>, s: Shape, pass: nat, slice: nat, lane: nat, counter: nat): B {
    var a := FillBlock(E, E.zero, E.input(pass, lane, slice, s.blocks, s.passes, counter), E.zero, false);
    FillBlock(E, E.zero, a, E.zero, false)
  }

  predicate Independent(pass: nat, slice: nat) { pass == 0 && slice < SYNC_POINTS / 2 }

  // ---- places ---------------------------------------------------------------------------------------------

  function At(s: Shape, lane: nat, offset: nat): nat { lane * s.laneLength + offset }

  lemma AtBound(s: Shape, lane: nat, offset: nat)
    requires s.Valid() && lane < s.lanes && offset < s.laneLength
    ensures At(s, lane, offset) < s.blocks
  {
    MulDistributes(s.laneLength, s.lanes, lane);
    MulAtLeast(s.laneLength, s.lanes - lane);
  }

  lemma AtUnique(s: Shape, lane: nat, offset: nat)
    requires s.Valid() && offset < s.laneLength
    ensures At(s, lane, offset) / s.laneLength == lane && At(s, lane, offset) % s.laneLength == offset
  {
    DivModUnique(At(s, lane, offset), s.laneLength, lane, offset);
  }

  /** Storing at one place changes that place and no other. */
  lemma Stored<B>(s: Shape, mem: seq<B>, lane: nat, offset: nat, b: B, l: nat, o: nat)
    requires s.Valid() && |mem| == s.blocks && lane < s.lanes && l < s.lanes && offset < s.laneLength &&
             o < s.laneLength
    ensures At(s, lane, offset) < s.blocks && At(s, l, o) < s.blocks
    ensures mem[At(s, lane, offset) := b][At(s, l, o)] == if l == lane && o == offset then b else mem[At(s, l, o)]
  {
    AtBound(s, lane, offset);
    AtBound(s, l, o);
    AtUnique(s, lane, offset);
    AtUnique(s, l, o);
  }

  lemma Place(s: Shape, x: nat)
    requires s.Valid() && x < s.blocks
    ensures 0 <= x / s.laneLength < s.lanes && 0 <= x % s.laneLength < s.laneLength &&
            At(s, x / s.laneLength, x % s.laneLength) == x
  {
    QuotientBelow(x, s.laneLength, s.lanes);
  }

  lemma QuotientBelow(x: nat, n: nat, k: nat)
    requires n > 0 && x < k * n
    ensures 0 <= x / n < k && 0 <= x % n < n && x / n * n + x % n == x
  {
    var d := x / n;
    assert x == n * d + x % n;
    if d >= k {
      MulDistributes(n, d, k);
      MulNonNegative(n, d - k);
    }
  }

  // ---- one block --------------------------------------------------------------------------------------------

  function PseudoRand<B(!new)>(E: Engine<B>, s: Shape, mem: seq<B>, pass: nat, slice: nat, lane: nat, i: nat): (r: nat)
    requires s.Valid() && Words(E) && Position(s, pass, slice, lane, i) && |mem| == s.blocks
    ensures r < TWO32 * TWO32
  {
    if Independent(pass, slice) then E.word(AddressBlock(E, s, pass, slice, lane, i / 128 + 1), i % 128)
    else
      PreviousIs(s, slice, i);
      AtBound(s, lane, Previous(s, slice, i));
      E.word(mem[At(s, lane, Previous(s, slice, i))], 0)
  }

  function RefLane(s: Shape, pass: nat, slice: nat, lane: nat, rand: nat): (l: nat)
    requires s.Valid() && lane < s.lanes
    ensures l < s.lanes && (pass == 0 && slice == 0 ==> l == lane)
  {
    if pass == 0 && slice == 0 then lane else rand / TWO32 % s.lanes
  }

  function RefIndex(s: Shape, pass: nat, slice: nat, lane: nat, i: nat, rand: nat): (r: nat)
    requires s.Valid() && Position(s, pass, slice, lane, i)
    ensures r < s.laneLength
    ensures RefLane(s, pass, slice, lane, rand) != lane ==> !InSegment(s, slice, r)
  {
    ReferenceSafe(s, pass, slice, lane, i, rand % TWO32, RefLane(s, pass, slice, lane, rand));
    IndexAlpha(s, pass, slice, i, rand % TWO32, RefLane(s, pass, slice, lane, rand) == lane)
  }

  function NewBlock<B(!new)>(E: Engine<B>, s: Shape, mem: seq<B>, pass: nat, slice: nat, lane: nat, i: nat): B
    requires s.Valid() && Words(E) && Position(s, pass, slice, lane, i) && |mem| == s.blocks
  {
    var rand := PseudoRand(E, s, mem, pass, slice, lane, i);
    var refLane, refIndex := RefLane(s, pass, slice, lane, rand), RefIndex(s, pass, slice, lane, i, rand);
    PreviousIs(s, slice, i);
    AtBound(s, lane, Previous(s, slice, i));
    AtBound(s, lane, Current(s, slice, i));
    AtBound(s, refLane, refIndex);
    FillBlock(E, mem[At(s, lane, Previous(s, slice, i))], mem[At(s, refLane, refIndex)], mem[At(s, lane, Current(s,
        slice, i))], pass != 0)
  }

  function Compute<B(!new)>(E: Engine<B>, s: Shape, mem: seq<B>, pass: nat, slice: nat, lane: nat, i: nat): (r: seq<B>)
    requires s.Valid() && Words(E) && Position(s, pass, slice, lane, i) && |mem| == s.blocks
    ensures |r| == |mem|
  {
    PreviousIs(s, slice, i);
    AtBound(s, lane, Current(s, slice, i));
    mem[At(s, lane, Current(s, slice, i)) := NewBlock(E, s, mem, pass, slice, lane, i)]
  }

  function First(pass: nat, slice: nat): nat { if pass == 0 && slice == 0 then 2 else 0 }

  /** The memory after one lane has computed its blocks of the segment up to index i. */
  function Solo<B(!new)>(E: Engine<B>, s: Shape, mem: seq<B>, pass: nat, slice: nat, lane: nat, i: nat): (r: seq<B>)
    requires s.Valid() && Words(E) && slice < SYNC_POINTS && lane < s.lanes && i <= s.segment && |mem| == s.blocks
    ensures |r| == |mem|
    decreases i
  {
    if i <= First(pass, slice) then mem
    else Compute(E, s, Solo(E, s, mem, pass, slice, lane, i - 1), pass, slice, lane, i - 1)
  }

  /** The lane loop of one slice, for the first n lanes. */
  function Lanes<B(!new)>(E: Engine<B>, s: Shape, mem: seq<B>, pass: nat, slice: nat, n: nat): (r: seq<B>)
    requires s.Valid() && Words(E) && slice < SYNC_POINTS && n <= s.lanes && |mem| == s.blocks
    ensures |r| == |mem|
    decreases n
  {
    if n == 0 then mem else Solo(E, s, Lanes(E, s, mem, pass, slice, n - 1), pass, slice, n - 1, s.segment)
  }

  /** The first k slices of the run. */
  function Slices<B(!new)>(E: Engine<B>, s: Shape, mem: seq<B>, k: nat): (r: seq<B>)
    requires s.Valid() && Words(E) && |mem| == s.blocks
    ensures |r| == |mem|
    decreases k
  {
    if k == 0 then mem
    else Lanes(E, s, Slices(E, s, mem, k - 1), (k - 1) / SYNC_POINTS, (k - 1) % SYNC_POINTS, s.lanes)
  }

  // ---- the frame of a lane ------------------------------------------------------------------------------------

  /** Memories that agree on what lane `lane` may read in this slice: its own blocks, and those of the others
      outside the segment being filled. */
  ghost predicate AgreeFor<B>(s: Shape, slice: nat, lane: nat, u: seq<B>, v: seq<B>) {
    && |u| == |v| == s.blocks
    && forall l: nat, o: nat :: l < s.lanes && o < s.laneLength && (l == lane || !InSegment(s, slice, o)) ==>
         SameAt(s, u, v, l, o)
  }

  ghost predicate SameAt<B>(s: Shape, u: seq<B>, v: seq<B>, l: nat, o: nat) {
    At(s, l, o) < |u| == |v| && u[At(s, l, o)] == v[At(s, l, o)]
  }

  lemma NewBlockAgrees<B(!new)>(E: Engine<B>, s: Shape, u: seq<B>, v: seq<B>, pass: nat, slice: nat, lane: nat, i: nat)
    requires s.Valid() && Words(E) && Position(s, pass, slice, lane, i) && AgreeFor(s, slice, lane, u, v)
    ensures NewBlock(E, s, u, pass, slice, lane, i) == NewBlock(E, s, v, pass, slice, lane, i)
  {
    hide At, Previous, Current, RefLane, RefIndex, InSegment;
    PreviousIs(s, slice, i);
    assert SameAt(s, u, v, lane, Previous(s, slice, i)) && SameAt(s, u, v, lane, Current(s, slice, i));
    var rand := PseudoRand(E, s, u, pass, slice, lane, i);
    assert rand == PseudoRand(E, s, v, pass, slice, lane, i);
    assert SameAt(s, u, v, RefLane(s, pass, slice, lane, rand), RefIndex(s, pass, slice, lane, i, rand));
  }

  /** A lane running alone writes only to its own segment. */
  lemma {:induction false} SoloFrame<B(!new)>(E: Engine<B>, s: Shape, mem: seq<B>, pass: nat, slice: nat, lane: nat,
      i: nat, l: nat, o: nat)
    requires s.Valid() && Words(E) && slice < SYNC_POINTS && lane < s.lanes && i <= s.segment && |mem| == s.blocks
    requires l < s.lanes && o < s.laneLength && (l != lane || !InSegment(s, slice, o))
    ensures SameAt(s, Solo(E, s, mem, pass, slice, lane, i), mem, l, o)
    decreases i
  {
    hide At, NewBlock;
    AtBound(s, l, o);
    if i > First(pass, slice) {
      SoloFrame(E, s, mem, pass, slice, lane, i - 1, l, o);
      PreviousIs(s, slice, i - 1);
      var was := Solo(E, s, mem, pass, slice, lane, i - 1);
      Stored(s, was, lane, Current(s, slice, i - 1), NewBlock(E, s, was, pass, slice, lane, i - 1), l, o);
    }
  }

  // ---- interleaving ---------------------------------------------------------------------------------------------

  /** Each lane's part of the memory is what it would be if that lane had run alone, up to index done[l]. */
  ghost predicate Reached<B(!new)>(E: Engine<B>, s: Shape, pass: nat, slice: nat, start: seq<B>, done: seq<nat>,
      mem: seq<B>)
    requires s.Valid() && Words(E) && slice < SYNC_POINTS && |start| == s.blocks
  {
    && |mem| == s.blocks && |done| == s.lanes && (forall l: nat :: l < s.lanes ==> done[l] <= s.segment)
    && forall l: nat, o: nat :: l < s.lanes && o < s.laneLength ==>
        ReachedAt(E, s, pass, slice, start, done[l], mem, l, o)
  }

  ghost predicate ReachedAt<B(!new)>(E: Engine<B>, s: Shape, pass: nat, slice: nat, start: seq<B>, i: nat, mem: seq<B>,
      l: nat, o: nat)
    requires s.Valid() && Words(E) && slice < SYNC_POINTS && |start| == s.blocks && l < s.lanes && i <= s.segment
  {
    SameAt(s, mem, Solo(E, s, start, pass, slice, l, i), l, o)
  }

  lemma ReachedAgrees<B(!new)>(E: Engine<B>, s: Shape, pass: nat, slice: nat, start: seq<B>, done: seq<nat>,
      mem: seq<B>, lane: nat)
    requires s.Valid() && Words(E) && slice < SYNC_POINTS && |start| == s.blocks && lane < s.lanes
    requires Reached(E, s, pass, slice, start, done, mem)
    ensures done[lane] <= s.segment && AgreeFor(s, slice, lane, mem, Solo(E, s, start, pass, slice, lane, done[lane]))
  {
    hide At, Solo;
    assert ReachedAt(E, s, pass, slice, start, done[lane], mem, lane, 0);
    var solo := Solo(E, s, start, pass, slice, lane, done[lane]);
    forall l: nat, o: nat | l < s.lanes && o < s.laneLength && (l == lane || !InSegment(s, slice, o))
      ensures SameAt(s, mem, solo, l, o)
    {
      assert ReachedAt(E, s, pass, slice, start, done[l], mem, l, o);
      if l != lane {
        SoloFrame(E, s, start, pass, slice, l, done[l], l, o);
        SoloFrame(E, s, start, pass, slice, lane, done[lane], l, o);
      }
    }
  }

  /** One block by one lane, at one place. */
  lemma ReachedStepAt<B(!new)>(E: Engine<B>, s: Shape, pass: nat, slice: nat, start: seq<B>, i: nat, mem: seq<B>,
      lane: nat, l: nat, o: nat, k: nat)
    requires s.Valid() && Words(E) && Position(s, pass, slice, lane, i) && |start| == |mem| == s.blocks &&
             l < s.lanes && o < s.laneLength
    requires k <= s.segment && (l == lane ==> k == i) && ReachedAt(E, s, pass, slice, start, k, mem, l, o)
    requires NewBlock(E, s, mem, pass, slice, lane, i) == NewBlock(E, s, Solo(E, s, start, pass, slice, lane, i), pass,
             slice, lane, i)
    ensures ReachedAt(E, s, pass, slice, start, if l == lane then i + 1 else k, Compute(E, s, mem, pass, slice, lane,
            i), l, o)
  {
    hide At, NewBlock, InSegment, Current;
    PreviousIs(s, slice, i);
    var c, b := Current(s, slice, i), NewBlock(E, s, mem, pass, slice, lane, i);
    Stored(s, mem, lane, c, b, l, o);
    Stored(s, Solo(E, s, start, pass, slice, lane, i), lane, c, b, l, o);
  }

  /** One block by one lane keeps the invariant. */
  lemma ReachedStep<B(!new)>(E: Engine<B>, s: Shape, pass: nat, slice: nat, start: seq<B>, done: seq<nat>, mem: seq<B>,
      lane: nat)
    requires s.Valid() && Words(E) && slice < SYNC_POINTS && |start| == s.blocks && lane < s.lanes
    requires Reached(E, s, pass, slice, start, done, mem) && First(pass, slice) <= done[lane] < s.segment
    ensures Reached(E, s, pass, slice, start, done[lane := done[lane] + 1], Compute(E, s, mem, pass, slice, lane,
            done[lane]))
  {
    hide At, NewBlock, InSegment, Compute, Solo, ReachedAt;
    var i := done[lane];
    ReachedAgrees(E, s, pass, slice, start, done, mem, lane);
    NewBlockAgrees(E, s, mem, Solo(E, s, start, pass, slice, lane, i), pass, slice, lane, i);
    var mem', done' := Compute(E, s, mem, pass, slice, lane, i), done[lane := i + 1];
    forall l: nat, o: nat | l < s.lanes && o < s.laneLength
      ensures ReachedAt(E, s, pass, slice, start, done'[l], mem', l, o)
    {
      ReachedStepAt(E, s, pass, slice, start, i, mem, lane, l, o, done[l]);
    }
  }

  /** Equal progress means equal memory. */
  lemma ReachedUnique<B(!new)>(E: Engine<B>, s: Shape, pass: nat, slice: nat, start: seq<B>, done: seq<nat>, u: seq<B>,
      v: seq<B>)
    requires s.Valid() && Words(E) && slice < SYNC_POINTS && |start| == s.blocks
    requires Reached(E, s, pass, slice, start, done, u) && Reached(E, s, pass, slice, start, done, v)
    ensures u == v
  {
    hide At, Solo;
    forall x | 0 <= x < s.blocks ensures u[x] == v[x] {
      Place(s, x);
      var l, o := x / s.laneLength, x % s.laneLength;
      assert ReachedAt(E, s, pass, slice, start, done[l], u, l, o) &&
             ReachedAt(E, s, pass, slice, start, done[l], v, l, o);
    }
  }

  /** Runs the lanes of one slice in the order that the schedule gives, one block at a time: each entry names the
      lane that computes its next block.  `done` holds the next index of every lane. */
  function Run<B(!new)>(E: Engine<B>, s: Shape, mem: seq<B>, pass: nat, slice: nat, done: seq<nat>,
      schedule: seq<nat>): (r: seq<B>)
    requires s.Valid() && Words(E) && slice < SYNC_POINTS && |mem| == s.blocks &&
             Runnable(s, pass, slice, done, schedule)
    ensures |r| == |mem|
    decreases |schedule|
  {
    if schedule == [] then mem
    else
      var l := schedule[0];
      Run(E, s, Compute(E, s, mem, pass, slice, l, done[l]), pass, slice, done[l := done[l] + 1], schedule[1..])
  }

  /** No lane is scheduled beyond its segment. */
  ghost predicate Runnable(s: Shape, pass: nat, slice: nat, done: seq<nat>, schedule: seq<nat>)
    decreases |schedule|
  {
    && |done| == s.lanes && (forall l :: 0 <= l < s.lanes ==> First(pass, slice) <= done[l] <= s.segment)
    && (schedule != [] ==> schedule[0] < s.lanes && done[schedule[0]] < s.segment
                           && Runnable(s, pass, slice, done[schedule[0] := done[schedule[0]] + 1], schedule[1..]))
  }

  /** Where a schedule leaves every lane. */
  ghost function Ends(s: Shape, pass: nat, slice: nat, done: seq<nat>, schedule: seq<nat>): (r: seq<nat>)
    requires Runnable(s, pass, slice, done, schedule)
    ensures |r| == s.lanes
    decreases |schedule|
  {
    if schedule == [] then done else Ends(s, pass, slice, done[schedule[0] := done[schedule[0]] + 1], schedule[1..])
  }

  lemma {:induction false} RunReaches<B(!new)>(E: Engine<B>, s: Shape, pass: nat, slice: nat, start: seq<B>,
      mem: seq<B>, done: seq<nat>, schedule: seq<nat>)
    requires s.Valid() && Words(E) && slice < SYNC_POINTS && |start| == s.blocks &&
             Runnable(s, pass, slice, done, schedule)
    requires Reached(E, s, pass, slice, start, done, mem)
    ensures Reached(E, s, pass, slice, start, Ends(s, pass, slice, done, schedule), Run(E, s, mem, pass, slice, done,
            schedule))
    decreases |schedule|
  {
    if schedule != [] {
      hide Reached, Compute;
      var l := schedule[0];
      ReachedStep(E, s, pass, slice, start, done, mem, l);
      RunReaches(E, s, pass, slice, start, Compute(E, s, mem, pass, slice, l, done[l]), done[l := done[l] + 1],
          schedule[1..]);
    }
  }

  // ---- the lane loop is one of the schedules -------------------------------------------------------------------

  function AllAt(n: nat, i: nat): (d: seq<nat>)
    ensures |d| == n && forall l :: 0 <= l < n ==> d[l] == i
  {
    seq(n, l => i)
  }

  lemma StartReached<B(!new)>(E: Engine<B>, s: Shape, pass: nat, slice: nat, start: seq<B>)
    requires s.Valid() && Words(E) && slice < SYNC_POINTS && |start| == s.blocks
    ensures Reached(E, s, pass, slice, start, AllAt(s.lanes, First(pass, slice)), start)
  {
    hide At;
    forall l: nat, o: nat | l < s.lanes && o < s.laneLength
      ensures ReachedAt(E, s, pass, slice, start, First(pass, slice), start, l, o)
    {
      AtBound(s, l, o);
    }
  }

  lemma {:induction false} SoloReached<B(!new)>(E: Engine<B>, s: Shape, pass: nat, slice: nat, start: seq<B>,
      done: seq<nat>, mem: seq<B>, lane: nat, i: nat)
    requires s.Valid() && Words(E) && slice < SYNC_POINTS && |start| == s.blocks && lane < s.lanes
    requires Reached(E, s, pass, slice, start, done, mem) && done[lane] == First(pass, slice) <= i <= s.segment
    ensures Reached(E, s, pass, slice, start, done[lane := i], Solo(E, s, mem, pass, slice, lane, i))
    decreases i
  {
    var f := First(pass, slice);
    if i == f {
      assert done[lane := i] == done;
    } else {
      SoloReached(E, s, pass, slice, start, done, mem, lane, i - 1);
      var was := Solo(E, s, mem, pass, slice, lane, i - 1);
      ReachedStep(E, s, pass, slice, start, done[lane := i - 1], was, lane);
      assert done[lane := i - 1][lane := i] == done[lane := i];
      hide Reached, Compute;
      assert Solo(E, s, mem, pass, slice, lane, i) == Compute(E, s, was, pass, slice, lane, i - 1);
    }
  }

  lemma {:induction false} LanesReached<B(!new)>(E: Engine<B>, s: Shape, pass: nat, slice: nat, start: seq<B>, n: nat)
    requires s.Valid() && Words(E) && slice < SYNC_POINTS && |start| == s.blocks && n <= s.lanes
    ensures Reached(E, s, pass, slice, start, LanesDone(s, pass, slice, n), Lanes(E, s, start, pass, slice, n))
    decreases n
  {
    hide Reached, Solo, LanesDone, AllAt;
    NextDone(s, pass, slice, n);
    if n == 0 {
      StartReached(E, s, pass, slice, start);
    } else {
      LanesReached(E, s, pass, slice, start, n - 1);
      SoloReached(E, s, pass, slice, start, LanesDone(s, pass, slice, n - 1), Lanes(E, s, start, pass, slice, n - 1),
          n - 1, s.segment);
    }
  }

  /** The progress after n lanes of the lane loop. */
  function LanesDone(s: Shape, pass: nat, slice: nat, n: nat): (d: seq<nat>)
    requires n <= s.lanes
    ensures |d| == s.lanes
  {
    AllAt(n, s.segment) + AllAt(s.lanes - n, First(pass, slice))
  }

  lemma NextDone(s: Shape, pass: nat, slice: nat, n: nat)
    requires n <= s.lanes
    ensures n == 0 ==> LanesDone(s, pass, slice, n) == AllAt(s.lanes, First(pass, slice))
    ensures n > 0 ==> LanesDone(s, pass, slice, n - 1)[n - 1] == First(pass, slice)
    ensures n > 0 ==> LanesDone(s, pass, slice, n - 1)[n - 1 := s.segment] == LanesDone(s, pass, slice, n)
    ensures n == s.lanes ==> LanesDone(s, pass, slice, n) == AllAt(s.lanes, s.segment)
  {
  }

  /** A schedule that completes every lane's segment. */
  ghost predicate Complete(s: Shape, pass: nat, slice: nat, schedule: seq<nat>) {
    var from := AllAt(s.lanes, First(pass, slice));
    Runnable(s, pass, slice, from, schedule) && Ends(s, pass, slice, from, schedule) == AllAt(s.lanes, s.segment)
  }

  /** Lane independence: whatever the order, and however the lanes' steps are interleaved, a slice ends with the
      memory that the lane loop gives. */
  lemma AnyInterleaving<B(!new)>(E: Engine<B>, s: Shape, pass: nat, slice: nat, mem: seq<B>, schedule: seq<nat>)
    requires s.Valid() && Words(E) && slice < SYNC_POINTS && |mem| == s.blocks && Complete(s, pass, slice, schedule)
    ensures Run(E, s, mem, pass, slice, AllAt(s.lanes, First(pass, slice)), schedule) ==
            Lanes(E, s, mem, pass, slice, s.lanes)
  {
    hide Reached, Lanes, Run, Runnable, Ends, AllAt, LanesDone;
    var from, to := AllAt(s.lanes, First(pass, slice)), AllAt(s.lanes, s.segment);
    StartReached(E, s, pass, slice, mem);
    RunReaches(E, s, pass, slice, mem, mem, from, schedule);
    LanesReached(E, s, pass, slice, mem, s.lanes);
    NextDone(s, pass, slice, s.lanes);
    ReachedUnique(E, s, pass, slice, mem, to, Run(E, s, mem, pass, slice, from, schedule), Lanes(E, s, mem, pass,
        slice, s.lanes));
  }

  /** One complete schedule for each slice of the run. */
  ghost predicate AllComplete(s: Shape, schedules: seq<seq<nat>>) {
    forall j: nat :: j < |schedules| ==> CompleteAt(s, schedules, j)
  }

  ghost predicate CompleteAt(s: Shape, schedules: seq<seq<nat>>, j: nat)
    requires j < |schedules|
  {
    Complete(s, j / SYNC_POINTS, j % SYNC_POINTS, schedules[j])
  }

  /** The first k slices, each run by a schedule of its own. */
  ghost function Scheduled<B(!new)>(E: Engine<B>, s: Shape, mem: seq<B>, schedules: seq<seq<nat>>, k: nat): (r: seq<B>)
    requires s.Valid() && Words(E) && |mem| == s.blocks && k <= |schedules| && AllComplete(s, schedules)
    ensures |r| == |mem|
    decreases k
  {
    if k == 0 then mem
    else
      assert CompleteAt(s, schedules, k - 1);
      ScheduledSlice(E, s, Scheduled(E, s, mem, schedules, k - 1), (k - 1) / SYNC_POINTS, (k - 1) % SYNC_POINTS,
          schedules[k - 1])
  }

  ghost function ScheduledSlice<B(!new)>(E: Engine<B>, s: Shape, mem: seq<B>, pass: nat, slice: nat,
      schedule: seq<nat>): (r: seq<B>)
    requires s.Valid() && Words(E) && slice < SYNC_POINTS && |mem| == s.blocks && Complete(s, pass, slice, schedule)
    ensures |r| == |mem|
  {
    Run(E, s, mem, pass, slice, AllAt(s.lanes, First(pass, slice)), schedule)
  }

  /** The whole run does not depend on how the lanes of any slice are scheduled. */
  lemma {:induction false} ScheduleIrrelevant<B(!new)>(E: Engine<B>, s: Shape, mem: seq<B>, schedules: seq<seq<nat>>,
      k: nat)
    requires s.Valid() && Words(E) && |mem| == s.blocks && k <= |schedules| && AllComplete(s, schedules)
    ensures Scheduled(E, s, mem, schedules, k) == Slices(E, s, mem, k)
    decreases k
  {
    hide Lanes, CompleteAt, Complete, Shape.Valid, ScheduledSlice;
    if k > 0 {
      ScheduleIrrelevant(E, s, mem, schedules, k - 1);
      SliceScheduled(E, s, Slices(E, s, mem, k - 1), schedules, k - 1);
    }
  }

  lemma SliceScheduled<B(!new)>(E: Engine<B>, s: Shape, mem: seq<B>, schedules: seq<seq<nat>>, j: nat)
    requires s.Valid() && Words(E) && |mem| == s.blocks && j < |schedules| && CompleteAt(s, schedules, j)
    ensures ScheduledSlice(E, s, mem, j / SYNC_POINTS, j % SYNC_POINTS, schedules[j]) ==
            Lanes(E, s, mem, j / SYNC_POINTS, j % SYNC_POINTS, s.lanes)
  {
    hide Lanes, Complete, Run;
    AnyInterleaving(E, s, j / SYNC_POINTS, j % SYNC_POINTS, mem, schedules[j]);
  }
}
