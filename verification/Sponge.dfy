/** The Keccak sponge: the incremental buffer of the ML-KEM module, and the one-shot form of the hash
    module, against one specification of what a sponge absorbs and squeezes. */
module Sponge {
  import opened ModArith
  import opened Keccak
  import opened Buffers

  // ---- specification -------------------------------------------------------------------------------------

  predicate IsRate(rate: nat) { 1 <= rate <= 200 }

  /** Byte j goes to bits 8 j to 8 j + 7 of its lane. */
  function Placed(b: bv8, j: nat): Lane
    requires j < 8
  {
    (b as Lane) << (8 * j)
  }

  function Merged(v: Lane, w: Lane): Lane { v | w }

  /** The lane made of the first n of eight bytes. */
  function LaneUpTo(bytes: seq<bv8>, n: nat): Lane
    requires n <= 8 == |bytes|
  {
    if n == 0 then 0 else Merged(LaneUpTo(bytes, n - 1), Placed(bytes[n - 1], n - 1))
  }

  function LaneAt(block: seq<bv8>, l: nat): Lane
    requires 8 * l + 8 <= |block|
  {
    LaneUpTo(block[8 * l..8 * l + 8], 8)
  }

  /** The first n lanes of the block are added into the state. */
  function Mixed(s: State, block: seq<bv8>, n: nat): State
    requires n <= 25 && 8 * n <= |block|
  {
    seq(25, l requires 0 <= l < 25 => if l < n then Xor(s[l], LaneAt(block, l)) else s[l])
  }

  function AbsorbBlock(s: State, block: seq<bv8>): State
    requires |block| <= 200
  {
    KeccakF(Mixed(s, block, |block| / 8))
  }

  function Zero(): State { seq(25, i => 0) }

  /** The state after whole blocks. */
  function Whole(rate: nat, msg: seq<bv8>): State
    requires IsRate(rate)
    decreases |msg|
  {
    if |msg| < rate then Zero()
    else AbsorbBlock(Whole(rate, msg[..|msg| - rate]), msg[|msg| - rate..])
  }

  function TopBit(b: bv8): bv8 { b | 0x80 }

  /** The last block: the rest of the message, the domain byte, zeros, and the final bit. */
  function LastBlock(rate: nat, pad: bv8, rest: seq<bv8>): (b: seq<bv8>)
    requires IsRate(rate) && |rest| < rate
    ensures |b| == rate
  {
    var b := rest + [pad] + seq(rate - |rest| - 1, i => 0);
    b[rate - 1 := TopBit(b[rate - 1])]
  }

  function Finished(rate: nat, pad: bv8, msg: seq<bv8>): State
    requires IsRate(rate)
  {
    AbsorbBlock(Whole(rate, Body(rate, msg)), LastBlock(rate, pad, Rest(rate, msg)))
  }

  /** The state after n more permutations. */
  function Turned(s: State, n: nat): State {
    if n == 0 then s else KeccakF(Turned(s, n - 1))
  }

  function ByteAt(s: State, k: nat): bv8
    requires k < 200
  {
    ((s[k / 8] >> (8 * (k % 8))) & 0xff) as bv8
  }

  /** Byte p of the endless output stream. */
  function StreamByte(rate: nat, s: State, p: nat): bv8
    requires IsRate(rate)
  {
    ModRange(p, rate);
    ByteAt(Turned(s, p / rate), p % rate)
  }

  function Stream(rate: nat, s: State, from: nat, n: nat): (out: seq<bv8>)
    requires IsRate(rate)
    ensures |out| == n
  {
    seq(n, i requires 0 <= i < n => StreamByte(rate, s, from + i))
  }

  /** The sponge as a function of the message and the length asked for. */
  function Hash(rate: nat, pad: bv8, msg: seq<bv8>, n: nat): (out: seq<bv8>)
    requires IsRate(rate)
    ensures |out| == n
  {
    Stream(rate, Finished(rate, pad, msg), 0, n)
  }

  // ---- lemmas --------------------------------------------------------------------------------------------

  /** One more block. */
  lemma WholeStep(rate: nat, msg: seq<bv8>, chunk: seq<bv8>, q: nat)
    requires IsRate(rate) && |Rest(rate, msg)| + |chunk| == rate && |msg| == rate * q + |Rest(rate, msg)|
    ensures Whole(rate, msg + chunk) == AbsorbBlock(Whole(rate, Body(rate, msg)), Rest(rate, msg) + chunk)
  {
    hide AbsorbBlock, Body, Rest;
    Completed(rate, msg, chunk, q);
  }

  // ---- lanes -----------------------------------------------------------------------------------------------

  /** The lane loop of both modules: eight bytes, lowest first. */
  method LoadLane(block: array<bv8>, l: nat) returns (v: Lane)
    requires 8 * l + 8 <= block.Length
    ensures v == LaneAt(block[..], l)
  {
    hide Merged, Placed;
    v := 0;
    ghost var bytes := block[..][8 * l..8 * l + 8];
    var b := 0;
    while b < 8
      invariant 0 <= b <= 8 && v == LaneUpTo(bytes, b)
    {
      v := Merged(v, Placed(block[l * 8 + b], b));
      b := b + 1;
    }
  }

  /** Adds the lanes of the first rate bytes of the block into the state. */
  method MixIn(st: array<Lane>, block: array<bv8>, rate: nat)
    requires st.Length == 25 && IsRate(rate) && rate <= block.Length
    modifies st
    ensures st[..] == Mixed(old(st[..]), block[..rate], rate / 8)
  {
    hide LaneAt, Xor;
    ghost var s: State := st[..];
    var l := 0;
    while l < rate / 8
      invariant 0 <= l <= rate / 8
      invariant forall p :: 0 <= p < 25 ==> st[p] == if p < l then Xor(s[p], LaneAt(block[..rate], p)) else s[p]
    {
      SameLane(block[..], block[..rate], l);
      var v := LoadLane(block, l);
      st[l] := Xor(st[l], v);
      l := l + 1;
    }
  }

  lemma SameLane(block: seq<bv8>, part: seq<bv8>, l: nat)
    requires part <= block && 8 * l + 8 <= |part|
    ensures LaneAt(block, l) == LaneAt(part, l)
  {
    assert block[8 * l..8 * l + 8] == part[8 * l..8 * l + 8];
  }

  lemma SliceSnoc<T>(data: seq<T>, i: nat, j: nat)
    requires i <= j < |data|
    ensures data[i..j + 1] == data[i..j] + [data[j]]
  {
  }

  lemma NoBlocks(rate: nat)
    requires IsRate(rate)
    ensures Whole(rate, []) == Zero()
  {
  }

  lemma AllZero(st: array<Lane>)
    requires st.Length == 25 && forall p :: 0 <= p < 25 ==> st[p] == 0
    ensures st[..] == Zero()
  {
  }

  // ---- the incremental sponge ------------------------------------------------------------------------------

  class Hasher {
    const st: array<Lane>
    const block: array<bv8>
    const rate: nat
    var pos: nat
    var squeezing: bool
    /** Everything absorbed so far, the domain byte, and how many bytes were squeezed in how many blocks. */
    ghost var absorbed: seq<bv8>
    ghost var blocks: nat
    ghost var pad: bv8
    ghost var drawn: nat
    ghost var turns: nat

    ghost predicate Shape()
      reads this
    {
      st.Length == 25 && block.Length == 200 && IsRate(rate)
    }

    ghost predicate Absorbing()
      reads this, st, block
    {
      && Shape() && !squeezing
      && pos == |Rest(rate, absorbed)| && |absorbed| == rate * blocks + pos
      && st[..] == Whole(rate, Body(rate, absorbed))
      && block[..pos] == Rest(rate, absorbed)
    }

    ghost predicate Squeezing()
      reads this, st, block
    {
      && Shape() && squeezing
      && pos <= rate && drawn == rate * turns + pos && (pos == 0 ==> turns == 0)
      && st[..] == Turned(Finished(rate, pad, absorbed), turns)
    }

    constructor (rate: nat)
      requires IsRate(rate)
      ensures Absorbing() && absorbed == [] && this.rate == rate && fresh(st) && fresh(block)
    {
      hide AbsorbBlock, Body, Rest, Whole, Zero;
      st := new Lane[25](_ => 0);
      block := new bv8[200](_ => 0);
      this.rate, pos, squeezing, absorbed, blocks := rate, 0, false, [], 0;
      new;
      NothingYet(rate, absorbed);
      NoBlocks(rate);
      AllZero(st);
    }

    /** Permutes the state with the block added, and empties the block. */
    method PermuteBlock()
      requires Shape()
      modifies this`pos, st, block
      ensures Shape() && pos == 0
      ensures st[..] == AbsorbBlock(old(st[..]), old(block[..rate]))
    {
      hide KeccakF, Mixed;
      MixIn(st, block, rate);
      KemKeccakF(st);
      var b := 0;
      while b < rate
        invariant 0 <= b <= rate && st[..] == AbsorbBlock(old(st[..]), old(block[..rate]))
      {
        block[b] := 0;
        b := b + 1;
      }
      pos := 0;
    }

    /** Copies a piece of input behind what is buffered. */
    method Fill(data: seq<bv8>, i: nat, take: nat)
      requires Shape() && pos + take <= rate && i + take <= |data|
      modifies this`pos, block
      ensures Shape() && pos == old(pos) + take
      ensures block[..pos] == old(block[..pos]) + data[i..i + take]
    {
      ghost var was := block[..pos];
      var k := 0;
      while k < take
        invariant 0 <= k <= take && pos == old(pos)
        invariant block[..pos + k] == was + data[i..i + k]
      {
        block[pos + k] := data[i + k];
        SliceSnoc(data, i, i + k);
        k := k + 1;
      }
      pos := pos + take;
    }

    method Absorb(data: seq<bv8>)
      requires Absorbing()
      modifies this`pos, this`absorbed, this`blocks, st, block
      ensures Absorbing() && absorbed == old(absorbed) + data
    {
      hide Absorbing;
      var i := 0;
      assert data[..0] == [];
      while i < |data|
        invariant 0 <= i <= |data| && Absorbing() && absorbed == old(absorbed) + data[..i]
      {
        var n := Step(data[i..]);
        assert data[..i + n] == data[..i] + data[i..][..n];
        i := i + n;
      }
      assert data[..i] == data;
    }

    /** One round of the loop: as much as the block holds, and a permutation when it is full. */
    method Step(data: seq<bv8>) returns (take: nat)
      requires Absorbing() && data != []
      modifies this`pos, this`absorbed, this`blocks, st, block
      ensures Absorbing() && 0 < take <= |data| && absorbed == old(absorbed) + data[..take]
    {
      hide AbsorbBlock, Body, Rest, Whole;
      var space := rate - pos;
      take := if space <= |data| then space else |data|;
      ghost var msg, chunk := absorbed, data[..take];
      Fill(data, 0, take);
      absorbed := msg + chunk;
      if pos == rate {
        WholeStep(rate, msg, chunk, blocks);
        Completed(rate, msg, chunk, blocks);
        PermuteBlock();
        blocks := blocks + 1;
      } else {
        Buffered(rate, msg, chunk, blocks);
      }
    }

    method Pad(padByte: bv8)
      requires Absorbing()
      modifies this, st, block
      ensures Squeezing() && absorbed == old(absorbed) && pad == padByte && drawn == 0
    {
      hide AbsorbBlock, Body, Rest, Whole, LastBlock;
      FinishBlock(padByte, Rest(rate, absorbed));
      PermuteBlock();
      squeezing, pad, drawn, turns := true, padByte, 0, 0;
    }

    /** The domain byte, zeros up to the rate, and the final bit. */
    method FinishBlock(padByte: bv8, ghost rest: seq<bv8>)
      requires Shape() && pos == |rest| < rate && block[..pos] == rest
      modifies this`pos, block
      ensures block[..rate] == LastBlock(rate, padByte, rest)
    {
      hide TopBit;
      block[pos] := padByte;
      pos := pos + 1;
      var b := pos;
      while b < rate
        invariant pos <= b <= rate && pos == |rest| + 1 && block[..pos] == rest + [padByte]
        invariant forall t :: pos <= t < b ==> block[t] == 0
      {
        block[b] := 0;
        b := b + 1;
      }
      assert block[..rate] == rest + [padByte] + seq(rate - |rest| - 1, i => 0);
      block[rate - 1] := TopBit(block[rate - 1]);
    }

    method Squeeze(out: array<bv8>)
      requires Squeezing() && out != block
      modifies this`pos, this`drawn, this`turns, st, out
      ensures Squeezing() && drawn == old(drawn) + out.Length
      ensures out[..] == Stream(rate, Finished(rate, pad, absorbed), old(drawn), out.Length)
    {
      hide Finished, KeccakF, StreamByte;
      ghost var s, start := Finished(rate, pad, absorbed), drawn;
      var i := 0;
      while i < out.Length
        invariant 0 <= i <= out.Length && Squeezing() && drawn == start + i
        invariant forall t :: 0 <= t < i ==> out[t] == StreamByte(rate, s, start + t)
      {
        if pos == rate {
          NextCount(rate, turns);
          KemKeccakF(st);
          turns := turns + 1;
          pos := 0;
        }
        var space := rate - pos;
        var take := if space <= out.Length - i then space else out.Length - i;
        Draw(out, i, take, s, start);
        i := i + take;
      }
    }

    /** Copies the next bytes of the state out. */
    method Draw(out: array<bv8>, i: nat, take: nat, ghost s: State, ghost start: nat)
      requires Shape() && pos + take <= rate && i + take <= out.Length && out != block
      requires drawn == start + i == rate * turns + pos && st[..] == Turned(s, turns)
      requires forall t :: 0 <= t < i ==> out[t] == StreamByte(rate, s, start + t)
      modifies this`pos, this`drawn, out
      ensures pos == old(pos) + take && drawn == start + i + take
      ensures forall t :: 0 <= t < i + take ==> out[t] == StreamByte(rate, s, start + t)
    {
      hide StreamByte, Turned, ByteAt;
      var k := 0;
      while k < take
        invariant 0 <= k <= take && pos == old(pos) + k && drawn == start + i + k
        invariant forall t :: 0 <= t < i + k ==> out[t] == StreamByte(rate, s, start + t)
      {
        Position(rate, s, turns, pos);
        out[i + k] := ByteAt(st[..], pos);
        drawn := drawn + 1;
        pos := pos + 1;
        k := k + 1;
      }
    }
  }

  lemma Position(rate: nat, s: State, turns: nat, pos: nat)
    requires IsRate(rate) && pos < rate
    ensures StreamByte(rate, s, rate * turns + pos) == ByteAt(Turned(s, turns), pos)
  {
    hide ByteAt, Turned;
    DivModUnique(rate * turns + pos, rate, turns, pos);
  }

  // ---- uses of the incremental sponge ------------------------------------------------------------------------

  /** The fixed-output hashes of the ML-KEM module. */
  method KeccakHash(rate: nat, pad: bv8, data: seq<bv8>, out: array<bv8>)
    requires IsRate(rate)
    modifies out
    ensures out[..] == Hash(rate, pad, data, out.Length)
  {
    hide Finished, Stream;
    var k := new Hasher(rate);
    k.Absorb(data);
    assert [] + data == data;
    k.Pad(pad);
    k.Squeeze(out);
  }

  function Total(cuts: seq<nat>): nat {
    if cuts == [] then 0 else Total(cuts[..|cuts| - 1]) + cuts[|cuts| - 1]
  }

  /** Any sequence of absorb calls, then any sequence of squeeze calls: only the concatenation matters. */
  method HashPieces(rate: nat, pad: bv8, parts: seq<seq<bv8>>, cuts: seq<nat>) returns (outs: seq<seq<bv8>>)
    requires IsRate(rate)
    ensures |outs| == |cuts| && forall i :: 0 <= i < |cuts| ==> |outs[i]| == cuts[i]
    ensures Flatten(outs) == Hash(rate, pad, Flatten(parts), Total(cuts))
  {
    hide Finished, Stream, Body, Rest, Whole, Turned, Flatten;
    var k := AbsorbPieces(rate, parts);
    k.Pad(pad);
    outs := SqueezePieces(k, cuts);
  }

  method AbsorbPieces(rate: nat, parts: seq<seq<bv8>>) returns (k: Hasher)
    requires IsRate(rate)
    ensures fresh(k) && fresh(k.st) && fresh(k.block)
    ensures k.Absorbing() && k.rate == rate && k.absorbed == Flatten(parts)
  {
    hide Body, Rest, Whole;
    k := new Hasher(rate);
    var i := 0;
    while i < |parts|
      invariant 0 <= i <= |parts| && fresh(k) && fresh(k.st) && fresh(k.block)
      invariant k.Absorbing() && k.rate == rate && k.absorbed == Flatten(parts[..i])
    {
      k.Absorb(parts[i]);
      assert parts[..i + 1][..i] == parts[..i];
      i := i + 1;
    }
    assert parts[..i] == parts;
  }

  method SqueezePieces(k: Hasher, cuts: seq<nat>) returns (outs: seq<seq<bv8>>)
    requires k.Squeezing() && k.drawn == 0
    modifies k, k.st
    ensures |outs| == |cuts| && forall i :: 0 <= i < |cuts| ==> |outs[i]| == cuts[i]
    ensures Flatten(outs) == Stream(k.rate, Finished(k.rate, old(k.pad), old(k.absorbed)), 0, Total(cuts))
  {
    hide Finished, Stream, Turned, Flatten;
    ghost var s := Finished(k.rate, k.pad, k.absorbed);
    outs := [];
    NothingDrawn(k.rate, s);
    var i := 0;
    while i < |cuts|
      invariant 0 <= i <= |cuts| && k.Squeezing() && k.pad == old(k.pad) && k.absorbed == old(k.absorbed)
      invariant k.drawn == Total(cuts[..i])
      invariant |outs| == i && forall t :: 0 <= t < i ==> |outs[t]| == cuts[t]
      invariant Flatten(outs) == Stream(k.rate, s, 0, Total(cuts[..i]))
    {
      var out := new bv8[cuts[i]](_ => 0);
      k.Squeeze(out);
      StreamConcat(k.rate, s, Total(cuts[..i]), cuts[i]);
      assert cuts[..i + 1][..i] == cuts[..i];
      FlattenSnoc(outs, out[..]);
      outs := outs + [out[..]];
      i := i + 1;
    }
    assert cuts[..i] == cuts;
  }

  lemma NothingDrawn(rate: nat, s: State)
    requires IsRate(rate)
    ensures Stream(rate, s, 0, 0) == [] == Flatten<bv8>([])
  {
  }

  /** The output stream can be cut anywhere. */
  lemma StreamConcat(rate: nat, s: State, m: nat, n: nat)
    requires IsRate(rate)
    ensures Stream(rate, s, 0, m) + Stream(rate, s, m, n) == Stream(rate, s, 0, m + n)
  {
    hide StreamByte;
  }

  lemma StreamSnoc(rate: nat, s: State, turns: nat, pos: nat)
    requires IsRate(rate) && pos < rate
    ensures var n := rate * turns + pos;
            Stream(rate, s, 0, n) + [ByteAt(Turned(s, turns), pos)] == Stream(rate, s, 0, n + 1)
  {
    hide StreamByte, ByteAt, Turned;
    Position(rate, s, turns, pos);
  }

  // ---- the one-shot sponge -------------------------------------------------------------------------------------

  /** A fresh block for the next piece of the message, padded when the message ends in it. */
  method NextBlock(msg: seq<bv8>, i: nat, rate: nat, domain: bv8) returns (block: array<bv8>, take: nat)
    requires IsRate(rate) && i <= |msg|
    ensures fresh(block) && block.Length == rate
    ensures take == if rate <= |msg| - i then rate else |msg| - i
    ensures block[..] == if take == rate then msg[i..i + rate] else LastBlock(rate, domain, msg[i..])
  {
    hide TopBit;
    block := new bv8[rate](_ => 0);
    take := if rate <= |msg| - i then rate else |msg| - i;
    var k := 0;
    while k < take
      invariant 0 <= k <= take
      invariant forall t :: 0 <= t < rate ==> block[t] == if t < k then msg[i + t] else 0
    {
      block[k] := msg[i + k];
      k := k + 1;
    }
    if take < rate {
      block[take] := domain;
      assert block[..] == msg[i..] + [domain] + seq(rate - take - 1, j => 0);
      block[rate - 1] := TopBit(block[rate - 1]);
    }
  }

  method Sha3Sponge(msg: seq<bv8>, rate: nat, domain: bv8, outLen: nat) returns (out: seq<bv8>)
    requires IsRate(rate)
    ensures out == Hash(rate, domain, msg, outLen)
  {
    hide Finished, Stream, KeccakF, ByteAt;
    var state := AbsorbMessage(msg, rate, domain);
    ghost var s := Finished(rate, domain, msg);
    ghost var turns := 0;
    out := [];
    NothingDrawn(rate, s);
    while |out| < outLen
      invariant fresh(state) && state.Length == 25
      invariant |out| <= outLen && out == Stream(rate, s, 0, |out|)
      invariant |out| < outLen ==> |out| == rate * turns && state[..] == Turned(s, turns)
      decreases outLen - |out|
    {
      var want := if rate <= outLen - |out| then rate else outLen - |out|;
      out := SqueezeBlock(state[..], rate, want, out, s, turns);
      if |out| < outLen {
        HashKeccakF(state);
        NextCount(rate, turns);
        turns := turns + 1;
      }
    }
  }

  method SqueezeBlock(state: seq<Lane>, rate: nat, want: nat, before: seq<bv8>, ghost s: State,
      ghost turns: nat) returns (out: seq<bv8>)
    requires IsRate(rate) && want <= rate && |state| == 25 && state == Turned(s, turns)
    requires |before| == rate * turns && before == Stream(rate, s, 0, |before|)
    ensures |out| == |before| + want && out == Stream(rate, s, 0, |out|)
  {
    hide Stream, ByteAt, Turned;
    out := before;
    var j := 0;
    while j < want
      invariant 0 <= j <= want && |out| == rate * turns + j && out == Stream(rate, s, 0, |out|)
    {
      StreamSnoc(rate, s, turns, j);
      out := out + [ByteAt(state, j)];
      j := j + 1;
    }
  }

  /** The absorbing loop of the one-shot sponge. */
  method AbsorbMessage(msg: seq<bv8>, rate: nat, domain: bv8) returns (state: array<Lane>)
    requires IsRate(rate)
    ensures fresh(state) && state.Length == 25 && state[..] == Finished(rate, domain, msg)
  {
    hide Mixed, KeccakF, Body, Rest, LastBlock, Zero;
    state := new Lane[25](_ => 0);
    AllZero(state);
    var i, last := 0, false;
    ghost var q := 0;
    assert msg[..0] == [];
    while !last
      invariant fresh(state) && state.Length == 25 && i <= |msg|
      invariant !last ==> i == rate * q && state[..] == Whole(rate, msg[..i])
      invariant last ==> state[..] == Finished(rate, domain, msg)
      decreases !last, |msg| - i
    {
      var block, take := NextBlock(msg, i, rate, domain);
      MixIn(state, block, rate);
      HashKeccakF(state);
      assert block[..rate] == block[..];
      if take < rate {
        Split(rate, msg, q, take);
        last := true;
      } else {
        assert msg[..i + rate][..i] == msg[..i] && msg[..i + rate][i..] == msg[i..i + rate];
        NextCount(rate, q);
        q := q + 1;
      }
      i := i + take;
    }
  }
}
