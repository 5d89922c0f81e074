/** The streaming BLAKE2b of the Argon2 module, over any compression function f(h, block, t, last). */
module Blake2b {
  import opened ModArith
  import opened Buffers

  const BLOCK := 128

  /** The counter is a u64 and wraps. */
  function Counter(n: nat): nat { n % 0x1_0000_0000_0000_0000 }

  lemma CounterAdd(n: nat, k: nat)
    ensures Counter(Counter(n) + k) == Counter(n + k)
  {
    ModAdd(n, k, 0x1_0000_0000_0000_0000);
    ModAdd(n % 0x1_0000_0000_0000_0000, k, 0x1_0000_0000_0000_0000);
  }

  type Compress<!H> = (H, seq<bv8>, nat, bool) -> H

  /** The chaining value after whole blocks. */
  function Chain<H>(f: Compress<H>, iv: H, msg: seq<bv8>): H
    decreases |msg|
  {
    if |msg| < BLOCK then iv
    else f(Chain(f, iv, msg[..|msg| - BLOCK]), msg[|msg| - BLOCK..], Counter(|msg|), false)
  }

  function Filled(rest: seq<bv8>): (b: seq<bv8>)
    requires |rest| <= BLOCK
    ensures |b| == BLOCK
  {
    rest + seq(BLOCK - |rest|, i => 0)
  }

  /** What the module computes: every full block is compressed at once, and the last call gets what is left. */
  function Digest<H>(f: Compress<H>, iv: H, msg: seq<bv8>): H {
    f(Chain(f, iv, Body(BLOCK, msg)), Filled(Rest(BLOCK, msg)), Counter(|msg|), true)
  }

  lemma NoBlocks<H>(f: Compress<H>, iv: H)
    ensures Chain(f, iv, []) == iv && Counter(0) == 0
  {
  }

  /** The chain ends in the compression of the last block, with the number of bytes so far. */
  lemma LastLink<H>(f: Compress<H>, iv: H, m: seq<bv8>)
    requires |m| >= BLOCK
    ensures Chain(f, iv, m) == f(Chain(f, iv, m[..|m| - BLOCK]), m[|m| - BLOCK..], Counter(|m|), false)
  {
  }

  class Hasher<!H> {
    const f: Compress<H>
    ghost const iv: H
    const buf: array<bv8>
    var h: H
    var t: nat
    var buflen: nat
    ghost var fed: seq<bv8>
    ghost var blocks: nat

    ghost predicate Valid()
      reads this, buf
    {
      && buf.Length == BLOCK && buflen == |Rest(BLOCK, fed)| && |fed| == BLOCK * blocks + buflen
      && t == Counter(BLOCK * blocks)
      && h == Chain(f, iv, Body(BLOCK, fed))
      && buf[..buflen] == Rest(BLOCK, fed)
    }

    constructor (f: Compress<H>, iv: H)
      ensures Valid() && fed == [] && this.f == f && this.iv == iv && fresh(buf)
    {
      hide Body, Rest, Chain;
      buf := new bv8[BLOCK](_ => 0);
      this.f, this.iv, h, t, buflen, fed, blocks := f, iv, iv, 0, 0, [], 0;
      new;
      NothingYet(BLOCK, fed);
      NoBlocks(f, iv);
    }

    method Update(data: seq<bv8>)
      requires Valid()
      modifies this, buf
      ensures Valid() && fed == old(fed) + data
    {
      hide Valid;
      var i := 0;
      assert data[..0] == [];
      while i < |data|
        invariant 0 <= i <= |data| && Valid() && fed == old(fed) + data[..i]
      {
        var n := Step(data[i..]);
        assert data[..i + n] == data[..i] + data[i..][..n];
        i := i + n;
      }
      assert data[..i] == data;
    }

    /** One round of the loop: a whole block straight from the input, or as much as the buffer holds. */
    method Step(data: seq<bv8>) returns (n: nat)
      requires Valid() && data != []
      modifies this, buf
      ensures Valid() && 0 < n <= |data| && fed == old(fed) + data[..n]
    {
      hide Body, Rest, Chain, Counter;
      if buflen == 0 && |data| >= BLOCK {
        n := BLOCK;
        assert Rest(BLOCK, fed) + data[..n] == data[..n];
        NextBlock(data[..n], data[..n]);
      } else {
        n := if BLOCK - buflen <= |data| then BLOCK - buflen else |data|;
        Fill(data, 0, n);
        if buflen == BLOCK {
          assert buf[..BLOCK] == buf[..];
          NextBlock(buf[..], data[..n]);
        } else {
          Buffered(BLOCK, fed, data[..n], blocks);
          fed := fed + data[..n];
        }
      }
    }

    method Fill(data: seq<bv8>, i: nat, take: nat)
      requires buf.Length == BLOCK && buflen + take <= BLOCK && i + take <= |data|
      modifies this`buflen, buf
      ensures buflen == old(buflen) + take && buf[..buflen] == old(buf[..buflen]) + data[i..i + take]
    {
      ghost var was := buf[..buflen];
      var k := 0;
      while k < take
        invariant 0 <= k <= take && buflen == old(buflen)
        invariant buf[..buflen + k] == was + data[i..i + k]
      {
        buf[buflen + k] := data[i + k];
        assert data[i..i + k + 1] == data[i..i + k] + [data[i + k]];
        k := k + 1;
      }
      buflen := buflen + take;
    }

    /** Counts and compresses a block that the buffered bytes and the chunk make up. */
    method NextBlock(block: seq<bv8>, ghost chunk: seq<bv8>)
      requires buf.Length == BLOCK && |Rest(BLOCK, fed)| + |chunk| == BLOCK && block == Rest(BLOCK, fed) + chunk
      requires |fed| == BLOCK * blocks + |Rest(BLOCK, fed)| && t == Counter(BLOCK * blocks)
      requires h == Chain(f, iv, Body(BLOCK, fed))
      modifies this`t, this`h, this`buflen, this`fed, this`blocks
      ensures Valid() && fed == old(fed) + chunk
    {
      hide Body, Rest, Counter, Chain;
      Completed(BLOCK, fed, chunk, blocks);
      CounterAdd(BLOCK * blocks, BLOCK);
      NextCount(BLOCK, blocks);
      LastLink(f, iv, fed + chunk);
      t := Counter(t + BLOCK);
      h := f(h, block, t, false);
      buflen, fed, blocks := 0, fed + chunk, blocks + 1;
    }

    method Finalize() returns (d: H)
      requires Valid()
      ensures d == Digest(f, iv, fed)
    {
      hide Body, Rest, Chain, Counter;
      CounterAdd(BLOCK * blocks, buflen);
      var block := new bv8[BLOCK](_ => 0);
      var k := 0;
      while k < buflen
        invariant 0 <= k <= buflen
        invariant forall i :: 0 <= i < BLOCK ==> block[i] == if i < k then buf[i] else 0
      {
        block[k] := buf[k];
        k := k + 1;
      }
      assert block[..] == Filled(buf[..buflen]);
      d := f(h, block[..], Counter(t + buflen), true);
    }
  }

  /** Any sequence of update calls: only the concatenation matters. */
  method HashPieces<H>(f: Compress<H>, iv: H, parts: seq<seq<bv8>>) returns (d: H)
    ensures d == Digest(f, iv, Flatten(parts))
  {
    hide Digest, Body, Rest, Chain;
    var k := new Hasher(f, iv);
    var i := 0;
    while i < |parts|
      invariant 0 <= i <= |parts| && fresh(k) && fresh(k.buf)
      invariant k.Valid() && k.f == f && k.iv == iv && k.fed == Flatten(parts[..i])
    {
      k.Update(parts[i]);
      assert parts[..i + 1][..i] == parts[..i];
      i := i + 1;
    }
    assert parts[..i] == parts;
    d := k.Finalize();
  }

  // ---- against RFC 7693 ----------------------------------------------------------------------------------

  /** Section 3.3 of RFC 7693: the last call gets the last block of the message, even when it is full. */
  function RfcDigest<H>(f: Compress<H>, iv: H, msg: seq<bv8>): H {
    if |msg| > 0 && |msg| % BLOCK == 0 then
      f(Chain(f, iv, msg[..|msg| - BLOCK]), msg[|msg| - BLOCK..], Counter(|msg|), true)
    else
      f(Chain(f, iv, Body(BLOCK, msg)), Filled(Rest(BLOCK, msg)), Counter(|msg|), true)
  }

  datatype Call = Call(block: seq<bv8>, t: nat, last: bool)

  /** A compression function that remembers its calls. */
  function Record(h: seq<Call>, block: seq<bv8>, t: nat, last: bool): seq<Call> { h + [Call(block, t, last)] }

  ghost predicate AgreesAt<H>(f: Compress<H>, iv: H, msg: seq<bv8>) { Digest(f, iv, msg) == RfcDigest(f, iv, msg) }

  /** The module makes the calls of RFC 7693 exactly on messages that are empty or end in a partial block. */
  lemma RfcExact(msg: seq<bv8>)
    ensures AgreesAt(Record, [], msg) <==> (|msg| == 0 || |msg| % BLOCK != 0)
  {
    if |msg| > 0 && |msg| % BLOCK == 0 {
      assert Body(BLOCK, msg) == msg;
      assert |Digest(Record, [], msg)| == |RfcDigest(Record, [], msg)| + 1;
    }
  }

  /** On those messages the digests agree whatever the compression function. */
  lemma RfcAgrees<H>(f: Compress<H>, iv: H, msg: seq<bv8>)
    requires |msg| == 0 || |msg| % BLOCK != 0
    ensures AgreesAt(f, iv, msg)
  {
  }
}
