/** Input that arrives in pieces and is consumed in blocks: the whole blocks, and what waits in the buffer. */
module Buffers {
  import opened ModArith

  lemma ModRange(n: nat, size: nat)
    requires size > 0
    ensures 0 <= n % size <= n && n % size < size
  {
  }

  /** The whole blocks of a message. */
  function Body<T>(size: nat, msg: seq<T>): seq<T>
    requires size > 0
  {
    ModRange(|msg|, size);
    msg[..|msg| - |msg| % size]
  }

  /** What is left over. */
  function Rest<T>(size: nat, msg: seq<T>): (r: seq<T>)
    requires size > 0
    ensures |r| < size
  {
    ModRange(|msg|, size);
    msg[|msg| - |msg| % size..]
  }

  /** The split of a message of q whole blocks and r more elements. */
  lemma Split<T>(size: nat, msg: seq<T>, q: nat, r: nat)
    requires size > 0 && |msg| == size * q + r && r < size
    ensures |Rest(size, msg)| == r && Body(size, msg) == msg[..|msg| - r] && Rest(size, msg) == msg[|msg| - r..]
  {
    DivModUnique(|msg|, size, q, r);
  }

  /** Part of a block only fills the buffer. */
  lemma Buffered<T>(size: nat, msg: seq<T>, chunk: seq<T>, q: nat)
    requires size > 0 && |Rest(size, msg)| + |chunk| < size && |msg| == size * q + |Rest(size, msg)|
    ensures Body(size, msg + chunk) == Body(size, msg) && Rest(size, msg + chunk) == Rest(size, msg) + chunk
  {
    hide Body, Rest;
    var r := |Rest(size, msg)|;
    Split(size, msg, q, r);
    Split(size, msg + chunk, q, r + |chunk|);
    assert (msg + chunk)[..|msg| - r] == msg[..|msg| - r];
  }

  /** The rest of a block completes it. */
  lemma Completed<T>(size: nat, msg: seq<T>, chunk: seq<T>, q: nat)
    requires size > 0 && |Rest(size, msg)| + |chunk| == size && |msg| == size * q + |Rest(size, msg)|
    ensures |msg + chunk| == size * (q + 1)
    ensures Body(size, msg + chunk) == msg + chunk && Rest(size, msg + chunk) == []
    ensures |msg + chunk| >= size && (msg + chunk)[..|msg + chunk| - size] == Body(size, msg)
    ensures (msg + chunk)[|msg + chunk| - size..] == Rest(size, msg) + chunk
  {
    hide Body, Rest;
    var m, r := msg + chunk, |Rest(size, msg)|;
    MulDistributes(size, q, 1);
    Split(size, msg, q, r);
    Split(size, m, q + 1, 0);
    assert m[..|m| - size] == msg[..|msg| - r] && m[|m| - size..] == msg[|msg| - r..] + chunk;
  }

  lemma NextCount(size: nat, q: nat)
    ensures size * q + size == size * (q + 1) + 0
  {
    MulDistributes(size, q, 1);
  }

  lemma NothingYet<T>(size: nat, none: seq<T>)
    requires size > 0 && none == []
    ensures Body(size, none) == [] && Rest(size, none) == []
  {
    Split(size, none, 0, 0);
  }

  function Flatten<T>(parts: seq<seq<T>>): seq<T> {
    if parts == [] then [] else Flatten(parts[..|parts| - 1]) + parts[|parts| - 1]
  }

  lemma FlattenSnoc<T>(parts: seq<seq<T>>, x: seq<T>)
    ensures Flatten(parts + [x]) == Flatten(parts) + x
  {
    assert (parts + [x])[..|parts|] == parts;
  }
}
