/** The padding of the sponge (pad10*1 of section 5.1 of FIPS 202, after the domain bits): what it writes, and that no
    two messages are padded to the same blocks. */
module SpongePadding {
  import opened Buffers
  import opened Sponge

  /** Byte by byte: the rest of the message, the domain bits with the first padding bit, zeros, and the last bit on
      top of the last byte. */
  lemma PaddingExact(rate: nat, pad: bv8, rest: seq<bv8>, k: nat)
    requires IsRate(rate) && |rest| < rate && k < rate
    ensures var b := if k < |rest| then rest[k] else if k == |rest| then pad else 0;
            LastBlock(rate, pad, rest)[k] == if k == rate - 1 then b | 0x80 else b
  {
  }

  lemma DomainVisible(pad: bv8)
    requires 0 < pad < 0x80
    ensures TopBit(pad) != TopBit(0)
  {
  }

  lemma LongerDiffers(rate: nat, pad: bv8, rest: seq<bv8>, other: seq<bv8>)
    requires IsRate(rate) && |rest| < |other| < rate && 0 < pad < 0x80
    ensures LastBlock(rate, pad, rest) != LastBlock(rate, pad, other)
  {
    DomainVisible(pad);
    hide TopBit;
    assert LastBlock(rate, pad, rest)[|other|] != LastBlock(rate, pad, other)[|other|];
  }

  lemma LastBlockUnique(rate: nat, pad: bv8, rest: seq<bv8>, other: seq<bv8>)
    requires IsRate(rate) && |rest| <= |other| < rate && 0 < pad < 0x80
    requires LastBlock(rate, pad, rest) == LastBlock(rate, pad, other)
    ensures rest == other
  {
    if |rest| < |other| {
      LongerDiffers(rate, pad, rest, other);
    } else {
      hide TopBit;
      var b, c := LastBlock(rate, pad, rest), LastBlock(rate, pad, other);
      forall k | 0 <= k < |rest| ensures rest[k] == other[k] {
        assert b[k] == rest[k] && c[k] == other[k];
      }
    }
  }

  /** The blocks that a message is absorbed as. */
  function Padded(rate: nat, pad: bv8, msg: seq<bv8>): seq<bv8>
    requires IsRate(rate)
  {
    Body(rate, msg) + LastBlock(rate, pad, Rest(rate, msg))
  }

  /** The state before squeezing is that after the padded blocks. */
  lemma FinishedIsPadded(rate: nat, pad: bv8, msg: seq<bv8>)
    requires IsRate(rate)
    ensures Finished(rate, pad, msg) == Whole(rate, Padded(rate, pad, msg))
  {
    hide AbsorbBlock, LastBlock;
    var p := Padded(rate, pad, msg);
    assert p[..|p| - rate] == Body(rate, msg) && p[|p| - rate..] == LastBlock(rate, pad, Rest(rate, msg));
  }

  /** Different messages are absorbed as different blocks, for the domain bytes in use (0x06 and 0x1f) and all others
      below 0x80. */
  lemma PaddingUnique(rate: nat, pad: bv8, msg: seq<bv8>, other: seq<bv8>)
    requires IsRate(rate) && 0 < pad < 0x80 && Padded(rate, pad, msg) == Padded(rate, pad, other)
    ensures msg == other
  {
    hide LastBlock;
    Divides(rate, msg);
    Divides(rate, other);
    var p, q := Padded(rate, pad, msg), Padded(rate, pad, other);
    var n := |p| - rate;
    assert p[..n] == Body(rate, msg) && q[..n] == Body(rate, other);
    assert p[n..] == LastBlock(rate, pad, Rest(rate, msg)) && q[n..] == LastBlock(rate, pad, Rest(rate, other));
    if |Rest(rate, msg)| <= |Rest(rate, other)| {
      LastBlockUnique(rate, pad, Rest(rate, msg), Rest(rate, other));
    } else {
      LastBlockUnique(rate, pad, Rest(rate, other), Rest(rate, msg));
    }
  }

  lemma Divides<T>(size: nat, msg: seq<T>)
    requires size > 0
    ensures Body(size, msg) + Rest(size, msg) == msg
  {
    ModRange(|msg|, size);
    Halves(msg, |msg| - |msg| % size);
  }

  lemma Halves<T>(s: seq<T>, n: nat)
    requires n <= |s|
    ensures s[..n] + s[n..] == s
  {
  }
}
