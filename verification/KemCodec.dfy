/** ByteEncode and ByteDecode of ML-KEM (section 4.2.1 of FIPS 203): a stream of d-bit fields through a bit
    accumulator. */
module KemCodec {
  import opened ModArith
  import opened MachineInts
  import opened Radix
  import opened BitOps
  import opened Groups
  import opened KemField

  predicate IsBit(b: int) { 0 <= b <= 1 }

  /** The d low bits of x, least significant first. */
  function Bits(d: nat, x: int): (b: seq<int>)
    ensures |b| == d && forall i :: 0 <= i < d ==> IsBit(b[i])
  {
    if d == 0 then [] else [x % 2] + Bits(d - 1, x / 2)
  }

  lemma {:induction false} BitsValue(d: nat, x: int)
    requires 0 <= x < Pow(2, d)
    ensures Val(2, Bits(d, x)) == x
    decreases d
  {
    if d > 0 {
      BitsValue(d - 1, x / 2);
      assert Bits(d, x)[1..] == Bits(d - 1, x / 2);
    }
  }

  function Stream(d: nat, f: seq<int>): seq<int> {
    if f == [] then [] else Bits(d, f[0]) + Stream(d, f[1..])
  }

  function OneByte(b: seq<int>): seq<byte> {
    if |b| == 8 then [Val(2, b) % 256] else []
  }

  function ByteBits(b: seq<byte>): seq<int> {
    if |b| == 1 then Bits(8, b[0]) else []
  }

  function Encode(d: nat, f: seq<int>): seq<byte> { Each(8, OneByte, Stream(d, f)) }

  /** `if d == 12 { red(x) } else { x % (1 << d) }` */
  function Field12(d: nat, x: int): int {
    PowPositive(2, d);
    if d == 12 then Red(x) else x % Pow(2, d)
  }

  function Chunks(d: nat, bits: seq<int>, n: nat): (f: seq<int>)
    requires |bits| == d * n
    ensures |f| == n
    decreases n
  {
    if n == 0 then [] else
      CutOne(d, n);
      [Field12(d, Val(2, bits[..d]))] + Chunks(d, bits[d..], n - 1)
  }

  function Decode(d: nat, b: seq<byte>): (f: seq<int>)
    requires |b| == 32 * d
    ensures |f| == 256
  {
    StreamOfBytes(b);
    Chunks(d, Each(1, ByteBits, b), 256)
  }

  lemma StreamOfBytes(b: seq<byte>)
    ensures |Each(1, ByteBits, b)| == 8 * |b| && All(IsBit, Each(1, ByteBits, b))
  {
    hide Bits;
    forall x: seq<byte> ensures LengthAt(1, 8, ByteBits, x) {}
    EachLength(1, 8, ByteBits, b, |b|);
    ByteBitsAreBits(b);
  }

  lemma {:induction false} ByteBitsAreBits(b: seq<byte>)
    ensures All(IsBit, Each(1, ByteBits, b))
    decreases |b|
  {
    if b != [] {
      ByteBitsAreBits(b[1..]);
      assert Each(1, ByteBits, b) == Bits(8, b[0]) + Each(1, ByteBits, b[1..]);
    }
  }

  // ---- round trip --------------------------------------------------------------------------------------------------

  lemma {:induction false} StreamShape(d: nat, f: seq<int>)
    ensures |Stream(d, f)| == d * |f| && All(IsBit, Stream(d, f))
    decreases |f|
  {
    if f == [] {
      assert d * 0 == 0;
    } else {
      StreamShape(d, f[1..]);
      CutOne(d, |f|);
    }
  }

  lemma ByteInverts(b: seq<int>)
    requires All(IsBit, b)
    ensures InvertsAt(8, 1, OneByte, ByteBits, b)
  {
    Weights();
    hide Pow, Val, Bits;
    if |b| == 8 {
      assert Digits(2, b) by { forall i | 0 <= i < |b| ensures 0 <= b[i] < 2 { assert IsBit(b[i]); } }
      ValBound(2, b);
      var v := Val(2, b);
      BitsValue(8, v);
      ValUnique(2, Bits(8, v), b);
    }
  }

  predicate InField(d: nat, x: int) {
    0 <= x < Pow(2, d) && (d == 12 ==> x < Q)
  }

  lemma {:induction false} ChunksOfStream(d: nat, f: seq<int>)
    requires forall i :: 0 <= i < |f| ==> InField(d, f[i])
    ensures |Stream(d, f)| == d * |f| && Chunks(d, Stream(d, f), |f|) == f
    decreases |f|
  {
    StreamShape(d, f);
    if f != [] {
      CutOne(d, |f|);
      ChunksOfStream(d, f[1..]);
      var s := Stream(d, f);
      assert s[..d] == Bits(d, f[0]) && s[d..] == Stream(d, f[1..]);
      BitsValue(d, f[0]);
      PowPositive(2, d);
      ModSmall(f[0], Pow(2, d));
      if d == 12 { ModSmall(f[0], Q); }
      assert f == [f[0]] + f[1..];
    }
  }

  /** Decoding gives back every polynomial whose coefficients fit the width. */
  lemma DecodeEncode(d: nat, f: seq<int>)
    requires |f| == 256 && forall i :: 0 <= i < 256 ==> InField(d, f[i])
    ensures |Encode(d, f)| == 32 * d && Decode(d, Encode(d, f)) == f
  {
    hide OneByte, ByteBits, IsBit, InField;
    StreamShape(d, f);
    forall x: seq<int> | All(IsBit, x) ensures InvertsAt(8, 1, OneByte, ByteBits, x) { ByteInverts(x); }
    EachInverse(8, 1, OneByte, ByteBits, IsBit, Stream(d, f), 32 * d);
    ChunksOfStream(d, f);
  }

  // ---- the encoder -------------------------------------------------------------------------------------------------

  lemma {:induction false} EachAppend<S, T>(n: nat, f: seq<S> -> seq<T>, s: seq<S>, g: seq<S>, count: nat)
    requires n > 0 && |s| == n * count && |g| == n
    ensures Each(n, f, s + g) == Each(n, f, s) + f(g)
    decreases count
  {
    if count == 0 {
      assert s + g == g && g[..n] == g && g[n..] == [];
    } else {
      CutOne(n, count);
      EachAppend(n, f, s[n..], g, count - 1);
      assert (s + g)[..n] == s[..n] && (s + g)[n..] == s[n..] + g;
    }
  }

  /** After the bits s: the whole bytes are out, the others are in the accumulator. */
  ghost predicate Writes(s: seq<int>, written: seq<byte>, acc: int, nbits: int) {
    && All(IsBit, s) && 0 <= nbits < 8 && |s| == 8 * |written| + nbits
    && written == Each(8, OneByte, s[..8 * |written|]) && acc == Val(2, s[8 * |written|..]) && 0 <= acc < Pow(2, nbits)
  }

  /** One bit more; a byte is out when the accumulator is full. */
  lemma WriteBit(s: seq<int>, written: seq<byte>, acc: int, nbits: int, b: int)
    requires Writes(s, written, acc, nbits) && IsBit(b)
    ensures Pow(2, nbits) > 0 && 0 <= b * Pow(2, nbits)
    ensures var a := Or(acc, b * Pow(2, nbits));
            0 <= a < 256 && (if nbits == 7 then Writes(s + [b], written + [a], 0, 0) else Writes(s + [b], written, a,
                nbits + 1))
  {
    OneMoreBit(acc, nbits, b);
    BitTimes(b, Pow(2, nbits));
    hide Pow, Val, Or;
    if nbits == 7 {
      WriteLast(s, written, acc, b);
    } else {
      WriteMore(s, written, acc, nbits, b);
    }
  }

  /** A bit that does not complete the byte. */
  lemma WriteMore(s: seq<int>, written: seq<byte>, acc: int, nbits: nat, b: int)
    requires Writes(s, written, acc, nbits) && IsBit(b) && nbits < 7
    ensures Writes(s + [b], written, acc + b * Pow(2, nbits), nbits + 1)
  {
    OneMoreBit(acc, nbits, b);
    ValSnoc(2, s[8 * |written|..], b);
    BitTimes(b, Pow(2, nbits));
    hide Pow, Val, Or, Each, OneByte;
    var n := 8 * |written|;
    assert (s + [b])[..n] == s[..n] && (s + [b])[n..] == s[n..] + [b];
  }

  /** A bit that completes the byte. */
  lemma WriteLast(s: seq<int>, written: seq<byte>, acc: int, b: int)
    requires Writes(s, written, acc, 7) && IsBit(b)
    ensures var a := acc + b * Pow(2, 7); 0 <= a < 256 && Writes(s + [b], written + [a], 0, 0)
  {
    var n := 8 * |written|;
    var t := s[n..] + [b];
    OneMoreBit(acc, 7, b);
    ValSnoc(2, s[n..], b);
    BitTimes(b, Pow(2, 7));
    NothingLeft();
    hide Pow, Val, Or;
    EachAppend(8, OneByte, s[..n], t, |written|);
    OneByteOf(t, acc + b * Pow(2, 7));
    assert (s + [b])[..n + 8] == s[..n] + t && (s + [b])[n + 8..] == [];
  }

  lemma OneByteOf(t: seq<int>, v: int)
    requires |t| == 8 && Val(2, t) == v && 0 <= v < 256
    ensures OneByte(t) == [v]
  {
  }

  lemma NothingLeft()
    ensures Val(2, []) == 0 && Pow(2, 0) == 1
  {
  }

  /** A bit above an accumulator of nbits bits. */
  lemma OneMoreBit(acc: int, nbits: nat, b: int)
    requires 0 <= acc < Pow(2, nbits) && nbits < 8 && IsBit(b)
    ensures var p := Pow(2, nbits);
            && 0 < p <= 128 && 0 <= b * p && Or(acc, b * p) == acc + b * p
            && 0 <= acc + b * p < Pow(2, nbits + 1) == 2 * p <= 256
  {
    var p := Pow(2, nbits);
    PowPositive(2, nbits);
    MulNonNegative(b, p);
    ModMultiple(0, b, p);
    OrDisjoint(acc, b * p, nbits, p);
    PowTwoMonotone(nbits);
    BitTimes(b, p);
  }

  lemma BitTimes(b: int, p: int)
    requires IsBit(b)
    ensures b * p == p * b && p * b == if b == 1 then p else 0
  {
  }

  lemma PowTwoMonotone(n: nat)
    requires n < 8
    ensures Pow(2, n + 1) == 2 * Pow(2, n) && Pow(2, n) <= 128 && (n == 7 ==> Pow(2, n) == 128) && Pow(2, 0) == 1
  {
    assert Pow(2, 1) == 2 && Pow(2, 2) == 4 && Pow(2, 3) == 8 && Pow(2, 4) == 16 && Pow(2, 5) == 32 &&
           Pow(2, 6) == 64 && Pow(2, 7) == 128;
  }

  method ByteEncode(d: nat, f: seq<int>) returns (out: seq<byte>)
    requires |f| == 256 && forall i :: 0 <= i < 256 ==> 0 <= f[i]
    ensures out == Encode(d, f)
  {
    hide Or, Pow, IsBit, Writes, Stream, OneByte, Each;
    out := [];
    var acc, nbits, i := 0, 0, 0;
    ghost var s: seq<int> := [];
    NothingWritten();
    assert f[0..] == f && s + Stream(d, f) == Stream(d, f);
    while i < 256
      invariant 0 <= i <= 256 && Writes(s, out, acc, nbits) && s + Stream(d, f[i..]) == Stream(d, f)
    {
      StreamStep(d, f, i);
      ghost var rest := Stream(d, f[i + 1..]);
      var x, k := f[i], 0;
      while k < d
        invariant 0 <= k <= d && x >= 0 && Writes(s, out, acc, nbits) && s + (Bits(d - k, x) + rest) == Stream(d, f)
      {
        var b := x % 2;
        NextStreamBit(d - k, x);
        ghost var was, bits := s, Bits(d - k - 1, x / 2);
        WriteBit(s, out, acc, nbits, b);
        acc := Or(acc, ShiftBit(b, nbits));
        x := x / 2;
        nbits := nbits + 1;
        s := s + [b];
        assert was + ([b] + bits + rest) == s + (bits + rest);
        if nbits == 8 {
          out := out + [acc];
          acc := 0;
          nbits := 0;
        }
        k := k + 1;
      }
      assert Bits(0, x) + rest == rest;
      i := i + 1;
    }
    StreamEnd(d, f, s, out, acc, nbits);
    if nbits > 0 {
      assert false;
    }
  }

  /** `b << nbits` */
  function ShiftBit(b: int, nbits: nat): (r: int)
    requires 0 <= b
    ensures r == b * Pow(2, nbits) && r >= 0
  {
    PowPositive(2, nbits);
    MulNonNegative(b, Pow(2, nbits));
    b * Pow(2, nbits)
  }

  lemma NothingWritten()
    ensures Writes([], [], 0, 0)
  {
  }

  lemma StreamStep(d: nat, f: seq<int>, i: nat)
    requires i < |f|
    ensures Stream(d, f[i..]) == Bits(d, f[i]) + Stream(d, f[i + 1..])
  {
    assert f[i..][1..] == f[i + 1..] && f[i..][0] == f[i];
  }

  lemma NextStreamBit(d: nat, x: int)
    requires d > 0
    ensures Bits(d, x) == [x % 2] + Bits(d - 1, x / 2) && IsBit(x % 2)
  {
  }

  lemma StreamEnd(d: nat, f: seq<int>, s: seq<int>, out: seq<byte>, acc: int, nbits: int)
    requires |f| == 256 && Writes(s, out, acc, nbits) && s + Stream(d, f[256..]) == Stream(d, f)
    ensures nbits == 0 && out == Encode(d, f)
  {
    StreamShape(d, f);
    assert f[256..] == [];
    assert s == Stream(d, f) && s[..8 * |out|] + s[8 * |out|..] == s;
    if nbits == 0 { assert s[..8 * |out|] == s; }
  }

  // ---- the decoder -------------------------------------------------------------------------------------------------

  /** What the decoder has not read: the bits left in the accumulator, then those of the bytes from bi on. */
  ghost function Unread(inp: seq<byte>, bi: nat, acc: int, nbits: nat): seq<int>
    requires bi <= |inp|
  {
    Bits(nbits, acc) + Each(1, ByteBits, inp[bi..])
  }

  lemma Refill(inp: seq<byte>, bi: nat, acc: int)
    requires bi <= |inp| && Unread(inp, bi, acc, 0) != []
    ensures bi < |inp| && Unread(inp, bi + 1, inp[bi], 8) == Unread(inp, bi, acc, 0)
  {
    hide Bits;
    assert Bits(0, acc) == [] by { assert |Bits(0, acc)| == 0; }
    assert inp[bi..][..1] == [inp[bi]] && inp[bi..][1..] == inp[bi + 1..];
  }

  lemma TakeBit(inp: seq<byte>, bi: nat, acc: int, nbits: nat)
    requires bi <= |inp| && nbits > 0
    ensures Unread(inp, bi, acc, nbits) == [acc % 2] + Unread(inp, bi, acc / 2, nbits - 1)
  {
  }

  /** `x |= bit << k` appends a bit to the field. */
  lemma FieldBit(c: seq<int>, x: int, b: int)
    requires x == Val(2, c) && All(IsBit, c) && IsBit(b)
    ensures 0 <= x && Or(x, ShiftBit(b, |c|)) == Val(2, c + [b]) && All(IsBit, c + [b])
  {
    hide Or;
    var p := Pow(2, |c|);
    assert Digits(2, c) by { forall i | 0 <= i < |c| ensures 0 <= c[i] < 2 { assert IsBit(c[i]); } }
    ValBound(2, c);
    PowPositive(2, |c|);
    MulNonNegative(b, p);
    ModMultiple(0, b, p);
    OrDisjoint(x, b * p, |c|, p);
    ValSnoc(2, c, b);
  }

  method ByteDecode(d: nat, inp: seq<byte>) returns (out: seq<int>)
    requires |inp| == 32 * d
    ensures out == Decode(d, inp)
  {
    hide Unread, Chunks, Val, Bits, Or, Each, ByteBits, IsBit;
    StreamOfBytes(inp);
    out := [];
    var acc, nbits, bi, i := 0, 0, 0, 0;
    ghost var left := Each(1, ByteBits, inp);
    AllUnread(inp);
    while i < 256
      invariant 0 <= i <= 256 && |out| == i && 0 <= bi <= |inp| && 0 <= nbits <= 8 && 0 <= acc
      invariant left == Unread(inp, bi, acc, nbits) && |left| == d * (256 - i)
      invariant out + Chunks(d, left, 256 - i) == Decode(d, inp)
    {
      CutOne(d, 256 - i);
      ghost var c, from: seq<int> := [], left;
      var x, k := 0, 0;
      NoBits();
      while k < d
        invariant 0 <= k <= d && |c| == k && c + left == from && |from| == d * (256 - i) && x == Val(2, c) &&
                  All(IsBit, c)
        invariant 0 <= bi <= |inp| && 0 <= nbits <= 8 && 0 <= acc && left == Unread(inp, bi, acc, nbits)
      {
        if nbits == 0 {
          assert |left| > 0;
          Refill(inp, bi, acc);
          acc := inp[bi];
          bi := bi + 1;
          nbits := 8;
        }
        TakeBit(inp, bi, acc, nbits);
        var bit := acc % 2;
        assert IsBit(bit) by { BitRange(acc); }
        acc := acc / 2;
        nbits := nbits - 1;
        FieldBit(c, x, bit);
        x := Or(x, ShiftBit(bit, k));
        c := c + [bit];
        left := Unread(inp, bi, acc, nbits);
        k := k + 1;
      }
      NextChunk(d, c, left, 256 - i);
      out := out + [Field12(d, x)];
      i := i + 1;
    }
    NoChunks(d, left);
  }

  lemma NoBits()
    ensures Val(2, []) == 0 && All(IsBit, [])
  {
  }

  lemma BitRange(acc: int)
    ensures IsBit(acc % 2)
  {
  }

  lemma AllUnread(inp: seq<byte>)
    requires |inp| % 32 == 0
    ensures Unread(inp, 0, 0, 0) == Each(1, ByteBits, inp)
  {
    assert inp[0..] == inp && Bits(0, 0) == [];
  }

  lemma NextChunk(d: nat, c: seq<int>, left: seq<int>, n: nat)
    requires n > 0 && |c| == d && |c + left| == d * n
    ensures |left| == d * (n - 1) && Chunks(d, c + left, n) == [Field12(d, Val(2, c))] + Chunks(d, left, n - 1)
  {
    CutOne(d, n);
    assert (c + left)[..d] == c && (c + left)[d..] == left;
  }

  lemma NoChunks(d: nat, left: seq<int>)
    requires |left| == d * 0
    ensures Chunks(d, left, 0) == []
  {
  }
}
