/** Byte strings as numbers, in either byte order. */
module ByteNumbers {
  import opened ModArith
  import opened MachineInts
  import opened Radix

  function Rev<T>(s: seq<T>): (r: seq<T>)
    ensures |r| == |s| && forall i :: 0 <= i < |s| ==> r[i] == s[|s| - 1 - i]
  {
    if s == [] then [] else Rev(s[1..]) + [s[0]]
  }

  /** Least significant byte first. */
  function LeVal(s: seq<byte>): int { Val(256, s) }

  /** Most significant byte first. */
  function BeVal(s: seq<byte>): int { Val(256, Rev(s)) }

  lemma RevRev<T>(s: seq<T>)
    ensures Rev(Rev(s)) == s
  {
  }

  lemma RevLe(s: seq<byte>)
    ensures BeVal(Rev(s)) == LeVal(s)
  {
    RevRev(s);
  }

  lemma BeCons(x: byte, t: seq<byte>)
    ensures BeVal([x] + t) == x * Pow(256, |t|) + BeVal(t)
  {
    hide Rev, Val, Pow;
    RevConcat([x], t);
    assert Rev([x]) == [x];
    ValSnoc(256, Rev(t), x);
    Commute(Pow(256, |t|), x);
  }

  lemma BeSnoc(s: seq<byte>, x: byte)
    ensures BeVal(s + [x]) == 256 * BeVal(s) + x
  {
    var r := Rev(s + [x]);
    assert r == [x] + Rev(s) && r[1..] == Rev(s);
  }

  lemma BePrefix(s: seq<byte>, i: nat)
    requires i < |s|
    ensures BeVal(s[..i + 1]) == 256 * BeVal(s[..i]) + s[i]
  {
    assert s[..i + 1] == s[..i] + [s[i]];
    BeSnoc(s[..i], s[i]);
  }

  lemma BeSuffix(s: seq<byte>, i: nat)
    requires i < |s|
    ensures BeVal(s[i..]) == s[i] * Pow(256, |s| - 1 - i) + BeVal(s[i + 1..])
  {
    assert s[i..] == [s[i]] + s[i + 1..];
    BeCons(s[i], s[i + 1..]);
  }

  lemma BytesAreDigits(s: seq<byte>)
    ensures Digits(256, s) && Digits(256, Rev(s))
  {
  }

  lemma BeBound(s: seq<byte>)
    ensures 0 <= BeVal(s) < Pow(256, |s|)
  {
    BytesAreDigits(s);
    ValBound(256, Rev(s));
  }

  lemma LeBound(s: seq<byte>)
    ensures 0 <= LeVal(s) < Pow(256, |s|)
  {
    BytesAreDigits(s);
    ValBound(256, s);
  }

  lemma LeUnique(s: seq<byte>, t: seq<byte>)
    requires |s| == |t| && LeVal(s) == LeVal(t)
    ensures s == t
  {
    BytesAreDigits(s);
    BytesAreDigits(t);
    ValUnique(256, s, t);
  }

  /** Leading zeros do not count. */
  lemma {:induction false} BePad(z: nat, s: seq<byte>)
    ensures BeVal(Zeros(z) + s) == BeVal(s)
    decreases z
  {
    if z == 0 {
      assert Zeros(0) + s == s;
    } else {
      BePad(z - 1, s);
      BeCons(0, Zeros(z - 1) + s);
      assert Zeros(z) + s == [0] + (Zeros(z - 1) + s);
    }
  }

  function Zeros(n: nat): (z: seq<byte>)
    ensures |z| == n && forall i :: 0 <= i < n ==> z[i] == 0
  {
    seq(n, i => 0)
  }

  lemma BeZeros(n: nat)
    ensures BeVal(Zeros(n)) == 0
  {
    ValZeros(256, Rev(Zeros(n)));
  }

  /** `to_be_bytes` */
  function BigEndian(n: nat, width: nat): (b: seq<byte>)
    ensures |b| == width
    decreases width
  {
    if width == 0 then [] else BigEndian(n / 256, width - 1) + [n % 256]
  }

  lemma {:induction false} ValueOfBytes(n: nat, width: nat, p: nat)
    requires p == Pow(256, width) && n < p
    ensures BeVal(BigEndian(n, width)) == n
    decreases width
  {
    if width > 0 {
      BeSnoc(BigEndian(n / 256, width - 1), n % 256);
      ValueOfBytes(n / 256, width - 1, Pow(256, width - 1));
    }
  }

  lemma BeConcat(s: seq<byte>, t: seq<byte>)
    ensures BeVal(s + t) == BeVal(s) * Pow(256, |t|) + BeVal(t)
  {
    hide Rev, Val, Pow;
    RevConcat(s, t);
    ValConcat(256, Rev(t), Rev(s));
    Commute(Pow(256, |t|), BeVal(s));
  }

  lemma Commute(x: int, y: int)
    ensures x * y == y * x
  {
  }

  lemma RevConcat(s: seq<byte>, t: seq<byte>)
    ensures Rev(s + t) == Rev(t) + Rev(s)
  {
    hide Rev;
  }

  /** A small number has its bytes at the end. */
  lemma LowBytes(s: seq<byte>, n: nat)
    requires n <= |s| && BeVal(s) < Pow(256, n)
    ensures BeVal(s[|s| - n..]) == BeVal(s)
  {
    hide BeVal, Pow;
    var hi, lo := s[..|s| - n], s[|s| - n..];
    assert s == hi + lo;
    BeConcat(hi, lo);
    BeBound(hi);
    BeBound(lo);
    PowPositive(256, n);
    NothingAbove(Pow(256, n), BeVal(hi), BeVal(lo));
  }

  lemma Widths()
    ensures Pow(256, 8) == 0x1_0000_0000_0000_0000
    ensures Pow(256, 32) == 0x1_0000_0000_0000_0000_0000_0000_0000_0000_0000_0000_0000_0000_0000_0000_0000_0000
    ensures Pow(256, 64) == Pow(256, 32) * Pow(256, 32)
  {
    assert Pow(256, 4) == 0x1_0000_0000;
    hide Pow;
    PowAdd(256, 4, 4);
    PowAdd(256, 8, 8);
    PowAdd(256, 16, 16);
    PowAdd(256, 32, 32);
  }

  /** Four bytes at the front. */
  lemma FrontWord(a: byte, b: byte, c: byte, d: byte, t: seq<byte>)
    ensures LeVal([a, b, c, d] + t) == a + 0x100 * b + 0x1_0000 * c + 0x100_0000 * d + 0x1_0000_0000 * LeVal(t)
  {
    assert [a, b, c, d] + t == [a] + ([b] + ([c] + ([d] + t)));
    FrontByte(a, [b] + ([c] + ([d] + t)));
    FrontByte(b, [c] + ([d] + t));
    FrontByte(c, [d] + t);
    FrontByte(d, t);
  }

  lemma FrontByte(a: byte, t: seq<byte>)
    ensures LeVal([a] + t) == a + 256 * LeVal(t)
  {
    assert ([a] + t)[1..] == t;
  }

  // ---- bits -----------------------------------------------------------------------------------------------------

  /** Bit i of a little-endian number: `(s[i / 8] >> (i % 8)) & 1`. */
  function BitOf(s: seq<byte>, i: nat): (b: byte)
    requires i < 8 * |s|
    ensures b <= 1
  {
    DigitBit(8, s, i)
  }

  /** The number that bits 0 to i - 1 form. */
  function LowBits(s: seq<byte>, i: nat): int
    requires i <= 8 * |s|
  {
    LowDigitBits(8, s, i)
  }

  lemma LowBitsAll(s: seq<byte>)
    ensures LowBits(s, 8 * |s|) == LeVal(s)
  {
    assert Pow(2, 8) == 256;
    hide Pow;
    BytesAreDigits(s);
    LowDigitBitsAll(8, s, 256);
  }

  lemma {:induction false} PowTwos(k: nat)
    ensures Pow(2, 8 * k) == Pow(256, k)
    decreases k
  {
    if k > 0 {
      PowTwos(k - 1);
      PowAdd(2, 8, 8 * (k - 1));
      assert Pow(2, 8) == 256;
    }
  }

  lemma ByteParts(y: byte)
    ensures LowPart(y, 0) == 0 && LowPart(y, 8) == y && HighPart(y, 8) == 0 && HighPart(y, 0) == y
  {
    assert Pow(2, 8) == 256 && Pow(2, 0) == 1;
  }

  lemma BitAt(s: seq<byte>, k: nat, j: nat)
    requires k < |s| && j < 8
    ensures BitOf(s, 8 * k + j) == HighPart(s[k], j) % 2
  {
    var i := 8 * k + j;
    assert i / 8 == k && i % 8 == j;
  }

  /** `to_le_bytes` */
  function LittleEndian(n: nat, width: nat): (b: seq<byte>)
    ensures |b| == width
  {
    Rev(BigEndian(n, width))
  }

  lemma LittleEndianValue(n: nat, width: nat)
    requires n < Pow(256, width)
    ensures LeVal(LittleEndian(n, width)) == n
  {
    ValueOfBytes(n, width, Pow(256, width));
    RevRev(BigEndian(n, width));
    RevLe(LittleEndian(n, width));
  }
}
