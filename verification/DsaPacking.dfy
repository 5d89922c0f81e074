/** The bit packers of ML-DSA: fields of 10, 13, 4 and 20 bits in little-endian order. */
module DsaPacking {
  import opened ModArith
  import opened MachineInts
  import opened BitOps
  import opened Groups
  import opened DsaRounding

  const ETA: int := 4

  /** `(x | y) as u8`: truncation keeps the low byte of either side. */
  function Or8(x: int, y: int): byte { Or(x % 256, y % 256) % 256 }

  function ByteOf(x: int): byte { x % 256 }

  lemma Or8Fields(x: int, y: int, k: nat, p: nat, m: nat)
    requires p == Pow(2, k) && 0 <= x < p && m > 0 && p * m == 256
    ensures Or8(x, y * p) == x + p * (y % m)
  {
    hide Or, Pow;
    MaskedField(y, p, m);
    OrField(x, y % m, k, p, m);
    ModRange(y, m);
  }

  lemma MaskedField(y: int, p: nat, m: nat)
    requires p > 0 && m > 0
    ensures (y * p) % (p * m) == (y % m) * p
  {
    ScaledDivision(y, p, m);
    DivModUnique(y * p, p * m, y / m, p * (y % m));
  }

  lemma ModRange(y: int, m: nat)
    requires m > 0
    ensures y % m % m == y % m
  {
    ModSmall(y % m, m);
  }

  /** `as u32` on every byte. */
  function Widen(b: seq<byte>): (g: seq<int>)
    ensures g == b && forall i :: 0 <= i < |g| ==> 0 <= g[i] < 256
  {
    b
  }

  // ---- t1: four coefficients of 10 bits in five bytes -------------------------------------------------

  function T1Pack(c: seq<int>): seq<byte> {
    if |c| != 4 then [] else
      [ByteOf(c[0]),
       Or8(c[0] / 256, c[1] * 4),
       Or8(c[1] / 64, c[2] * 16),
       Or8(c[2] / 16, c[3] * 64),
       ByteOf(c[3] / 4)]
  }

  function T1Unpack(b: seq<byte>): seq<int> {
    if |b| != 5 then [] else
      var g := Widen(b);
      [Or(g[0], g[1] * 256) % 1024, Or(g[1] / 4, g[2] * 64) % 1024, Or(g[2] / 16, g[3] * 16) % 1024, Or(g[3] / 64,
          g[4] * 4) % 1024]
  }

  predicate IsT1(x: int) { 0 <= x < 1024 }

  lemma T1Fields(c: seq<int>, b: seq<byte>, g: seq<int>)
    requires |c| == 4 && All(IsT1, c) && |b| == 5 && g == Widen(b)
    ensures T1Pack(c) == [c[0] % 256, c[0] / 256 + 4 * (c[1] % 64), c[1] / 64 + 16 * (c[2] % 16),
            c[2] / 16 + 64 * (c[3] % 4), c[3] / 4]
    ensures T1Unpack(b) == [g[0] + 256 * (g[1] % 4), g[1] / 4 + 64 * (g[2] % 16), g[2] / 16 + 16 * (g[3] % 64),
            g[3] / 64 + 4 * g[4]]
  {
    Weights();
    hide Pow;
    hide Or, Or8;
    assert IsT1(c[0]) && IsT1(c[1]) && IsT1(c[2]) && IsT1(c[3]);
    Or8Fields(c[0] / 256, c[1], 2, 4, 64);
    Or8Fields(c[1] / 64, c[2], 4, 16, 16);
    Or8Fields(c[2] / 16, c[3], 6, 64, 4);
    OrField(g[0], g[1], 8, 256, 4);
    OrField(g[1] / 4, g[2], 6, 64, 16);
    OrField(g[2] / 16, g[3], 4, 16, 64);
    OrField(g[3] / 64, g[4], 2, 4, 256);
  }

  lemma T1Inverts(c: seq<int>)
    requires All(IsT1, c)
    ensures InvertsAt(4, 5, T1Pack, T1Unpack, c)
  {
    if |c| == 4 {
      assert IsT1(c[0]) && IsT1(c[1]) && IsT1(c[2]) && IsT1(c[3]);
      var b := T1Pack(c);
      T1Fields(c, b, b);
      hide T1Pack, T1Unpack;
      TwoDigits(c[0] / 256, c[1] % 64, 4);
      TwoDigits(c[1] / 64, c[2] % 16, 16);
      TwoDigits(c[2] / 16, c[3] % 4, 64);
    }
  }

  // ---- t0: eight coefficients of 13 bits in thirteen bytes --------------------------------------------

  function T0Pack(c: seq<int>): seq<byte> {
    if |c| != 8 then [] else T0Bytes(seq(8, j requires 0 <= j < 8 => 4096 - c[j]))
  }

  function T0Bytes(t: seq<int>): seq<byte>
    requires |t| == 8
  {
      [ByteOf(t[0]),
       Or8(t[0] / 256, t[1] * 32),
       ByteOf(t[1] / 8),
       Or8(t[1] / 2048, t[2] * 4),
       Or8(t[2] / 64, t[3] * 128),
       ByteOf(t[3] / 2),
       Or8(t[3] / 512, t[4] * 16),
       ByteOf(t[4] / 16),
       Or8(t[4] / 4096, t[5] * 2),
       Or8(t[5] / 128, t[6] * 64),
       ByteOf(t[6] / 4),
       Or8(t[6] / 1024, t[7] * 8),
       ByteOf(t[7] / 32)]
  }

  function T0Fields(b: seq<byte>): (c: seq<int>)
    requires |b| == 13
    ensures |c| == 8
  {
    var g := Widen(b);
    [Or(g[0], g[1] * 256) % 8192,
     Or(Or(g[1] / 32, g[2] * 8), g[3] * 2048) % 8192,
     Or(g[3] / 4, g[4] * 64) % 8192,
     Or(Or(g[4] / 128, g[5] * 2), g[6] * 512) % 8192,
     Or(Or(g[6] / 16, g[7] * 16), g[8] * 4096) % 8192,
     Or(g[8] / 2, g[9] * 128) % 8192,
     Or(Or(g[9] / 64, g[10] * 4), g[11] * 1024) % 8192,
     Or(g[11] / 8, g[12] * 32) % 8192]
  }

  function T0Unpack(b: seq<byte>): seq<int> {
    if |b| != 13 then [] else
      var c := T0Fields(b);
      seq(8, j requires 0 <= j < 8 => 4096 - c[j])
  }

  predicate IsT0(x: int) { -4096 < x <= 4096 }

  lemma T0PackLow(t: seq<int>)
    requires |t| == 8 && forall j :: 0 <= j < 8 ==> 0 <= t[j] < 8192
    ensures Or8(t[0] / 256, t[1] * 32) == t[0] / 256 + 32 * (t[1] % 8)
    ensures Or8(t[1] / 2048, t[2] * 4) == t[1] / 2048 + 4 * (t[2] % 64)
    ensures Or8(t[2] / 64, t[3] * 128) == t[2] / 64 + 128 * (t[3] % 2)
    ensures Or8(t[3] / 512, t[4] * 16) == t[3] / 512 + 16 * (t[4] % 16)
  {
    hide Or, Or8;
    Weights();
    hide Pow;
    Or8Fields(t[0] / 256, t[1], 5, 32, 8);
    Or8Fields(t[1] / 2048, t[2], 2, 4, 64);
    Or8Fields(t[2] / 64, t[3], 7, 128, 2);
    Or8Fields(t[3] / 512, t[4], 4, 16, 16);
  }

  lemma T0PackHigh(t: seq<int>)
    requires |t| == 8 && forall j :: 0 <= j < 8 ==> 0 <= t[j] < 8192
    ensures Or8(t[4] / 4096, t[5] * 2) == t[4] / 4096 + 2 * (t[5] % 128)
    ensures Or8(t[5] / 128, t[6] * 64) == t[5] / 128 + 64 * (t[6] % 4)
    ensures Or8(t[6] / 1024, t[7] * 8) == t[6] / 1024 + 8 * (t[7] % 32)
  {
    hide Or, Or8;
    Weights();
    hide Pow;
    Or8Fields(t[4] / 4096, t[5], 1, 2, 128);
    Or8Fields(t[5] / 128, t[6], 6, 64, 4);
    Or8Fields(t[6] / 1024, t[7], 3, 8, 32);
  }

  lemma T0PackFields(t: seq<int>)
    requires |t| == 8 && forall j :: 0 <= j < 8 ==> 0 <= t[j] < 8192
    ensures T0Bytes(t) == T0Layout(t)
  {
    hide Or, Or8;
    T0PackLow(t);
    T0PackHigh(t);
  }

  lemma T0UnpackLow(b: seq<byte>, g: seq<int>)
    requires |b| == 13 && g == Widen(b)
    ensures T0Fields(b)[0] == g[0] + 256 * (g[1] % 32) && T0Fields(b)[1] == g[1] / 32 + 8 * g[2] + 2048 * (g[3] % 4)
    ensures T0Fields(b)[2] == g[3] / 4 + 64 * (g[4] % 128) &&
            T0Fields(b)[3] == g[4] / 128 + 2 * g[5] + 512 * (g[6] % 16)
  {
    Weights();
    hide Pow;
    hide Or;
    OrField(g[0], g[1], 8, 256, 32);
    OrField(g[1] / 32, g[2], 3, 8, 256);
    OrField(g[1] / 32 + g[2] * 8, g[3], 11, 2048, 4);
    OrField(g[3] / 4, g[4], 6, 64, 128);
    OrField(g[4] / 128, g[5], 1, 2, 256);
    OrField(g[4] / 128 + g[5] * 2, g[6], 9, 512, 16);
  }

  lemma T0UnpackHigh(b: seq<byte>, g: seq<int>)
    requires |b| == 13 && g == Widen(b)
    ensures T0Fields(b)[4] == g[6] / 16 + 16 * g[7] + 4096 * (g[8] % 2) &&
            T0Fields(b)[5] == g[8] / 2 + 128 * (g[9] % 64)
    ensures T0Fields(b)[6] == g[9] / 64 + 4 * g[10] + 1024 * (g[11] % 8) && T0Fields(b)[7] == g[11] / 8 + 32 * g[12]
  {
    Weights();
    hide Pow;
    hide Or;
    OrField(g[6] / 16, g[7], 4, 16, 256);
    OrField(g[6] / 16 + g[7] * 16, g[8], 12, 4096, 2);
    OrField(g[8] / 2, g[9], 7, 128, 64);
    OrField(g[9] / 64, g[10], 2, 4, 256);
    OrField(g[9] / 64 + g[10] * 4, g[11], 10, 1024, 8);
    OrField(g[11] / 8, g[12], 5, 32, 256);
  }

  /** The thirteen bytes of eight fields. */
  function T0Layout(t: seq<int>): (b: seq<int>)
    requires |t| == 8
    ensures |b| == 13
  {
    [t[0] % 256, t[0] / 256 + 32 * (t[1] % 8), t[1] / 8 % 256, t[1] / 2048 + 4 * (t[2] % 64),
        t[2] / 64 + 128 * (t[3] % 2),
     t[3] / 2 % 256, t[3] / 512 + 16 * (t[4] % 16), t[4] / 16 % 256, t[4] / 4096 + 2 * (t[5] % 128),
     t[5] / 128 + 64 * (t[6] % 4), t[6] / 4 % 256, t[6] / 1024 + 8 * (t[7] % 32), t[7] / 32]
  }

  lemma T0LowFields(t: seq<int>, b: seq<int>)
    requires |t| == 8 && (forall j :: 0 <= j < 8 ==> 0 <= t[j] < 8192) && b == T0Layout(t)
    ensures b[0] + 256 * (b[1] % 32) == t[0]
    ensures b[1] / 32 + 8 * b[2] + 2048 * (b[3] % 4) == t[1]
  {
    TwoPieces(0, 1, t[0], 256, t[1] % 8, 32);
    ThreePieces(t[0] / 256, 32, t[1], 8, 256, 2048, t[2] % 64, 4);
  }

  lemma T0MiddleFields(t: seq<int>, b: seq<int>)
    requires |t| == 8 && (forall j :: 0 <= j < 8 ==> 0 <= t[j] < 8192) && b == T0Layout(t)
    ensures b[3] / 4 + 64 * (b[4] % 128) == t[2]
    ensures b[4] / 128 + 2 * b[5] + 512 * (b[6] % 16) == t[3]
  {
    TwoPieces(t[1] / 2048, 4, t[2], 64, t[3] % 2, 128);
    ThreePieces(t[2] / 64, 128, t[3], 2, 256, 512, t[4] % 16, 16);
  }

  lemma T0HighFields(t: seq<int>, b: seq<int>)
    requires |t| == 8 && (forall j :: 0 <= j < 8 ==> 0 <= t[j] < 8192) && b == T0Layout(t)
    ensures b[6] / 16 + 16 * b[7] + 4096 * (b[8] % 2) == t[4]
    ensures b[8] / 2 + 128 * (b[9] % 64) == t[5]
  {
    ThreePieces(t[3] / 512, 16, t[4], 16, 256, 4096, t[5] % 128, 2);
    TwoPieces(t[4] / 4096, 2, t[5], 128, t[6] % 4, 64);
  }

  lemma T0TopFields(t: seq<int>, b: seq<int>)
    requires |t| == 8 && (forall j :: 0 <= j < 8 ==> 0 <= t[j] < 8192) && b == T0Layout(t)
    ensures b[9] / 64 + 4 * b[10] + 1024 * (b[11] % 8) == t[6]
    ensures b[11] / 8 + 32 * b[12] == t[7]
  {
    ThreePieces(t[5] / 128, 64, t[6], 4, 256, 1024, t[7] % 32, 8);
    TwoDigits(t[6] / 1024, t[7] % 32, 8);
  }

  lemma T0FieldsBack(t: seq<int>, b: seq<byte>)
    requires |t| == 8 && (forall j :: 0 <= j < 8 ==> 0 <= t[j] < 8192) && |b| == 13 && Widen(b) == T0Layout(t)
    ensures T0Fields(b) == t
  {
    hide T0Fields, T0Layout;
    T0UnpackLow(b, Widen(b));
    T0UnpackHigh(b, Widen(b));
    T0LowFields(t, Widen(b));
    T0MiddleFields(t, Widen(b));
    T0HighFields(t, Widen(b));
    T0TopFields(t, Widen(b));
  }

  lemma T0Inverts(c: seq<int>)
    requires All(IsT0, c)
    ensures InvertsAt(8, 13, T0Pack, T0Unpack, c)
  {
    hide T0Bytes, T0Fields, T0Layout;
    if |c| == 8 {
      var t := seq(8, j requires 0 <= j < 8 => 4096 - c[j]);
      forall j | 0 <= j < 8 ensures 0 <= t[j] < 8192 { assert IsT0(c[j]); }
      T0PackFields(t);
      T0FieldsBack(t, T0Bytes(t));
      assert T0Unpack(T0Bytes(t)) == c;
    }
  }

  // ---- s1, s2: two coefficients of 4 bits in a byte -----------------------------------------------------

  function EtaPack(c: seq<int>): seq<byte> {
    if |c| != 2 then [] else [Or8(ETA - c[0], (ETA - c[1]) * 16)]
  }

  function EtaUnpack(b: seq<byte>): seq<int> {
    if |b| != 1 then [] else [ETA - b[0] % 16, ETA - b[0] / 16]
  }

  predicate IsEta(x: int) { -ETA <= x <= ETA }

  lemma EtaInverts(c: seq<int>)
    requires All(IsEta, c)
    ensures InvertsAt(2, 1, EtaPack, EtaUnpack, c)
  {
    Weights();
    hide Pow;
    hide Or8;
    if |c| == 2 {
      assert IsEta(c[0]) && IsEta(c[1]);
      var x, y := ETA - c[0], ETA - c[1];
      Or8Fields(x, y, 4, 16, 16);
      TwoDigits(x, y, 16);
      assert EtaUnpack([x + 16 * y]) == c;
    }
  }

  // ---- z: two coefficients of 20 bits in five bytes -----------------------------------------------------

  function ZPack(c: seq<int>): seq<byte> {
    if |c| != 2 then [] else
      var t0, t1 := GAMMA1 - c[0], GAMMA1 - c[1];
      [ByteOf(t0), ByteOf(t0 / 256), Or8(t0 / 0x1_0000, t1 * 16), ByteOf(t1 / 16), ByteOf(t1 / 4096)]
  }

  function ZUnpack(b: seq<byte>): seq<int> {
    if |b| != 5 then [] else
      var g := Widen(b);
      [GAMMA1 - Or(Or(g[0], g[1] * 256), g[2] * 0x1_0000) % 0x10_0000,
       GAMMA1 - Or(Or(g[2] / 16, g[3] * 16), g[4] * 4096)]
  }

  predicate IsZ(x: int) { -GAMMA1 < x <= GAMMA1 }

  predicate IsAnyByte(x: byte) { true }

  lemma ZPackFields(c: seq<int>, t0: int, t1: int)
    requires |c| == 2 && All(IsZ, c) && t0 == GAMMA1 - c[0] && t1 == GAMMA1 - c[1]
    ensures ZPack(c) == [t0 % 256, t0 / 256 % 256, t0 / 0x1_0000 + 16 * (t1 % 16), t1 / 16 % 256, t1 / 4096]
    ensures 0 <= t0 < 0x10_0000 && 0 <= t1 < 0x10_0000
  {
    Weights();
    hide Pow;
    hide Or8;
    assert IsZ(c[0]) && IsZ(c[1]);
    Or8Fields(t0 / 0x1_0000, t1, 4, 16, 16);
  }

  lemma ZUnpackFields(b: seq<byte>, g: seq<int>)
    requires |b| == 5 && g == Widen(b)
    ensures ZUnpack(b) == [GAMMA1 - (g[0] + 256 * g[1] + 0x1_0000 * (g[2] % 16)),
            GAMMA1 - (g[2] / 16 + 16 * g[3] + 4096 * g[4])]
  {
    Weights();
    hide Pow;
    hide Or;
    OrField(g[0], g[1], 8, 256, 256);
    OrField(g[0] + g[1] * 256, g[2], 16, 0x1_0000, 16);
    OrField(g[2] / 16, g[3], 4, 16, 256);
    OrField(g[2] / 16 + g[3] * 16, g[4], 12, 4096, 256);
  }

  lemma ZInverts(c: seq<int>)
    requires All(IsZ, c)
    ensures InvertsAt(2, 5, ZPack, ZUnpack, c)
  {
    if |c| == 2 {
      var t0, t1 := GAMMA1 - c[0], GAMMA1 - c[1];
      var b := ZPack(c);
      ZPackFields(c, t0, t1);
      ZUnpackFields(b, Widen(b));
      hide ZPack, ZUnpack;
      TwoDigits(t0 / 0x1_0000, t1 % 16, 16);
      ThreeParts(t0, 256, 256, 0x1_0000);
      ThreeParts(t1, 16, 256, 4096);
    }
  }

  /** Every string of five bytes is the packing of the coefficients that it unpacks to. */
  lemma ZOnto(b: seq<byte>)
    ensures InvertsAt(5, 2, ZUnpack, ZPack, b)
    ensures All(IsZ, ZUnpack(b))
  {
    if |b| == 5 {
      var g, c := Widen(b), ZUnpack(b);
      ZUnpackFields(b, g);
      hide ZUnpack;
      assert IsZ(c[0]) && IsZ(c[1]);
      ZPackFields(c, GAMMA1 - c[0], GAMMA1 - c[1]);
      hide ZPack;
      ZDigits(g[0], g[1], g[2], g[3], g[4]);
    }
  }

  lemma ZDigits(g0: nat, g1: nat, g2: nat, g3: nat, g4: nat)
    requires g0 < 256 && g1 < 256 && g2 < 256 && g3 < 256 && g4 < 256
    ensures var t0, t1 := g0 + 256 * g1 + 0x1_0000 * (g2 % 16), g2 / 16 + 16 * g3 + 4096 * g4;
            && t0 % 256 == g0 && t0 / 256 % 256 == g1 && t0 / 0x1_0000 + 16 * (t1 % 16) == g2
            && t1 / 16 % 256 == g3 && t1 / 4096 == g4
  {
    TwoDigits(g0, g1 + 256 * (g2 % 16), 256);
    TwoDigits(g1, g2 % 16, 256);
    TwoDigits(g0 + 256 * g1, g2 % 16, 0x1_0000);
    TwoDigits(g2 / 16, g3 + 256 * g4, 16);
    TwoDigits(g3, g4, 256);
    TwoDigits(g2 / 16 + 16 * g3, g4, 4096);
  }

  // ---- w1: two coefficients of 4 bits in a byte -----------------------------------------------------------

  function W1Pack(c: seq<int>): seq<byte> {
    if |c| != 2 then [] else [Or8(c[0], c[1] * 16)]
  }

  // ---- whole polynomials ----------------------------------------------------------------------------------

  function PackT1(a: seq<int>): seq<byte> { Each(4, T1Pack, a) }

  function UnpackT1(b: seq<byte>): seq<int> { Each(5, T1Unpack, b) }

  function PackT0(a: seq<int>): seq<byte> { Each(8, T0Pack, a) }

  function UnpackT0(b: seq<byte>): seq<int> { Each(13, T0Unpack, b) }

  function PackEta(a: seq<int>): seq<byte> { Each(2, EtaPack, a) }

  function UnpackEta(b: seq<byte>): seq<int> { Each(1, EtaUnpack, b) }

  function PackZ(a: seq<int>): seq<byte> { Each(2, ZPack, a) }

  function UnpackZ(b: seq<byte>): seq<int> { Each(5, ZUnpack, b) }

  function PackW1(a: seq<int>): seq<byte> { Each(2, W1Pack, a) }

  lemma T1RoundTrip(a: seq<int>)
    requires |a| == 256 && All(IsT1, a)
    ensures |PackT1(a)| == 320 && UnpackT1(PackT1(a)) == a
  {
    hide T1Pack, T1Unpack;
    forall x: seq<int> | All(IsT1, x) ensures InvertsAt(4, 5, T1Pack, T1Unpack, x) { T1Inverts(x); }
    EachInverse(4, 5, T1Pack, T1Unpack, IsT1, a, 64);
  }

  lemma T0RoundTrip(a: seq<int>)
    requires |a| == 256 && All(IsT0, a)
    ensures |PackT0(a)| == 416 && UnpackT0(PackT0(a)) == a
  {
    hide T0Pack, T0Unpack;
    forall x: seq<int> | All(IsT0, x) ensures InvertsAt(8, 13, T0Pack, T0Unpack, x) { T0Inverts(x); }
    EachInverse(8, 13, T0Pack, T0Unpack, IsT0, a, 32);
  }

  lemma EtaRoundTrip(a: seq<int>)
    requires |a| == 256 && All(IsEta, a)
    ensures |PackEta(a)| == 128 && UnpackEta(PackEta(a)) == a
  {
    hide EtaPack, EtaUnpack;
    forall x: seq<int> | All(IsEta, x) ensures InvertsAt(2, 1, EtaPack, EtaUnpack, x) { EtaInverts(x); }
    EachInverse(2, 1, EtaPack, EtaUnpack, IsEta, a, 128);
  }

  lemma ZRoundTrip(a: seq<int>)
    requires |a| == 256 && All(IsZ, a)
    ensures |PackZ(a)| == 640 && UnpackZ(PackZ(a)) == a
  {
    hide ZPack, ZUnpack;
    forall x: seq<int> | All(IsZ, x) ensures InvertsAt(2, 5, ZPack, ZUnpack, x) { ZInverts(x); }
    EachInverse(2, 5, ZPack, ZUnpack, IsZ, a, 128);
  }

  /** The packing of z is a bijection: every string of 640 bytes is the packing of one polynomial. */
  lemma ZBijection(b: seq<byte>)
    requires |b| == 640
    ensures |UnpackZ(b)| == 256 && PackZ(UnpackZ(b)) == b && All(IsZ, UnpackZ(b))
  {
    hide ZPack, ZUnpack;
    forall x: seq<byte> | All(IsAnyByte, x) ensures InvertsAt(5, 2, ZUnpack, ZPack, x) { ZOnto(x); }
    EachInverse(5, 2, ZUnpack, ZPack, IsAnyByte, b, 128);
    UnpackZRange(b);
  }

  lemma {:induction false} UnpackZRange(b: seq<byte>)
    ensures All(IsZ, UnpackZ(b))
    decreases |b|
  {
    if |b| >= 5 {
      hide ZUnpack, IsZ;
      ZOnto(b[..5]);
      UnpackZRange(b[5..]);
    }
  }
}
