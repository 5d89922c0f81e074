/** ML-DSA arithmetic: Montgomery reduction, the two rings behind it, and the table of zetas. */
module DsaField {
  import opened Rings
  import opened Transform
  import opened RootTables
  import opened Homomorphisms
  import opened ModArith
  import opened MachineInts

  const Q: int := 8380417
  const QINV: int := 58728449
  const TWO32: int := 0x1_0000_0000

  /** The inverse of 2^32 modulo Q. */
  const RINV: int := 8265825

  type Zq = x: int | 0 <= x < 8380417

  // ---- Montgomery reduction ----------------------------------------------------------------------

  function MontFactor(a: int): (t: int)
    ensures FitsI32(t)
  {
    WrapI32(WrapI32(a) * QINV)
  }

  function MontgomeryReduce(a: int): int {
    (a - MontFactor(a) * Q) / TWO32
  }

  /** The division is exact, so the result is a / 2^32 modulo Q. */
  lemma MontgomeryExact(a: int)
    ensures MontgomeryReduce(a) * TWO32 == a - MontFactor(a) * Q
    ensures MontgomeryReduce(a) % Q == a * RINV % Q
  {
    var t, r := MontFactor(a), MontgomeryReduce(a);
    WrapMod(a);
    WrapMod(WrapI32(a) * QINV);
    ModMul(WrapI32(a), QINV, TWO32);
    ModMul(a, QINV, TWO32);
    FactorDivides(a, t);
    ModMultiple(r * TWO32, t, Q);
    assert a == r * TWO32 + Q * t;
    ModMul(a, RINV, Q);
    ModMul(r * TWO32, RINV, Q);
    assert r * TWO32 * RINV == r + Q * (r * ((TWO32 * RINV - 1) / Q));
    ModMultiple(r, r * ((TWO32 * RINV - 1) / Q), Q);
  }

  lemma WrapMod(x: int)
    ensures WrapI32(x) % TWO32 == x % TWO32
  {
  }

  lemma FactorDivides(a: int, t: int)
    requires t % TWO32 == a * QINV % TWO32
    ensures (a - t * Q) % TWO32 == 0
  {
    ModMul(t, Q, TWO32);
    ModMul(a * QINV, Q, TWO32);
    assert a * QINV * Q == a + TWO32 * (a * 114592);
    ModMultiple(a, a * 114592, TWO32);
    ModAdd(a, t * Q, TWO32);
    ModAdd(a % TWO32, t * Q, TWO32);
  }

  lemma MontgomeryTop()
    ensures MontFactor(0x8000_0000 * Q) == -0x8000_0000
  {
  }

  /** The documented bound holds on the whole documented range, except at its upper end, where the result is Q. */
  lemma MontgomeryBound(a: int)
    requires -(0x8000_0000 * Q) <= a <= 0x8000_0000 * Q
    ensures -Q < MontgomeryReduce(a) <= Q
    ensures MontgomeryReduce(a) == Q <==> a == 0x8000_0000 * Q
  {
    hide MontFactor, MontgomeryReduce;
    MontgomeryExact(a);
    MontgomeryTop();
    var t := MontFactor(a);
    assert MontgomeryReduce(a) * TWO32 == a - t * Q;
    assert t > -0x8000_0000 || a < 0x8000_0000 * Q ==> a - t * Q < TWO32 * Q;
  }

  /** The value of a small argument is at most half of Q, and a little. */
  lemma MontgomeryTight(a: int, bound: nat)
    requires -(bound * TWO32) <= a <= bound * TWO32
    ensures -(4190209 + bound) <= MontgomeryReduce(a) <= 4190209 + bound
  {
    MontgomeryExact(a);
  }

  // ---- the integers with Montgomery multiplication, and the ring of their residues --------------------

  /** What the code computes with.  These operations do not obey the ring laws. */
  const IntOps: Ops<int> := Ops(0, TWO32, (x, y) => x + y, (x, y) => x - y, (x, y) => MontgomeryReduce(x * y))

  function AddM(x: int, y: int): Zq { (x + y) % Q }

  function SubM(x: int, y: int): Zq { (x - y) % Q }

  function MulM(x: int, y: int): Zq { (x * y * RINV) % Q }

  /** Z_Q with multiplication x * y / 2^32: a ring whose one is 2^32 mod Q. */
  const MontRing: Ops<Zq> := Ops(0, 4193792, (x, y) => AddM(x, y), (x, y) => SubM(x, y), (x, y) => MulM(x, y))

  function Res(x: int): Zq { x % Q }

  lemma MontAddLaws(x: int, y: int, z: int)
    ensures AddM(AddM(x, y), z) == AddM(x, AddM(y, z)) && AddM(x, y) == AddM(y, x)
    ensures SubM(x, y) == AddM(x, SubM(0, y)) && AddM(x, SubM(0, x)) == 0
  {
    ModAdd(x + y, z, Q);
    ModAdd(x, y + z, Q);
    ModAdd(x, 0 - y, Q);
    ModAdd(x, 0 - x, Q);
  }

  /** One reduction is enough for a product of residues. */
  lemma MulMNorm(x: int, y: int)
    ensures MulM(x % Q, y) == MulM(x, y) && MulM(x, y % Q) == MulM(x, y)
  {
    ScaledResidue(x, y, RINV, Q);
  }

  lemma ScaledResidue(x: int, y: int, r: int, q: int)
    requires q > 0
    ensures x % q * y * r % q == x * y * r % q && x * (y % q) * r % q == x * y * r % q
  {
    ModMul(x, y * r, q);
    ModMul(y, x * r, q);
    assert x % q * y * r == x % q * (y * r) && x * y * r == x * (y * r) == y * (x * r);
    assert x * (y % q) * r == y % q * (x * r);
  }

  lemma MontMulLaws(x: int, y: int, z: int)
    ensures MulM(MulM(x, y), z) == MulM(x, MulM(y, z)) && MulM(x, y) == MulM(y, x)
  {
    MulMNorm(x * y * RINV, z);
    MulMNorm(x, y * z * RINV);
    assert x * y * RINV * z * RINV == x * (y * z * RINV) * RINV;
    assert x * y * RINV == y * x * RINV;
  }

  lemma MontDistrib(x: int, y: int, z: int)
    ensures MulM(x, AddM(y, z)) == AddM(MulM(x, y), MulM(x, z))
  {
    var p, r := x * y * RINV, x * z * RINV;
    MulMNorm(x, y + z);
    ScaledSum(x, y, z);
    hide MulM;
    ModAdd(p, r, Q);
    ModAdd(p % Q, r, Q);
  }

  lemma ScaledSum(x: int, y: int, z: int)
    ensures x * (y + z) * RINV == x * y * RINV + x * z * RINV
    ensures MulM(x, y + z) == (x * (y + z) * RINV) % Q
    ensures MulM(x, y) == (x * y * RINV) % Q && MulM(x, z) == (x * z * RINV) % Q
  {
    assert x * (y + z) == x * y + x * z;
  }

  lemma MontOne(x: int)
    requires 0 <= x < Q
    ensures MulM(4193792, x) == x
  {
    var k := (4193792 * RINV - 1) / Q;
    assert 4193792 * x * RINV == x + Q * (x * k);
    ModMultiple(x, x * k, Q);
  }

  lemma MontLaws(x: Zq, y: Zq, z: Zq)
    ensures AddAssocAt(MontRing, x, y, z) && MulAssocAt(MontRing, x, y, z) && DistribAt(MontRing, x, y, z)
    ensures AddCommAt(MontRing, x, y) && MulCommAt(MontRing, x, y) && SubAt(MontRing, x, y)
    ensures ZeroAt(MontRing, x) && OneAt(MontRing, x)
  {
    hide AddM, SubM, MulM;
    ZeroPlus(x);
    MontAddLaws(x, y, z);
    MontMulLaws(x, y, z);
    MontDistrib(x, y, z);
    MontOne(x);
  }

  lemma ZeroPlus(x: Zq)
    ensures AddM(0, x) == x
  {
    ModSmall(x, Q);
  }

  lemma MontIsRing()
    ensures IsRing(MontRing)
  {
    hide AddM, SubM, MulM, AddAssocAt, MulAssocAt, DistribAt, AddCommAt, MulCommAt, SubAt, ZeroAt, OneAt;
    forall x: Zq, y: Zq, z: Zq
      ensures AddAssocAt(MontRing, x, y, z) && MulAssocAt(MontRing, x, y, z) && DistribAt(MontRing, x, y, z)
    {
      MontLaws(x, y, z);
    }
    forall x: Zq, y: Zq ensures AddCommAt(MontRing, x, y) && MulCommAt(MontRing, x, y) && SubAt(MontRing, x, y) {
      MontLaws(x, y, 0);
    }
    forall x: Zq ensures ZeroAt(MontRing, x) && OneAt(MontRing, x) {
      MontLaws(x, 0, 0);
    }
  }

  lemma ResidueHomAt(x: int, y: int)
    ensures Res(x + y) == AddM(Res(x), Res(y)) && Res(x - y) == SubM(Res(x), Res(y))
    ensures Res(MontgomeryReduce(x * y)) == MulM(Res(x), Res(y))
  {
    hide MontgomeryReduce;
    ModAdd(x, y % Q, Q);
    ModAdd(x, y, Q);
    MontgomeryExact(x * y);
    MulMNorm(x, y % Q);
    MulMNorm(x, y);
  }

  /** Taking residues turns the arithmetic of the code into arithmetic of the ring. */
  lemma ResidueHom()
    ensures Hom(IntOps, MontRing, Res)
  {
    forall x: int, y: int ensures HomAt(IntOps, MontRing, Res, x, y) {
      hide AddM, SubM, MulM, Res, MontgomeryReduce;
      ResidueHomAt(x, y);
    }
  }

  // ---- ZETAS ------------------------------------------------------------------------------------------

  function Zeta(k: int): (z: int)
    ensures -4190208 <= z <= 4190208
  {
    match k
    case 0 => 0 case 1 => 25847 case 2 => -2608894 case 3 => -518909
    case 4 => 237124 case 5 => -777960 case 6 => -876248 case 7 => 466468
    case 8 => 1826347 case 9 => 2353451 case 10 => -359251 case 11 => -2091905
    case 12 => 3119733 case 13 => -2884855 case 14 => 3111497 case 15 => 2680103
    case 16 => 2725464 case 17 => 1024112 case 18 => -1079900 case 19 => 3585928
    case 20 => -549488 case 21 => -1119584 case 22 => 2619752 case 23 => -2108549
    case 24 => -2118186 case 25 => -3859737 case 26 => -1399561 case 27 => -3277672
    case 28 => 1757237 case 29 => -19422 case 30 => 4010497 case 31 => 280005
    case 32 => 2706023 case 33 => 95776 case 34 => 3077325 case 35 => 3530437
    case 36 => -1661693 case 37 => -3592148 case 38 => -2537516 case 39 => 3915439
    case 40 => -3861115 case 41 => -3043716 case 42 => 3574422 case 43 => -2867647
    case 44 => 3539968 case 45 => -300467 case 46 => 2348700 case 47 => -539299
    case 48 => -1699267 case 49 => -1643818 case 50 => 3505694 case 51 => -3821735
    case 52 => 3507263 case 53 => -2140649 case 54 => -1600420 case 55 => 3699596
    case 56 => 811944 case 57 => 531354 case 58 => 954230 case 59 => 3881043
    case 60 => 3900724 case 61 => -2556880 case 62 => 2071892 case 63 => -2797779
    case 64 => -3930395 case 65 => -1528703 case 66 => -3677745 case 67 => -3041255
    case 68 => -1452451 case 69 => 3475950 case 70 => 2176455 case 71 => -1585221
    case 72 => -1257611 case 73 => 1939314 case 74 => -4083598 case 75 => -1000202
    case 76 => -3190144 case 77 => -3157330 case 78 => -3632928 case 79 => 126922
    case 80 => 3412210 case 81 => -983419 case 82 => 2147896 case 83 => 2715295
    case 84 => -2967645 case 85 => -3693493 case 86 => -411027 case 87 => -2477047
    case 88 => -671102 case 89 => -1228525 case 90 => -22981 case 91 => -1308169
    case 92 => -381987 case 93 => 1349076 case 94 => 1852771 case 95 => -1430430
    case 96 => -3343383 case 97 => 264944 case 98 => 508951 case 99 => 3097992
    case 100 => 44288 case 101 => -1100098 case 102 => 904516 case 103 => 3958618
    case 104 => -3724342 case 105 => -8578 case 106 => 1653064 case 107 => -3249728
    case 108 => 2389356 case 109 => -210977 case 110 => 759969 case 111 => -1316856
    case 112 => 189548 case 113 => -3553272 case 114 => 3159746 case 115 => -1851402
    case 116 => -2409325 case 117 => -177440 case 118 => 1315589 case 119 => 1341330
    case 120 => 1285669 case 121 => -1584928 case 122 => -812732 case 123 => -1439742
    case 124 => -3019102 case 125 => -3881060 case 126 => -3628969 case 127 => 3839961
    case 128 => 2091667 case 129 => 3407706 case 130 => 2316500 case 131 => 3817976
    case 132 => -3342478 case 133 => 2244091 case 134 => -2446433 case 135 => -3562462
    case 136 => 266997 case 137 => 2434439 case 138 => -1235728 case 139 => 3513181
    case 140 => -3520352 case 141 => -3759364 case 142 => -1197226 case 143 => -3193378
    case 144 => 900702 case 145 => 1859098 case 146 => 909542 case 147 => 819034
    case 148 => 495491 case 149 => -1613174 case 150 => -43260 case 151 => -522500
    case 152 => -655327 case 153 => -3122442 case 154 => 2031748 case 155 => 3207046
    case 156 => -3556995 case 157 => -525098 case 158 => -768622 case 159 => -3595838
    case 160 => 342297 case 161 => 286988 case 162 => -2437823 case 163 => 4108315
    case 164 => 3437287 case 165 => -3342277 case 166 => 1735879 case 167 => 203044
    case 168 => 2842341 case 169 => 2691481 case 170 => -2590150 case 171 => 1265009
    case 172 => 4055324 case 173 => 1247620 case 174 => 2486353 case 175 => 1595974
    case 176 => -3767016 case 177 => 1250494 case 178 => 2635921 case 179 => -3548272
    case 180 => -2994039 case 181 => 1869119 case 182 => 1903435 case 183 => -1050970
    case 184 => -1333058 case 185 => 1237275 case 186 => -3318210 case 187 => -1430225
    case 188 => -451100 case 189 => 1312455 case 190 => 3306115 case 191 => -1962642
    case 192 => -1279661 case 193 => 1917081 case 194 => -2546312 case 195 => -1374803
    case 196 => 1500165 case 197 => 777191 case 198 => 2235880 case 199 => 3406031
    case 200 => -542412 case 201 => -2831860 case 202 => -1671176 case 203 => -1846953
    case 204 => -2584293 case 205 => -3724270 case 206 => 594136 case 207 => -3776993
    case 208 => -2013608 case 209 => 2432395 case 210 => 2454455 case 211 => -164721
    case 212 => 1957272 case 213 => 3369112 case 214 => 185531 case 215 => -1207385
    case 216 => -3183426 case 217 => 162844 case 218 => 1616392 case 219 => 3014001
    case 220 => 810149 case 221 => 1652634 case 222 => -3694233 case 223 => -1799107
    case 224 => -3038916 case 225 => 3523897 case 226 => 3866901 case 227 => 269760
    case 228 => 2213111 case 229 => -975884 case 230 => 1717735 case 231 => 472078
    case 232 => -426683 case 233 => 1723600 case 234 => -1803090 case 235 => 1910376
    case 236 => -1667432 case 237 => -1104333 case 238 => -260646 case 239 => -3833893
    case 240 => -2939036 case 241 => -2235985 case 242 => -420899 case 243 => -2286327
    case 244 => 183443 case 245 => -976891 case 246 => 1612842 case 247 => -3545687
    case 248 => -554416 case 249 => 3919660 case 250 => -48306 case 251 => -1362209
    case 252 => 3937738 case 253 => 1400424 case 254 => -846154 case 255 => 1976782
    case _ => 0
  }

  /** The 512th root of unity 1753, times 2^32. */
  const ROOT: Zq := 2091667

  /** The zetas as ring elements. */
  function RingZeta(k: int): Zq { Res(Zeta(k)) }

  lemma TableStepLow(l: nat, b: nat)
    requires 1 <= l < 5 && 1 <= b < Pow2(l)
    ensures l == 1 ==> (Zeta(2 + b) - 3765607 * Zeta(b)) % Q == 0
    ensures l == 2 ==> (Zeta(4 + b) - 5178923 * Zeta(b)) % Q == 0
    ensures l == 3 ==> (Zeta(8 + b) - 7778734 * Zeta(b)) % Q == 0
    ensures l == 4 ==> (Zeta(16 + b) - 5010068 * Zeta(b)) % Q == 0
  {
    assert Pow2(l) <= 16;
  }

  lemma TableStep5_0(b: nat)
    requires 1 <= b < 32
    ensures (Zeta(32 + b) - 3602218 * Zeta(b)) % Q == 0
  {
  }

  lemma TableStep6_0(b: nat)
    requires 1 <= b < 32
    ensures (Zeta(64 + b) - 3073009 * Zeta(b)) % Q == 0
  {
  }

  lemma TableStep6_1(b: nat)
    requires 32 <= b < 64
    ensures (Zeta(64 + b) - 3073009 * Zeta(b)) % Q == 0
  {
  }

  lemma TableStep7_0(b: nat)
    requires 1 <= b < 32
    ensures (Zeta(128 + b) - 1753 * Zeta(b)) % Q == 0
  {
  }

  lemma TableStep7_1(b: nat)
    requires 32 <= b < 64
    ensures (Zeta(128 + b) - 1753 * Zeta(b)) % Q == 0
  {
  }

  lemma TableStep7_2(b: nat)
    requires 64 <= b < 80
    ensures (Zeta(128 + b) - 1753 * Zeta(b)) % Q == 0
  {
  }

  lemma TableStep7_3(b: nat)
    requires 80 <= b < 96
    ensures (Zeta(128 + b) - 1753 * Zeta(b)) % Q == 0
  {
  }

  lemma TableStep7_4(b: nat)
    requires 96 <= b < 112
    ensures (Zeta(128 + b) - 1753 * Zeta(b)) % Q == 0
  {
  }

  lemma TableStep7_5(b: nat)
    requires 112 <= b < 128
    ensures (Zeta(128 + b) - 1753 * Zeta(b)) % Q == 0
  {
  }

  /** A congruence with a plain factor w is a Montgomery product with w * 2^32. */
  lemma StepInRing(w: int, m: int, x: int, y: int)
    requires (x - w * y) % Q == 0 && m == w * TWO32 % Q
    ensures Res(x) == MulM(m, Res(y))
  {
    ModEqualZero(x, w * y);
    MulMNorm(m, y);
    MulMNorm(w * TWO32, y);
    UnscaledProduct(w, y);
    hide MulM;
  }

  lemma UnscaledProduct(w: int, y: int)
    ensures MulM(w * TWO32, y) == (w * y) % Q
  {
    var p, k := w * y, (TWO32 * RINV - 1) / Q;
    assert w * TWO32 * y == p * TWO32;
    assert p * TWO32 * RINV == p + Q * (p * k);
    ModMultiple(p, p * k, Q);
  }

  lemma ModEqualZero(x: int, y: int)
    requires (x - y) % Q == 0
    ensures x % Q == y % Q
  {
    assert x == y + Q * ((x - y) / Q);
    ModMultiple(y, (x - y) / Q, Q);
  }

  lemma Level1(b: nat)
    requires 1 <= b < 2
    ensures RingZeta(2 + b) == MulM(5771523, RingZeta(b))
  {
    assert Pow2(1) == 2;
    hide Zeta, MulM, Res;
    TableStepLow(1, b);
    StepInRing(3765607, 5771523, Zeta(2 + b), Zeta(b));
  }

  lemma Level2(b: nat)
    requires 1 <= b < 4
    ensures RingZeta(4 + b) == MulM(237124, RingZeta(b))
  {
    assert Pow2(2) == 4;
    hide Zeta, MulM, Res;
    TableStepLow(2, b);
    StepInRing(5178923, 237124, Zeta(4 + b), Zeta(b));
  }

  lemma Level3(b: nat)
    requires 1 <= b < 8
    ensures RingZeta(8 + b) == MulM(1826347, RingZeta(b))
  {
    assert Pow2(3) == 8;
    hide Zeta, MulM, Res;
    TableStepLow(3, b);
    StepInRing(7778734, 1826347, Zeta(8 + b), Zeta(b));
  }

  lemma Level4(b: nat)
    requires 1 <= b < 16
    ensures RingZeta(16 + b) == MulM(2725464, RingZeta(b))
  {
    assert Pow2(4) == 16;
    hide Zeta, MulM, Res;
    TableStepLow(4, b);
    StepInRing(5010068, 2725464, Zeta(16 + b), Zeta(b));
  }

  lemma Level5(b: nat)
    requires 1 <= b < 32
    ensures RingZeta(32 + b) == MulM(2706023, RingZeta(b))
  {
    assert Pow2(5) == 32;
    hide Zeta, MulM, Res;
    TableStep5_0(b);
    StepInRing(3602218, 2706023, Zeta(32 + b), Zeta(b));
  }

  lemma Level6(b: nat)
    requires 1 <= b < 64
    ensures RingZeta(64 + b) == MulM(4450022, RingZeta(b))
  {
    assert Pow2(6) == 64;
    hide Zeta, MulM, Res;
    if b < 32 { TableStep6_0(b); } else { TableStep6_1(b); }
    StepInRing(3073009, 4450022, Zeta(64 + b), Zeta(b));
  }

  lemma Level7(b: nat)
    requires 1 <= b < 128
    ensures RingZeta(128 + b) == MulM(2091667, RingZeta(b))
  {
    assert Pow2(7) == 128;
    hide Zeta, MulM, Res;
    if b < 32 { TableStep7_0(b); } else if b < 64 { TableStep7_1(b); } else if b < 80 { TableStep7_2(b);
        } else if b < 96 { TableStep7_3(b); } else if b < 112 { TableStep7_4(b); } else { TableStep7_5(b); }
    StepInRing(1753, 2091667, Zeta(128 + b), Zeta(b));
  }

  /** The powers of the root that single bits select: RPow(root, 2^(7-l)) for l = 7, 6, ..., 0, and one more. */
  lemma RootPowers()
    ensures RPow(MontRing, ROOT, 1) == 2091667
    ensures RPow(MontRing, ROOT, 2) == 4450022
    ensures RPow(MontRing, ROOT, 4) == 2706023
    ensures RPow(MontRing, ROOT, 8) == 2725464
    ensures RPow(MontRing, ROOT, 16) == 1826347
    ensures RPow(MontRing, ROOT, 32) == 237124
    ensures RPow(MontRing, ROOT, 64) == 5771523
    ensures RPow(MontRing, ROOT, 128) == 25847
    ensures RPow(MontRing, ROOT, 256) == 4186625
  {
    hide RPow, IsRing;
    FirstPower();
    RootSquare(1, 2091667);
    RootSquare(2, 4450022);
    RootSquare(4, 2706023);
    RootSquare(8, 2725464);
    RootSquare(16, 1826347);
    RootSquare(32, 237124);
    RootSquare(64, 5771523);
    RootSquare(128, 25847);
  }

  lemma RootSquare(e: nat, r: int)
    requires RPow(MontRing, ROOT, e) == r
    ensures RPow(MontRing, ROOT, 2 * e) == r * r * RINV % Q
  {
    hide RPow;
    PowStep(e, e);
  }

  lemma FirstPower()
    ensures RPow(MontRing, ROOT, 1) == ROOT
  {
    MontIsRing();
    RingOne(MontRing, ROOT);
  }

  lemma PowStep(m: nat, n: nat)
    ensures RPow(MontRing, ROOT, m + n) == MulM(RPow(MontRing, ROOT, m), RPow(MontRing, ROOT, n))
  {
    hide RPow, IsRing, MulM;
    MontIsRing();
    RPowAdd(MontRing, ROOT, m, n);
  }

  lemma {:induction false} RevTop(n: nat, l: nat, b: nat)
    requires l < n && b < Pow2(l)
    ensures Rev(n, Pow2(l) + b) == Pow2(n - 1 - l) + Rev(n, b)
    decreases n
  {
    if l > 0 {
      assert (Pow2(l) + b) / 2 == Pow2(l - 1) + b / 2;
      RevTop(n - 1, l - 1, b / 2);
    }
  }

  ghost predicate Entry(k: nat) { EntryAt(MontRing, ROOT, 8, RingZeta, k) }

  /** Entry top + b of the table, for b < top = 2^l, from entry b. */
  lemma NextEntry(l: nat, top: nat, half: nat, b: nat)
    requires l < 8 && top == Pow2(l) && half == Pow2(7 - l) && b < top
    requires if b == 0 then RingZeta(top) == RPow(MontRing, ROOT, half)
             else Entry(b) && RingZeta(top + b) == MulM(RPow(MontRing, ROOT, half), RingZeta(b))
    ensures Entry(top + b)
  {
    hide RPow, Rev, Pow2, RingZeta, MulM, MontRing;
    RevTop(8, l, b);
    RevZero(8);
    PowStep(half, Rev(8, b));
  }

  lemma {:induction false} TableEntry(k: nat)
    requires 1 <= k < 256
    ensures Entry(k)
    decreases k
  {
    hide RPow, RingZeta, MulM, MontRing, Entry, Zeta;
    RootPowers();
    assert Pow2(0) == 1 && Pow2(1) == 2 && Pow2(2) == 4 && Pow2(3) == 8;
    assert Pow2(4) == 16 && Pow2(5) == 32 && Pow2(6) == 64 && Pow2(7) == 128;
    FirstEntries();
    if k >= 128 {
      if k > 128 { TableEntry(k - 128); Level7(k - 128); }
      NextEntry(7, 128, 1, k - 128);
    } else if k >= 64 {
      if k > 64 { TableEntry(k - 64); Level6(k - 64); }
      NextEntry(6, 64, 2, k - 64);
    } else if k >= 32 {
      if k > 32 { TableEntry(k - 32); Level5(k - 32); }
      NextEntry(5, 32, 4, k - 32);
    } else if k >= 16 {
      if k > 16 { TableEntry(k - 16); Level4(k - 16); }
      NextEntry(4, 16, 8, k - 16);
    } else if k >= 8 {
      if k > 8 { TableEntry(k - 8); Level3(k - 8); }
      NextEntry(3, 8, 16, k - 8);
    } else if k >= 4 {
      if k > 4 { TableEntry(k - 4); Level2(k - 4); }
      NextEntry(2, 4, 32, k - 4);
    } else if k >= 2 {
      if k > 2 { TableEntry(k - 2); Level1(k - 2); }
      NextEntry(1, 2, 64, k - 2);
    } else {
      NextEntry(0, 1, 128, 0);
    }
  }

  lemma FirstEntries()
    ensures RingZeta(1) == 25847
    ensures RingZeta(2) == 5771523
    ensures RingZeta(4) == 237124
    ensures RingZeta(8) == 1826347
    ensures RingZeta(16) == 2725464
    ensures RingZeta(32) == 2706023
    ensures RingZeta(64) == 4450022
    ensures RingZeta(128) == 2091667
  {
  }

  /** The literal table holds 1753^brv8(k) * 2^32 mod Q, so it serves both directions of the transform. */
  lemma ZetaTable()
    ensures SquareRoots(MontRing, RingZeta, 256) && Paired(MontRing, RingZeta, 256)
  {
    assert Pow2(8) == 256;
    assert Neg(MontRing, MontRing.one) == 4186625;
    forall k | 1 <= k < 256 ensures EntryAt(MontRing, ROOT, 8, RingZeta, k) {
      hide EntryAt, RingZeta;
      TableEntry(k);
    }
    hide EntryAt, RingZeta, RPow, SquareRoots, Paired, IsRing, MontRing, Neg;
    RootPowers();
    MontIsRing();
    TableSquares(MontRing, ROOT, 8, RingZeta);
    TablePairs(MontRing, ROOT, 8, RingZeta);
  }
}
