/** Ed25519 over an abstract group (section 5.1 of RFC 8032): scalar multiplication, signing and verification. */
module Ed25519 {
  import opened ModArith
  import opened MachineInts
  import opened Radix
  import opened ByteNumbers
  import opened Clamping
  import opened Ed25519Scalars

  datatype Option<+T> = None | Some(value: T)

  /** Point operations on representations P of the elements of a group G; `value` is the element represented. */
  datatype Curve<!P, !G> = Curve(value: P -> G, good: P -> bool, zero: G, plus: (G, G) -> G,
                                 identity: P, add: (P, P) -> P, same: (P, P) -> bool,
                                 compress: P -> seq<byte>, decompress: seq<byte> -> Option<P>, base: seq<byte>)

  ghost predicate CommAt<P, G>(C: Curve<P, G>, g: G, h: G) { C.plus(g, h) == C.plus(h, g) }

  ghost predicate AssocAt<P, G>(C: Curve<P, G>, g: G, h: G, k: G) { C.plus(C.plus(g, h), k) == C.plus(g, C.plus(h, k)) }

  ghost predicate ZeroAt<P, G>(C: Curve<P, G>, g: G) { C.plus(C.zero, g) == g }

  /** The elements form a commutative monoid; multiples need no more. */
  ghost predicate IsGroup<P, G(!new)>(C: Curve<P, G>) {
    && (forall g: G, h: G :: CommAt(C, g, h)) && (forall g: G, h: G, k: G :: AssocAt(C, g, h, k)) &&
        (forall g: G :: ZeroAt(C, g))
  }

  /** The point formulas compute the group operations on good representations, and codes are canonical. */
  ghost predicate IsCurve<P(!new), G(!new)>(C: Curve<P, G>) {
    && IsGroup(C) && C.good(C.identity) && C.value(C.identity) == C.zero
    && (forall p: P, q: P :: C.good(p) && C.good(q) ==>
          C.good(C.add(p, q)) && C.value(C.add(p, q)) == C.plus(C.value(p), C.value(q)))
    && (forall p: P, q: P :: C.good(p) && C.good(q) ==> (C.same(p, q) <==> C.value(p) == C.value(q)))
    && (forall p: P :: C.good(p) ==> |C.compress(p)| == 32)
    && (forall p: P :: C.good(p) ==> Decodes(C, C.compress(p), C.value(p)))
    && (forall s: seq<byte> :: C.decompress(s).Some? ==> C.good(C.decompress(s).value))
    && C.decompress(C.base).Some?
    && Times(C, L, C.value(C.decompress(C.base).value)) == C.zero
  }

  ghost predicate Decodes<P, G>(C: Curve<P, G>, s: seq<byte>, g: G) {
    C.decompress(s).Some? && C.value(C.decompress(s).value) == g
  }

  /** The n-th multiple of g. */
  ghost function Times<P, G>(C: Curve<P, G>, n: nat, g: G): G {
    if n == 0 then C.zero else C.plus(g, Times(C, n - 1, g))
  }

  // ---- multiples --------------------------------------------------------------------------------------------------

  lemma {:induction false} TimesAdd<P, G(!new)>(C: Curve<P, G>, m: nat, n: nat, g: G)
    requires IsGroup(C)
    ensures Times(C, m + n, g) == C.plus(Times(C, m, g), Times(C, n, g))
    decreases m
  {
    if m == 0 {
      assert ZeroAt(C, Times(C, n, g));
    } else {
      TimesAdd(C, m - 1, n, g);
      assert AssocAt(C, g, Times(C, m - 1, g), Times(C, n, g));
    }
  }

  lemma {:induction false} TimesZero<P, G(!new)>(C: Curve<P, G>, n: nat)
    requires IsGroup(C)
    ensures Times(C, n, C.zero) == C.zero
    decreases n
  {
    if n > 0 {
      TimesZero(C, n - 1);
      assert ZeroAt(C, C.zero);
    }
  }

  lemma {:induction false} TimesMul<P, G(!new)>(C: Curve<P, G>, m: nat, n: nat, g: G)
    requires IsGroup(C)
    ensures m * n >= 0 && Times(C, m * n, g) == Times(C, m, Times(C, n, g))
    decreases m
  {
    MulNonNegative(m, n);
    PreviousMultiple(m, n);
    if m > 0 {
      TimesMul(C, m - 1, n, g);
      TimesAdd(C, n, (m - 1) * n, g);
    }
  }

  lemma PreviousMultiple(m: nat, n: nat)
    ensures m == 0 ==> m * n == 0
    ensures m > 0 ==> (m - 1) * n >= 0 && m * n == n + (m - 1) * n
  {
    if m > 0 {
      MulNonNegative(m - 1, n);
    }
  }

  /** Multiples of an element of order L depend only on the residue. */
  lemma TimesMod<P, G(!new)>(C: Curve<P, G>, n: nat, g: G)
    requires IsGroup(C) && Times(C, L, g) == C.zero
    ensures Times(C, n % L, g) == Times(C, n, g)
  {
    hide Times;
    var q := n / L;
    MulNonNegative(q, L);
    TimesMul(C, q, L, g);
    TimesZero(C, q);
    assert n == q * L + n % L;
    TimesAdd(C, q * L, n % L, g);
    assert ZeroAt(C, Times(C, n % L, g));
  }

  lemma AddValue<P(!new), G(!new)>(C: Curve<P, G>, p: P, q: P)
    requires IsCurve(C) && C.good(p) && C.good(q)
    ensures C.good(C.add(p, q)) && C.value(C.add(p, q)) == C.plus(C.value(p), C.value(q))
    ensures C.same(p, q) <==> C.value(p) == C.value(q)
  {
  }

  lemma CompressDecodes<P(!new), G(!new)>(C: Curve<P, G>, p: P)
    requires IsCurve(C) && C.good(p)
    ensures |C.compress(p)| == 32 && C.decompress(C.compress(p)).Some?
    ensures C.good(C.decompress(C.compress(p)).value) && C.value(C.decompress(C.compress(p)).value) == C.value(p)
  {
    assert Decodes(C, C.compress(p), C.value(p));
  }

  lemma BaseOrder<P(!new), G(!new)>(C: Curve<P, G>)
    requires IsCurve(C)
    ensures IsGroup(C) && C.decompress(C.base).Some? && C.good(C.decompress(C.base).value) &&
            Times(C, L, C.value(C.decompress(C.base).value)) == C.zero
    ensures C.good(C.identity) && C.value(C.identity) == C.zero
  {
  }

  // ---- double and add ---------------------------------------------------------------------------------------------

  /** The state after i bits: the sum so far, and the doubled addend. */
  function Ladder<P, G>(C: Curve<P, G>, base: P, s: seq<byte>, i: nat): (P, P)
    requires i <= 8 * |s|
  {
    if i == 0 then (C.identity, base)
    else
      var (result, addend) := Ladder(C, base, s, i - 1);
      var sum := C.add(result, addend);
      (if BitOf(s, i - 1) == 1 then sum else result, C.add(addend, addend))
  }

  function ScalarMul<P, G>(C: Curve<P, G>, base: P, s: seq<byte>): P
    requires |s| == 32
  {
    Ladder(C, base, s, 256).0
  }

  /** The addition is computed for every bit, and selected without a branch on the bit. */
  method ScalarMulLoop<P, G>(C: Curve<P, G>, base: P, s: seq<byte>) returns (result: P)
    requires |s| == 32
    ensures result == ScalarMul(C, base, s)
  {
    hide BitOf;
    result := C.identity;
    var addend, i := base, 0;
    while i < 256
      invariant 0 <= i <= 256 && (result, addend) == Ladder(C, base, s, i)
    {
      var bit := BitOf(s, i);
      var sum := C.add(result, addend);
      result := PointSelect(bit, result, sum);
      addend := C.add(addend, addend);
      i := i + 1;
    }
  }

  /** `point_select`: b for a set bit, a otherwise. */
  function PointSelect<P>(bit: byte, a: P, b: P): P { if bit == 1 then b else a }

  /** The representations of n g and p g. */
  ghost predicate Holds<P, G>(C: Curve<P, G>, g: G, n: int, p: int, result: P, addend: P) {
    n >= 0 && p >= 0 && C.good(result) && C.good(addend) && C.value(result) == Times(C, n, g) &&
        C.value(addend) == Times(C, p, g)
  }

  lemma LadderStep<P(!new), G(!new)>(C: Curve<P, G>, g: G, n: int, p: int, result: P, addend: P)
    requires IsCurve(C) && Holds(C, g, n, p, result, addend)
    ensures Holds(C, g, n + p, p + p, C.add(result, addend), C.add(addend, addend))
    ensures Holds(C, g, n, p + p, result, C.add(addend, addend))
  {
    hide IsCurve, IsGroup, Times;
    BaseOrder(C);
    AddValue(C, result, addend);
    AddValue(C, addend, addend);
    TimesAdd(C, n, p, g);
    TimesAdd(C, p, p, g);
  }

  lemma LadderStart<P(!new), G(!new)>(C: Curve<P, G>, base: P)
    requires IsCurve(C) && C.good(base)
    ensures Holds(C, C.value(base), 0, 1, C.identity, base)
  {
    hide IsCurve, Times;
    BaseOrder(C);
    TimesOne(C, C.value(base));
  }

  lemma TimesOne<P, G(!new)>(C: Curve<P, G>, g: G)
    requires IsGroup(C)
    ensures Times(C, 0, g) == C.zero && Times(C, 1, g) == g
  {
    assert CommAt(C, g, C.zero) && ZeroAt(C, g) && Times(C, 1, g) == C.plus(g, C.zero);
  }

  lemma NextBits(s: seq<byte>, i: nat)
    requires 0 < i <= 8 * |s|
    ensures LowBits(s, i) == LowBits(s, i - 1) + (if BitOf(s, i - 1) == 1 then Pow(2, i - 1) else 0)
    ensures Pow(2, i) == Pow(2, i - 1) + Pow(2, i - 1)
  {
    hide DigitBit;
    var p := Pow(2, i - 1);
    assert p * 1 == p && p * 0 == 0;
  }

  lemma {:induction false} LadderValue<P(!new), G(!new)>(C: Curve<P, G>, base: P, s: seq<byte>, i: nat)
    requires IsCurve(C) && C.good(base) && i <= 8 * |s|
    ensures Holds(C, C.value(base), LowBits(s, i), Pow(2, i), Ladder(C, base, s, i).0, Ladder(C, base, s, i).1)
    decreases i
  {
    if i == 0 {
      hide IsCurve, Holds;
      LadderStart(C, base);
    } else {
      hide BitOf, IsCurve, Holds, Pow, LowBits;
      LadderValue(C, base, s, i - 1);
      NextBits(s, i);
      var was := Ladder(C, base, s, i - 1);
      LadderStep(C, C.value(base), LowBits(s, i - 1), Pow(2, i - 1), was.0, was.1);
    }
  }

  /** For every 256-bit scalar, the loop returns the integer multiple. */
  lemma ScalarMulValue<P(!new), G(!new)>(C: Curve<P, G>, base: P, s: seq<byte>)
    requires IsCurve(C) && C.good(base) && |s| == 32
    ensures LeVal(s) >= 0 && C.good(ScalarMul(C, base, s)) &&
            C.value(ScalarMul(C, base, s)) == Times(C, LeVal(s), C.value(base))
  {
    hide Ladder, Times, LowBits, LeVal, Pow, IsCurve;
    LeBound(s);
    LadderValue(C, base, s, 8 * |s|);
    LowBitsAll(s);
  }

  // ---- keys, signatures, verification -------------------------------------------------------------------------------

  type Hash = seq<byte> -> seq<byte>

  ghost predicate IsHash(H: Hash) { forall x: seq<byte> :: |H(x)| == 64 }

  function ScalarFromHash(H: Hash, data: seq<byte>): (s: seq<byte>)
    requires IsHash(H)
    ensures |s| == 32 && LeVal(s) == LeVal(H(data)) % L
  {
    ResidueBytes(LeVal(H(data)) % L);
    LittleEndian(LeVal(H(data)) % L, 32)
  }

  lemma ResidueBytes(n: nat)
    requires n < L
    ensures LeVal(LittleEndian(n, 32)) == n
  {
    Widths64();
    LittleEndianValue(n, 32);
  }

  /** The scalar (r + k a) mod L. */
  function Response(r: seq<byte>, k: seq<byte>, a: seq<byte>): (s: seq<byte>)
    requires |r| == |k| == |a| == 32
    ensures |s| == 32 && LeVal(s) == (LeVal(r) + LeVal(k) * LeVal(a)) % L
  {
    ResidueBytes((LeVal(r) + LeVal(k) * LeVal(a)) % L);
    LittleEndian((LeVal(r) + LeVal(k) * LeVal(a)) % L, 32)
  }

  function BasePoint<P(!new), G(!new)>(C: Curve<P, G>): P
    requires IsCurve(C)
  {
    C.decompress(C.base).value
  }

  function PublicKey<P(!new), G(!new)>(C: Curve<P, G>, H: Hash, seed: seq<byte>): seq<byte>
    requires IsCurve(C) && IsHash(H)
  {
    C.compress(ScalarMul(C, BasePoint(C), Clamp(H(seed)[..32])))
  }

  function Sign<P(!new), G(!new)>(C: Curve<P, G>, H: Hash, seed: seq<byte>, msg: seq<byte>): seq<byte>
    requires IsCurve(C) && IsHash(H)
  {
    var az := H(seed);
    var a := Clamp(az[..32]);
    var pk := C.compress(ScalarMul(C, BasePoint(C), a));
    var r := ScalarFromHash(H, az[32..64] + msg);
    var rEnc := C.compress(ScalarMul(C, BasePoint(C), r));
    rEnc + Response(r, ScalarFromHash(H, rEnc + pk + msg), a)
  }

  predicate Verify<P, G>(C: Curve<P, G>, H: Hash, pk: seq<byte>, msg: seq<byte>, sig: seq<byte>)
    requires IsHash(H)
  {
    if |sig| != 64 || LeVal(sig[32..]) >= L then false
    else
      match (C.decompress(pk), C.decompress(sig[..32]), C.decompress(C.base))
      case (Some(a), Some(r), Some(b)) =>
        C.same(ScalarMul(C, b, sig[32..]), C.add(r, ScalarMul(C, a, ScalarFromHash(H, sig[..32] + pk + msg))))
      case _ => false
  }

  /** Completeness: every signature verifies under the key of its seed, and its scalar is below L. */
  lemma SignedVerifies<P(!new), G(!new)>(C: Curve<P, G>, H: Hash, seed: seq<byte>, msg: seq<byte>)
    requires IsCurve(C) && IsHash(H)
    ensures |Sign(C, H, seed, msg)| == 64 && LeVal(Sign(C, H, seed, msg)[32..]) < L
    ensures Verify(C, H, PublicKey(C, H, seed), msg, Sign(C, H, seed, msg))
  {
    hide ScalarMul, Times, LeVal, Clamp, IsCurve, IsGroup, Response, ScalarFromHash;
    var az, B := H(seed), BasePoint(C);
    var a := Clamp(az[..32]);
    var r := ScalarFromHash(H, az[32..64] + msg);
    BaseOrder(C);
    ScalarMulValue(C, B, a);
    ScalarMulValue(C, B, r);
    var aPoint, rPoint := ScalarMul(C, B, a), ScalarMul(C, B, r);
    CompressDecodes(C, aPoint);
    CompressDecodes(C, rPoint);
    var pk, rEnc := C.compress(aPoint), C.compress(rPoint);
    var k := ScalarFromHash(H, rEnc + pk + msg);
    var s, sig := Response(r, k, a), Sign(C, H, seed, msg);
    assert sig[..32] == rEnc && sig[32..] == s;
    EquationHolds(C, aPoint, rPoint, C.decompress(pk).value, C.decompress(rEnc).value, a, r, k, s);
  }

  /** The equation that the verifier checks, on decoded points. */
  lemma EquationHolds<P(!new), G(!new)>(C: Curve<P, G>, aPoint: P, rPoint: P, A: P, R: P, a: seq<byte>, r: seq<byte>,
      k: seq<byte>, s: seq<byte>)
    requires IsCurve(C) && |a| == |r| == |k| == |s| == 32
    requires aPoint == ScalarMul(C, BasePoint(C), a) && rPoint == ScalarMul(C, BasePoint(C), r)
    requires C.good(A) && C.good(R) && C.value(A) == C.value(aPoint) && C.value(R) == C.value(rPoint)
    requires LeVal(s) == (LeVal(r) + LeVal(k) * LeVal(a)) % L
    ensures C.same(ScalarMul(C, BasePoint(C), s), C.add(R, ScalarMul(C, A, k)))
  {
    hide ScalarMul, Times, LeVal, IsCurve, IsGroup;
    BaseOrder(C);
    var B := BasePoint(C);
    ScalarMulValue(C, B, a);
    ScalarMulValue(C, B, r);
    ScalarMulValue(C, B, s);
    ScalarMulValue(C, A, k);
    AddValue(C, R, ScalarMul(C, A, k));
    GroupEquation(C, C.value(B), LeVal(r), LeVal(k), LeVal(a), LeVal(s));
    AddValue(C, ScalarMul(C, B, s), C.add(R, ScalarMul(C, A, k)));
  }

  /** S B = R + k A */
  lemma GroupEquation<P(!new), G(!new)>(C: Curve<P, G>, g: G, r: nat, k: nat, a: nat, s: nat)
    requires IsGroup(C) && Times(C, L, g) == C.zero && s == (r + k * a) % L
    ensures Times(C, s, g) == C.plus(Times(C, r, g), Times(C, k, Times(C, a, g)))
  {
    hide Times;
    MulNonNegative(k, a);
    TimesMod(C, r + k * a, g);
    TimesAdd(C, r, k * a, g);
    TimesMul(C, k, a, g);
  }

  // ---- what is accepted --------------------------------------------------------------------------------------------

  /** The equation S g = R + k A between multiples of group elements, with k the hash of R, the key and the message. */
  ghost predicate Equation<P(!new), G(!new)>(C: Curve<P, G>, H: Hash, pk: seq<byte>, msg: seq<byte>, sig: seq<byte>)
    requires IsCurve(C) && |sig| == 64 && C.decompress(pk).Some? && C.decompress(sig[..32]).Some?
  {
    var g, A, R := C.value(BasePoint(C)), C.value(C.decompress(pk).value), C.value(C.decompress(sig[..32]).value);
    LeBound(sig[32..]);
    LeBound(H(sig[..32] + pk + msg));
    Times(C, LeVal(sig[32..]), g) == C.plus(R, Times(C, LeVal(H(sig[..32] + pk + msg)) % L, A))
  }

  /** Verification accepts exactly the scalars below L for which the equation holds, with points that decode. */
  lemma VerifyExact<P(!new), G(!new)>(C: Curve<P, G>, H: Hash, pk: seq<byte>, msg: seq<byte>, sig: seq<byte>)
    requires IsCurve(C) && IsHash(H)
    ensures Verify(C, H, pk, msg, sig) <==>
            && |sig| == 64 && LeVal(sig[32..]) < L && C.decompress(pk).Some? && C.decompress(sig[..32]).Some?
            && Equation(C, H, pk, msg, sig)
  {
    hide ScalarMul, Times, LeVal, IsCurve, IsGroup, ScalarFromHash;
    BaseOrder(C);
    if |sig| == 64 && C.decompress(pk).Some? && C.decompress(sig[..32]).Some? {
      var b, A, R := BasePoint(C), C.decompress(pk).value, C.decompress(sig[..32]).value;
      var k := ScalarFromHash(H, sig[..32] + pk + msg);
      DecodedGood(C, pk);
      DecodedGood(C, sig[..32]);
      LeBound(sig[32..]);
      LeBound(H(sig[..32] + pk + msg));
      ScalarMulValue(C, b, sig[32..]);
      ScalarMulValue(C, A, k);
      AddValue(C, R, ScalarMul(C, A, k));
      AddValue(C, ScalarMul(C, b, sig[32..]), C.add(R, ScalarMul(C, A, k)));
    }
  }

  lemma DecodedGood<P(!new), G(!new)>(C: Curve<P, G>, s: seq<byte>)
    requires IsCurve(C) && C.decompress(s).Some?
    ensures C.good(C.decompress(s).value)
  {
  }

  /** Two signatures of one message with the same R have the same multiple of the base point; if L is the exact order
      of the base point, they are the same signature. */
  lemma SignatureUnique<P(!new), G(!new)>(C: Curve<P, G>, H: Hash, pk: seq<byte>, msg: seq<byte>, sig: seq<byte>,
      other: seq<byte>)
    requires IsCurve(C) && IsHash(H) && Verify(C, H, pk, msg, sig) && Verify(C, H, pk, msg, other)
    requires sig[..32] == other[..32]
    ensures LeVal(sig[32..]) >= 0 && LeVal(other[32..]) >= 0
    ensures Times(C, LeVal(sig[32..]), C.value(BasePoint(C))) == Times(C, LeVal(other[32..]), C.value(BasePoint(C)))
    ensures ExactOrder(C) ==> sig == other
  {
    hide Times, LeVal, IsCurve, IsGroup, ScalarMul, ScalarFromHash;
    VerifyExact(C, H, pk, msg, sig);
    VerifyExact(C, H, pk, msg, other);
    LeBound(sig[32..]);
    LeBound(other[32..]);
    if ExactOrder(C) {
      LeUnique(sig[32..], other[32..]);
      assert sig == sig[..32] + sig[32..] && other == other[..32] + other[32..];
    }
  }

  /** The multiples of the base point by the numbers below L are different. */
  ghost predicate ExactOrder<P(!new), G(!new)>(C: Curve<P, G>)
    requires IsCurve(C)
  {
    var g := C.value(BasePoint(C));
    forall m: nat, n: nat :: m < L && n < L && Times(C, m, g) == Times(C, n, g) ==> m == n
  }

  /** What signing publishes: the key is the multiple by the clamped first half of the hashed seed, R is the multiple by
      the hash of the second half and the message, and S is that hash plus the challenge times the secret. */
  lemma SignExact<P(!new), G(!new)>(C: Curve<P, G>, H: Hash, seed: seq<byte>, msg: seq<byte>)
    requires IsCurve(C) && IsHash(H)
    ensures var a, r := LeVal(Clamp(H(seed)[..32])), LeVal(H(H(seed)[32..] + msg)) % L;
            var pk, sig := PublicKey(C, H, seed), Sign(C, H, seed, msg);
            && a >= 0 && r >= 0 && |sig| == 64
            && Decodes(C, pk, Times(C, a, C.value(BasePoint(C))))
            && Decodes(C, sig[..32], Times(C, r, C.value(BasePoint(C))))
            && LeVal(sig[32..]) == (r + LeVal(H(sig[..32] + pk + msg)) % L * a) % L
  {
    hide ScalarMul, Times, LeVal, Clamp, IsCurve, IsGroup, Response, ScalarFromHash;
    var az, b := H(seed), BasePoint(C);
    assert az[32..64] == az[32..];
    var a, r := Clamp(az[..32]), ScalarFromHash(H, az[32..64] + msg);
    BaseOrder(C);
    LeBound(a);
    LeBound(H(az[32..] + msg));
    ScalarMulValue(C, b, a);
    ScalarMulValue(C, b, r);
    CompressDecodes(C, ScalarMul(C, b, a));
    CompressDecodes(C, ScalarMul(C, b, r));
    var rEnc, sig := C.compress(ScalarMul(C, b, r)), Sign(C, H, seed, msg);
    assert sig[..32] == rEnc && sig[32..] == Response(r, ScalarFromHash(H, rEnc + PublicKey(C, H, seed) + msg), a);
  }

  // ---- the code, on bytes ------------------------------------------------------------------------------------------

  /** SHA-512 reduced modulo L. */
  method HashToScalar(H: Hash, data: seq<byte>) returns (s: seq<byte>)
    requires IsHash(H)
    ensures s == ScalarFromHash(H, data)
  {
    hide LeVal, BeVal;
    var h := H(data);
    RevLe(h);
    s := ModL(Rev(h));
    LeUnique(s, ScalarFromHash(H, data));
  }

  /** S = (r + k a) mod L, as the code computes it: each step reduces. */
  method ResponseScalar(r: seq<byte>, k: seq<byte>, a: seq<byte>) returns (s: seq<byte>)
    requires |r| == |k| == |a| == 32
    ensures s == Response(r, k, a)
  {
    hide LeVal;
    var ka := ScalarMulModL(k, a);
    s := ScalarAddModL(r, ka);
    ModAdd(LeVal(r), LeVal(k) * LeVal(a), L);
    LeUnique(s, Response(r, k, a));
  }

  method SignBytes<P(!new), G(!new)>(C: Curve<P, G>, H: Hash, seed: seq<byte>, msg: seq<byte>) returns (sig: seq<byte>)
    requires IsCurve(C) && IsHash(H)
    ensures sig == Sign(C, H, seed, msg)
  {
    hide Times, ScalarMul, ScalarFromHash, Response, Clamp, IsCurve;
    BaseOrder(C);
    var az := H(seed);
    var a := Clamp(az[..32]);
    var b := C.decompress(C.base).value;
    var aPoint := ScalarMulLoop(C, b, a);
    var pk := C.compress(aPoint);
    var r := HashToScalar(H, az[32..64] + msg);
    var rPoint := ScalarMulLoop(C, b, r);
    var rEnc := C.compress(rPoint);
    var k := HashToScalar(H, rEnc + pk + msg);
    var s := ResponseScalar(r, k, a);
    sig := rEnc + s;
  }

  /** The check that rejects a scalar that is not reduced. */
  method BelowOrder(s: seq<byte>) returns (ok: bool)
    ensures ok <==> LeVal(s) < L
  {
    RevLe(Rev(s));
    RevRev(s);
    ValueOfL();
    RevLe(L_BYTES);
    RevLe(s);
    hide LeVal, BeVal, Rev;
    var order := CmpBe(Rev(s), Rev(L_BYTES));
    ok := order == Less;
  }

  method VerifyBytes<P, G>(C: Curve<P, G>, H: Hash, pk: seq<byte>, msg: seq<byte>, sig: seq<byte>) returns (ok: bool)
    requires IsHash(H) && |sig| == 64
    ensures ok == Verify(C, H, pk, msg, sig)
  {
    hide ScalarMul, ScalarFromHash, LeVal;
    var rEnc, s := sig[..32], sig[32..];
    var canonical := BelowOrder(s);
    if !canonical {
      return false;
    }
    var a, r, b := C.decompress(pk), C.decompress(rEnc), C.decompress(C.base);
    if a.None? || r.None? || b.None? {
      return false;
    }
    var k := HashToScalar(H, rEnc + pk + msg);
    var lhs := ScalarMulLoop(C, b.value, s);
    var ka := ScalarMulLoop(C, a.value, k);
    return C.same(lhs, C.add(r.value, ka));
  }
}
