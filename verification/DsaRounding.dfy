/** ML-DSA reductions and rounding, and the hint that lets a verifier recover the high bits of w. */
module DsaRounding {
  import opened ModArith
  import opened MachineInts
  import opened DsaField

  const GAMMA1: int := 524288
  const GAMMA2: int := 261888
  const BETA: int := 196

  // ---- reductions -----------------------------------------------------------------------------------

  /** A representative of a modulo Q that is small, but not always the centred one. */
  function Reduce32(a: int): (r: int)
    requires FitsI32(a) && FitsI32(a + 0x40_0000)
    ensures -6283009 <= r <= 6283008 && r % Q == a % Q
  {
    var t := (a + 0x40_0000) / 0x80_0000;
    ModMultiple(a, 0 - t, Q);
    a - t * Q
  }

  /** Adds Q to a negative number. */
  function CAddQ(a: int): (r: int)
    requires -Q < a < Q
    ensures 0 <= r < Q && r == a % Q
  {
    ModMultiple(a, 1, Q);
    a + MaskAnd(SignMask(a), Q)
  }

  /** The absolute value, without a branch. */
  function Magnitude(a: int): (m: int)
    requires -0x4000_0000 < a < 0x4000_0000
    ensures m == if a < 0 then -a else a
  {
    a - MaskAnd(SignMask(a), 2 * a)
  }

  predicate NormBelow(a: seq<int>, bound: int) {
    forall i :: 0 <= i < |a| ==> -bound < a[i] < bound
  }

  /** True when some coefficient is out of bounds, or the bound itself is unusable. */
  method CheckNorm(a: seq<int>, bound: int) returns (out: bool)
    requires forall i :: 0 <= i < |a| ==> -0x4000_0000 < a[i] < 0x4000_0000
    ensures out <==> bound > (Q - 1) / 8 || !NormBelow(a, bound)
  {
    if bound > (Q - 1) / 8 {
      return true;
    }
    var i := 0;
    while i < |a|
      invariant 0 <= i <= |a|
      invariant NormBelow(a[..i], bound)
    {
      if Magnitude(a[i]) >= bound {
        assert !(-bound < a[i] < bound);
        return true;
      }
      i := i + 1;
    }
    assert a[..i] == a;
    return false;
  }

  // ---- Power2Round and Decompose ----------------------------------------------------------------------

  /** a = a1 * 2^13 + a0 with a0 in (-2^12, 2^12]. */
  function Power2Round(a: int): (r: (int, int))
    requires 0 <= a < Q
    ensures a == r.0 * 8192 + r.1 && -4096 < r.1 <= 4096 && 0 <= r.0 < 1024
  {
    var a1 := (a + 4095) / 8192;
    (a1, a - a1 * 8192)
  }

  /** High bits by shift, multiply and shift; low bits by subtraction. */
  function Decompose(a: int): (r: (int, int))
    requires 0 <= a < Q
  {
    var u := (a + 127) / 128;
    var a1 := (u * 1025 + 0x20_0000) / 0x40_0000 % 16;
    var a0 := a - a1 * 2 * GAMMA2;
    (a1, a0 - MaskAnd(SignMask((Q - 1) / 2 - a0), Q))
  }

  /** The shift-and-multiply quotient is the nearest multiple of 2 * GAMMA2, for every residue; ties go down. */
  lemma QuotientExact(a: int, k: int)
    requires 0 <= a < Q && 2 * GAMMA2 * k - GAMMA2 < a <= 2 * GAMMA2 * k + GAMMA2
    ensures ((a + 127) / 128 * 1025 + 0x20_0000) / 0x40_0000 == k && 0 <= k <= 16
  {
    var u := (a + 127) / 128;
    assert 4092 * k - 2045 <= u <= 4092 * k + 2046;
  }

  /** `Decompose` is the function of section 7.4 of FIPS 204: w = w1 * 2 GAMMA2 + w0 with w0 in (-GAMMA2, GAMMA2],
      except that the top interval is counted as w1 = 0 with w0 one lower. */
  lemma DecomposeExact(a: int, k: int)
    requires 0 <= a < Q && 2 * GAMMA2 * k - GAMMA2 < a <= 2 * GAMMA2 * k + GAMMA2
    ensures Decompose(a) == if k == 16 then (0, a - Q) else (k, a - 2 * GAMMA2 * k)
  {
    QuotientExact(a, k);
  }

  lemma DecomposeRange(a: int)
    requires 0 <= a < Q
    ensures 0 <= Decompose(a).0 < 16 && -GAMMA2 <= Decompose(a).1 <= GAMMA2
    ensures Decompose(a).0 * 2 * GAMMA2 + Decompose(a).1 == a || Decompose(a).0 * 2 * GAMMA2 + Decompose(a).1 == a - Q
  {
    DecomposeExact(a, (a + GAMMA2 - 1) / (2 * GAMMA2));
  }

  // ---- hints ------------------------------------------------------------------------------------------

  function MakeHint(a0: int, a1: int): (h: int)
    ensures h == 0 || h == 1
  {
    if a0 > GAMMA2 || a0 < -GAMMA2 || (a0 == -GAMMA2 && a1 != 0) then 1 else 0
  }

  function UseHint(a: int, hint: int): (r: int)
    requires 0 <= a < Q
    ensures hint != 0 ==> 0 <= r < 16
  {
    var (a1, a0) := Decompose(a);
    if hint == 0 then a1 else if a0 > 0 then (a1 + 1) % 16 else (a1 - 1) % 16
  }

  /** Adding v to the low part of w1 moves the high bits by at most one step, and the hint says whether. */
  lemma HintCore(w1: int, v: int, w: int)
    requires 0 <= w1 < 16 && -(2 * GAMMA2) < v < 2 * GAMMA2 && 0 <= w < Q
    requires w == w1 * 2 * GAMMA2 + v || w == w1 * 2 * GAMMA2 + v + Q
    ensures UseHint(w, MakeHint(v, w1)) == w1
  {
    hide Decompose;
    if -GAMMA2 < v <= GAMMA2 || (v == -GAMMA2 && w1 == 0) {
      DecomposeExact(w, if w1 == 0 && v < 0 then 16 else w1);
    } else if v > GAMMA2 {
      DecomposeExact(w, w1 + 1);
    } else {
      DecomposeExact(w, if w1 == 0 then 15 else w1 - 1);
    }
  }

  /** The hint lemma: from w - cs2 + ct0 alone, and a hint made from its low part, comes the high part of w.
      `f0` is the low part of w minus cs2, `g` is ct0; both are small, as the signer has checked. */
  lemma HintRecovers(w: int, s: int, f0: int, g: int, v: int)
    requires 0 <= w < Q && 0 <= v < Q
    requires f0 % Q == (Decompose(w).1 - s) % Q && -(GAMMA2 - BETA) < f0 < GAMMA2 - BETA
    requires -GAMMA2 < g < GAMMA2
    requires v % Q == (w - s + g) % Q
    ensures UseHint(v, MakeHint(f0 + g, Decompose(w).0)) == Decompose(w).0
  {
    var (w1, w0) := Decompose(w);
    DecomposeRange(w);
    ModEqual(f0, w0 - s, Q);
    ModEqual(v, w - s + g, Q);
    var k := v / Q - (w - s + g) / Q - (f0 / Q - (w0 - s) / Q);
    var x := w1 * 2 * GAMMA2 + f0 + g;
    assert v - x == Q * k || v - x == Q * (k + 1);
    HintCore(w1, f0 + g, v);
  }
}
