/** Rust's fixed-width operators on mathematical integers.  Overflow freedom is stated where it is used. */
module MachineInts {
  import opened ModArith

  predicate FitsI32(x: int) { -0x8000_0000 <= x < 0x8000_0000 }

  predicate FitsI64(x: int) { -0x8000_0000_0000_0000 <= x < 0x8000_0000_0000_0000 }

  type byte = x: int | 0 <= x < 256

  /** `x % d`: the remainder takes the sign of the dividend. */
  function Rem(x: int, d: int): (r: int)
    requires d > 0
    ensures -d < r < d && (r < 0 ==> x < 0) && r % d == x % d
  {
    if x >= 0 then x % d else NegMod(x, d); -(-x % d)
  }

  lemma NegMod(x: int, d: int)
    requires d > 0
    ensures -(-x % d) % d == x % d
  {
    var k, r := -x / d, -x % d;
    assert -x == d * k + r;
    MulDistributes(d, k, 0);
    ModMultiple(-r, -k, d);
  }

  /** `x >> 31` on an i32: all ones for a negative number, zero otherwise. */
  function SignMask(x: int): (m: int)
    ensures m == if x < 0 then -1 else 0
  {
    if x < 0 then -1 else 0
  }

  /** `mask & y` for an all-ones or all-zeros mask. */
  function MaskAnd(mask: int, y: int): int
    requires mask == 0 || mask == -1
  {
    if mask == 0 then 0 else y
  }

  /** `x as i32` keeps the low 32 bits, read as a signed number. */
  function WrapI32(x: int): (r: int)
    ensures FitsI32(r) && (x - r) % 0x1_0000_0000 == 0
  {
    (x + 0x8000_0000) % 0x1_0000_0000 - 0x8000_0000
  }
}
