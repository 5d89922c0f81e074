/** The prime 2^255 - 19: folding at bit 255, small residues, and powers. */
module Prime25519 {
  import opened ModArith

  const TWO255: int := 0x8000_0000_0000_0000_0000_0000_0000_0000_0000_0000_0000_0000_0000_0000_0000_0000
  const P: int := 0x7fff_ffff_ffff_ffff_ffff_ffff_ffff_ffff_ffff_ffff_ffff_ffff_ffff_ffff_ffff_ffed

  /** V = A + 2^255 Q becomes A + 19 Q. */
  function Folded(v: int): int { v % TWO255 + 19 * (v / TWO255) }

  lemma FoldKeepsResidue(v: int)
    ensures Folded(v) % P == v % P
  {
    var q := v / TWO255;
    assert Folded(v) == v + P * -q;
    ModMultiple(v, -q, P);
  }

  /** How fast folding shrinks; a value below 2^255 stays as it is. */
  lemma FoldShrinks(v: int)
    requires v >= 0
    ensures v < 4 * TWO255 * TWO255 ==> 0 <= Folded(v) < 77 * TWO255
    ensures v < 77 * TWO255 ==> 0 <= Folded(v) < TWO255 + 1444
    ensures TWO255 <= v < TWO255 + 1444 ==> 0 <= Folded(v) < TWO255
    ensures v < TWO255 ==> Folded(v) == v
  {
  }

  lemma SmallResidue(v: int, r: int)
    requires r % P == v % P && 0 <= r < P
    ensures r == v % P
  {
    ModSmall(r, P);
  }

  lemma ModOnce(x: int)
    requires 0 <= x < 2 * P
    ensures x % P == if x >= P then x - P else x
  {
    if x >= P { DivModUnique(x, P, 1, x - P); } else { ModSmall(x, P); }
  }

  // ---- powers ------------------------------------------------------------------------------------------------------

  lemma PowZero(a: int)
    ensures Pow(a, 0) % P == 1
  {
  }
}
