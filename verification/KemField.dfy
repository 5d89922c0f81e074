/** ML-KEM arithmetic modulo 3329: `red`, the field as a ring, and the table of powers of 17. */
module KemField {
  import opened Rings
  import opened Transform
  import opened RootTables
  import opened ModArith
  import opened MachineInts

  const Q: int := 3329

  type Fq = x: int | 0 <= x < 3329

  /** Branch-free canonical residue. */
  function Red(x: int): (r: Fq)
    ensures r == x % Q
  {
    var r := Rem(x, Q);
    assert r < 0 ==> (r + Q) % Q == r + Q by { ModMultiple(r, 1, Q); }
    ModMultiple(r, 1, Q);
    r + MaskAnd(SignMask(r), Q)
  }

  function AddQ(x: int, y: int): Fq { Red(x + y) }

  function SubQ(x: int, y: int): Fq { Red(x - y) }

  function MulQ(x: int, y: int): Fq { Red(x * y) }

  const Field: Ops<Fq> := Ops(0, 1, (x, y) => AddQ(x, y), (x, y) => SubQ(x, y), (x, y) => MulQ(x, y))

  /** What the operations of the field are, on integers. */
  lemma FieldOps(x: Fq, y: Fq)
    ensures Add(Field, x, y) == AddQ(x, y) && Sub(Field, x, y) == SubQ(x, y) && Mul(Field, x, y) == MulQ(x, y)
    ensures Neg(Field, x) == SubQ(0, x)
  {
  }

  lemma AddLaws(x: int, y: int, z: int)
    ensures AddQ(AddQ(x, y), z) == AddQ(x, AddQ(y, z)) && AddQ(x, y) == AddQ(y, x)
    ensures SubQ(x, y) == AddQ(x, SubQ(0, y)) && AddQ(x, SubQ(0, x)) == 0
  {
    hide Red;
    ModAdd(x + y, z, Q);
    ModAdd(x, y + z, Q);
    ModAdd(x, 0 - y, Q);
    ModAdd(x, 0 - x, Q);
  }

  lemma MulLaws(x: int, y: int, z: int)
    ensures MulQ(MulQ(x, y), z) == MulQ(x, MulQ(y, z)) && MulQ(x, y) == MulQ(y, x)
  {
    hide Red;
    ModMul(x * y, z, Q);
    ModMul(x, y * z, Q);
    assert (x * y) * z == x * (y * z);
  }

  lemma DistribLaw(x: int, y: int, z: int)
    ensures MulQ(x, AddQ(y, z)) == AddQ(MulQ(x, y), MulQ(x, z))
  {
    hide Red;
    ModDistributes(x, y, z, Q);
  }

  lemma FieldLaws(x: Fq, y: Fq, z: Fq)
    ensures AddAssocAt(Field, x, y, z) && MulAssocAt(Field, x, y, z) && DistribAt(Field, x, y, z)
    ensures AddCommAt(Field, x, y) && MulCommAt(Field, x, y) && SubAt(Field, x, y)
    ensures ZeroAt(Field, x) && OneAt(Field, x)
  {
    assert AddQ(0, x) == x && MulQ(1, x) == x;
    hide Red, AddQ, SubQ, MulQ;
    AddLaws(x, y, z);
    MulLaws(x, y, z);
    DistribLaw(x, y, z);
  }

  lemma FieldIsRing()
    ensures IsRing(Field)
  {
    hide Red, AddQ, SubQ, MulQ, AddAssocAt, MulAssocAt, DistribAt, AddCommAt, MulCommAt, SubAt, ZeroAt, OneAt;
    forall x: Fq, y: Fq, z: Fq
      ensures AddAssocAt(Field, x, y, z) && MulAssocAt(Field, x, y, z) && DistribAt(Field, x, y, z)
    {
      FieldLaws(x, y, z);
    }
    forall x: Fq, y: Fq ensures AddCommAt(Field, x, y) && MulCommAt(Field, x, y) && SubAt(Field, x, y) {
      FieldLaws(x, y, 0);
    }
    forall x: Fq ensures ZeroAt(Field, x) && OneAt(Field, x) {
      FieldLaws(x, 0, 0);
    }
  }

  // ---- ZETAS_KEM[k] = 17^brv7(k) mod q ---------------------------------------------------------------

  function Zeta(k: int): Fq {
    if 0 <= k < 128 then Pow(17, Rev(7, k)) % Q else 0
  }

  lemma {:induction false} FieldPow(e: nat)
    ensures RPow(Field, 17, e) == Pow(17, e) % Q
  {
    if e > 0 {
      FieldPow(e - 1);
      ModMul(17, Pow(17, e - 1), Q);
    }
  }

  lemma PowSquare(e: nat, r: int)
    requires Pow(17, e) % Q == r
    ensures Pow(17, 2 * e) % Q == r * r % Q
  {
    PowMod(17, e, e, Q);
  }

  /** 17 has order 256: 17^128 = -1. */
  lemma SmallPower()
    ensures Pow(17, 2) == 289
  {
    assert Pow(17, 1) == 17;
  }

  lemma PowHalf()
    ensures Pow(17, 128) % Q == 3328
  {
    hide Pow;
    SmallPower();
    PowSquare(2, 289);
    PowSquare(4, 296);
    PowSquare(8, 1062);
    PowSquare(16, 2642);
    PowSquare(32, 2580);
    PowSquare(64, 1729);
  }

  lemma ZetaTable()
    ensures SquareRoots(Field, Zeta, 128) && Paired(Field, Zeta, 128)
  {
    assert Pow2(7) == 128;
    hide Pow, Rev, IsRing, Pow2;
    FieldIsRing();
    PowHalf();
    FieldPow(128);
    forall k | 1 <= k < 128 ensures EntryAt(Field, 17, 7, Zeta, k) { FieldPow(Rev(7, k)); }
    TableSquares(Field, 17, 7, Zeta);
    TablePairs(Field, 17, 7, Zeta);
  }
}
