/** Polynomials modulo x^256 + 1 over the field of ML-KEM, as a ring. */
module KemRing {
  import opened Rings
  import opened Vectors
  import opened QuotientRing
  import opened KemField
  import opened KemNtt

  /** `poly_add` and `poly_sub`: sums and differences are reduced coefficient by coefficient. */
  function PolyAdd(a: Poly, b: Poly): (r: Poly)
    ensures forall i :: 0 <= i < 256 ==> r[i] == AddQ(a[i], b[i])
  {
    VAdd(Field, a, b)
  }

  function PolySub(a: Poly, b: Poly): (r: Poly)
    ensures forall i :: 0 <= i < 256 ==> r[i] == SubQ(a[i], b[i])
  {
    VSub(Field, a, b)
  }

  function Zero(): Poly { Zeros(Field, 256) }

  const PolyRing: Ops<Poly> := Ops<Poly>.Ops(Zero(), Unit(Field, 256), (x: Poly, y: Poly) => PolyAdd(x, y), (x: Poly,
      y: Poly) => PolySub(x, y), (x: Poly, y: Poly) => RingMul(x, y))

  /** The operations of the ring, by name. */
  lemma PolyOps(x: Poly, y: Poly)
    ensures Add(PolyRing, x, y) == PolyAdd(x, y) && Sub(PolyRing, x, y) == PolySub(x, y) &&
            Mul(PolyRing, x, y) == RingMul(x, y)
    ensures Neg(PolyRing, x) == PolySub(Zero(), x)
  {
  }

  lemma PolyAddLaws(x: Poly, y: Poly, z: Poly)
    ensures AddCommAt(PolyRing, x, y) && AddAssocAt(PolyRing, x, y, z)
  {
    hide Field, IsRing, VAdd;
    FieldIsRing();
    VAddComm(Field, x, y);
    VAddAssoc(Field, x, y, z);
  }

  lemma PolySubLaws(x: Poly, y: Poly)
    ensures ZeroAt(PolyRing, x) && SubAt(PolyRing, x, y)
  {
    FieldIsRing();
    VAddZero(Field, x);
    PolyOps(x, y);
    PolyOps(y, x);
    hide PolyRing, IsRing;
    PolyOps(Zero(), y);
    PolyOps(x, PolySub(Zero(), x));
    PolyOps(x, PolySub(Zero(), y));
    Negation(x, y);
    ZeroElement();
    PolyOps(Zero(), x);
  }

  lemma ZeroElement()
    ensures PolyRing.zero == Zero() && PolyRing.one == Unit(Field, 256)
  {
  }

  lemma Negation(x: Poly, y: Poly)
    ensures PolyAdd(x, PolySub(Zero(), x)) == Zero() && PolySub(x, y) == PolyAdd(x, PolySub(Zero(), y))
    ensures PolyAdd(Zero(), x) == x
  {
    hide AddQ, SubQ;
    forall i | 0 <= i < 256
      ensures AddQ(x[i], SubQ(0, x[i])) == 0 && SubQ(x[i], y[i]) == AddQ(x[i], SubQ(0, y[i])) && AddQ(0, x[i]) == x[i]
    {
      FieldLaws(x[i], y[i], 0);
      FieldOps(x[i], y[i]);
      FieldOps(0, x[i]);
      FieldOps(0, y[i]);
      FieldOps(x[i], SubQ(0, x[i]));
      FieldOps(x[i], SubQ(0, y[i]));
      AddLaws(x[i], y[i], 0);
      assert ZeroAt(Field, x[i]);
    }
  }

  lemma PolyMulLaws(x: Poly, y: Poly, z: Poly)
    ensures MulCommAt(PolyRing, x, y) && MulAssocAt(PolyRing, x, y, z) && DistribAt(PolyRing, x, y, z) &&
            OneAt(PolyRing, x)
  {
    PolyOps(x, y);
    PolyOps(x, z);
    PolyOps(y, x);
    PolyOps(y, z);
    PolyOps(RingMul(x, y), z);
    PolyOps(x, RingMul(y, z));
    PolyOps(RingMul(x, y), RingMul(x, z));
    PolyOps(x, PolyAdd(y, z));
    PolyOps(Unit(Field, 256), x);
    ZeroElement();
    hide Field, IsRing, VAdd, Act, PolyRing, Unit, Neg;
    FieldIsRing();
    var c := Neg(Field, 1);
    ActComm(Field, c, x, y);
    ActAssoc(Field, c, x, y, z);
    ActAdd(Field, c, x, y, z);
    ActUnit(Field, c, x, 256);
    ActComm(Field, c, Unit(Field, 256), x);
    assert x + Zeros(Field, 0) == x;
  }

  lemma PolyRingIsRing()
    ensures IsRing(PolyRing)
  {
    hide PolyRing, AddAssocAt, MulAssocAt, DistribAt, AddCommAt, MulCommAt, SubAt, ZeroAt, OneAt;
    forall x: Poly, y: Poly, z: Poly
      ensures AddAssocAt(PolyRing, x, y, z) && MulAssocAt(PolyRing, x, y, z) && DistribAt(PolyRing, x, y, z)
    {
      PolyAddLaws(x, y, z);
      PolyMulLaws(x, y, z);
    }
    forall x: Poly, y: Poly ensures AddCommAt(PolyRing, x, y) && MulCommAt(PolyRing, x, y) && SubAt(PolyRing, x, y) {
      PolyAddLaws(x, y, y);
      PolyMulLaws(x, y, y);
      PolySubLaws(x, y);
    }
    forall x: Poly ensures ZeroAt(PolyRing, x) && OneAt(PolyRing, x) {
      PolySubLaws(x, x);
      PolyMulLaws(x, x, x);
    }
  }
}
