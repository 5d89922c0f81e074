/** The schoolbook negacyclic product of ML-KEM, the reference that the transform must agree with. */
module KemSchoolbook {
  import opened Rings
  import opened Vectors
  import opened QuotientRing
  import opened ModArith
  import opened MachineInts
  import opened KemField
  import opened KemNtt

  /** The coefficient of x^m in ai * x^i * b, wrapped with a sign change at x^256 = -1. */
  function RowTerm(ai: Fq, i: nat, b: seq<Fq>, m: nat): Fq
    requires i < |b| && m < |b|
  {
    if m < i then Neg(Field, Mul(Field, ai, b[|b| + m - i])) else Mul(Field, ai, b[m - i])
  }

  /** One more coefficient of a adds one shifted, scaled copy of b. */
  lemma ActRow(a: seq<Fq>, i: nat, b: seq<Fq>, m: nat)
    requires i < |a| <= |b| && m < |b|
    ensures Act(Field, Neg(Field, 1), a[..i + 1], b)[m] ==
            Add(Field, Act(Field, Neg(Field, 1), a[..i], b)[m], RowTerm(a[i], i, b, m))
  {
    hide Act, IsRing, ShiftN, Neg, Add, Mul;
    FieldIsRing();
    var c, row := Neg(Field, 1), VScale(Field, a[i], b);
    assert a[..i + 1] == a[..i] + [a[i]];
    ActConcat(Field, c, a[..i], [a[i]], b);
    ActSingle(Field, c, a[i], b);
    ShiftNAt(Field, c, i, row, m);
    if m < i {
      NegOneTimes(Mul(Field, a[i], b[|b| + m - i]));
    }
  }

  lemma NegOneTimes(x: Fq)
    ensures Mul(Field, Neg(Field, 1), x) == Neg(Field, x)
  {
    FieldIsRing();
    assert OneAt(Field, x);
    NegMul(Field, 1, x);
  }

  /** Adding a term, or a negated term, is one reduction; a zero term changes nothing. */
  lemma TermOps(x: Fq, t: Fq)
    ensures Add(Field, x, t) == AddQ(x, t) && Add(Field, x, Neg(Field, t)) == SubQ(x, t)
    ensures t == 0 ==> AddQ(x, t) == x && SubQ(x, t) == x
  {
    FieldLaws(x, t, 0);
    FieldOps(x, t);
  }

  /** The coefficient of b that reaches position m. */
  function Source(i: nat, m: nat): nat
    requires i < N && m < N
  {
    if m < i then N + m - i else m - i
  }

  /** The inner loop: r += ai * x^i * b. */
  method AddRow(r: array<Fq>, ai: Fq, i: nat, b: seq<Fq>)
    requires r.Length == |b| == N && i < N
    modifies r
    ensures forall m :: 0 <= m < N ==> r[m] == Add(Field, old(r[m]), RowTerm(ai, i, b, m))
  {
    hide Add, Sub, Mul, Neg, RowTerm, Red, AddQ, SubQ, MulQ;
    ghost var w := r[..];
    var j := 0;
    while j < N
      invariant 0 <= j <= N
      invariant forall m :: 0 <= m < N ==> r[m] == if Source(i, m) < j then Add(Field, w[m], RowTerm(ai, i, b,
                m)) else w[m]
    {
      var idx := i + j;
      ghost var m := if idx < N then idx else idx - N;
      TermAt(ai, i, b, m, b[j], w[m]);
      Residues(ai, b[j], w[m]);
      if b[j] != 0 {
        var term := ai * b[j] % Q;
        if idx < N {
          r[idx] := (r[idx] + term) % Q;
        } else {
          var x := Rem(r[idx - N] - term, Q);
          r[idx - N] := if x < 0 then x + Q else x;
        }
      }
      j := j + 1;
    }
  }

  /** What the loop does to position m, and that a zero factor leaves it alone. */
  lemma TermAt(ai: Fq, i: nat, b: seq<Fq>, m: nat, bj: Fq, x: Fq)
    requires i < N && |b| == N && m < N && bj == if m < i then b[N + m - i] else b[m - i]
    ensures bj == 0 || ai == 0 ==> Add(Field, x, RowTerm(ai, i, b, m)) == x
    ensures m >= i ==> Add(Field, x, RowTerm(ai, i, b, m)) == AddQ(x, MulQ(ai, bj))
    ensures m < i ==> Add(Field, x, RowTerm(ai, i, b, m)) == SubQ(x, MulQ(ai, bj))
  {
    hide Add, Neg, Red, AddQ, SubQ;
    FieldOps(ai, bj);
    assert bj == 0 || ai == 0 ==> MulQ(ai, bj) == 0;
    TermOps(x, MulQ(ai, bj));
  }

  lemma EmptyAct(a: Poly, b: Poly)
    ensures Act(Field, Neg(Field, 1), a[..0], b) == Zeros(Field, N)
  {
  }

  /** The reductions that the code spells out. */
  lemma Residues(ai: Fq, bj: Fq, x: Fq)
    ensures MulQ(ai, bj) == ai * bj % Q && AddQ(x, MulQ(ai, bj)) == (x + ai * bj % Q) % Q
    ensures var y := Rem(x - ai * bj % Q, Q); SubQ(x, MulQ(ai, bj)) == if y < 0 then y + Q else y
  {
    var y := Rem(x - ai * bj % Q, Q);
    ModMultiple(y, 1, Q);
  }

  /** The outer loop over a, skipping its zero coefficients. */
  method PolyMul(a: Poly, b: Poly) returns (s: Poly)
    ensures s == RingMul(a, b)
  {
    hide Act, Add, Neg, RowTerm, Red;
    var r := new Fq[N](_ => 0);
    EmptyAct(a, b);
    assert r[..] == Zeros(Field, N);
    var i := 0;
    while i < N
      invariant 0 <= i <= N
      invariant r[..] == Act(Field, Neg(Field, 1), a[..i], b)
    {
      forall m | 0 <= m < N
        ensures Act(Field, Neg(Field, 1), a[..i + 1], b)[m] == Add(Field, r[m], RowTerm(a[i], i, b, m))
        ensures a[i] == 0 ==> Add(Field, r[m], RowTerm(a[i], i, b, m)) == r[m]
      {
        ActRow(a, i, b, m);
        TermAt(a[i], i, b, m, if m < i then b[N + m - i] else b[m - i], r[m]);
      }
      if a[i] != 0 {
        AddRow(r, a[i], i, b);
      }
      i := i + 1;
    }
    assert a[..N] == a;
    s := r[..];
  }
}
