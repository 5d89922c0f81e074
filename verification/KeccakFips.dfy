/** The tables and the step mappings against the definitions of FIPS 202, sections 3.2 and 3.3: coordinates, triangular
    rotation offsets, and the round constants from their shift register. */
module KeccakFips {
  import opened Keccak

  /** The lane at column x and row y. */
  function LaneOf(s: State, x: nat, y: nat): Lane
    requires x < 5 && y < 5
  {
    s[x + 5 * y]
  }

  // ---- offsets -----------------------------------------------------------------------------------------------------

  /** The place at step t of Algorithm 2: from (1, 0), the next one of (x, y) is (y, 2 x + 3 y). */
  function PlaceAt(t: nat): (p: (nat, nat))
    ensures p.0 < 5 && p.1 < 5
  {
    if t == 0 then (1, 0)
    else
      var (x, y) := PlaceAt(t - 1);
      (y, (2 * x + 3 * y) % 5)
  }

  lemma PlaceSteps(t: nat)
    ensures t == 0 ==> PlaceAt(t) == (1, 0) && Walk(0) == 1
    ensures t > 0 ==> var (x, y) := PlaceAt(t - 1); PlaceAt(t) == (y, (2 * x + 3 * y) % 5)
  {
  }

  lemma {:induction false} PlaceIsWalk(t: nat)
    requires t <= 24
    ensures PlaceAt(t).0 + 5 * PlaceAt(t).1 == Walk(t)
    decreases t
  {
    PlaceSteps(t);
    hide Walk, PlaceAt;
    if t > 0 {
      PlaceIsWalk(t - 1);
      WalkStep(t - 1, PlaceAt(t - 1).0, PlaceAt(t - 1).1);
    }
  }

  lemma Triangular(t: nat)
    requires t < 24
    ensures Rho(t) == (t + 1) * (t + 2) / 2 % 64
  {
  }

  /** The lane at step t is rotated by the t-th triangular number, and lane (0, 0) not at all; the 24 places are all the
      others. */
  lemma OffsetsExact(t: nat)
    requires t < 24
    ensures var (x, y) := PlaceAt(t); Turn(x + 5 * y) == (t + 1) * (t + 2) / 2 % 64
    ensures Turn(0) == 0
  {
    assert Turn(0) == 0;
    hide Turn, Walk, Rho;
    PlaceIsWalk(t);
    WalkTurn(t);
    Triangular(t);
  }

  lemma PlacesCover(x: nat, y: nat) returns (t: nat)
    requires x < 5 && y < 5 && !(x == 0 && y == 0)
    ensures t < 24 && PlaceAt(t) == (x, y)
  {
    var i := Stop(x + 5 * y);
    hide Walk, Stop;
    if i == 23 {
      assert Walk(24) == Walk(0) by { LastStop(); }
      t := 0;
    } else {
      t := i + 1;
    }
    PlaceIsWalk(t);
    WalkPlace(x, y);
    WalkPlace(PlaceAt(t).0, PlaceAt(t).1);
  }

  lemma LastStop()
    ensures Walk(24) == Walk(0)
  {
  }

  // ---- step mappings -----------------------------------------------------------------------------------------------

  /** Rho and pi together: the lane at (x, y), rotated by its offset, goes to (y, 2 x + 3 y). */
  lemma RhoPiIs(s: State, x: nat, y: nat)
    requires x < 5 && y < 5
    ensures LaneOf(RhoPi(s), y, (2 * x + 3 * y) % 5) == Rotl(LaneOf(s, x, y), Turn(x + 5 * y))
  {
    hide Rotl, Turn;
    WalkPlace(y, (2 * x + 3 * y) % 5);
    Unturned(x, y);
  }

  function ColumnSum(s: State, x: nat): Lane
    requires x < 5
  {
    Xor(Xor(Xor(Xor(LaneOf(s, x, 0), LaneOf(s, x, 1)), LaneOf(s, x, 2)), LaneOf(s, x, 3)), LaneOf(s, x, 4))
  }

  /** Theta: each lane gets the sum of the column before it and, rotated by one, of the column after it. */
  lemma ThetaIs(s: State, x: nat, y: nat)
    requires x < 5 && y < 5
    ensures LaneOf(Theta(s), x, y) ==
            Xor(LaneOf(s, x, y), Xor(ColumnSum(s, (x + 4) % 5), Rotl(ColumnSum(s, (x + 1) % 5), 1)))
  {
    hide Rotl, Xor;
    WalkPlace(x, y);
  }

  /** Chi as a polynomial over the field of two elements: a + c + b c. */
  lemma ChiPolynomial(a: Lane, b: Lane, c: Lane)
    ensures ChiLane(a, b, c) == a ^ c ^ (b & c)
  {
  }

  lemma ChiIs(s: State, x: nat, y: nat)
    requires x < 5 && y < 5
    ensures LaneOf(Chi(s), x, y) == ChiLane(LaneOf(s, x, y), LaneOf(s, (x + 1) % 5, y), LaneOf(s, (x + 2) % 5, y))
  {
    hide ChiLane;
    WalkPlace(x, y);
  }

  // ---- round constants ---------------------------------------------------------------------------------------------

  /** One step of the shift register of Algorithm 5, whose taps are x^8 + x^6 + x^5 + x^4 + 1. */
  function Shifted(r: bv8): bv8 { if r & 0x80 == 0 then r << 1 else (r << 1) ^ 0x71 }

  function Register(t: nat): bv8 { if t == 0 then 1 else Shifted(Register(t - 1)) }

  /** The register after n more steps. */
  function Later(r: bv8, n: nat): bv8 { if n == 0 then r else Shifted(Later(r, n - 1)) }

  lemma {:induction false} LaterRegister(t: nat, n: nat)
    ensures Register(t + n) == Later(Register(t), n)
    decreases n
  {
    if n > 0 {
      LaterRegister(t, n - 1);
    }
  }

  /** The register at the start of every round. */
  function Start(i: nat): bv8
    requires i <= 24
  {
    [0x01, 0x80, 0xd8, 0x1a, 0xdf, 0x09, 0x35, 0x4f, 0xca, 0x70, 0x41, 0xec, 0xd5, 0xcd, 0x63, 0xab, 0xaa, 0x2a, 0xf2,
        0xe8, 0x37, 0x3e, 0x0b, 0x44, 0x8e][i]
  }

  lemma StartStep(i: nat)
    requires i < 24
    ensures Start(i + 1) == Later(Start(i), 7)
  {
    SevenSteps(Start(i));
    if i < 8 { StartLow(i); } else if i < 16 { StartMiddle(i); } else { StartHigh(i); }
    hide Start, Later, Shifted;
  }

  function Seven(r: bv8): bv8 { Shifted(Shifted(Shifted(Shifted(Shifted(Shifted(Shifted(r))))))) }

  lemma SevenSteps(r: bv8)
    ensures Later(r, 7) == Seven(r)
  {
    hide Shifted;
    LaterSteps(r);
  }

  lemma StartLow(i: nat)
    requires i < 8
    ensures Start(i + 1) == Seven(Start(i))
  {
  }

  lemma StartMiddle(i: nat)
    requires 8 <= i < 16
    ensures Start(i + 1) == Seven(Start(i))
  {
  }

  lemma StartHigh(i: nat)
    requires 16 <= i < 24
    ensures Start(i + 1) == Seven(Start(i))
  {
  }

  lemma FirstStart()
    ensures Register(0) == Start(0)
  {
  }

  lemma {:induction false} StartIs(i: nat)
    requires i <= 24
    ensures Register(7 * i) == Start(i)
    decreases i
  {
    FirstStart();
    hide Start, Register, Later;
    if i > 0 {
      StartIs(i - 1);
      StartStep(i - 1);
      LaterRegister(7 * (i - 1), 7);
    }
  }

  /** Output j of a round goes to bit 2^j - 1 of its constant. */
  function Constant(i: nat): Lane { ConstantOf(Register(7 * i)) }

  function ConstantOf(r: bv8): Lane {
    Placed(r, 0x1) | Placed(Later(r, 1), 0x2) | Placed(Later(r, 2), 0x8) | Placed(Later(r, 3), 0x80) |
    Placed(Later(r, 4), 0x8000) | Placed(Later(r, 5), 0x8000_0000) | Placed(Later(r, 6), 0x8000_0000_0000_0000)
  }

  /** The output of the register is its lowest bit. */
  function Placed(r: bv8, mask: Lane): Lane { if r & 1 == 1 then mask else 0 }

  /** The constants of the table are those of the register. */
  lemma ConstantsExact(i: nat)
    requires i < 24
    ensures Rc(i) == Constant(i)
  {
    StartIs(i);
    TableConstant(i);
    hide Rc, ConstantOf, Start, Register;
  }

  lemma TableConstant(i: nat)
    requires i < 24
    ensures Rc(i) == ConstantOf(Start(i))
  {
    if i < 6 {
      TableLow(i);
    } else if i < 12 {
      TableSecond(i);
    } else if i < 18 {
      TableThird(i);
    } else {
      TableHigh(i);
    }
    hide Rc, ConstantOf, Start;
  }

  lemma TableLow(i: nat)
    requires i < 6
    ensures Rc(i) == ConstantOf(Start(i))
  {
    LaterSteps(Start(i));
    hide Later;
  }

  lemma TableSecond(i: nat)
    requires 6 <= i < 12
    ensures Rc(i) == ConstantOf(Start(i))
  {
    LaterSteps(Start(i));
    hide Later;
  }

  lemma TableThird(i: nat)
    requires 12 <= i < 18
    ensures Rc(i) == ConstantOf(Start(i))
  {
    LaterSteps(Start(i));
    hide Later;
  }

  lemma TableHigh(i: nat)
    requires 18 <= i < 24
    ensures Rc(i) == ConstantOf(Start(i))
  {
    LaterSteps(Start(i));
    hide Later;
  }

  lemma LaterSteps(r: bv8)
    ensures Later(r, 1) == Shifted(r) && Later(r, 2) == Shifted(Later(r, 1)) && Later(r, 3) == Shifted(Later(r, 2))
    ensures Later(r, 4) == Shifted(Later(r, 3)) && Later(r, 5) == Shifted(Later(r, 4))
    ensures Later(r, 6) == Shifted(Later(r, 5)) && Later(r, 7) == Shifted(Later(r, 6))
  {
    hide Shifted;
    assert Later(r, 1) == Shifted(r);
  }
}
