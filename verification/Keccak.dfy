/** Keccak-f[1600] twice: the in-place lane walk of the ML-KEM module and the array form of the hash
    module.  Both are proved against one specification, so they agree on every state. */
module Keccak {

  type Lane = bv64

  type State = s: seq<Lane> | |s| == 25 witness seq(25, i => 0)

  function Rotl(x: Lane, n: nat): Lane
    requires n < 64
  {
    if n == 0 then x else (x << n) | (x >> (64 - n))
  }

  function Xor(x: Lane, y: Lane): Lane { x ^ y }

  function ChiLane(a: Lane, b: Lane, c: Lane): Lane { a ^ (!b & c) }

  // ---- the step mappings of FIPS 202, section 3.2, on lanes x + 5 y -------------------------------------

  function Parity(s: State, x: nat): Lane
    requires x < 5
  {
    Xor(Xor(Xor(Xor(s[x], s[x + 5]), s[x + 10]), s[x + 15]), s[x + 20])
  }

  function ThetaMask(s: State, x: nat): Lane
    requires x < 5
  {
    Xor(Parity(s, (x + 4) % 5), Rotl(Parity(s, (x + 1) % 5), 1))
  }

  function Theta(s: State): State {
    seq(25, p requires 0 <= p < 25 => Xor(s[p], ThetaMask(s, p % 5)))
  }

  /** The rotation offsets, at 5 x + y. */
  function Rot(i: nat): (n: nat)
    requires i < 25
    ensures n < 64
  {
    [0, 36, 3, 41, 18, 1, 44, 10, 45, 2, 62, 6, 43, 15, 61, 28, 55, 25, 21, 56, 27, 20, 39, 8, 14][i]
  }

  /** Where the lane comes from that moves to x + 5 y. */
  function Origin(p: nat): nat
    requires p < 25
  {
    (p % 5 + 3 * (p / 5)) % 5 + 5 * (p % 5)
  }

  function Turn(p: nat): (n: nat)
    requires p < 25
    ensures n < 64
  {
    Rot(p % 5 * 5 + p / 5)
  }

  function RhoPi(s: State): State {
    seq(25, p requires 0 <= p < 25 => Rotl(s[Origin(p)], Turn(Origin(p))))
  }

  function ChiAt(s: State, p: nat): Lane
    requires p < 25
  {
    var x, y := p % 5, p / 5;
    ChiLane(s[p], s[(x + 1) % 5 + 5 * y], s[(x + 2) % 5 + 5 * y])
  }

  function Chi(s: State): State {
    seq(25, p requires 0 <= p < 25 => ChiAt(s, p))
  }

  function Rc(i: nat): Lane
    requires i < 24
  {
    [
    0x0000000000000001, 0x0000000000008082, 0x800000000000808a, 0x8000000080008000, 0x000000000000808b,
        0x0000000080000001,
    0x8000000080008081, 0x8000000000008009, 0x000000000000008a, 0x0000000000000088, 0x0000000080008009,
        0x000000008000000a,
    0x000000008000808b, 0x800000000000008b, 0x8000000000008089, 0x8000000000008003, 0x8000000000008002,
        0x8000000000000080,
    0x000000000000800a, 0x800000008000000a, 0x8000000080008081, 0x8000000000008080, 0x0000000080000001,
        0x8000000080008008][i]
  }

  function Iota(s: State, rc: Lane): State { s[0 := Xor(s[0], rc)] }

  function Round(s: State, rc: Lane): State { Iota(Chi(RhoPi(Theta(s))), rc) }

  function Rounds(s: State, n: nat): State
    requires n <= 24
  {
    if n == 0 then s else Round(Rounds(s, n - 1), Rc(n - 1))
  }

  function KeccakF(s: State): State { Rounds(s, 24) }

  // ---- the ML-KEM module: lanes walk along one cycle ----------------------------------------------------

  function Rho(i: nat): nat
    requires i < 24
  {
    [1, 3, 6, 10, 15, 21, 28, 36, 45, 55, 2, 14, 27, 41, 56, 8, 25, 43, 62, 18, 39, 61, 20, 44][i]
  }

  /** The cycle: the lane at stop i moves to stop i + 1. */
  function Walk(i: nat): (p: nat)
    requires i <= 24
    ensures 0 < p < 25
  {
    [1, 10, 7, 11, 17, 18, 3, 5, 16, 8, 21, 24, 4, 15, 23, 19, 13, 12, 2, 20, 14, 22, 9, 6, 1][i]
  }

  /** The step of the walk, from lane x + 5 y. */
  lemma WalkStep(i: nat, x: nat, y: nat)
    requires i < 24 && x < 5 && y < 5 && x + 5 * y == Walk(i)
    ensures y + 5 * ((2 * x + 3 * y) % 5) == Walk(i + 1)
  {
    hide Walk;
    WalkPlace(x, y);
    WalkNext(i);
  }

  lemma WalkNext(i: nat)
    requires i < 24
    ensures Walk(i + 1) == Walk(i) / 5 + 5 * ((2 * (Walk(i) % 5) + 3 * (Walk(i) / 5)) % 5)
  {
    if i < 12 { WalkNextLow(i); } else { WalkNextHigh(i); }
    hide Walk;
  }

  lemma WalkNextLow(i: nat)
    requires i < 12
    ensures Walk(i + 1) == Walk(i) / 5 + 5 * ((2 * (Walk(i) % 5) + 3 * (Walk(i) / 5)) % 5)
  {
  }

  lemma WalkNextHigh(i: nat)
    requires 12 <= i < 24
    ensures Walk(i + 1) == Walk(i) / 5 + 5 * ((2 * (Walk(i) % 5) + 3 * (Walk(i) / 5)) % 5)
  {
  }

  lemma WalkPlace(x: nat, y: nat)
    requires x < 5 && y < 5
    ensures (x + 5 * y) % 5 == x && (x + 5 * y) / 5 == y
  {
  }

  /** The walk inverts the other module's source index. */
  lemma WalkBack(i: nat)
    requires i < 24
    ensures Origin(Walk(i + 1)) == Walk(i)
  {
    hide Walk;
    var x, y := Walk(i) % 5, Walk(i) / 5;
    WalkNext(i);
    WalkPlace(y, (2 * x + 3 * y) % 5);
    Unturned(x, y);
  }

  /** y + 3 (2x + 3y) = x modulo 5: the walk step has an inverse. */
  lemma Unturned(x: nat, y: nat)
    requires x < 5 && y < 5
    ensures (y + 3 * ((2 * x + 3 * y) % 5)) % 5 == x
  {
  }

  /** The offset on the way is the one in the other module's table. */
  lemma WalkTurn(i: nat)
    requires i < 24
    ensures Turn(Walk(i)) == Rho(i)
  {
    WalkSlot(i);
    SlotTurn(i);
    hide Walk, Rot, Rho, Slot;
  }

  /** The entry of that table that belongs to stop i. */
  function Slot(i: nat): (j: nat)
    requires i < 24
    ensures j < 25
  {
    [5, 2, 11, 7, 13, 18, 15, 1, 8, 16, 9, 24, 20, 3, 19, 23, 17, 12, 10, 4, 22, 14, 21, 6][i]
  }

  lemma WalkSlot(i: nat)
    requires i < 24
    ensures Walk(i) % 5 * 5 + Walk(i) / 5 == Slot(i)
  {
  }

  lemma SlotTurn(i: nat)
    requires i < 24
    ensures Rot(Slot(i)) == Rho(i)
  {
  }

  /** Every lane but lane 0 is on the walk. */
  function Stop(p: nat): (i: nat)
    requires p < 25
    ensures p != 0 ==> i < 24 && Walk(i + 1) == p
  {
    [0, 23, 17, 5, 11, 6, 22, 1, 8, 21, 0, 2, 16, 15, 19, 12, 7, 3, 4, 14, 18, 9, 20, 13, 10][p]
  }

  /** No lane is visited twice. */
  lemma StopOnce(i: nat)
    requires i < 24
    ensures Stop(Walk(i + 1)) == i
  {
  }

  /** Lane 0 stays where it is. */
  lemma LaneZero(s: State)
    ensures RhoPi(s)[0] == s[0]
  {
    assert Origin(0) == 0 && Turn(0) == 0;
  }

  /** The state after the first n moves of the walk. */
  function Walked(s: State, n: nat): State {
    seq(25, p requires 0 <= p < 25 => if p != 0 && Stop(p) < n then Rotl(s[Origin(p)], Turn(Origin(p))) else s[p])
  }

  /** One move: the carried lane is put down, turned, and the lane it replaces is still the original. */
  lemma WalkMove(s: State, i: nat)
    requires i < 24
    ensures Rho(i) < 64 && Walked(s, i)[Walk(i + 1)] == s[Walk(i + 1)]
    ensures Walked(s, i + 1) == Walked(s, i)[Walk(i + 1) := Rotl(s[Walk(i)], Rho(i))]
  {
    hide Rotl, Stop, Turn, Origin, Walk, Rho;
    WalkBack(i);
    WalkTurn(i);
    StopOnce(i);
  }

  lemma WalkOver(s: State)
    ensures Walked(s, 0) == s && Walked(s, 24) == RhoPi(s)
  {
    LaneZero(s);
    hide Rotl, Stop, Turn, Origin, Walk;
  }

  method ThetaInPlace(st: array<Lane>)
    requires st.Length == 25
    modifies st
    ensures st[..] == Theta(old(st[..]))
  {
    hide Parity, Rotl, Xor;
    ghost var s: State := st[..];
    var bc := new Lane[5](_ => 0);
    var i := 0;
    while i < 5
      invariant 0 <= i <= 5 && st[..] == s
      invariant forall x :: 0 <= x < i ==> bc[x] == Parity(s, x)
    {
      bc[i] := ColumnParity(st, i, s);
      i := i + 1;
    }
    i := 0;
    while i < 5
      invariant 0 <= i <= 5 && ColumnsMasked(s, st[..], i)
      invariant forall x :: 0 <= x < 5 ==> bc[x] == Parity(s, x)
    {
      MaskColumn(st, i, Xor(bc[(i + 4) % 5], Rotl(bc[(i + 1) % 5], 1)), s);
      i := i + 1;
    }
  }

  ghost predicate ColumnsMasked(s: State, now: seq<Lane>, n: nat)
    requires |now| == 25
  {
    forall p :: 0 <= p < 25 ==> now[p] == if p % 5 < n then Xor(s[p], ThetaMask(s, p % 5)) else s[p]
  }

  /** Adds the mask into the five lanes of a column. */
  method MaskColumn(st: array<Lane>, i: nat, t: Lane, ghost s: State)
    requires st.Length == 25 && i < 5 && t == ThetaMask(s, i) && ColumnsMasked(s, st[..], i)
    modifies st
    ensures ColumnsMasked(s, st[..], i + 1)
  {
    hide ThetaMask, Xor;
    var j := 0;
    while j < 5
      invariant 0 <= j <= 5
      invariant forall p :: 0 <= p < 25 ==> st[p] == if p % 5 < i || (p % 5 == i &&
                p / 5 < j) then Xor(s[p], ThetaMask(s, p % 5)) else s[p]
    {
      st[i + 5 * j] := Xor(st[i + 5 * j], t);
      j := j + 1;
    }
  }

  method ColumnParity(st: array<Lane>, i: nat, ghost s: State) returns (c: Lane)
    requires st.Length == 25 && i < 5 && st[..] == s
    ensures c == Parity(s, i)
  {
    hide Xor;
    c := Xor(Xor(Xor(Xor(st[i], st[i + 5]), st[i + 10]), st[i + 15]), st[i + 20]);
  }

  /** Rotation and permutation in one walk that carries a single lane along. */
  method RhoPiInPlace(st: array<Lane>)
    requires st.Length == 25
    modifies st
    ensures st[..] == RhoPi(old(st[..]))
  {
    assert Walk(0) == 1;
    hide Rotl, Walked, RhoPi, Walk, Rho;
    ghost var s: State := st[..];
    WalkOver(s);
    var x, y, current := 1, 0, st[1];
    var i := 0;
    while i < 24
      invariant 0 <= i <= 24 && 0 <= x < 5 && 0 <= y < 5 && x + 5 * y == Walk(i)
      invariant current == s[Walk(i)] && st[..] == Walked(s, i)
    {
      WalkStep(i, x, y);
      WalkMove(s, i);
      var ax, ay := y, (2 * x + 3 * y) % 5;
      var idx := ax + 5 * ay;
      var tmp := st[idx];
      st[idx] := Rotl(current, Rho(i));
      current := tmp;
      x, y := ax, ay;
      i := i + 1;
    }
  }

  lemma ChiPlace(s: State, x: nat, y: nat)
    requires x < 5 && y < 5
    ensures ChiAt(s, x + 5 * y) == ChiLane(s[x + 5 * y], s[(x + 1) % 5 + 5 * y], s[(x + 2) % 5 + 5 * y])
  {
    hide ChiLane;
    WalkPlace(x, y);
    var p := x + 5 * y;
    assert p % 5 == x && p / 5 == y;
  }

  /** Row by row, through a copy of the row. */
  method ChiInPlace(st: array<Lane>)
    requires st.Length == 25
    modifies st
    ensures st[..] == Chi(old(st[..]))
  {
    hide ChiAt;
    ghost var s: State := st[..];
    var y := 0;
    while y < 5
      invariant 0 <= y <= 5
      invariant forall p :: 0 <= p < 25 ==> st[p] == if p < 5 * y then ChiAt(s, p) else s[p]
    {
      ChiRow(st, y, s);
      y := y + 1;
    }
  }

  method ChiRow(st: array<Lane>, y: nat, ghost s: State)
    requires st.Length == 25 && y < 5
    requires forall p :: 0 <= p < 25 ==> st[p] == if p < 5 * y then ChiAt(s, p) else s[p]
    modifies st
    ensures forall p :: 0 <= p < 25 ==> st[p] == if p < 5 * (y + 1) then ChiAt(s, p) else s[p]
  {
    hide ChiLane, ChiAt;
    var t := new Lane[5](_ => 0);
    var x := 0;
    while x < 5
      invariant 0 <= x <= 5 && st[..] == old(st[..])
      invariant forall k :: 0 <= k < x ==> t[k] == s[k + 5 * y]
    {
      t[x] := st[x + 5 * y];
      x := x + 1;
    }
    x := 0;
    while x < 5
      invariant 0 <= x <= 5 && forall k :: 0 <= k < 5 ==> t[k] == s[k + 5 * y]
      invariant forall p :: 0 <= p < 25 ==> st[p] == if p < 5 * y + x then ChiAt(s, p) else s[p]
    {
      ChiPlace(s, x, y);
      st[x + 5 * y] := ChiLane(t[x], t[(x + 1) % 5], t[(x + 2) % 5]);
      x := x + 1;
    }
  }

  /** The permutation of the ML-KEM module. */
  method KemKeccakF(st: array<Lane>)
    requires st.Length == 25
    modifies st
    ensures st[..] == KeccakF(old(st[..]))
  {
    hide Theta, RhoPi, Chi, Xor, Rc;
    ghost var s: State := st[..];
    var round := 0;
    while round < 24
      invariant 0 <= round <= 24 && st[..] == Rounds(s, round)
    {
      ThetaInPlace(st);
      RhoPiInPlace(st);
      ChiInPlace(st);
      st[0] := Xor(st[0], Rc(round));
      round := round + 1;
    }
  }

  // ---- the hash module: one array per step ------------------------------------------------------------------

  method ColumnMasks(st: array<Lane>, ghost s: State) returns (d: array<Lane>)
    requires st.Length == 25 && st[..] == s
    ensures fresh(d) && d.Length == 5 && forall k :: 0 <= k < 5 ==> d[k] == ThetaMask(s, k)
  {
    hide Parity, Rotl, Xor;
    var c := new Lane[5](_ => 0);
    var x := 0;
    while x < 5
      invariant 0 <= x <= 5 && forall k :: 0 <= k < x ==> c[k] == Parity(s, k)
    {
      c[x] := ColumnParity(st, x, s);
      x := x + 1;
    }
    d := new Lane[5](_ => 0);
    x := 0;
    while x < 5
      invariant 0 <= x <= 5 && forall k :: 0 <= k < 5 ==> c[k] == Parity(s, k)
      invariant forall k :: 0 <= k < x ==> d[k] == ThetaMask(s, k)
    {
      d[x] := Xor(c[(x + 4) % 5], Rotl(c[(x + 1) % 5], 1));
      x := x + 1;
    }
  }

  /** Theta, with the column masks computed first. */
  method ThetaMasked(st: array<Lane>)
    requires st.Length == 25
    modifies st
    ensures st[..] == Theta(old(st[..]))
  {
    hide ThetaMask, Xor;
    ghost var s: State := st[..];
    var d := ColumnMasks(st, s);
    var x := 0;
    while x < 5
      invariant 0 <= x <= 5 && forall k :: 0 <= k < 5 ==> d[k] == ThetaMask(s, k)
      invariant forall p :: 0 <= p < 25 ==> st[p] == if p % 5 < x then Xor(s[p], ThetaMask(s, p % 5)) else s[p]
    {
      var y := 0;
      while y < 5
        invariant 0 <= y <= 5 && forall k :: 0 <= k < 5 ==> d[k] == ThetaMask(s, k)
        invariant forall p :: 0 <= p < 25 ==> st[p] == if p % 5 < x || (p % 5 == x &&
                  p / 5 < y) then Xor(s[p], ThetaMask(s, p % 5)) else s[p]
      {
        st[x + 5 * y] := Xor(st[x + 5 * y], d[x]);
        y := y + 1;
      }
      x := x + 1;
    }
  }

  /** Rotation into t. */
  method RhoCopied(a: seq<Lane>) returns (t: array<Lane>)
    requires |a| == 25
    ensures fresh(t) && t.Length == 25 && forall p :: 0 <= p < 25 ==> t[p] == Rotl(a[p], Turn(p))
  {
    hide Rotl, Rot;
    t := new Lane[25](_ => 0);
    var x := 0;
    while x < 5
      invariant 0 <= x <= 5
      invariant forall p :: 0 <= p < 25 && p % 5 < x ==> t[p] == Rotl(a[p], Turn(p))
    {
      var y := 0;
      while y < 5
        invariant 0 <= y <= 5
        invariant forall p :: 0 <= p < 25 && (p % 5 < x || (p % 5 == x && p / 5 < y)) ==> t[p] == Rotl(a[p], Turn(p))
      {
        WalkPlace(x, y);
        t[x + 5 * y] := Rotl(a[x + 5 * y], Rot(x * 5 + y));
        y := y + 1;
      }
      x := x + 1;
    }
  }

  /** Permutation into b. */
  method PiCopied(t: array<Lane>) returns (b: array<Lane>)
    requires t.Length == 25
    ensures fresh(b) && b.Length == 25 && forall p :: 0 <= p < 25 ==> b[p] == t[Origin(p)]
  {
    b := new Lane[25](_ => 0);
    var x := 0;
    while x < 5
      invariant 0 <= x <= 5
      invariant forall p :: 0 <= p < 25 && p % 5 < x ==> b[p] == t[Origin(p)]
    {
      var y := 0;
      while y < 5
        invariant 0 <= y <= 5
        invariant forall p :: 0 <= p < 25 && (p % 5 < x || (p % 5 == x && p / 5 < y)) ==> b[p] == t[Origin(p)]
      {
        WalkPlace(x, y);
        b[x + 5 * y] := t[(x + 3 * y) % 5 + 5 * x];
        y := y + 1;
      }
      x := x + 1;
    }
  }

  /** Chi, column by column, from b back into the state. */
  method ChiCopied(st: array<Lane>, b: array<Lane>)
    requires st.Length == b.Length == 25 && st != b
    modifies st
    ensures st[..] == Chi(b[..])
  {
    hide ChiLane;
    ghost var s: State := b[..];
    var x := 0;
    while x < 5
      invariant 0 <= x <= 5 && b[..] == s
      invariant forall p :: 0 <= p < 25 && p % 5 < x ==> st[p] == ChiAt(s, p)
    {
      var y := 0;
      while y < 5
        invariant 0 <= y <= 5 && b[..] == s
        invariant forall p :: 0 <= p < 25 && (p % 5 < x || (p % 5 == x && p / 5 < y)) ==> st[p] == ChiAt(s, p)
      {
        WalkPlace(x, y);
        st[x + 5 * y] := ChiLane(b[x + 5 * y], b[(x + 1) % 5 + 5 * y], b[(x + 2) % 5 + 5 * y]);
        y := y + 1;
      }
      x := x + 1;
    }
  }

  lemma Gathered(s: State, t: State, b: State)
    requires forall p :: 0 <= p < 25 ==> t[p] == Rotl(s[p], Turn(p))
    requires forall p :: 0 <= p < 25 ==> b[p] == t[Origin(p)]
    ensures b == RhoPi(s)
  {
    hide Rotl, Turn;
  }

  /** The permutation of the hash module. */
  method HashKeccakF(state: array<Lane>)
    requires state.Length == 25
    modifies state
    ensures state[..] == KeccakF(old(state[..]))
  {
    hide Theta, RhoPi, Chi, Xor, Rc;
    ghost var s: State := state[..];
    var round := 0;
    while round < 24
      invariant 0 <= round <= 24 && state[..] == Rounds(s, round)
    {
      ThetaMasked(state);
      ghost var mixed: State := state[..];
      var t := RhoCopied(state[..]);
      var b := PiCopied(t);
      Gathered(mixed, t[..], b[..]);
      ChiCopied(state, b);
      state[0] := Xor(state[0], Rc(round));
      round := round + 1;
    }
  }
}
