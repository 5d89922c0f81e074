/** The signature codec of ML-DSA-65: challenge, packed z, and the hint encoding with its strict checks. */
module DsaSignature {
  import opened MachineInts
  import opened Groups
  import opened DsaPacking

  const K: nat := 6
  const L: nat := 5
  const OMEGA: nat := 55

  datatype Option<+T> = None | Some(value: T)

  type Poly = seq<int>

  // ---- one hint polynomial as its list of positions -----------------------------------------------------

  /** The positions from j on at which p is not zero, in increasing order. */
  function Positions(p: Poly, j: nat): seq<byte>
    requires |p| <= 256
    decreases |p| - j
  {
    if j >= |p| then [] else (if p[j] != 0 then [j] else []) + Positions(p, j + 1)
  }

  function Indicator(s: seq<byte>): (p: Poly)
    ensures |p| == 256
  {
    seq(256, j requires 0 <= j < 256 => if j in s then 1 else 0)
  }

  predicate Increasing(s: seq<byte>) {
    forall i, j :: 0 <= i < j < |s| ==> s[i] < s[j]
  }

  predicate IsHint(p: Poly) {
    |p| == 256 && forall j :: 0 <= j < 256 ==> p[j] == 0 || p[j] == 1
  }

  lemma {:induction false} PositionsMember(p: Poly, j: nat)
    requires |p| <= 256
    ensures forall x: byte :: x in Positions(p, j) <==> j <= x < |p| && p[x] != 0
    decreases |p| - j
  {
    if j < |p| {
      PositionsMember(p, j + 1);
      var here: seq<byte> := if p[j] != 0 then [j] else [];
      forall x: byte ensures x in Positions(p, j) <==> j <= x < |p| && p[x] != 0 {
        assert x in Positions(p, j) <==> x in here || x in Positions(p, j + 1);
      }
    }
  }

  lemma {:induction false} PositionsIncreasing(p: Poly, j: nat)
    requires |p| <= 256
    ensures Increasing(Positions(p, j))
    decreases |p| - j
  {
    if j < |p| {
      PositionsIncreasing(p, j + 1);
      var rest := Positions(p, j + 1);
      forall i | 0 <= i < |rest| ensures j < rest[i] {
        PositionsMember(p, j + 1);
        assert rest[i] in rest;
      }
    }
  }

  /** An increasing sequence is determined by its members. */
  lemma {:induction false} IncreasingUnique(s: seq<byte>, t: seq<byte>)
    requires Increasing(s) && Increasing(t) && forall x: byte :: x in s <==> x in t
    ensures s == t
    decreases |s|
  {
    assert s != [] ==> s[0] in s;
    assert t != [] ==> t[0] in t;
    if s != [] && t != [] {
      assert s[0] == t[0];
      var s', t' := s[1..], t[1..];
      assert s == [s[0]] + s' && t == [t[0]] + t';
      forall x: byte ensures x in s' <==> x in t' {
        if x in s' { assert x in s && x != s[0]; }
        if x in t' { assert x in t && x != t[0]; }
      }
      IncreasingUnique(s', t');
    }
  }

  lemma IndicatorOfPositions(p: Poly)
    requires IsHint(p)
    ensures Indicator(Positions(p, 0)) == p
  {
    PositionsMember(p, 0);
  }

  lemma PositionsOfIndicator(s: seq<byte>)
    requires Increasing(s)
    ensures Positions(Indicator(s), 0) == s
  {
    var p := Indicator(s);
    PositionsMember(p, 0);
    PositionsIncreasing(p, 0);
    forall x: byte ensures x in Positions(p, 0) <==> x in s {}
    IncreasingUnique(Positions(p, 0), s);
  }

  // ---- the hint vector ----------------------------------------------------------------------------------

  ghost predicate AreHints(h: seq<Poly>) {
    forall i :: 0 <= i < |h| ==> IsHint(h[i])
  }

  function AllPositions(h: seq<Poly>): seq<byte>
    requires forall i :: 0 <= i < |h| ==> |h[i]| <= 256
  {
    if h == [] then [] else Positions(h[0], 0) + AllPositions(h[1..])
  }

  /** The running number of positions after each polynomial. */
  function Counts(h: seq<Poly>, k: nat): seq<int>
    requires forall i :: 0 <= i < |h| ==> |h[i]| <= 256
  {
    if h == [] then [] else [k + |Positions(h[0], 0)|] + Counts(h[1..], k + |Positions(h[0], 0)|)
  }

  predicate AllZero(s: seq<byte>) { forall i :: 0 <= i < |s| ==> s[i] == 0 }

  /** Reads the polynomials that `counts` announces, from position k of the list b; None is a malformed hint. */
  function Decode(b: seq<byte>, counts: seq<byte>, k: nat): Option<seq<Poly>>
    requires k <= |b| == OMEGA
    decreases |counts|
  {
    if counts == [] then if AllZero(b[k..]) then Some([]) else None
    else
      var cnt := counts[0];
      if cnt < k || cnt > OMEGA || !Increasing(b[k..cnt]) then None
      else Prepend([Indicator(b[k..cnt])], Decode(b, counts[1..], cnt))
  }

  function Prepend(s: seq<Poly>, rest: Option<seq<Poly>>): Option<seq<Poly>> {
    match rest case None => None case Some(h) => Some(s + h)
  }

  lemma {:induction false} DecodeEncode(b: seq<byte>, h: seq<Poly>, counts: seq<byte>, k: nat)
    requires AreHints(h) && k + |AllPositions(h)| <= |b| == OMEGA && counts == Counts(h, k)
    requires b[k..k + |AllPositions(h)|] == AllPositions(h) && AllZero(b[k + |AllPositions(h)|..])
    ensures Decode(b, counts, k) == Some(h)
    decreases |h|
  {
    hide Positions, Indicator, Increasing, AllZero;
    if h != [] {
      var p, rest := Positions(h[0], 0), AllPositions(h[1..]);
      var cnt := k + |p|;
      var all := p + rest;
      assert AllPositions(h) == all && counts[0] == cnt && counts[1..] == Counts(h[1..], cnt);
      hide AllPositions, Counts;
      assert b[k..cnt] == all[..|p|] == p by { assert b[k..cnt] == b[k..k + |all|][..|p|]; }
      assert b[cnt..cnt + |rest|] == rest by { assert b[cnt..cnt + |rest|] == b[k..k + |all|][|p|..]; }
      PositionsIncreasing(h[0], 0);
      IndicatorOfPositions(h[0]);
      DecodeEncode(b, h[1..], counts[1..], cnt);
      DecodeStep(b, counts, k);
      hide Decode;
      assert h == [h[0]] + h[1..];
    }
  }

  lemma DecodeStep(b: seq<byte>, counts: seq<byte>, k: nat)
    requires k <= |b| == OMEGA && counts != [] && k <= counts[0] <= OMEGA && Increasing(b[k..counts[0]])
    ensures Decode(b, counts, k) == Prepend([Indicator(b[k..counts[0]])], Decode(b, counts[1..], counts[0]))
  {
  }

  lemma SliceJoin<T>(b: seq<T>, i: nat, j: nat, k: nat)
    requires i <= j <= k <= |b|
    ensures b[i..k] == b[i..j] + b[j..k]
  {
  }

  /** What a successful decoding from position k says about the list b. */
  ghost predicate Encodes(b: seq<byte>, counts: seq<byte>, k: nat, h: seq<Poly>) {
    && |h| == |counts| && AreHints(h) && Counts(h, k) == counts && k + |AllPositions(h)| <= |b|
    && b[k..k + |AllPositions(h)|] == AllPositions(h) && AllZero(b[k + |AllPositions(h)|..])
  }

  lemma EncodesCons(b: seq<byte>, counts: seq<byte>, k: nat, s: seq<byte>, t: seq<Poly>)
    requires counts != [] && k <= counts[0] <= |b| && s == b[k..counts[0]] && Increasing(s)
    requires Encodes(b, counts[1..], counts[0], t)
    ensures Encodes(b, counts, k, [Indicator(s)] + t)
  {
    var h := [Indicator(s)] + t;
    PositionsOfIndicator(s);
    assert h[1..] == t && IsHint(Indicator(s));
    hide Positions, Indicator, Increasing;
    var e := counts[0] + |AllPositions(t)|;
    assert AllPositions(h) == s + AllPositions(t);
    SliceJoin(b, k, counts[0], e);
    assert Counts(h, k) == [k + |s|] + Counts(t, counts[0]);
    assert counts == [counts[0]] + counts[1..];
  }

  lemma {:induction false} EncodeDecode(b: seq<byte>, counts: seq<byte>, k: nat)
    requires k <= |b| == OMEGA && Decode(b, counts, k).Some?
    ensures Encodes(b, counts, k, Decode(b, counts, k).value)
    decreases |counts|
  {
    if counts != [] {
      var cnt := counts[0];
      EncodeDecode(b, counts[1..], cnt);
      hide Encodes, Increasing, Indicator;
      EncodesCons(b, counts, k, b[k..cnt], Decode(b, counts[1..], cnt).value);
    }
  }

  // ---- the hint loops -----------------------------------------------------------------------------------

  function ZeroBytes(n: nat): (z: seq<byte>)
    ensures |z| == n && AllZero(z)
  {
    seq(n, i => 0)
  }

  /** The hint part of a signature: the positions, zeros up to OMEGA, then the running counts. */
  function HintBytes(h: seq<Poly>): (b: seq<byte>)
    requires (forall i :: 0 <= i < |h| ==> |h[i]| <= 256) && |AllPositions(h)| <= OMEGA
    ensures |b| == OMEGA + |h|
  {
    CountsLength(h, 0);
    AllPositions(h) + ZeroBytes(OMEGA - |AllPositions(h)|) + Counts(h, 0)
  }

  lemma {:induction false} CountsLength(h: seq<Poly>, k: nat)
    requires forall i :: 0 <= i < |h| ==> |h[i]| <= 256
    ensures |Counts(h, k)| == |h| && forall i :: 0 <= i < |h| ==> k <= Counts(h, k)[i] <= k + |AllPositions(h)|
    decreases |h|
  {
    if h != [] {
      CountsLength(h[1..], k + |Positions(h[0], 0)|);
    }
  }

  /** Stores the positions of one polynomial from index `at` on, and returns the index after the last. */
  method PackPositions(p: Poly, sig: array<byte>, at: nat) returns (end: nat)
    requires |p| == 256 && at + |Positions(p, 0)| <= sig.Length
    modifies sig
    ensures end == at + |Positions(p, 0)| && sig[..] == old(sig[..at]) + Positions(p, 0) + old(sig[end..])
  {
    ghost var was := sig[..];
    end := at;
    var j := 0;
    while j < 256
      invariant 0 <= j <= 256 && at <= end && end + |Positions(p, j)| == at + |Positions(p, 0)|
      invariant sig[..end] + Positions(p, j) == was[..at] + Positions(p, 0)
      invariant sig[end..] == was[end..]
    {
      ghost var before := sig[..end];
      if p[j] != 0 {
        sig[end] := j;
        end := end + 1;
        assert sig[..end] == before + [j];
      }
      j := j + 1;
    }
    assert sig[..] == sig[..end] + sig[end..];
  }

  /** The hint-encoding loop, run on a zeroed area of OMEGA + |h| bytes at hoff. */
  method PackHints(h: seq<Poly>, sig: array<byte>, hoff: nat)
    requires hoff + OMEGA + |h| <= sig.Length
    requires forall i :: 0 <= i < |h| ==> |h[i]| == 256
    requires |AllPositions(h)| <= OMEGA && sig[hoff..hoff + OMEGA] == ZeroBytes(OMEGA)
    modifies sig
    ensures sig[..] == old(sig[..hoff]) + HintBytes(h) + old(sig[hoff + OMEGA + |h|..])
  {
    hide Positions, AllPositions, Counts, HintProgress;
    ghost var was := sig[..];
    var k, i := 0, 0;
    HintStart(was, h, hoff);
    while i < |h|
      invariant 0 <= i <= |h| && k >= 0 && HintProgress(was, sig[..], h, hoff, i, k)
    {
      ghost var before := sig[..];
      HintRoom(was, before, h, hoff, i, k);
      var end := PackPositions(h[i], sig, hoff + k);
      ghost var mid := sig[..];
      HintStep(was, before, mid, h, hoff, i, k, end - hoff);
      k := end - hoff;
      sig[hoff + OMEGA + i] := k;
      i := i + 1;
    }
    HintEnd(was, sig[..], h, hoff, k);
  }

  /** After i polynomials and k positions: what is stored, what is left, and what has not been touched. */
  ghost predicate HintProgress(was: seq<byte>, now: seq<byte>, h: seq<Poly>, hoff: nat, i: nat, k: nat)
    requires i <= |h| && forall i :: 0 <= i < |h| ==> |h[i]| == 256
  {
    var coff := hoff + OMEGA;
    && |now| == |was| && coff + |h| <= |was| && hoff + k <= coff &&
        k + |AllPositions(h[i..])| == |AllPositions(h)| <= OMEGA
    && now[..hoff + k] + AllPositions(h[i..]) == was[..hoff] + AllPositions(h)
    && now[hoff + k..coff] == was[hoff + k..coff]
    && now[coff..coff + i] + Counts(h[i..], k) == Counts(h, 0)
    && now[coff + i..] == was[coff + i..]
  }

  lemma HintStart(was: seq<byte>, h: seq<Poly>, hoff: nat)
    requires hoff + OMEGA + |h| <= |was| && (forall i :: 0 <= i < |h| ==> |h[i]| == 256) && |AllPositions(h)| <= OMEGA
    ensures HintProgress(was, was, h, hoff, 0, 0)
  {
    assert h[0..] == h;
  }

  lemma HintRoom(was: seq<byte>, now: seq<byte>, h: seq<Poly>, hoff: nat, i: nat, k: nat)
    requires i < |h| && (forall i :: 0 <= i < |h| ==> |h[i]| == 256) && HintProgress(was, now, h, hoff, i, k)
    ensures |now| == |was| && k + |Positions(h[i], 0)| <= OMEGA && hoff + OMEGA + |h| <= |was|
  {
    hide Positions, Counts;
    PositionsStep(h, i, k);
  }

  lemma HintStep(was: seq<byte>, before: seq<byte>, mid: seq<byte>, h: seq<Poly>, hoff: nat, i: nat, k: nat, k': byte)
    requires i < |h| && (forall i :: 0 <= i < |h| ==> |h[i]| == 256) && HintProgress(was, before, h, hoff, i, k)
    requires k' == k + |Positions(h[i], 0)| <= OMEGA && hoff + OMEGA + |h| <= |before| == |was|
    requires mid == before[..hoff + k] + Positions(h[i], 0) + before[hoff + k'..]
    ensures HintProgress(was, mid[hoff + OMEGA + i := k'], h, hoff, i + 1, k')
  {
    hide Positions, AllPositions, Counts;
    var p, at := Positions(h[i], 0), hoff + OMEGA + i;
    var after := mid[at := k'];
    PositionsStep(h, i, k);
    assert after[..hoff + k'] == before[..hoff + k] + p;
    assert after[hoff + k'..hoff + OMEGA] == before[hoff + k..hoff + OMEGA][k' - k..] == was[hoff + k'..hoff + OMEGA];
    assert after[hoff + OMEGA..at + 1] == before[hoff + OMEGA..at] + [k'];
    assert after[at + 1..] == before[at..][1..] == was[at + 1..];
  }

  lemma HintEnd(was: seq<byte>, now: seq<byte>, h: seq<Poly>, hoff: nat, k: nat)
    requires (forall i :: 0 <= i < |h| ==> |h[i]| == 256) && HintProgress(was, now, h, hoff, |h|, k)
    requires was[hoff..hoff + OMEGA] == ZeroBytes(OMEGA)
    ensures now == was[..hoff] + HintBytes(h) + was[hoff + OMEGA + |h|..]
  {
    hide Positions, AllPositions, Counts;
    var coff := hoff + OMEGA;
    NoMorePositions(h, k);
    CountsLength(h, 0);
    assert now[hoff + k..coff] == was[hoff..coff][k..] && AllZero(was[hoff..coff][k..]);
    assert now[hoff + k..coff] == ZeroBytes(OMEGA - k);
    assert now[..hoff + k] == was[..hoff] + AllPositions(h) && now[coff..coff + |h|] == Counts(h, 0);
    assert now == now[..hoff + k] + now[hoff + k..coff] + now[coff..coff + |h|] + now[coff + |h|..];
  }

  lemma PositionsStep(h: seq<Poly>, i: nat, k: nat)
    requires i < |h| && forall i :: 0 <= i < |h| ==> |h[i]| == 256
    ensures AllPositions(h[i..]) == Positions(h[i], 0) + AllPositions(h[i + 1..])
    ensures Counts(h[i..], k) == [k + |Positions(h[i], 0)|] + Counts(h[i + 1..], k + |Positions(h[i], 0)|)
  {
    assert h[i..][1..] == h[i + 1..] && h[i..][0] == h[i];
  }

  lemma NoMorePositions(h: seq<Poly>, k: nat)
    ensures AllPositions(h[|h|..]) == [] && Counts(h[|h|..], k) == []
  {
  }

  lemma NotIncreasing(s: seq<byte>, j: nat)
    requires 0 < j < |s| && s[j] <= s[j - 1]
    ensures !Increasing(s)
  {
  }

  lemma IncreasingStep(b: seq<byte>, k: nat, j: nat)
    requires k <= j < |b| && Increasing(b[k..j]) && (j > k ==> b[j] > b[j - 1])
    ensures Increasing(b[k..j + 1]) && b[k..j + 1] == b[k..j] + [b[j]]
    ensures Indicator(b[k..j + 1]) == Indicator(b[k..j])[b[j] := 1]
  {
    var s := b[k..j];
    assert b[k..j + 1] == s + [b[j]];
    forall i | 0 <= i < |s| ensures s[i] < b[j] {
      assert s[|s| - 1] == b[j - 1];
    }
  }

  /** The positions of one polynomial: its hints, or nothing if they do not increase. */
  method ReadRun(hint: seq<byte>, k: nat, cnt: nat) returns (r: Option<Poly>)
    requires k <= cnt <= OMEGA <= |hint|
    ensures r == if Increasing(hint[..OMEGA][k..cnt]) then Some(Indicator(hint[..OMEGA][k..cnt])) else None
  {
    hide Increasing, Indicator;
    ghost var b := hint[..OMEGA];
    var hi, j := ZeroHint(), k;
    EmptyRun(b, k);
    while j < cnt
      invariant k <= j <= cnt && |hi| == 256 && hi == Indicator(b[k..j]) && Increasing(b[k..j])
    {
      assert hint[j] == b[j] && (j > k ==> hint[j - 1] == b[j - 1]);
      if j > k && hint[j] <= hint[j - 1] {
        NotIncreasing(b[k..cnt], j - k);
        return None;
      }
      IncreasingStep(b, k, j);
      hi := hi[hint[j] := 1];
      j := j + 1;
    }
    return Some(hi);
  }

  /** Whether the unused positions are zero. */
  method RestIsZero(hint: seq<byte>, k: nat) returns (ok: bool)
    requires k <= OMEGA <= |hint|
    ensures ok <==> AllZero(hint[..OMEGA][k..])
  {
    hide AllZero;
    ghost var b := hint[..OMEGA];
    var j := k;
    while j < OMEGA
      invariant k <= j <= OMEGA && ZeroBetween(b, k, j)
    {
      assert hint[j] == b[j];
      if hint[j] != 0 {
        NotAllZero(b, k, j);
        return false;
      }
      j := j + 1;
    }
    ZeroTail(b, k);
    return true;
  }

  /** The strict hint decoder, with every early exit that the code takes. */
  method UnpackHints(hint: seq<byte>) returns (r: Option<seq<Poly>>)
    requires |hint| >= OMEGA
    ensures r == Decode(hint[..OMEGA], hint[OMEGA..], 0)
  {
    hide Increasing, Indicator, AllZero;
    ghost var b, counts := hint[..OMEGA], hint[OMEGA..];
    var h: seq<Poly> := [];
    var k, i := 0, 0;
    assert counts[0..] == counts;
    PrependNothing(Decode(b, counts, 0));
    while OMEGA + i < |hint|
      invariant 0 <= i <= |counts| && 0 <= k <= OMEGA && |h| == i
      invariant Decode(b, counts, 0) == Prepend(h, Decode(b, counts[i..], k))
    {
      var cnt := hint[OMEGA + i];
      assert counts[i..][0] == cnt && counts[i..][1..] == counts[i + 1..];
      if cnt < k || cnt > OMEGA {
        return None;
      }
      var run := ReadRun(hint, k, cnt);
      if run == None {
        return None;
      }
      PrependTwice(h, run.value, Decode(b, counts[i + 1..], cnt));
      h := h + [run.value];
      k := cnt;
      i := i + 1;
    }
    assert counts[i..] == [] && h + [] == h;
    var ok := RestIsZero(hint, k);
    return if ok then Some(h) else None;
  }

  function ZeroHint(): (p: Poly)
    ensures |p| == 256
  {
    seq(256, i => 0)
  }

  lemma EmptyRun(b: seq<byte>, k: nat)
    requires k <= |b|
    ensures ZeroHint() == Indicator(b[k..k]) && Increasing(b[k..k])
  {
  }

  predicate ZeroBetween(b: seq<byte>, k: nat, j: nat)
    requires j <= |b|
  {
    forall i :: k <= i < j ==> b[i] == 0
  }

  lemma NotAllZero(b: seq<byte>, k: nat, j: nat)
    requires k <= j < |b| && b[j] != 0
    ensures !AllZero(b[k..])
  {
    assert b[k..][j - k] == b[j];
  }

  lemma ZeroTail(b: seq<byte>, k: nat)
    requires k <= |b| && ZeroBetween(b, k, |b|)
    ensures AllZero(b[k..])
  {
  }

  lemma PrependNothing(rest: Option<seq<Poly>>)
    ensures Prepend([], rest) == rest
  {
    if rest.Some? {
      assert [] + rest.value == rest.value;
    }
  }

  lemma PrependTwice(h: seq<Poly>, p: Poly, rest: Option<seq<Poly>>)
    ensures Prepend(h, Prepend([p], rest)) == Prepend(h + [p], rest)
  {
    if rest.Some? {
      assert h + ([p] + rest.value) == h + [p] + rest.value;
    }
  }

  // ---- the whole signature ------------------------------------------------------------------------------

  const CTILDE_BYTES: nat := 48
  const Z_BYTES: nat := 3200
  const SIGNATURE_BYTES: nat := 3309

  predicate IsZPoly(p: Poly) { |p| == 256 && forall i :: 0 <= i < 256 ==> IsZ(p[i]) }

  ghost predicate IsZVector(z: seq<Poly>) {
    |z| == L && forall i :: 0 <= i < L ==> IsZPoly(z[i])
  }

  ghost predicate IsHintVector(h: seq<Poly>) {
    |h| == K && AreHints(h) && |AllPositions(h)| <= OMEGA
  }

  function PackSig(c: seq<byte>, z: seq<Poly>, h: seq<Poly>): seq<byte>
    requires (forall i :: 0 <= i < |h| ==> |h[i]| <= 256) && |AllPositions(h)| <= OMEGA
  {
    c + PackAll(PackZ, z) + HintBytes(h)
  }

  function UnpackSig(sig: seq<byte>): Option<(seq<byte>, seq<Poly>, seq<Poly>)> {
    if |sig| != SIGNATURE_BYTES then None
    else
      var hint := sig[CTILDE_BYTES + Z_BYTES..];
      match Decode(hint[..OMEGA], hint[OMEGA..], 0)
      case None => None
      case Some(h) => Some((sig[..CTILDE_BYTES], UnpackAll(640, UnpackZ, sig[CTILDE_BYTES..CTILDE_BYTES + Z_BYTES], L),
          h))
  }

  lemma ZPolyRoundTrip(p: Poly)
    requires IsZPoly(p)
    ensures |PackZ(p)| == 640 && UnpackZ(PackZ(p)) == p
  {
    hide PackZ, UnpackZ, IsZ;
    assert All(IsZ, p);
    ZRoundTrip(p);
  }

  lemma ZVectorRoundTrip(z: seq<Poly>)
    requires IsZVector(z)
    ensures |PackAll(PackZ, z)| == Z_BYTES && UnpackAll(640, UnpackZ, PackAll(PackZ, z), L) == z
  {
    hide PackZ, UnpackZ, IsZPoly;
    forall i | 0 <= i < |z| ensures |PackZ(z[i])| == 640 && UnpackZ(PackZ(z[i])) == z[i] {
      ZPolyRoundTrip(z[i]);
    }
    PackAllInverse(640, PackZ, UnpackZ, z);
  }

  lemma ZPolyOnto(b: seq<byte>)
    requires |b| == 640
    ensures IsZPoly(UnpackZ(b)) && PackZ(UnpackZ(b)) == b
  {
    hide PackZ, UnpackZ, IsZ;
    ZBijection(b);
  }

  lemma ZVectorOnto(b: seq<byte>)
    requires |b| == Z_BYTES
    ensures IsZVector(UnpackAll(640, UnpackZ, b, L)) && PackAll(PackZ, UnpackAll(640, UnpackZ, b, L)) == b
  {
    hide PackZ, UnpackZ, IsZPoly;
    forall x: seq<byte> | |x| == 640 ensures IsZPoly(UnpackZ(x)) && PackZ(UnpackZ(x)) == x {
      ZPolyOnto(x);
    }
    UnpackAllEach(640, UnpackZ, b, L, IsZPoly);
    UnpackAllInverse(640, PackZ, UnpackZ, b, L);
  }

  lemma HintBytesEncode(h: seq<Poly>)
    requires IsHintVector(h)
    ensures Decode(HintBytes(h)[..OMEGA], HintBytes(h)[OMEGA..], 0) == Some(h)
  {
    hide Positions, AllPositions, Counts;
    var b, p := HintBytes(h), AllPositions(h);
    CountsLength(h, 0);
    assert b[OMEGA..] == Counts(h, 0);
    assert b[..OMEGA] == p + ZeroBytes(OMEGA - |p|);
    DecodeEncode(b[..OMEGA], h, b[OMEGA..], 0);
  }

  lemma HintBytesDecode(b: seq<byte>)
    requires |b| == OMEGA + K && Decode(b[..OMEGA], b[OMEGA..], 0).Some?
    ensures var h := Decode(b[..OMEGA], b[OMEGA..], 0).value; IsHintVector(h) && HintBytes(h) == b
  {
    hide Positions, AllPositions, Counts, Decode;
    var list := b[..OMEGA];
    EncodeDecode(list, b[OMEGA..], 0);
    var h := Decode(list, b[OMEGA..], 0).value;
    var p := AllPositions(h);
    assert list == list[..|p|] + list[|p|..] && list[|p|..] == ZeroBytes(OMEGA - |p|);
    assert b == list + b[OMEGA..];
  }

  /** What the verifier unpacks is what the signer packed. */
  lemma SignatureRoundTrip(c: seq<byte>, z: seq<Poly>, h: seq<Poly>)
    requires |c| == CTILDE_BYTES && IsZVector(z) && IsHintVector(h)
    ensures |PackSig(c, z, h)| == SIGNATURE_BYTES && UnpackSig(PackSig(c, z, h)) == Some((c, z, h))
  {
    assert forall i :: 0 <= i < |h| ==> IsHint(h[i]);
    hide HintBytes, PackAll, UnpackAll, Decode, IsZVector, AllPositions;
    ZVectorRoundTrip(z);
    HintBytesEncode(h);
    var sig := PackSig(c, z, h);
    assert sig[..CTILDE_BYTES] == c;
    assert sig[CTILDE_BYTES..CTILDE_BYTES + Z_BYTES] == PackAll(PackZ, z);
    assert sig[CTILDE_BYTES + Z_BYTES..] == HintBytes(h);
  }

  /** Strong unforgeability needs this: a string that unpacks at all is the one that packing gives back. */
  lemma SignatureCanonical(sig: seq<byte>)
    requires UnpackSig(sig).Some?
    ensures var (c, z, h) := UnpackSig(sig).value;
            |c| == CTILDE_BYTES && IsZVector(z) && IsHintVector(h) && PackSig(c, z, h) == sig
  {
    hide HintBytes, PackAll, UnpackAll, Decode, IsHint, IsZVector, AllPositions, Positions;
    var hint := sig[CTILDE_BYTES + Z_BYTES..];
    HintBytesDecode(hint);
    ZVectorOnto(sig[CTILDE_BYTES..CTILDE_BYTES + Z_BYTES]);
    assert sig == sig[..CTILDE_BYTES] + sig[CTILDE_BYTES..CTILDE_BYTES + Z_BYTES] + hint;
  }

  lemma {:induction false} PackAllStep(z: seq<Poly>, i: nat)
    requires i < |z|
    ensures PackAll(PackZ, z[i..]) == PackZ(z[i]) + PackAll(PackZ, z[i + 1..])
  {
    assert z[i..][1..] == z[i + 1..] && z[i..][0] == z[i];
  }

  /** One packed polynomial of z. */
  method PackOne(p: Poly, sig: array<byte>, at: nat)
    requires IsZPoly(p) && at + 640 <= sig.Length
    modifies sig
    ensures |PackZ(p)| == 640 && sig[..] == old(sig[..at]) + PackZ(p) + old(sig[at + 640..])
  {
    hide ZPack, PackZ;
    forall x: seq<int> ensures LengthAt(2, 5, ZPack, x) { ZLength(x); }
    ZPolyRoundTrip(p);
    PackZEach(p);
    PackLoop(2, 5, ZPack, p, 128, sig, at);
  }

  /** Stores the packed z from CTILDE_BYTES on, polynomial by polynomial. */
  method PackZVector(z: seq<Poly>, sig: array<byte>)
    requires IsZVector(z) && sig.Length == SIGNATURE_BYTES
    modifies sig
    ensures sig[..] == old(sig[..CTILDE_BYTES]) + PackAll(PackZ, z) + old(sig[CTILDE_BYTES + Z_BYTES..])
  {
    hide ZPack, PackZ, PackAll;
    ghost var was := sig[..];
    var i := 0;
    assert z[0..] == z;
    while i < L
      invariant 0 <= i <= L
      invariant sig[..CTILDE_BYTES + 640 * i] + PackAll(PackZ, z[i..]) == was[..CTILDE_BYTES] + PackAll(PackZ, z)
      invariant sig[CTILDE_BYTES + 640 * i..] == was[CTILDE_BYTES + 640 * i..]
    {
      ghost var before := sig[..];
      PackOne(z[i], sig, CTILDE_BYTES + 640 * i);
      PackAllStep(z, i);
      Stored(before, was, sig[..], PackZ(z[i]), CTILDE_BYTES + 640 * i, PackAll(PackZ, z[i + 1..]));
      i := i + 1;
    }
    NothingLeft(z);
    ZVectorRoundTrip(z);
    assert sig[..] == sig[..CTILDE_BYTES + Z_BYTES] + sig[CTILDE_BYTES + Z_BYTES..];
  }

  lemma ZLength(x: seq<int>)
    ensures LengthAt(2, 5, ZPack, x)
  {
  }

  lemma PackZEach(p: Poly)
    ensures PackZ(p) == Each(2, ZPack, p)
  {
  }

  lemma NothingLeft(z: seq<Poly>)
    ensures PackAll(PackZ, z[|z|..]) == []
  {
  }

  lemma ZeroHintArea(c: seq<byte>, p: seq<byte>, mid: seq<byte>, now: seq<byte>)
    requires |c| == CTILDE_BYTES && |p| == Z_BYTES && |mid| == |now| == SIGNATURE_BYTES
    requires mid[..CTILDE_BYTES] == c && now == mid[..CTILDE_BYTES] + p + mid[CTILDE_BYTES + Z_BYTES..]
    requires forall i :: CTILDE_BYTES <= i < SIGNATURE_BYTES ==> mid[i] == 0
    ensures now[..CTILDE_BYTES + Z_BYTES] == c + p
    ensures now[CTILDE_BYTES + Z_BYTES..CTILDE_BYTES + Z_BYTES + OMEGA] == ZeroBytes(OMEGA)
  {
    assert now == c + p + mid[CTILDE_BYTES + Z_BYTES..];
    var area := now[CTILDE_BYTES + Z_BYTES..CTILDE_BYTES + Z_BYTES + OMEGA];
    assert AllZero(area);
    assert area == ZeroBytes(OMEGA);
  }

  method PackSigBytes(c: seq<byte>, z: seq<Poly>, h: seq<Poly>) returns (sig: array<byte>)
    requires |c| == CTILDE_BYTES && IsZVector(z) && IsHintVector(h)
    ensures fresh(sig) && sig[..] == PackSig(c, z, h)
  {
    hide PackAll, AllPositions, IsZVector, HintBytes, PackZ;
    sig := new byte[SIGNATURE_BYTES](i => 0);
    ZVectorRoundTrip(z);
    Store(c, sig, 0);
    ghost var mid := sig[..];
    assert mid[..CTILDE_BYTES] == c;
    PackZVector(z, sig);
    ZeroHintArea(c, PackAll(PackZ, z), mid, sig[..]);
    PackHints(h, sig, CTILDE_BYTES + Z_BYTES);
  }

  method UnpackSigBytes(sig: seq<byte>) returns (r: Option<(seq<byte>, seq<Poly>, seq<Poly>)>)
    ensures r == UnpackSig(sig)
  {
    hide Decode, UnpackAll, UnpackZ;
    if |sig| != SIGNATURE_BYTES {
      return None;
    }
    var h := UnpackHints(sig[CTILDE_BYTES + Z_BYTES..]);
    match h {
      case None => return None;
      case Some(hints) =>
        return Some((sig[..CTILDE_BYTES], UnpackAll(640, UnpackZ, sig[CTILDE_BYTES..CTILDE_BYTES + Z_BYTES], L),
            hints));
    }
  }
}
