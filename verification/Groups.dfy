/** Packing a long sequence group by group: n elements in, m elements out. */
module Groups {
  import opened ModArith

  /** Applies f to every whole group of n elements, in order. */
  function Each<S, T>(n: nat, f: seq<S> -> seq<T>, a: seq<S>): seq<T>
    decreases |a|
  {
    if n == 0 || |a| < n then [] else f(a[..n]) + Each(n, f, a[n..])
  }

  ghost predicate InvertsAt<S, T>(n: nat, m: nat, f: seq<S> -> seq<T>, g: seq<T> -> seq<S>, x: seq<S>) {
    |x| == n ==> |f(x)| == m && g(f(x)) == x
  }

  ghost predicate LengthAt<S, T>(n: nat, m: nat, f: seq<S> -> seq<T>, x: seq<S>) {
    |x| == n ==> |f(x)| == m
  }

  /** Every element of a is acceptable. */
  ghost predicate All<S>(ok: S -> bool, a: seq<S>) {
    forall i :: 0 <= i < |a| ==> ok(a[i])
  }

  lemma {:induction false} EachLength<S(!new), T>(n: nat, m: nat, f: seq<S> -> seq<T>, a: seq<S>, count: nat)
    requires n > 0 && |a| == n * count && forall x: seq<S> :: LengthAt(n, m, f, x)
    ensures |Each(n, f, a)| == m * count
    decreases count
  {
    if count > 0 {
      MulDistributes(n, count, 1);
      MulDistributes(m, count, 1);
      MulAtLeast(n, count);
      assert LengthAt(n, m, f, a[..n]);
      EachLength(n, m, f, a[n..], count - 1);
    }
  }

  /** If groups can be unpacked, so can sequences of groups. */
  lemma {:induction false} EachInverse<S(!new), T>(n: nat, m: nat, f: seq<S> -> seq<T>, g: seq<T> -> seq<S>,
      ok: S -> bool, a: seq<S>, count: nat)
    requires n > 0 && m > 0 && |a| == n * count && All(ok, a)
    requires forall x: seq<S> :: All(ok, x) ==> InvertsAt(n, m, f, g, x)
    ensures |Each(n, f, a)| == m * count && Each(m, g, Each(n, f, a)) == a
    decreases count
  {
    if count > 0 {
      MulDistributes(n, count, 1);
      MulDistributes(m, count, 1);
      MulAtLeast(n, count);
      var x, rest := a[..n], a[n..];
      assert All(ok, x) && All(ok, rest);
      assert InvertsAt(n, m, f, g, x);
      EachInverse(n, m, f, g, ok, rest, count - 1);
      EachCons(m, g, f(x), Each(n, f, rest));
      assert a == x + rest;
    }
  }

  lemma EachCons<S, T>(n: nat, f: seq<S> -> seq<T>, x: seq<S>, rest: seq<S>)
    requires |x| == n > 0
    ensures Each(n, f, x + rest) == f(x) + Each(n, f, rest)
  {
    assert (x + rest)[..n] == x && (x + rest)[n..] == rest;
  }

  // ---- vectors of packed polynomials ------------------------------------------------------------------

  function PackAll<S, T>(f: seq<S> -> seq<T>, v: seq<seq<S>>): seq<T> {
    if v == [] then [] else f(v[0]) + PackAll(f, v[1..])
  }

  /** Cuts n elements for each of `count` vectors. */
  function UnpackAll<S, T>(n: nat, g: seq<T> -> seq<S>, b: seq<T>, count: nat): (v: seq<seq<S>>)
    requires |b| == n * count
    ensures |v| == count
    decreases count
  {
    if count == 0 then [] else
      CutOne(n, count);
      [g(b[..n])] + UnpackAll(n, g, b[n..], count - 1)
  }

  lemma CutOne(n: nat, count: nat)
    requires count > 0
    ensures n * count == n + n * (count - 1) && n * (count - 1) >= 0
  {
    MulDistributes(n, count, 1);
    MulNonNegative(n, count - 1);
  }

  lemma {:induction false} PackAllInverse<S, T>(n: nat, f: seq<S> -> seq<T>, g: seq<T> -> seq<S>, v: seq<seq<S>>)
    requires forall i :: 0 <= i < |v| ==> |f(v[i])| == n && g(f(v[i])) == v[i]
    ensures |PackAll(f, v)| == n * |v| && UnpackAll(n, g, PackAll(f, v), |v|) == v
    decreases |v|
  {
    if v != [] {
      PackAllInverse(n, f, g, v[1..]);
      CutOne(n, |v|);
      var b, rest := PackAll(f, v), PackAll(f, v[1..]);
      assert b == f(v[0]) + rest && b[..n] == f(v[0]) && b[n..] == rest;
      assert v == [v[0]] + v[1..];
    }
  }

  /** A string is determined by what its parts unpack to, if each part is. */
  lemma {:induction false} UnpackAllInverse<S, T(!new)>(n: nat, f: seq<S> -> seq<T>, g: seq<T> -> seq<S>, b: seq<T>,
      count: nat)
    requires |b| == n * count && forall x: seq<T> :: |x| == n ==> f(g(x)) == x
    ensures PackAll(f, UnpackAll(n, g, b, count)) == b
    decreases count
  {
    if count > 0 {
      CutOne(n, count);
      UnpackAllInverse(n, f, g, b[n..], count - 1);
      var v := UnpackAll(n, g, b, count);
      assert v[1..] == UnpackAll(n, g, b[n..], count - 1);
      assert b == b[..n] + b[n..];
    }
  }

  lemma {:induction false} UnpackAllEach<S, T(!new)>(n: nat, g: seq<T> -> seq<S>, b: seq<T>, count: nat,
      ok: seq<S> -> bool)
    requires |b| == n * count && forall x: seq<T> :: |x| == n ==> ok(g(x))
    ensures forall i :: 0 <= i < count ==> ok(UnpackAll(n, g, b, count)[i])
    decreases count
  {
    if count > 0 {
      CutOne(n, count);
      UnpackAllEach(n, g, b[n..], count - 1, ok);
    }
  }

  // ---- the loop that every packer runs ------------------------------------------------------------------

  method Store<T>(g: seq<T>, out: array<T>, at: nat)
    requires at + |g| <= out.Length
    modifies out
    ensures out[..] == old(out[..at]) + g + old(out[at + |g|..])
  {
    ghost var was := out[..];
    var j := 0;
    while j < |g|
      invariant 0 <= j <= |g| && out[..at] == was[..at] && out[at..at + j] == g[..j] && out[at + j..] == was[at + j..]
    {
      out[at + j] := g[j];
      j := j + 1;
    }
    assert out[..] == out[..at] + out[at..at + j] + out[at + j..];
  }

  /** for i in 0..count: out[off + m * i ..] receives the m elements of group i. */
  method PackLoop<S(!new), T>(n: nat, m: nat, f: seq<S> -> seq<T>, a: seq<S>, count: nat, out: array<T>, off: nat)
    requires n > 0 && |a| == n * count && off + m * count <= out.Length
    requires forall x: seq<S> :: LengthAt(n, m, f, x)
    modifies out
    ensures out[..] == old(out[..off]) + Each(n, f, a) + old(out[off + m * count..])
  {
    ghost var was := out[..];
    ghost var end := off + m * count;
    var i, from, to := 0, 0, off;
    while i < count
      invariant 0 <= i <= count && from == n * i <= |a| && to == off + m * i <= end
      invariant out[..to] + Each(n, f, a[from..]) == was[..off] + Each(n, f, a)
      invariant out[to..] == was[to..]
    {
      GroupBounds(n, i, count);
      GroupBounds(m, i, count);
      assert LengthAt(n, m, f, a[from..from + n]);
      var g := f(a[from..from + n]);
      ghost var before := out[..];
      Store(g, out, to);
      EachStep(n, f, a, from);
      Stored(before, was, out[..], g, to, Each(n, f, a[from + n..]));
      i, from, to := i + 1, from + n, to + m;
    }
    assert a[from..] == [];
  }

  lemma Stored<T>(before: seq<T>, was: seq<T>, after: seq<T>, g: seq<T>, at: nat, rest: seq<T>)
    requires at + |g| <= |before| == |was| && before[at..] == was[at..]
    requires after == before[..at] + g + before[at + |g|..]
    ensures after[..at + |g|] + rest == before[..at] + (g + rest) && after[at + |g|..] == was[at + |g|..]
  {
    assert before[at + |g|..] == before[at..][|g|..] == was[at + |g|..];
  }

  lemma GroupBounds(n: nat, i: nat, count: nat)
    requires i < count
    ensures n * (i + 1) == n * i + n <= n * count
  {
    MulDistributes(n, i, 1);
    MulDistributes(n, count, i + 1);
    MulNonNegative(n, count - (i + 1));
  }

  lemma EachStep<S, T>(n: nat, f: seq<S> -> seq<T>, a: seq<S>, from: nat)
    requires n > 0 && from + n <= |a|
    ensures Each(n, f, a[from..]) == f(a[from..from + n]) + Each(n, f, a[from + n..])
  {
    assert a[from..][..n] == a[from..from + n] && a[from..][n..] == a[from + n..];
  }
}
