/** Transforms commute with maps that respect the operations, whether or not the source obeys the ring
    laws.  This carries results from residues back to the signed integers that the code computes with. */
module Homomorphisms {
  import opened Rings
  import opened Vectors
  import opened Transform

  ghost predicate HomAt<S, T>(A: Ops<S>, R: Ops<T>, h: S -> T, x: S, y: S) {
    h(Add(A, x, y)) == Add(R, h(x), h(y)) && h(Sub(A, x, y)) == Sub(R, h(x), h(y)) &&
        h(Mul(A, x, y)) == Mul(R, h(x), h(y))
  }

  ghost predicate Hom<S(!new), T>(A: Ops<S>, R: Ops<T>, h: S -> T) {
    forall x, y :: HomAt(A, R, h, x, y)
  }

  ghost predicate MapsTo<S, T>(h: S -> T, z: int -> S, y: int -> T) {
    forall j :: y(j) == h(z(j))
  }

  function VMap<S, T>(h: S -> T, v: seq<S>): (w: seq<T>)
    ensures |w| == |v|
  {
    seq(|v|, i requires 0 <= i < |v| => h(v[i]))
  }

  lemma VMapConcat<S, T>(h: S -> T, u: seq<S>, v: seq<S>)
    ensures VMap(h, u + v) == VMap(h, u) + VMap(h, v)
  {
  }

  lemma MapVectors<S(!new), T>(A: Ops<S>, R: Ops<T>, h: S -> T, c: S, u: seq<S>, v: seq<S>)
    requires Hom(A, R, h) && |u| == |v|
    ensures VMap(h, VAdd(A, u, v)) == VAdd(R, VMap(h, u), VMap(h, v))
    ensures VMap(h, VSub(A, u, v)) == VSub(R, VMap(h, u), VMap(h, v))
    ensures VMap(h, VMul(A, u, v)) == VMul(R, VMap(h, u), VMap(h, v))
    ensures VMap(h, VScale(A, c, u)) == VScale(R, h(c), VMap(h, u))
  {
    forall i | 0 <= i < |u|
      ensures VMap(h, VAdd(A, u, v))[i] == VAdd(R, VMap(h, u), VMap(h, v))[i]
      ensures VMap(h, VSub(A, u, v))[i] == VSub(R, VMap(h, u), VMap(h, v))[i]
      ensures VMap(h, VMul(A, u, v))[i] == VMul(R, VMap(h, u), VMap(h, v))[i]
      ensures VMap(h, VScale(A, c, u))[i] == VScale(R, h(c), VMap(h, u))[i]
    {
      assert HomAt(A, R, h, u[i], v[i]) && HomAt(A, R, h, c, u[i]);
    }
  }

  lemma SplitHom<S(!new), T>(A: Ops<S>, R: Ops<T>, h: S -> T, z: S, v: seq<S>)
    requires Hom(A, R, h) && |v| % 2 == 0
    ensures VMap(h, Split(A, z, v)) == Split(R, h(z), VMap(h, v))
    ensures VMap(h, Merge(A, z, v)) == Merge(R, h(z), VMap(h, v))
  {
    hide Hom, Add, Sub, Mul, Split, Merge;
    var m := |v| / 2;
    forall i | 0 <= i < |v|
      ensures VMap(h, Split(A, z, v))[i] == Split(R, h(z), VMap(h, v))[i]
      ensures VMap(h, Merge(A, z, v))[i] == Merge(R, h(z), VMap(h, v))[i]
    {
      var l := if i < m then i else i - m;
      ButterflyAt(A, z, v, l);
      ButterflyAt(R, h(z), VMap(h, v), l);
      ButterflyHom(A, R, h, z, v[l], v[m + l]);
    }
  }

  lemma ButterflyHom<S(!new), T>(A: Ops<S>, R: Ops<T>, h: S -> T, z: S, a: S, b: S)
    requires Hom(A, R, h)
    ensures h(Add(A, a, Mul(A, z, b))) == Add(R, h(a), Mul(R, h(z), h(b))) &&
            h(Sub(A, a, Mul(A, z, b))) == Sub(R, h(a), Mul(R, h(z), h(b)))
    ensures h(Add(A, a, b)) == Add(R, h(a), h(b)) && h(Mul(A, z, Sub(A, b, a))) == Mul(R, h(z), Sub(R, h(b), h(a)))
  {
    assert HomAt(A, R, h, z, b) && HomAt(A, R, h, a, Mul(A, z, b));
    assert HomAt(A, R, h, a, b) && HomAt(A, R, h, b, a) && HomAt(A, R, h, z, Sub(A, b, a));
  }

  lemma {:induction false} LayerHom<S(!new), T>(A: Ops<S>, R: Ops<T>, h: S -> T, z: int -> S, y: int -> T, k: int,
      len: nat, v: seq<S>)
    requires Hom(A, R, h) && MapsTo(h, z, y)
    ensures VMap(h, Layer(A, z, k, len, v)) == Layer(R, y, k, len, VMap(h, v))
    decreases |v|
  {
    if len > 0 && |v| >= 2 * len {
      var w, v0, v1 := VMap(h, v), v[..2 * len], v[2 * len..];
      assert w[..2 * len] == VMap(h, v0) && w[2 * len..] == VMap(h, v1);
      hide Split, VMap;
      SplitHom(A, R, h, z(k), v0);
      LayerHom(A, R, h, z, y, k + 1, len, v1);
      VMapConcat(h, Split(A, z(k), v0), Layer(A, z, k + 1, len, v1));
    }
  }

  lemma {:induction false} InvLayerHom<S(!new), T>(A: Ops<S>, R: Ops<T>, h: S -> T, z: int -> S, y: int -> T, k: int,
      len: nat, v: seq<S>)
    requires Hom(A, R, h) && MapsTo(h, z, y)
    ensures VMap(h, InvLayer(A, z, k, len, v)) == InvLayer(R, y, k, len, VMap(h, v))
    decreases |v|
  {
    if len > 0 && |v| >= 2 * len {
      var w, v0, v1 := VMap(h, v), v[..2 * len], v[2 * len..];
      assert w[..2 * len] == VMap(h, v0) && w[2 * len..] == VMap(h, v1);
      hide Merge, VMap;
      SplitHom(A, R, h, z(k), v0);
      InvLayerHom(A, R, h, z, y, k - 1, len, v1);
      VMapConcat(h, Merge(A, z(k), v0), InvLayer(A, z, k - 1, len, v1));
    }
  }

  lemma {:induction false} NttHom<S(!new), T>(A: Ops<S>, R: Ops<T>, h: S -> T, z: int -> S, y: int -> T, k: nat,
      f: nat, layers: nat, v: seq<S>)
    requires Hom(A, R, h) && MapsTo(h, z, y)
    ensures VMap(h, Ntt(A, z, k, f, layers, v)) == Ntt(R, y, k, f, layers, VMap(h, v))
    decreases layers
  {
    if layers > 0 {
      hide Layer, VMap, Hom, MapsTo;
      LayerHom(A, R, h, z, y, k, Size(f, layers - 1), v);
      NttHom(A, R, h, z, y, 2 * k, f, layers - 1, Layer(A, z, k, Size(f, layers - 1), v));
    }
  }

  lemma {:induction false} InttHom<S(!new), T>(A: Ops<S>, R: Ops<T>, h: S -> T, z: int -> S, y: int -> T, k: nat,
      f: nat, layers: nat, v: seq<S>)
    requires Hom(A, R, h) && MapsTo(h, z, y)
    ensures VMap(h, Intt(A, z, k, f, layers, v)) == Intt(R, y, k, f, layers, VMap(h, v))
    decreases layers
  {
    hide InvLayer, VMap, Hom, MapsTo;
    if layers > 0 {
      InttHom(A, R, h, z, y, 2 * k, f, layers - 1, v);
      InvLayerHom(A, R, h, z, y, 2 * k - 1, Size(f, layers - 1), Intt(A, z, 2 * k, f, layers - 1, v));
    }
  }
}
