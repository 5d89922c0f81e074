/** The algebra of ML-DSA in the transform domain: why the verifier's value is w - c s2 + c t0. */
module DsaAlgebra {
  import opened Rings
  import opened Vectors
  import opened Homomorphisms

  predicate Rect<T>(v: seq<seq<T>>, n: nat) {
    forall i :: 0 <= i < |v| ==> |v[i]| == n
  }

  /** One row of the matrix times a vector: the sum of the pointwise products, from the left. */
  function RowProduct<T>(R: Ops<T>, n: nat, row: seq<seq<T>>, v: seq<seq<T>>): (r: seq<T>)
    requires |row| == |v| > 0 && Rect(row, n) && Rect(v, n)
    ensures |r| == n
    decreases |row|
  {
    var m := |row| - 1;
    if m == 0 then VMul(R, row[0], v[0])
    else VAdd(R, RowProduct(R, n, row[..m], v[..m]), VMul(R, row[m], v[m]))
  }

  function MapAll<S, T>(h: S -> T, v: seq<seq<S>>): (w: seq<seq<T>>)
    ensures |w| == |v|
  {
    seq(|v|, i requires 0 <= i < |v| => VMap(h, v[i]))
  }

  lemma {:induction false} RowHom<S(!new), T>(A: Ops<S>, R: Ops<T>, h: S -> T, c: S, n: nat, row: seq<seq<S>>,
      v: seq<seq<S>>)
    requires |row| == |v| > 0 && Rect(row, n) && Rect(v, n) && Hom(A, R, h)
    ensures Rect(MapAll(h, row), n) && Rect(MapAll(h, v), n)
    ensures VMap(h, RowProduct(A, n, row, v)) == RowProduct(R, n, MapAll(h, row), MapAll(h, v))
    decreases |row|
  {
    var m := |row| - 1;
    hide Hom, VMap, VMul, VAdd;
    MapVectors(A, R, h, c, row[m], v[m]);
    if m > 0 {
      RowHom(A, R, h, c, n, row[..m], v[..m]);
      MapVectors(A, R, h, c, RowProduct(A, n, row[..m], v[..m]), VMul(A, row[m], v[m]));
      assert MapAll(h, row[..m]) == MapAll(h, row)[..m] && MapAll(h, v[..m]) == MapAll(h, v)[..m];
    }
  }

  lemma VMulAdd<T(!new)>(R: Ops<T>, a: seq<T>, b: seq<T>, c: seq<T>)
    requires IsRing(R) && |a| == |b| == |c|
    ensures VMul(R, a, VAdd(R, b, c)) == VAdd(R, VMul(R, a, b), VMul(R, a, c))
  {
    forall i | 0 <= i < |a| ensures VMul(R, a, VAdd(R, b, c))[i] == VAdd(R, VMul(R, a, b), VMul(R, a, c))[i] {
      assert DistribAt(R, a[i], b[i], c[i]);
    }
  }

  /** a (k (c s)) = k (c (a s)) */
  lemma VMulScaled<T(!new)>(R: Ops<T>, k: T, a: seq<T>, c: seq<T>, s: seq<T>)
    requires IsRing(R) && |a| == |c| == |s|
    ensures VMul(R, a, VScale(R, k, VMul(R, c, s))) == VScale(R, k, VMul(R, c, VMul(R, a, s)))
  {
    forall i | 0 <= i < |a|
      ensures VMul(R, a, VScale(R, k, VMul(R, c, s)))[i] == VScale(R, k, VMul(R, c, VMul(R, a, s)))[i]
    {
      MulSwap(R, a[i], k, Mul(R, c[i], s[i]));
      MulSwap(R, a[i], c[i], s[i]);
    }
  }

  /** k (c s) + y, for each component: what the transform of z is. */
  function TransformedResponse<T>(R: Ops<T>, n: nat, k: T, c: seq<T>, s: seq<seq<T>>, y: seq<seq<T>>): (z: seq<seq<T>>)
    requires |c| == n && |s| == |y| && Rect(s, n) && Rect(y, n)
    ensures |z| == |s| && Rect(z, n)
  {
    seq(|s|, j requires 0 <= j < |s| => VAdd(R, VScale(R, k, VMul(R, c, s[j])), y[j]))
  }

  lemma {:induction false} RowLinear<T(!new)>(R: Ops<T>, n: nat, row: seq<seq<T>>, k: T, c: seq<T>, s: seq<seq<T>>,
      y: seq<seq<T>>)
    requires IsRing(R) && |row| == |s| == |y| > 0 && |c| == n && Rect(row, n) && Rect(s, n) && Rect(y, n)
    ensures RowProduct(R, n, row, TransformedResponse(R, n, k, c, s, y)) ==
            VAdd(R, VScale(R, k, VMul(R, c, RowProduct(R, n, row, s))), RowProduct(R, n, row, y))
    decreases |row|
  {
    hide IsRing, VAdd, VMul, VScale;
    var m := |row| - 1;
    var z := TransformedResponse(R, n, k, c, s, y);
    var x := VScale(R, k, VMul(R, c, s[m]));
    VMulAdd(R, row[m], x, y[m]);
    VMulScaled(R, k, row[m], c, s[m]);
    if m > 0 {
      RowLinear(R, n, row[..m], k, c, s[..m], y[..m]);
      assert z[..m] == TransformedResponse(R, n, k, c, s[..m], y[..m]);
      var rs, ry, ps, py := RowProduct(R, n, row[..m], s[..m]), RowProduct(R, n, row[..m], y[..m]), VMul(R, row[m],
          s[m]), VMul(R, row[m], y[m]);
      VAddSwap(R, VScale(R, k, VMul(R, c, rs)), ry, VScale(R, k, VMul(R, c, ps)), py);
      VScaleAdd(R, k, VMul(R, c, rs), VMul(R, c, ps));
      VMulAdd(R, c, rs, ps);
    }
  }

  /** (k (c s) + y) - c ((k s + e) - t) = (y - c e) + c t, pointwise. */
  lemma Cancellation<T(!new)>(R: Ops<T>, k: T, c: seq<T>, s: seq<T>, y: seq<T>, e: seq<T>, t: seq<T>)
    requires IsRing(R) && |c| == |s| == |y| == |e| == |t|
    ensures VSub(R, VAdd(R, VScale(R, k, VMul(R, c, s)), y), VMul(R, c, VSub(R, VAdd(R, VScale(R, k, s), e), t))) ==
            VAdd(R, VSub(R, y, VMul(R, c, e)), VMul(R, c, t))
  {
    forall i | 0 <= i < |c|
      ensures Sub(R, Add(R, Mul(R, k, Mul(R, c[i], s[i])), y[i]), Mul(R, c[i], Sub(R, Add(R, Mul(R, k, s[i]), e[i]),
              t[i]))) ==
              Add(R, Sub(R, y[i], Mul(R, c[i], e[i])), Mul(R, c[i], t[i]))
    {
      CancellationAt(R, k, c[i], s[i], y[i], e[i], t[i]);
    }
  }

  lemma CancellationAt<T(!new)>(R: Ops<T>, k: T, c: T, s: T, y: T, e: T, t: T)
    requires IsRing(R)
    ensures Sub(R, Add(R, Mul(R, k, Mul(R, c, s)), y), Mul(R, c, Sub(R, Add(R, Mul(R, k, s), e), t))) ==
            Add(R, Sub(R, y, Mul(R, c, e)), Mul(R, c, t))
  {
    var ks := Mul(R, k, s);
    MulSwap(R, k, c, s);
    assert SubAt(R, Add(R, ks, e), t);
    assert DistribAt(R, c, Add(R, ks, e), Neg(R, t)) && DistribAt(R, c, ks, e);
    NegMul(R, t, c);
    var x, ce, ct := Mul(R, c, ks), Mul(R, c, e), Mul(R, c, t);
    SubSum(R, x, y, ce, ct);
  }

  /** (x + y) - ((x + e) - t) = (y - e) + t */
  lemma SubSum<T(!new)>(R: Ops<T>, x: T, y: T, e: T, t: T)
    requires IsRing(R)
    ensures Sub(R, Add(R, x, y), Add(R, Add(R, x, e), Neg(R, t))) == Add(R, Sub(R, y, e), t)
  {
    var n, xe := Neg(R, e), Add(R, x, e);
    assert SubAt(R, Add(R, x, y), Add(R, xe, Neg(R, t))) && SubAt(R, y, e);
    NegAdd(R, xe, Neg(R, t));
    NegAdd(R, x, e);
    NegNeg(R, t);
    assert AddAssocAt(R, Add(R, x, y), Add(R, Neg(R, x), n), t);
    AddSwap(R, x, y, Neg(R, x), n);
    assert ZeroAt(R, x) && ZeroAt(R, Add(R, y, n));
  }
}
