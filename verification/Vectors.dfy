/** Finite real vectors: inner products and the few algebraic facts the lattice recursion needs. */
module Vectors {

  /** Inner product, accumulated in index order as the source's loops do. */
  function Dot(u: seq<real>, v: seq<real>): real
    requires |u| == |v|
  {
    if |u| == 0 then 0.0
    else Dot(u[..|u| - 1], v[..|v| - 1]) + u[|u| - 1] * v[|v| - 1]
  }

  /** One element of Axpy, named so that loops can carry it without its product. */
  function Combine(a: real, mu: real, b: real): real {
    a + mu * b
  }

  lemma {:induction false} CombineIs(a: real, mu: real, b: real)
    ensures Combine(a, mu, b) == a + mu * b
  {
  }

  /** u + mu * v, element by element. */
  function Axpy(u: seq<real>, mu: real, v: seq<real>): (r: seq<real>)
    requires |u| == |v|
    ensures |r| == |u|
  {
    seq(|u|, i requires 0 <= i < |u| => Combine(u[i], mu, v[i]))
  }

  function Reversed(u: seq<real>): (r: seq<real>)
    ensures |r| == |u|
    ensures forall i :: 0 <= i < |r| ==> r[i] == u[|u| - 1 - i]
  {
    seq(|u|, i requires 0 <= i < |u| => u[|u| - 1 - i])
  }

  function Zeros(n: nat): (r: seq<real>)
    ensures |r| == n
    ensures forall i :: 0 <= i < n ==> r[i] == 0.0
  {
    seq(n, _ => 0.0)
  }

  lemma {:induction false} DotAppend(u: seq<real>, a: real, v: seq<real>, b: real)
    requires |u| == |v|
    ensures Dot(u + [a], v + [b]) == Dot(u, v) + a * b
  {
    var p, q := u + [a], v + [b];
    assert p[..|p| - 1] == u && q[..|q| - 1] == v;
    assert p[|p| - 1] == a && q[|q| - 1] == b;
  }

  lemma {:induction false} DotPrepend(a: real, u: seq<real>, b: real, v: seq<real>)
    requires |u| == |v|
    ensures Dot([a] + u, [b] + v) == a * b + Dot(u, v)
  {
    if |u| == 0 {
      assert [a] + u == [a] && [b] + v == [b];
      DotAppend([], a, [], b);
      assert [] + [a] == [a] && [] + [b] == [b];
    } else {
      var k := |u| - 1;
      DotPrepend(a, u[..k], b, v[..k]);
      DotAppend([a] + u[..k], u[k], [b] + v[..k], v[k]);
      assert [a] + u == [a] + u[..k] + [u[k]];
      assert [b] + v == [b] + v[..k] + [v[k]];
    }
  }

  /** One more element of two prefixes. */
  lemma {:induction false} DotPrefix(u: seq<real>, v: seq<real>, n: nat)
    requires n < |u| && n < |v|
    ensures Dot(u[..n + 1], v[..n + 1]) == Dot(u[..n], v[..n]) + u[n] * v[n]
  {
    assert u[..n + 1] == u[..n] + [u[n]] && v[..n + 1] == v[..n] + [v[n]];
    DotAppend(u[..n], u[n], v[..n], v[n]);
  }

  /** Peeling the first element off both operands. */
  lemma {:induction false} DotHead(u: seq<real>, v: seq<real>)
    requires |u| == |v| > 0
    ensures Dot(u, v) == u[0] * v[0] + Dot(u[1..], v[1..])
  {
    var a, b, p, q := u[0], v[0], u[1..], v[1..];
    assert u == [a] + p && v == [b] + q;
    DotPrepend(a, p, b, q);
  }

  lemma {:induction false} DotComm(u: seq<real>, v: seq<real>)
    requires |u| == |v|
    ensures Dot(u, v) == Dot(v, u)
  {
    if |u| > 0 {
      DotComm(u[..|u| - 1], v[..|v| - 1]);
    }
  }

  lemma {:induction false} DotReversed(u: seq<real>, v: seq<real>)
    requires |u| == |v|
    ensures Dot(Reversed(u), Reversed(v)) == Dot(u, v)
  {
    if |u| > 0 {
      var k := |u| - 1;
      DotReversed(u[..k], v[..k]);
      assert Reversed(u) == [u[k]] + Reversed(u[..k]);
      assert Reversed(v) == [v[k]] + Reversed(v[..k]);
      DotPrepend(u[k], Reversed(u[..k]), v[k], Reversed(v[..k]));
    }
  }

  lemma {:induction false} DotLast(u: seq<real>, v: seq<real>, k: nat)
    requires |u| == |v| == k + 1
    ensures Dot(u, v) == Dot(u[..k], v[..k]) + u[k] * v[k]
  {
  }

  lemma {:induction false} DotEmpty(u: seq<real>, v: seq<real>)
    requires |u| == |v| == 0
    ensures Dot(u, v) == 0.0
  {
  }

  lemma {:induction false} AxpyAt(u: seq<real>, mu: real, v: seq<real>, i: nat)
    requires i < |u| == |v|
    ensures Axpy(u, mu, v)[i] == Combine(u[i], mu, v[i]) == u[i] + mu * v[i]
  {
  }

  lemma {:induction false} AxpyPrefix(u: seq<real>, mu: real, v: seq<real>, k: nat)
    requires |u| == |v| && k <= |u|
    ensures Axpy(u, mu, v)[..k] == Axpy(u[..k], mu, v[..k])
  {
    var r, p := Axpy(u, mu, v), Axpy(u[..k], mu, v[..k]);
    forall i | 0 <= i < k ensures r[..k][i] == p[i] {
      assert u[..k][i] == u[i] && v[..k][i] == v[i];
    }
  }

  /** The inner product is linear in its first operand. */
  lemma {:induction false} DotAxpy(u: seq<real>, mu: real, v: seq<real>, w: seq<real>)
    requires |u| == |v| == |w|
    ensures Dot(Axpy(u, mu, v), w) == Dot(u, w) + mu * Dot(v, w)
  {
    hide Dot, Axpy;
    if |u| == 0 {
      DotEmpty(u, w);
      DotEmpty(v, w);
      DotEmpty(Axpy(u, mu, v), w);
    } else {
      var k := |u| - 1;
      var r := Axpy(u, mu, v);
      AxpyPrefix(u, mu, v, k);
      AxpyAt(u, mu, v, k);
      DotAxpy(u[..k], mu, v[..k], w[..k]);
      DotLast(r, w, k);
      DotLast(u, w, k);
      DotLast(v, w, k);
      Distribute(Dot(u[..k], w[..k]), Dot(v[..k], w[..k]), mu, u[k], v[k], w[k], r[k],
                 Dot(u, w), Dot(v, w), Dot(r, w));
    }
  }

  lemma {:induction false} Distribute(p: real, q: real, mu: real, a: real, b: real, c: real, r: real,
                                      du: real, dv: real, dr: real)
    requires r == a + mu * b
    requires du == p + a * c && dv == q + b * c && dr == (p + mu * q) + r * c
    ensures dr == du + mu * dv
  {
  }

  lemma {:induction false} DotSelfNonNegative(u: seq<real>)
    ensures Dot(u, u) >= 0.0
  {
    if |u| > 0 {
      DotSelfNonNegative(u[..|u| - 1]);
    }
  }

  /** No single square exceeds the energy of the vector. */
  lemma {:induction false} SquareWithinEnergy(u: seq<real>, i: nat)
    requires i < |u|
    ensures u[i] * u[i] <= Dot(u, u)
  {
    var k := |u| - 1;
    DotSelfNonNegative(u[..k]);
    if i < k {
      SquareWithinEnergy(u[..k], i);
    }
  }

  /** The energies of two pieces add up. */
  lemma {:induction false} DotConcat(u: seq<real>, v: seq<real>)
    ensures Dot(u + v, u + v) == Dot(u, u) + Dot(v, v)
  {
    if |v| == 0 {
      assert u + v == u;
    } else {
      var k := |v| - 1;
      DotConcat(u, v[..k]);
      DotAppend(u + v[..k], v[k], u + v[..k], v[k]);
      assert u + v == u + v[..k] + [v[k]];
    }
  }

  /** If no square exceeds a bound, the energy is at most the bound for each element. */
  lemma {:induction false} EnergyWithin(u: seq<real>, bound: real)
    requires forall i :: 0 <= i < |u| ==> u[i] * u[i] <= bound
    ensures Dot(u, u) <= |u| as real * bound
  {
    if |u| > 0 {
      var k := |u| - 1;
      EnergyWithin(u[..k], bound);
      assert (k as real + 1.0) * bound == k as real * bound + bound;
      assert u[k] * u[k] <= bound;
    }
  }

  lemma {:induction false} ZeroEnergy(u: seq<real>)
    requires Dot(u, u) == 0.0
    ensures u == Zeros(|u|)
  {
    forall i | 0 <= i < |u| ensures u[i] == 0.0 {
      SquareWithinEnergy(u, i);
      var p := u[i] * u[i];
      if u[i] != 0.0 {
        NonZeroSquare(u[i], p);
      }
    }
  }

  lemma {:induction false} PositiveProduct(a: real, b: real, p: real)
    requires a > 0.0 && b > 0.0 && p == a * b
    ensures p > 0.0
  {
  }

  lemma {:induction false} NonZeroSquare(a: real, p: real)
    requires p == a * a && a != 0.0
    ensures p > 0.0
  {
    if a > 0.0 {
      PositiveProduct(a, a, p);
    } else {
      var c := -a;
      assert c * c == a * a;
      PositiveProduct(c, c, p);
    }
  }

  lemma {:induction false} DotZeros(u: seq<real>, v: seq<real>)
    requires |u| == |v|
    requires u == Zeros(|u|)
    ensures Dot(u, v) == 0.0
  {
    if |u| > 0 {
      DotZeros(u[..|u| - 1], v[..|v| - 1]);
    }
  }

  /** Energy of the crossed update (u + mu v, v + mu u). */
  lemma {:induction false} CrossedEnergy(u: seq<real>, v: seq<real>, mu: real)
    requires |u| == |v|
    ensures Dot(Axpy(u, mu, v), Axpy(u, mu, v)) + Dot(Axpy(v, mu, u), Axpy(v, mu, u))
         == (1.0 + mu * mu) * (Dot(u, u) + Dot(v, v)) + 4.0 * mu * Dot(u, v)
  {
    hide Dot, Axpy;
    SquareAxpy(u, mu, v);
    SquareAxpy(v, mu, u);
    DotComm(u, v);
    SumSquares(Dot(u, u), Dot(u, v), Dot(v, v), mu);
  }

  lemma {:induction false} SumSquares(uu: real, uv: real, vv: real, mu: real)
    ensures (uu + 2.0 * mu * uv + mu * mu * vv) + (vv + 2.0 * mu * uv + mu * mu * uu)
         == (1.0 + mu * mu) * (uu + vv) + 4.0 * mu * uv
  {
  }

  lemma {:induction false} SquareAxpy(u: seq<real>, mu: real, v: seq<real>)
    requires |u| == |v|
    ensures Dot(Axpy(u, mu, v), Axpy(u, mu, v))
         == Dot(u, u) + 2.0 * mu * Dot(u, v) + mu * mu * Dot(v, v)
  {
    hide Dot, Axpy;
    var r := Axpy(u, mu, v);
    var ur, vr, rr := Dot(u, r), Dot(v, r), Dot(r, r);
    DotAxpy(u, mu, v, r);
    DotAxpyRight(u, u, mu, v);
    DotAxpyRight(v, u, mu, v);
    DotComm(u, v);
    ExpandSquare(Dot(u, u), Dot(u, v), Dot(v, v), mu, ur, vr, rr);
  }

  lemma {:induction false} DotAxpyRight(w: seq<real>, u: seq<real>, mu: real, v: seq<real>)
    requires |u| == |v| == |w|
    ensures Dot(w, Axpy(u, mu, v)) == Dot(w, u) + mu * Dot(w, v)
  {
    hide Dot, Axpy;
    DotAxpy(u, mu, v, w);
    DotComm(w, Axpy(u, mu, v));
    DotComm(w, u);
    DotComm(w, v);
  }

  lemma {:induction false} ExpandSquare(uu: real, uv: real, vv: real, mu: real, ur: real, vr: real, rr: real)
    requires ur == uu + mu * uv && vr == uv + mu * vv && rr == ur + mu * vr
    ensures rr == uu + 2.0 * mu * uv + mu * mu * vv
  {
  }

  /** Twice the inner product is within the two energies, from either side. */
  lemma {:induction false} CauchyHalf(u: seq<real>, v: seq<real>)
    requires |u| == |v|
    ensures -(Dot(u, u) + Dot(v, v)) <= 2.0 * Dot(u, v) <= Dot(u, u) + Dot(v, v)
  {
    hide Dot, Axpy;
    SquareAxpy(u, 1.0, v);
    SquareAxpy(u, -1.0, v);
    DotSelfNonNegative(Axpy(u, 1.0, v));
    DotSelfNonNegative(Axpy(u, -1.0, v));
  }
}
