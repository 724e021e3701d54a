/** The damped Burg recursion of the packet-loss concealment, over exact reals.

    A stage of the recursion keeps the two live error vectors, the filter so far and the
    denominator.  `Run` iterates it; the class at the end computes the same thing in place. */
module Burg {
  import opened Vectors

  /** FLT_EPSILON, put in place of a zero denominator. */
  const FLT_EPSILON: real := 1.1920928955078125 / 10000000.0

  /** u holds the forward errors f[k+1..], v the backward errors b[..N-k], both of length N-k. */
  datatype Stage = Stage(u: seq<real>, v: seq<real>, a: seq<real>, d: real)

  ghost predicate WellFormed(s: Stage) {
    |s.u| == |s.v| && |s.a| >= 1
  }

  function Guarded(d: real): real {
    if d == 0.0 then FLT_EPSILON else d
  }

  /** The reflection coefficient of a stage. */
  function Mu(s: Stage): real
    requires |s.u| == |s.v|
  {
    Dot(s.u, s.v) * (-2.0 / Guarded(s.d))
  }

  /** One Levinson step on a whole filter: a'[n] = a[n] + mu a[k+1-n], with a[k+1] = 0. */
  function Levinson(a: seq<real>, mu: real): (r: seq<real>)
    ensures |r| == |a| + 1
  {
    Axpy(a + [0.0], mu, Reversed(a + [0.0]))
  }

  lemma {:induction false} LevinsonEntry(a: seq<real>, mu: real, i: nat, t: real)
    requires i <= |a| && t == (a + [0.0])[i] + mu * (a + [0.0])[|a| - i]
    ensures Levinson(a, mu)[i] == t
  {
    hide Axpy, Combine;
    AxpyAt(a + [0.0], mu, Reversed(a + [0.0]), i);
  }

  function Start(x: seq<real>): (s: Stage)
    requires |x| >= 1
    ensures WellFormed(s) && |s.u| == |x| - 1
  {
    var n := |x| - 1;
    Stage(x[1..], x[..n], [1.0], 2.00002 * Dot(x, x) - (x[0] * x[0] + x[n] * x[n]))
  }

  function Step(s: Stage): (r: Stage)
    requires WellFormed(s) && |s.u| >= 1
    ensures WellFormed(r) && |r.u| == |s.u| - 1
  {
    var mu := Mu(s);
    var u, v := Axpy(s.u, mu, s.v), Axpy(s.v, mu, s.u);
    var last := |v| - 1;
    Stage(u[1..], v[..last], Levinson(s.a, mu),
          (1.0 - mu * mu) * Guarded(s.d) - u[0] * u[0] - v[last] * v[last])
  }

  /** The recursion after k stages on the history x. */
  function Run(x: seq<real>, k: nat): (s: Stage)
    requires k < |x|
    ensures WellFormed(s) && |s.u| == |x| - 1 - k && |s.a| == k + 1
  {
    if k == 0 then Start(x) else Step(Run(x, k - 1))
  }

  /** The reflection coefficient used by stage k. */
  function MuAt(x: seq<real>, k: nat): real
    requires k + 1 < |x|
  {
    Mu(Run(x, k))
  }

  /** The full-order prediction-error filter, leading 1 included. */
  function Filter(x: seq<real>): (a: seq<real>)
    requires |x| >= 1
    ensures |a| == |x|
  {
    Run(x, |x| - 1).a
  }

  /** The linear-prediction coefficients handed to the predictor. */
  function Coefficients(x: seq<real>): (c: seq<real>)
    requires |x| >= 1
    ensures |c| == |x| - 1
  {
    Filter(x)[1..]
  }

  // ---------------------------------------------------------------------------------------
  // The predictor

  /** The sample that a filter with coefficients c makes follow the samples y. */
  function NextSample(c: seq<real>, y: seq<real>): real
    requires |c| <= |y|
  {
    -Dot(c, Reversed(y[|y| - |c|..]))
  }

  /** y extended by n predicted samples. */
  function Extend(c: seq<real>, y: seq<real>, n: nat): (r: seq<real>)
    requires |c| <= |y|
    ensures |r| == |y| + n && r[..|y|] == y
  {
    if n == 0 then y else
      var e := Extend(c, y, n - 1);
      e + [NextSample(c, e)]
  }

  /** What concealment continues a history with: the last sample of the history is itself
      predicted again, and everything after it. */
  function Continuation(x: seq<real>, size: nat): (r: seq<real>)
    requires 1 <= |x| <= size
    ensures |r| == size && r[..|x| - 1] == x[..|x| - 1]
  {
    Extend(Coefficients(x), x[..|x| - 1], size - (|x| - 1))
  }

  // ---------------------------------------------------------------------------------------
  // The imperative algorithm

  class BurgAlgorithm {
    const m: nat
    const N: nat
    const size: nat
    const ak: array<real>
    const akReset: array<real>
    const f: array<real>
    const b: array<real>

    ghost const Repr: set<object>

    ghost predicate Valid()
      reads this, akReset
    {
      && size >= 1 && m == N == size - 1
      && ak.Length == akReset.Length == f.Length == b.Length == size
      && ak != akReset && ak != f && ak != b && akReset != f && akReset != b && f != b
      && Repr == {ak, f, b}
      && akReset[..] == [1.0] + Zeros(N)
    }

    constructor (historySize: nat)
      requires historySize >= 1
      ensures Valid() && size == historySize
      ensures fresh(Repr) && fresh(akReset)
    {
      m, N, size := historySize - 1, historySize - 1, historySize;
      var filter, reset := new real[historySize], new real[historySize];
      var forward, backward := new real[historySize], new real[historySize];
      ak, akReset, f, b := filter, reset, forward, backward;
      Repr := {filter, forward, backward};
      new;
      for i := 0 to size
        invariant forall j :: 0 <= j < i ==> ak[j] == 0.0
      {
        ak[i] := 0.0;
      }
      for i := 0 to size
        invariant forall j :: 0 <= j < i ==> akReset[j] == 0.0
        invariant forall j :: 0 <= j < size ==> ak[j] == 0.0
      {
        akReset[i] := ak[i];
      }
      akReset[0] := 1.0;
    }

    /** Resets the filter and loads the history into both error arrays. */
    method Initialise(x: array<real>)
      requires Valid() && x.Length >= size && x !in Repr
      modifies Repr
      ensures Valid()
      ensures ak[..] == [1.0] + Zeros(N) && f[..] == b[..] == x[..size]
    {
      for i := 0 to size
        invariant Valid()
        invariant forall j :: 0 <= j < i ==> ak[j] == akReset[..][j]
      {
        assert akReset[..][i] == akReset[i];
        ak[i] := akReset[i];
      }
      assert ak[..] == akReset[..];
      for i := 0 to size
        invariant Valid() && ak[..] == akReset[..]
        invariant forall j :: 0 <= j < i ==> f[j] == b[j] == x[j]
      {
        f[i] := x[i];
        b[i] := x[i];
      }
    }

    /** Trains on the first `size` samples of x. */
    method Train(x: array<real>) returns (coeffs: seq<real>)
      requires Valid() && x.Length >= size && x !in Repr
      modifies Repr
      ensures Valid()
      ensures coeffs == Coefficients(x[..size])
    {
      hide Dot, Step;
      ghost var history := x[..size];
      Initialise(x);
      var dk := StartingDenominator(history);
      assert f[1..] == history[1..] && b[..N] == history[..N];
      assert ak[..1] == [1.0] && ak[1..] == Zeros(N);
      for k := 0 to m
        invariant Valid()
        invariant Holds(Run(history, k), k, dk)
      {
        dk := OneStage(Run(history, k), k, dk);
      }
      assert ak[..m + 1] == ak[..];
      coeffs := ak[1..];
    }

    /** The in-place arrays hold stage s: live ranges of f and b, the filter padded with zeros. */
    ghost predicate Holds(s: Stage, k: nat, dk: real)
      requires Valid() && k <= N
      reads this, akReset, Repr
    {
      && |s.u| == |s.v| == N - k && |s.a| == k + 1
      && f[k + 1..] == s.u && b[..N - k] == s.v
      && ak[..k + 1] == s.a && ak[k + 1..] == Zeros(N - k)
      && dk == s.d
    }

    method StartingDenominator(ghost history: seq<real>) returns (dk: real)
      requires Valid() && |history| == size && f[..] == b[..] == history
      ensures dk == Start(history).d
    {
      hide Dot;
      dk := 0.0;
      DotEmpty(history[..0], history[..0]);
      for j := 0 to N + 1
        invariant dk == 2.00002 * Dot(history[..j], history[..j])
      {
        DotPrefix(history, history, j);
        dk := dk + 2.00002 * f[j] * f[j];
      }
      assert history[..N + 1] == history;
      dk := dk - (f[0] * f[0] + b[N] * b[N]);
    }

    /** The body of the recursion: numerator, guard, filter update, error update, denominator. */
    method OneStage(ghost s: Stage, k: nat, denominator: real) returns (dk: real)
      requires Valid() && k < m && WellFormed(s) && Holds(s, k, denominator)
      modifies Repr
      ensures Valid() && Holds(Step(s), k + 1, dk)
    {
      hide Dot, Axpy, Levinson, Combine;
      dk := denominator;
      var mu := Numerator(s, k);
      if dk == 0.0 {
        dk := FLT_EPSILON;
      }
      mu := mu * (-2.0 / dk);
      UpdateFilter(s, k, mu);
      UpdateErrors(s, k, mu);
      assert mu == Mu(s) && dk == Guarded(s.d);
      dk := (1.0 - mu * mu) * dk - f[k + 1] * f[k + 1] - b[N - k - 1] * b[N - k - 1];
      assert f[k + 2..] == f[k + 1..][1..] && b[..N - k - 1] == b[..N - k][..N - k - 1];
      assert f[k + 1] == f[k + 1..][0] && b[N - k - 1] == b[..N - k][N - k - 1];
      assert Step(s).u == f[k + 2..];
      assert Step(s).v == b[..N - k - 1];
      assert Step(s).a == ak[..k + 2];
      assert Step(s).d == dk;
    }

    method Numerator(ghost s: Stage, k: nat) returns (mu: real)
      requires Valid() && k < m && |s.u| == |s.v| == N - k
      requires f[k + 1..] == s.u && b[..N - k] == s.v
      ensures mu == Dot(s.u, s.v)
    {
      hide Dot;
      mu := 0.0;
      DotEmpty(s.u[..0], s.v[..0]);
      for n := 0 to N - k
        invariant mu == Dot(s.u[..n], s.v[..n])
      {
        DotPrefix(s.u, s.v, n);
        assert f[k + 1..][n] == f[n + k + 1] && b[..N - k][n] == b[n];
        mu := mu + f[n + k + 1] * b[n];
      }
      assert s.u[..N - k] == s.u && s.v[..N - k] == s.v;
    }

    method MirroredEntries(ghost a: seq<real>, n: nat, k: nat, mu: real) returns (t1: real, t2: real)
      requires Valid() && n <= k < m && |a| == k + 1
      requires ak[n] == (a + [0.0])[n] && ak[k + 1 - n] == (a + [0.0])[k + 1 - n]
      ensures t1 == Levinson(a, mu)[n] && t2 == Levinson(a, mu)[k + 1 - n]
    {
      t1 := ak[n] + mu * ak[k + 1 - n];
      t2 := ak[k + 1 - n] + mu * ak[n];
      LevinsonEntry(a, mu, n, t1);
      LevinsonEntry(a, mu, k + 1 - n, t2);
    }

    lemma PaddedEntries(w: seq<real>, a: seq<real>, k: nat)
      requires k + 1 < |w| && |a| == k + 1 && w[..k + 1] == a && w[k + 1..] == Zeros(|w| - k - 1)
      ensures forall i :: 0 <= i < k + 2 ==> w[i] == (a + [0.0])[i]
      ensures forall i :: k + 2 <= i < |w| ==> w[i] == 0.0
    {
      forall i | k + 1 <= i < |w| ensures w[i] == 0.0 {
        assert w[i] == w[k + 1..][i - k - 1];
      }
      forall i | 0 <= i < k + 1 ensures w[i] == a[i] {
        assert w[i] == w[..k + 1][i];
      }
    }

    /** The half-range update, two mirrored entries at a time. */
    method UpdateFilter(ghost s: Stage, k: nat, mu: real)
      requires Valid() && k < m && |s.a| == k + 1
      requires ak[..k + 1] == s.a && ak[k + 1..] == Zeros(N - k)
      modifies ak
      ensures Valid()
      ensures ak[..k + 2] == Levinson(s.a, mu) && ak[k + 2..] == Zeros(N - k - 1)
    {
      hide Levinson, Axpy;
      ghost var was := ak[..];
      ghost var padded, goal := s.a + [0.0], Levinson(s.a, mu);
      PaddedEntries(was, s.a, k);
      for n := 0 to (k + 1) / 2 + 1
        invariant Valid()
        invariant forall i :: 0 <= i < k + 2 && (i < n || i > k + 1 - n) ==> ak[i] == goal[i]
        invariant forall i :: n <= i <= k + 1 - n ==> ak[i] == padded[i]
        invariant forall i :: k + 2 <= i < size ==> ak[i] == 0.0
      {
        var t1, t2 := MirroredEntries(s.a, n, k, mu);
        ak[n] := t1;
        ak[k + 1 - n] := t2;
      }
    }

    method UpdateErrors(ghost s: Stage, k: nat, mu: real)
      requires Valid() && k < m && |s.u| == |s.v| == N - k
      requires f[k + 1..] == s.u && b[..N - k] == s.v
      modifies f, b
      ensures Valid()
      ensures f[k + 1..] == Axpy(s.u, mu, s.v) && b[..N - k] == Axpy(s.v, mu, s.u)
    {
      hide Axpy, Combine;
      assert forall i :: 0 <= i < N - k ==> f[k + 1..][i] == f[i + k + 1] && b[..N - k][i] == b[i];
      for n := 0 to N - k
        invariant Valid()
        invariant forall i :: 0 <= i < n ==> f[i + k + 1] == Combine(s.u[i], mu, s.v[i])
        invariant forall i :: 0 <= i < n ==> b[i] == Combine(s.v[i], mu, s.u[i])
        invariant forall i :: n <= i < N - k ==> f[i + k + 1] == s.u[i] && b[i] == s.v[i]
      {
        CombineIs(s.u[n], mu, s.v[n]);
        CombineIs(s.v[n], mu, s.u[n]);
        var t1 := f[n + k + 1] + mu * b[n];
        var t2 := b[n] + mu * f[n + k + 1];
        f[n + k + 1] := t1;
        b[n] := t2;
      }
      forall i | 0 <= i < N - k
        ensures f[k + 1..][i] == Axpy(s.u, mu, s.v)[i] && b[..N - k][i] == Axpy(s.v, mu, s.u)[i]
      {
        AxpyAt(s.u, mu, s.v, i);
        AxpyAt(s.v, mu, s.u, i);
      }
    }

    method PredictSample(coeffs: seq<real>, tail: array<real>, i: nat)
      requires |coeffs| == m <= i < tail.Length
      modifies tail
      ensures tail[..i] == old(tail[..i]) && tail[i] == NextSample(coeffs, tail[..i])
    {
      hide Dot;
      ghost var done := tail[..i];
      ghost var recent := Reversed(done[i - m..]);
      tail[i] := 0.0;
      DotEmpty(coeffs[..0], recent[..0]);
      for j := 0 to m
        invariant tail[..i] == done
        invariant tail[i] == -Dot(coeffs[..j], recent[..j])
      {
        DotPrefix(coeffs, recent, j);
        assert recent[j] == done[i - 1 - j] == tail[i - 1 - j];
        tail[i] := tail[i] - coeffs[j] * tail[i - 1 - j];
      }
      assert coeffs[..m] == coeffs && recent[..m] == recent;
    }

    /** Fills tail[m..] with predicted samples; the indices below m are left alone. */
    method Predict(coeffs: seq<real>, tail: array<real>)
      requires Valid() && |coeffs| == m && m <= tail.Length && tail !in Repr && tail != akReset
      modifies tail
      ensures Valid()
      ensures tail[..] == Extend(coeffs, old(tail[..m]), tail.Length - m)
    {
      hide Dot;
      ghost var start := tail[..m];
      for i := m to tail.Length
        invariant Valid()
        invariant tail[..i] == Extend(coeffs, start, i - m)
      {
        ghost var done := tail[..i];
        PredictSample(coeffs, tail, i);
        assert tail[..i + 1] == done + [NextSample(coeffs, done)];
      }
      assert tail[..tail.Length] == tail[..];
    }
  }
}
