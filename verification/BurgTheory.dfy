/** What the damped Burg recursion guarantees: the energy law behind the damping constant, the
    prediction-error filters behind the in-place arrays, and a bound on every predicted sample. */
module BurgTheory {
  import opened Vectors
  import opened Burg

  // ---------------------------------------------------------------------------------------
  // The denominator: residual energy plus a strictly positive slack

  ghost function Energy(s: Stage): real
    requires WellFormed(s)
  {
    Dot(s.u, s.u) + Dot(s.v, s.v)
  }

  /** E_0 = 0.00002 * energy of the history; E_{k+1} = (1 + mu_k^2) E_k. */
  ghost function Slack(x: seq<real>, k: nat): real
    requires k < |x|
  {
    if k == 0 then 0.00002 * Dot(x, x)
    else (1.0 + MuAt(x, k - 1) * MuAt(x, k - 1)) * Slack(x, k - 1)
  }

  lemma {:induction false} MuTimesDenominator(s: Stage)
    requires WellFormed(s)
    ensures Mu(s) * Guarded(s.d) == -2.0 * Dot(s.u, s.v)
  {
    hide Dot;
    Quotient(Dot(s.u, s.v), Guarded(s.d), Mu(s));
  }

  lemma {:induction false} Quotient(c: real, d: real, mu: real)
    requires d != 0.0 && mu == c * (-2.0 / d)
    ensures mu * d == -2.0 * c
  {
    var q := -2.0 / d;
    assert q * d == -2.0;
  }

  /** One stage multiplies the slack by 1 + mu^2, whatever the stage holds. */
  lemma {:induction false} StepSlack(s: Stage)
    requires WellFormed(s) && |s.u| >= 1
    ensures Step(s).d - Energy(Step(s)) == (1.0 + Mu(s) * Mu(s)) * (Guarded(s.d) - Energy(s))
  {
    hide Dot, Axpy, Mu;
    var mu, d := Mu(s), Guarded(s.d);
    var u, v := Axpy(s.u, mu, s.v), Axpy(s.v, mu, s.u);
    var last := |v| - 1;
    MuTimesDenominator(s);
    CrossedEnergy(s.u, s.v, mu);
    DotHead(u, u);
    DotLast(v, v, last);
    SlackArithmetic(mu, d, Dot(s.u, s.v), Energy(s), Energy(Step(s)), u[0] * u[0], v[last] * v[last], Step(s).d);
  }

  lemma {:induction false} SlackArithmetic(mu: real, d: real, c: real, e: real, e': real, h: real, l: real, d': real)
    requires mu * d == -2.0 * c
    requires e' + h + l == (1.0 + mu * mu) * e + 4.0 * mu * c
    requires d' == (1.0 - mu * mu) * d - h - l
    ensures d' - e' == (1.0 + mu * mu) * (d - e)
  {
    assert 4.0 * mu * c == -2.0 * mu * (mu * d);
    assert d' - e' == (1.0 - mu * mu) * d - (1.0 + mu * mu) * e + 2.0 * mu * (mu * d);
  }

  /** With a history that is not silent the denominator is the residual energy plus the slack,
      at every stage, and the slack never falls below its starting value. */
  lemma {:induction false} EnergyLaw(x: seq<real>, k: nat)
    requires k < |x| && Dot(x, x) > 0.0
    ensures Run(x, k).d == Energy(Run(x, k)) + Slack(x, k)
    ensures Slack(x, k) >= 0.00002 * Dot(x, x) > 0.0
    ensures Run(x, k).d > 0.0
  {
    hide Dot, Step;
    if k == 0 {
      StartEnergy(x);
    } else {
      EnergyLaw(x, k - 1);
      StepSlack(Run(x, k - 1));
      Growth(MuAt(x, k - 1), Slack(x, k - 1), Slack(x, k));
    }
    DotSelfNonNegative(Run(x, k).u);
    DotSelfNonNegative(Run(x, k).v);
  }

  lemma {:induction false} StartEnergy(x: seq<real>)
    requires |x| >= 1
    ensures Start(x).d == Energy(Start(x)) + 0.00002 * Dot(x, x)
  {
    hide Dot;
    DotHead(x, x);
    DotLast(x, x, |x| - 1);
  }

  lemma {:induction false} Growth(mu: real, e: real, e': real)
    requires e > 0.0 && e' == (1.0 + mu * mu) * e
    ensures e' >= e
  {
    assert mu * mu >= 0.0;
    NonNegativeProduct(mu * mu, e);
  }

  lemma {:induction false} NonNegativeProduct(a: real, b: real)
    requires a >= 0.0 && b >= 0.0
    ensures a * b >= 0.0
  {
  }

  /** A silent history: no stage changes anything and the filter stays [1, 0, ..., 0]. */
  lemma {:induction false} SilentHistory(x: seq<real>, k: nat)
    requires k < |x| && Dot(x, x) == 0.0
    ensures Run(x, k).u == Run(x, k).v == Zeros(|x| - 1 - k)
    ensures Run(x, k).a == [1.0] + Zeros(k)
    ensures Run(x, k).d == if k == 0 then 0.0 else FLT_EPSILON
    ensures k + 1 < |x| ==> MuAt(x, k) == 0.0
  {
    if k == 0 {
      ZeroEnergy(x);
    } else {
      SilentHistory(x, k - 1);
      SilentStep(Run(x, k - 1), k - 1);
    }
    DotZeros(Run(x, k).u, Run(x, k).v);
  }

  lemma {:induction false} SilentStep(s: Stage, k: nat)
    requires WellFormed(s) && |s.u| >= 1
    requires s.u == s.v == Zeros(|s.u|) && s.a == [1.0] + Zeros(k)
    requires Mu(s) == 0.0
    ensures Step(s).u == Step(s).v == Zeros(|s.u| - 1)
    ensures Step(s).a == [1.0] + Zeros(k + 1)
    ensures Step(s).d == Guarded(s.d)
  {
    hide Mu;
    var p := s.a + [0.0];
    AxpyByZero(s.u, s.v);
    AxpyByZero(p, Reversed(p));
    assert p == [1.0] + Zeros(k + 1);
  }

  lemma {:induction false} AxpyByZero(u: seq<real>, v: seq<real>)
    requires |u| == |v|
    ensures Axpy(u, 0.0, v) == u
  {
    forall i | 0 <= i < |u| ensures Axpy(u, 0.0, v)[i] == u[i] {
      AxpyAt(u, 0.0, v, i);
    }
  }

  /** The zero guard fires exactly once, at the first stage of a silent history. */
  lemma {:induction false} GuardFiresOnlyOnSilence(x: seq<real>, k: nat)
    requires k < |x|
    ensures Run(x, k).d == 0.0 <==> k == 0 && x == Zeros(|x|)
  {
    DotSelfNonNegative(x);
    if Dot(x, x) == 0.0 {
      SilentHistory(x, k);
      ZeroEnergy(x);
    } else {
      EnergyLaw(x, k);
      if x == Zeros(|x|) {
        DotZeros(x, x);
      }
    }
  }

  /** Every reflection coefficient lies strictly inside (-1, 1), for every history. */
  lemma {:induction false} ReflectionInsideUnit(x: seq<real>, k: nat)
    requires k + 1 < |x|
    ensures -1.0 < MuAt(x, k) < 1.0
  {
    hide Dot, Run, Mu;
    DotSelfNonNegative(x);
    if Dot(x, x) == 0.0 {
      SilentHistory(x, k);
    } else {
      var s := Run(x, k);
      EnergyLaw(x, k);
      MuTimesDenominator(s);
      CauchyHalf(s.u, s.v);
      InsideUnit(MuAt(x, k), s.d, Dot(s.u, s.v));
    }
  }

  lemma {:induction false} InsideUnit(mu: real, d: real, c: real)
    requires d > 0.0 && mu * d == -2.0 * c && -d < 2.0 * c < d
    ensures -1.0 < mu < 1.0
  {
    if mu >= 1.0 {
      AtLeast(mu, d);
    }
    if mu <= -1.0 {
      AtLeast(-mu, d);
    }
  }

  lemma {:induction false} AtLeast(mu: real, d: real)
    requires d > 0.0 && mu >= 1.0
    ensures mu * d >= d
  {
    NonNegativeProduct(mu - 1.0, d);
    assert (mu - 1.0) * d == mu * d - d;
  }

  // ---------------------------------------------------------------------------------------
  // The arrays: true prediction-error filters of the history

  /** Forward prediction error at n: a[0] y[n] + a[1] y[n-1] + ... */
  ghost function Forward(a: seq<real>, y: seq<real>, n: nat): real
    requires 1 <= |a| <= n + 1 <= |y|
  {
    Dot(a, Reversed(y[n + 1 - |a|..n + 1]))
  }

  /** Backward prediction error at n: a[0] y[n-k] + a[1] y[n-k+1] + ..., where k = |a| - 1. */
  ghost function Backward(a: seq<real>, y: seq<real>, n: nat): real
    requires 1 <= |a| <= n + 1 <= |y|
  {
    Dot(a, y[n + 1 - |a|..n + 1])
  }

  /** The Levinson step on filters is the lattice step on their errors, on any signal. */
  lemma {:induction false} LatticeStep(a: seq<real>, mu: real, y: seq<real>, n: nat)
    requires 1 <= |a| <= n < |y|
    ensures Forward(Levinson(a, mu), y, n) == Forward(a, y, n) + mu * Backward(a, y, n - 1)
    ensures Backward(Levinson(a, mu), y, n) == Backward(a, y, n - 1) + mu * Forward(a, y, n)
  {
    hide Dot, Axpy;
    var w := y[n - |a|..n + 1];
    var p := a + [0.0];
    var q := Reversed(p);
    assert Dot(p, w) == Backward(a, y, n - 1) by {
      assert w == y[n - |a|..n] + [y[n]];
      DotAppend(a, 0.0, y[n - |a|..n], y[n]);
    }
    assert Dot(p, Reversed(w)) == Forward(a, y, n) by {
      var r := Reversed(y[n + 1 - |a|..n + 1]);
      assert Reversed(w) == r + [y[n - |a|]];
      DotAppend(a, 0.0, r, y[n - |a|]);
    }
    DotAxpy(p, mu, q, Reversed(w));
    DotAxpy(p, mu, q, w);
    DotReversed(p, w);
    DotReversed(q, w);
    assert Reversed(q) == p;
  }

  lemma {:induction false} FirstOrder(y: seq<real>, n: nat)
    requires n < |y|
    ensures Forward([1.0], y, n) == Backward([1.0], y, n) == y[n]
  {
    hide Dot;
    var w := y[n..n + 1];
    assert w == [] + [y[n]] && Reversed(w) == w;
    DotAppend([], 1.0, [], y[n]);
    DotEmpty([], []);
    assert [] + [1.0] == [1.0];
  }

  /** The live ranges of a stage of order k are the errors of its filter on the history x:
      f[n] = sum a[i] x[n-i] and b[n] = sum a[i] x[n+i]. */
  ghost predicate HoldsFilterErrors(s: Stage, x: seq<real>, k: nat)
    requires k < |x| && |s.u| == |s.v| == |x| - 1 - k && |s.a| == k + 1
  {
    forall i :: 0 <= i < |s.u| ==>
      s.u[i] == Forward(s.a, x, k + 1 + i) && s.v[i] == Backward(s.a, x, k + i)
  }

  lemma {:induction false} ArraysAreFilterErrors(x: seq<real>, k: nat)
    requires k < |x|
    ensures HoldsFilterErrors(Run(x, k), x, k)
  {
    hide Forward, Backward, Levinson, Mu, Axpy;
    if k == 0 {
      forall i | 0 <= i < |x| - 1
        ensures x[1..][i] == Forward([1.0], x, 1 + i) && x[i] == Backward([1.0], x, i)
      {
        FirstOrder(x, i);
        FirstOrder(x, i + 1);
      }
    } else {
      ArraysAreFilterErrors(x, k - 1);
      var t := Run(x, k);
      forall i | 0 <= i < |t.u|
        ensures t.u[i] == Forward(t.a, x, k + 1 + i) && t.v[i] == Backward(t.a, x, k + i)
      {
        CrossedErrors(Run(x, k - 1), x, k, MuAt(x, k - 1), i);
        CrossedErrors(Run(x, k - 1), x, k, MuAt(x, k - 1), i + 1);
      }
    }
  }

  /** Entry i of the crossed update of stage k - 1, before the live ranges shrink. */
  lemma {:induction false} CrossedErrors(s: Stage, x: seq<real>, k: nat, mu: real, i: nat)
    requires 1 <= k < |x| && i < |x| - k
    requires |s.u| == |s.v| == |x| - k && |s.a| == k && HoldsFilterErrors(s, x, k - 1)
    ensures Axpy(s.u, mu, s.v)[i] == Forward(Levinson(s.a, mu), x, k + i)
    ensures Axpy(s.v, mu, s.u)[i] == Backward(Levinson(s.a, mu), x, k + i)
  {
    hide Forward, Backward, Levinson, Axpy;
    AxpyAt(s.u, mu, s.v, i);
    AxpyAt(s.v, mu, s.u, i);
    LatticeStep(s.a, mu, x, k + i);
  }

  // ---------------------------------------------------------------------------------------
  // What training is for: each reflection coefficient is the best there is

  /** All forward, and all backward, errors of a filter on the history. */
  ghost function ForwardErrors(a: seq<real>, x: seq<real>): seq<real>
    requires 1 <= |a| <= |x|
  {
    seq(|x| + 1 - |a|, i requires 0 <= i < |x| + 1 - |a| => Forward(a, x, |a| - 1 + i))
  }

  ghost function BackwardErrors(a: seq<real>, x: seq<real>): seq<real>
    requires 1 <= |a| <= |x|
  {
    seq(|x| + 1 - |a|, i requires 0 <= i < |x| + 1 - |a| => Backward(a, x, |a| - 1 + i))
  }

  /** The squared errors of a filter on the history, in both directions. */
  ghost function ErrorEnergy(a: seq<real>, x: seq<real>): real
    requires 1 <= |a| <= |x|
  {
    Dot(ForwardErrors(a, x), ForwardErrors(a, x)) + Dot(BackwardErrors(a, x), BackwardErrors(a, x))
  }

  /** Each stage picks, of all extensions of the filter so far, the one with the least damped error
      energy on the history: any other does strictly worse.  The last of them is the trained filter. */
  lemma {:induction false} ReflectionIsOptimal(x: seq<real>, k: nat, t: real)
    requires k + 1 < |x| && Dot(x, x) > 0.0
    ensures var a, mu, slack := Run(x, k).a, MuAt(x, k), Slack(x, k);
            var best, other := ErrorEnergy(Run(x, k + 1).a, x) + (1.0 + mu * mu) * slack,
                               ErrorEnergy(Levinson(a, t), x) + (1.0 + t * t) * slack;
            best <= other && (best == other <==> t == mu)
    ensures k + 2 == |x| ==> Filter(x) == Run(x, k + 1).a && Coefficients(x) == Run(x, k + 1).a[1..]
  {
    hide Dot, Run, Mu, Levinson, ErrorEnergy;
    NextFilter(x, k);
    var s, mu, slack := Run(x, k), MuAt(x, k), Slack(x, k);
    EnergyLaw(x, k);
    MuTimesDenominator(s);
    ExtendedEnergy(x, k, mu);
    ExtendedEnergy(x, k, t);
    BestIsQuotient(Energy(s), slack, s.d, Dot(s.u, s.v), mu, t,
                   ErrorEnergy(Levinson(s.a, mu), x), ErrorEnergy(Levinson(s.a, t), x));
  }

  lemma NextFilter(x: seq<real>, k: nat)
    requires k + 1 < |x|
    ensures Run(x, k + 1).a == Levinson(Run(x, k).a, MuAt(x, k))
  {
    hide Levinson, Mu, Axpy, Dot;
  }

  lemma {:induction false} ExtendedEnergy(x: seq<real>, k: nat, t: real)
    requires k + 1 < |x|
    ensures var s := Run(x, k);
            ErrorEnergy(Levinson(s.a, t), x) == (1.0 + t * t) * Energy(s) + 4.0 * t * Dot(s.u, s.v)
  {
    hide Dot, Run, Axpy, Levinson, Forward, Backward;
    var s := Run(x, k);
    var a := Levinson(s.a, t);
    ArraysAreFilterErrors(x, k);
    forall i | 0 <= i < |s.u|
      ensures Axpy(s.u, t, s.v)[i] == ForwardErrors(a, x)[i] && Axpy(s.v, t, s.u)[i] == BackwardErrors(a, x)[i]
    {
      CrossedErrors(s, x, k + 1, t, i);
    }
    assert Axpy(s.u, t, s.v) == ForwardErrors(a, x) && Axpy(s.v, t, s.u) == BackwardErrors(a, x);
    CrossedEnergy(s.u, s.v, t);
  }

  lemma {:induction false} BestIsQuotient(e: real, slack: real, d: real, c: real, mu: real, t: real,
                                          best: real, other: real)
    requires d == e + slack && d > 0.0 && mu * d == -2.0 * c
    requires best == (1.0 + mu * mu) * e + 4.0 * mu * c && other == (1.0 + t * t) * e + 4.0 * t * c
    ensures var x, y := best + (1.0 + mu * mu) * slack, other + (1.0 + t * t) * slack;
            x <= y && (x == y <==> t == mu)
  {
    var x, y, w := best + (1.0 + mu * mu) * slack, other + (1.0 + t * t) * slack, t - mu;
    assert x == (1.0 + mu * mu) * d + 4.0 * mu * c && y == (1.0 + t * t) * d + 4.0 * t * c;
    assert 4.0 * mu * c == -2.0 * mu * (mu * d) && 4.0 * t * c == -2.0 * t * (mu * d);
    assert y - x == (w * w) * d;
    if w != 0.0 {
      NonZeroSquare(w, w * w);
      PositiveProduct(w * w, d, (w * w) * d);
    }
  }

  /** The filter leads with 1 and its newest coefficient is the reflection coefficient. */
  lemma {:induction false} FilterEnds(x: seq<real>, k: nat)
    requires k < |x|
    ensures Run(x, k).a[0] == 1.0
    ensures k > 0 ==> Run(x, k).a[k] == MuAt(x, k - 1)
  {
    hide Mu;
    if k > 0 {
      FilterEnds(x, k - 1);
      var a, mu := Run(x, k - 1).a, MuAt(x, k - 1);
      LevinsonEntry(a, mu, 0, a[0] + mu * 0.0);
      LevinsonEntry(a, mu, k, 0.0 + mu * a[0]);
    }
  }

  // ---------------------------------------------------------------------------------------
  // The predictor: zero forward error

  /** Every predicted sample has zero forward error under the filter [1] + c. */
  lemma {:induction false} PredictionHasZeroError(c: seq<real>, y: seq<real>, n: nat, i: nat)
    requires |c| <= |y| <= i < |y| + n
    ensures Forward([1.0] + c, Extend(c, y, n), i) == 0.0
  {
    var e, t := Extend(c, y, n - 1), Extend(c, y, n);
    if i < |e| {
      hide Dot, NextSample;
      PredictionHasZeroError(c, y, n - 1, i);
      assert t[i - |c|..i + 1] == e[i - |c|..i + 1];
    } else {
      NextSampleHasZeroError(c, e);
    }
  }

  lemma {:induction false} NextSampleHasZeroError(c: seq<real>, e: seq<real>)
    requires |c| <= |e|
    ensures Forward([1.0] + c, e + [NextSample(c, e)], |e|) == 0.0
  {
    hide Dot;
    var t := e + [NextSample(c, e)];
    var r := Reversed(e[|e| - |c|..]);
    assert Reversed(t[|e| - |c|..|e| + 1]) == [t[|e|]] + r;
    DotPrepend(1.0, c, t[|e|], r);
  }

  /** The continuation of a history has zero forward error under the filter trained on it. */
  lemma {:induction false} ContinuationHasZeroError(x: seq<real>, size: nat, i: nat)
    requires 1 <= |x| <= size && |x| - 1 <= i < size
    ensures Forward(Filter(x), Continuation(x, size), i) == 0.0
  {
    FilterEnds(x, |x| - 1);
    assert Filter(x) == [1.0] + Coefficients(x);
    PredictionHasZeroError(Coefficients(x), x[..|x| - 1], size - (|x| - 1), i);
  }

  /** Continuing further does not change what came before. */
  lemma {:induction false} ContinuationPrefix(x: seq<real>, size: nat, longer: nat)
    requires 1 <= |x| <= size <= longer
    ensures Continuation(x, longer)[..size] == Continuation(x, size)
    decreases longer
  {
    hide Coefficients, NextSample;
    if size < longer {
      var e, t := Continuation(x, longer - 1), Continuation(x, longer);
      ContinuationPrefix(x, size, longer - 1);
      assert t[..longer - 1] == e;
      assert t[..size] == e[..size];
    }
  }

  // ---------------------------------------------------------------------------------------
  // Stability: a weighted sum of squared backward errors that prediction never raises

  /** Product of 1 - mu_i^2 over the stages from j on. */
  ghost function Weight(x: seq<real>, j: nat): real
    requires j < |x|
    decreases |x| - j
  {
    if j == |x| - 1 then 1.0 else (1.0 - MuAt(x, j) * MuAt(x, j)) * Weight(x, j + 1)
  }

  lemma {:induction false} WeightPositive(x: seq<real>, j: nat)
    requires j < |x|
    ensures Weight(x, j) > 0.0
    decreases |x| - j
  {
    hide MuAt;
    if j < |x| - 1 {
      ReflectionInsideUnit(x, j);
      WeightPositive(x, j + 1);
      var mu := MuAt(x, j);
      SquareBelowOne(mu, mu * mu);
      PositiveProduct(1.0 - mu * mu, Weight(x, j + 1), Weight(x, j));
    }
  }

  lemma {:induction false} SquareBelowOne(mu: real, p: real)
    requires -1.0 < mu < 1.0 && p == mu * mu
    ensures p < 1.0
  {
    PositiveProduct(1.0 - mu, 1.0 + mu, (1.0 - mu) * (1.0 + mu));
    assert (1.0 - mu) * (1.0 + mu) == 1.0 - p;
  }

  ghost function Square(a: real): real {
    a * a
  }

  lemma {:induction false} SquareNonNegative(a: real)
    ensures Square(a) >= 0.0
  {
  }

  lemma {:induction false} FilterStart(x: seq<real>)
    requires |x| >= 1
    ensures Run(x, 0).a == [1.0]
  {
  }

  /** Weighted squared backward errors of orders 0..k, of the signal y at n. */
  ghost function Potential(x: seq<real>, y: seq<real>, n: nat, k: nat): real
    requires k < |x| && k <= n < |y|
  {
    Weight(x, k) * Square(Backward(Run(x, k).a, y, n))
    + if k == 0 then 0.0 else Potential(x, y, n, k - 1)
  }

  lemma {:induction false} PotentialNonNegative(x: seq<real>, y: seq<real>, n: nat, k: nat)
    requires k < |x| && k <= n < |y|
    ensures Potential(x, y, n, k) >= Weight(x, 0) * Square(y[n]) >= 0.0
  {
    hide Backward, Weight, Run, Square;
    WeightPositive(x, k);
    SquareNonNegative(Backward(Run(x, k).a, y, n));
    NonNegativeProduct(Weight(x, k), Square(Backward(Run(x, k).a, y, n)));
    if k == 0 {
      FilterStart(x);
      FirstOrder(y, n);
    } else {
      PotentialNonNegative(x, y, n, k - 1);
    }
  }

  /** The ladder: the potential of orders 0..k at n is that of orders 0..k-1 one sample earlier
      plus the weighted squared forward error at n. */
  lemma {:induction false} Ladder(x: seq<real>, y: seq<real>, n: nat, k: nat)
    requires k < |x| && k <= n < |y|
    ensures Potential(x, y, n, k)
         == (if k == 0 then 0.0 else Potential(x, y, n - 1, k - 1))
            + Weight(x, k) * Square(Forward(Run(x, k).a, y, n))
  {
    hide Backward, Forward, Run, Weight, Square;
    if k == 0 {
      FilterStart(x);
      FirstOrder(y, n);
    } else {
      Ladder(x, y, n, k - 1);
      LadderRung(x, y, n, k);
    }
  }

  lemma {:induction false} LadderRung(x: seq<real>, y: seq<real>, n: nat, k: nat)
    requires 1 <= k < |x| && k <= n < |y|
    ensures Weight(x, k) * Square(Backward(Run(x, k).a, y, n))
            + Weight(x, k - 1) * Square(Forward(Run(x, k - 1).a, y, n))
         == Weight(x, k) * Square(Forward(Run(x, k).a, y, n))
            + Weight(x, k - 1) * Square(Backward(Run(x, k - 1).a, y, n - 1))
  {
    hide Backward, Forward, MuAt, Levinson, Run, Weight, Square;
    var a, mu := Run(x, k - 1).a, MuAt(x, k - 1);
    LatticeStep(a, mu, y, n);
    FilterGrows(x, k);
    WeightGrows(x, k);
    RungArithmetic(mu, Weight(x, k), Weight(x, k - 1), Forward(a, y, n), Backward(a, y, n - 1),
                   Forward(Run(x, k).a, y, n), Backward(Run(x, k).a, y, n));
  }

  lemma {:induction false} FilterGrows(x: seq<real>, k: nat)
    requires 1 <= k < |x|
    ensures Run(x, k).a == Levinson(Run(x, k - 1).a, MuAt(x, k - 1))
  {
    hide Dot, Axpy, Levinson, Mu;
  }

  lemma {:induction false} WeightGrows(x: seq<real>, k: nat)
    requires 1 <= k < |x|
    ensures Weight(x, k - 1) == (1.0 - MuAt(x, k - 1) * MuAt(x, k - 1)) * Weight(x, k)
  {
    hide MuAt;
  }

  lemma {:induction false} RungArithmetic(mu: real, w: real, w0: real, f0: real, b0: real, f: real, b: real)
    requires w0 == (1.0 - mu * mu) * w
    requires f == f0 + mu * b0 && b == b0 + mu * f0
    ensures w * Square(b) + w0 * Square(f0) == w * Square(f) + w0 * Square(b0)
  {
    var p, q, r := f0 * f0, b0 * b0, f0 * b0;
    assert Square(f) == p + 2.0 * mu * r + mu * mu * q;
    assert Square(b) == q + 2.0 * mu * r + mu * mu * p;
  }

  /** The training itself pays for the potential of the history at its last sample. */
  lemma {:induction false} TrainingBudget(x: seq<real>, k: nat)
    requires k < |x| && Dot(x, x) > 0.0
    ensures Potential(x, x, |x| - 1, k) + Weight(x, k) * Run(x, k).d
         <= Weight(x, 0) * (Square(x[|x| - 1]) + Run(x, 0).d)
  {
    hide Backward, Mu, Step;
    if k == 0 {
      FirstOrder(x, |x| - 1);
    } else {
      TrainingBudget(x, k - 1);
      BudgetStep(x, k);
    }
  }

  lemma {:induction false} BudgetStep(x: seq<real>, k: nat)
    requires 1 <= k < |x| && Dot(x, x) > 0.0
    ensures Weight(x, k) * Square(Backward(Run(x, k).a, x, |x| - 1)) + Weight(x, k) * Run(x, k).d
         <= Weight(x, k - 1) * Run(x, k - 1).d
  {
    hide Backward, Mu, Run, Dot, Square;
    var h := NextDenominator(x, k);
    WeightPositive(x, k);
    BudgetArithmetic(MuAt(x, k - 1), Weight(x, k), Weight(x, k - 1), Run(x, k - 1).d, Run(x, k).d,
                     h, Backward(Run(x, k).a, x, |x| - 1));
  }

  /** The denominator of the next stage, by the end errors of that stage. */
  lemma {:induction false} NextDenominator(x: seq<real>, k: nat) returns (h: real)
    requires 1 <= k < |x| && Dot(x, x) > 0.0
    ensures var mu, l := MuAt(x, k - 1), Backward(Run(x, k).a, x, |x| - 1);
            Run(x, k).d == (1.0 - mu * mu) * Run(x, k - 1).d - h * h - l * l
  {
    hide Backward, Forward, Mu, Dot, Axpy, Levinson, Slack, Energy;
    var s := Run(x, k - 1);
    EnergyLaw(x, k - 1);
    ArraysAreFilterErrors(x, k - 1);
    CrossedErrors(s, x, k, MuAt(x, k - 1), |s.u| - 1);
    h := Axpy(s.u, Mu(s), s.v)[0];
  }

  lemma {:induction false} BudgetArithmetic(mu: real, w: real, w0: real, d: real, d': real, h: real, l: real)
    requires w > 0.0 && w0 == (1.0 - mu * mu) * w
    requires d' == (1.0 - mu * mu) * d - h * h - l * l
    ensures w * Square(l) + w * d' <= w0 * d
  {
    assert Square(l) + d' == (1.0 - mu * mu) * d - Square(h);
    assert w * Square(l) + w * d' == w * ((1.0 - mu * mu) * d - Square(h));
    NonNegativeProduct(w, Square(h));
    assert w * ((1.0 - mu * mu) * d - Square(h)) == w0 * d - w * Square(h);
  }

  /** Prediction never raises the potential above the one the history ends with. */
  lemma {:induction false} PotentialNeverRises(x: seq<real>, size: nat, n: nat)
    requires 2 <= |x| <= size && |x| - 1 <= n < size
    ensures Potential(x, Continuation(x, size), n, |x| - 1) <= Potential(x, x, |x| - 1, |x| - 1)
  {
    hide Run, Weight, Continuation, Forward;
    var y, m := Continuation(x, size), |x| - 1;
    ContinuationHasZeroError(x, size, n);
    Ladder(x, y, n, m);
    assert Run(x, m).a == Filter(x);
    assert Potential(x, y, n, m) == Potential(x, y, n - 1, m - 1);
    WeightPositive(x, m);
    if n == m {
      SamePrefix(x, y, m - 1, m - 1);
      Ladder(x, x, m, m);
      NonNegativeProduct(Weight(x, m), Square(Forward(Run(x, m).a, x, m)));
    } else {
      PotentialNeverRises(x, size, n - 1);
      NonNegativeProduct(Weight(x, m), Square(Backward(Run(x, m).a, y, n - 1)));
    }
  }

  lemma {:induction false} SamePrefix(x: seq<real>, y: seq<real>, n: nat, k: nat)
    requires k < |x| && k <= n < |x| && n < |y| && y[..n + 1] == x[..n + 1]
    ensures Potential(x, y, n, k) == Potential(x, x, n, k)
  {
    hide Weight, Square, Backward, Run;
    BackwardSamePrefix(Run(x, k).a, x, y, n);
    if k > 0 {
      SamePrefix(x, y, n, k - 1);
    }
  }

  lemma {:induction false} BackwardSamePrefix(a: seq<real>, x: seq<real>, y: seq<real>, n: nat)
    requires 1 <= |a| <= n + 1 && n < |x| && n < |y| && y[..n + 1] == x[..n + 1]
    ensures Backward(a, y, n) == Backward(a, x, n)
  {
    assert y[n + 1 - |a|..n + 1] == y[..n + 1][n + 1 - |a|..];
    assert x[n + 1 - |a|..n + 1] == x[..n + 1][n + 1 - |a|..];
  }

  /** However long a history is continued, the square of every predicted sample stays within 2.00002
      times the energy of the history. */
  lemma {:induction false} PredictionIsBounded(x: seq<real>, size: nat, n: nat)
    requires 1 <= |x| <= size && n < size
    ensures Square(Continuation(x, size)[n]) <= 2.00002 * Dot(x, x)
  {
    hide Potential, Weight, Run, Dot, Continuation;
    var y, m := Continuation(x, size), |x| - 1;
    DotSelfNonNegative(x);
    if n < m {
      assert y[n] == y[..m][n] == x[n];
      SquareWithinEnergy(x, n);
    } else if Dot(x, x) == 0.0 || m == 0 {
      SilentContinuation(x, size, n);
    } else {
      PotentialNonNegative(x, y, n, m);
      PotentialNeverRises(x, size, n);
      TrainingBudget(x, m);
      EnergyLaw(x, m);
      WeightPositive(x, m);
      WeightPositive(x, 0);
      NonNegativeProduct(Weight(x, m), Run(x, m).d);
      Cancel(Weight(x, 0), Square(y[n]), Square(x[m]) + Run(x, 0).d);
      StartingBudget(x);
    }
  }

  lemma {:induction false} StartingBudget(x: seq<real>)
    requires |x| >= 1
    ensures Square(x[|x| - 1]) + Run(x, 0).d <= 2.00002 * Dot(x, x)
  {
    hide Dot;
    assert x[0] * x[0] >= 0.0;
  }

  lemma {:induction false} Cancel(w: real, p: real, q: real)
    requires w > 0.0 && w * p <= w * q
    ensures p <= q
  {
    if p > q {
      PositiveProduct(w, p - q, w * (p - q));
    }
  }

  lemma {:induction false} SilentContinuation(x: seq<real>, size: nat, n: nat)
    requires 1 <= |x| <= size && |x| - 1 <= n < size
    requires Dot(x, x) == 0.0 || |x| == 1
    ensures Continuation(x, size)[n] == 0.0
  {
    var c := Coefficients(x);
    if |x| > 1 {
      SilentHistory(x, |x| - 1);
    }
    assert c == Zeros(|x| - 1);
    ZeroPrediction(c, x[..|x| - 1], size - (|x| - 1), n);
  }

  lemma {:induction false} ZeroPrediction(c: seq<real>, y: seq<real>, n: nat, i: nat)
    requires |c| <= |y| <= i < |y| + n && c == Zeros(|c|)
    ensures Extend(c, y, n)[i] == 0.0
  {
    var e := Extend(c, y, n - 1);
    if i < |e| {
      ZeroPrediction(c, y, n - 1, i);
    } else {
      DotZeros(c, Reversed(e[|e| - |c|..]));
    }
  }
}
