/**
 * The L-BFGS two-loop recursion (Algorithm 7.4 of Nocedal and Wright,
 * "Numerical Optimization") as pure functions on a window of curvature
 * pairs. `s[i]` and `y[i]` are the i-th pair, index 0 the oldest and
 * `|s| - 1` the newest. The initial inverse-Hessian approximation is the
 * scaled identity `gamma * I`, so its product with a vector is `Scale(gamma, _)`.
 */
module TwoLoopRecursion {
  import opened Vectors

  /**
   * Two parallel lists of n-vectors, one pair per position, every pair
   * with `y_i . s_i != 0` (the loops divide by it).
   */
  predicate Window(s: seq<Vec>, y: seq<Vec>, n: nat)
  {
    && |s| == |y|
    && (forall i :: 0 <= i < |s| ==> |s[i]| == n && |y[i]| == n && Dot(y[i], s[i]) != 0.0)
  }

  /** `p = 1 / (y_i . s_i)`, computed afresh in each loop. */
  function Rho(si: Vec, yi: Vec): real
    requires |si| == |yi| && Dot(yi, si) != 0.0
  {
    1.0 / Dot(yi, si)
  }

  /** `alpha = p * (s_i . q)`: the coefficient the first loop computes for pair i. */
  function Coef(q: Vec, si: Vec, yi: Vec): real
    requires |si| == |q| && |yi| == |q| && Dot(yi, si) != 0.0
  {
    Rho(si, yi) * Dot(si, q)
  }

  /** `q -= alpha * y_i`: one step of the first loop. */
  function Reduce(q: Vec, si: Vec, yi: Vec): (q': Vec)
    requires |si| == |q| && |yi| == |q| && Dot(yi, si) != 0.0
    ensures |q'| == |q|
  {
    Sub(q, Scale(Coef(q, si, yi), yi))
  }

  /** `r += s_i * (a_i - b)` with `b = p * (y_i . r)`: one step of the second loop. */
  function Correct(r: Vec, si: Vec, yi: Vec, ai: real): (r': Vec)
    requires |si| == |r| && |yi| == |r| && Dot(yi, si) != 0.0
    ensures |r'| == |r|
  {
    Add(r, Scale(ai - Rho(si, yi) * Dot(yi, r), si))
  }

  /** What the first loop leaves behind: the reduced vector and the list `a`. */
  datatype BackwardPass = BackwardPass(q: Vec, coefs: seq<real>)

  /**
   * The first loop: pairs newest to oldest; each one appends its coefficient
   * to `a` and subtracts `alpha * y_i` from `q`.
   */
  function Backward(q: Vec, s: seq<Vec>, y: seq<Vec>): (b: BackwardPass)
    requires Window(s, y, |q|)
    ensures |b.q| == |q| && |b.coefs| == |s|
    decreases |s|
  {
    if |s| == 0 then BackwardPass(q, [])
    else
      var k := |s| - 1;
      var rest := Backward(Reduce(q, s[k], y[k]), s[..k], y[..k]);
      BackwardPass(rest.q, [Coef(q, s[k], y[k])] + rest.coefs)
  }

  /** The first loop on the n oldest pairs: pair n - 1 first, then the older ones. */
  lemma BackwardAt(q: Vec, s: seq<Vec>, y: seq<Vec>, n: nat)
    requires Window(s, y, |q|) && 0 < n <= |s|
    ensures Window(s[..n], y[..n], |q|) && Window(s[..n - 1], y[..n - 1], |q|)
    ensures Backward(q, s[..n], y[..n])
         == BackwardPass(Backward(Reduce(q, s[n - 1], y[n - 1]), s[..n - 1], y[..n - 1]).q,
                         [Coef(q, s[n - 1], y[n - 1])] + Backward(Reduce(q, s[n - 1], y[n - 1]), s[..n - 1], y[..n - 1]).coefs)
  {
    WindowPrefix(s, y, |q|, n);
    WindowPrefix(s, y, |q|, n - 1);
    var sn, yn := s[..n], y[..n];
    assert sn[..n - 1] == s[..n - 1] && yn[..n - 1] == y[..n - 1];
    assert sn[n - 1] == s[n - 1] && yn[n - 1] == y[n - 1];
  }

  /**
   * The second loop: pairs oldest to newest, `coefs[i]` going with pair i;
   * each one adds `s_i * (a_i - b)` to `r`, `b = p * (y_i . r)`.
   */
  function Forward(r: Vec, s: seq<Vec>, y: seq<Vec>, coefs: seq<real>): (out: Vec)
    requires Window(s, y, |r|) && |coefs| == |s|
    ensures |out| == |r|
    decreases |s|
  {
    if |s| == 0 then r
    else Forward(Correct(r, s[0], y[0], coefs[0]), s[1..], y[1..], coefs[1..])
  }

  /** The second loop at pair j: one correction, then the rest of the loop. */
  lemma ForwardAt(r: Vec, s: seq<Vec>, y: seq<Vec>, coefs: seq<real>, j: nat)
    requires Window(s, y, |r|) && |coefs| == |s| && j < |s|
    ensures Window(s[j..], y[j..], |r|) && Window(s[j + 1..], y[j + 1..], |r|)
    ensures Forward(r, s[j..], y[j..], coefs[j..])
         == Forward(Add(r, Scale(coefs[j] - Rho(s[j], y[j]) * Dot(y[j], r), s[j])), s[j + 1..], y[j + 1..], coefs[j + 1..])
  {
    assert s[j..][1..] == s[j + 1..] && y[j..][1..] == y[j + 1..] && coefs[j..][1..] == coefs[j + 1..];
  }

  /** `b = p * (y_i . r)` in the second loop. */
  function Beta(r: Vec, si: Vec, yi: Vec): real
    requires |si| == |r| && |yi| == |r| && Dot(yi, si) != 0.0
  {
    Rho(si, yi) * Dot(yi, r)
  }

  /** The second loop's update `r += s_i * (a_i - b)` is `Correct`. */
  lemma CorrectionStep(r: Vec, si: Vec, yi: Vec, ai: real, b: real)
    requires |si| == |r| && |yi| == |r| && Dot(yi, si) != 0.0
    requires b == Beta(r, si, yi)
    ensures Add(r, Scale(ai - b, si)) == Correct(r, si, yi, ai)
  {
  }

  /** `reversed(a)` */
  function Reverse(a: seq<real>): (r: seq<real>)
  {
    seq(|a|, i requires 0 <= i < |a| => a[|a| - 1 - i])
  }

  /**
   * The vector `compute_search_dir` returns: H0 applied to the reduced
   * vector, then corrected pair by pair with the reversed coefficients.
   */
  function TwoLoop(g: Vec, gamma: real, s: seq<Vec>, y: seq<Vec>): (r: Vec)
    requires Window(s, y, |g|)
    ensures |r| == |g|
    ensures |s| == 0 ==> r == Scale(gamma, g)
  {
    var b := Backward(g, s, y);
    Forward(Scale(gamma, b.q), s, y, Reverse(b.coefs))
  }

  // ---------------------------------------------------------------------
  // A reference description of the first loop by pair index.

  /** The value of `q` once every pair with index `>= j` has been processed. */
  function QAbove(g: Vec, s: seq<Vec>, y: seq<Vec>, j: nat): (q: Vec)
    requires Window(s, y, |g|) && j <= |s|
    ensures |q| == |g|
    decreases |s| - j
  {
    if j == |s| then g
    else Reduce(QAbove(g, s, y, j + 1), s[j], y[j])
  }

  /** The coefficient pair j receives: computed from pair j and the q left by the newer pairs. */
  function PairCoef(g: Vec, s: seq<Vec>, y: seq<Vec>, j: nat): real
    requires Window(s, y, |g|) && j < |s|
  {
    Coef(QAbove(g, s, y, j + 1), s[j], y[j])
  }

  lemma WindowPrefix(s: seq<Vec>, y: seq<Vec>, n: nat, k: nat)
    requires Window(s, y, n) && k <= |s|
    ensures Window(s[..k], y[..k], n)
  {
  }

  lemma WindowSuffix(s: seq<Vec>, y: seq<Vec>, n: nat, k: nat)
    requires Window(s, y, n) && k <= |s|
    ensures Window(s[k..], y[k..], n)
  {
  }

  /** Restarting the index description on a prefix from the q reached there changes nothing. */
  lemma {:induction false} QAbovePrefix(g: Vec, s: seq<Vec>, y: seq<Vec>, k: nat, j: nat)
    requires Window(s, y, |g|) && j <= k <= |s|
    ensures Window(s[..k], y[..k], |g|)
    ensures QAbove(QAbove(g, s, y, k), s[..k], y[..k], j) == QAbove(g, s, y, j)
    decreases k - j
  {
    WindowPrefix(s, y, |g|, k);
    if j < k {
      QAbovePrefix(g, s, y, k, j + 1);
      assert s[..k][j] == s[j] && y[..k][j] == y[j];
    }
  }

  /**
   * The first loop yields one coefficient per pair, newest first, and the
   * coefficient in position t is the one computed from pair `|s| - 1 - t`.
   */
  lemma {:induction false} BackwardByIndex(g: Vec, s: seq<Vec>, y: seq<Vec>)
    requires Window(s, y, |g|)
    ensures Backward(g, s, y).q == QAbove(g, s, y, 0)
    ensures |Backward(g, s, y).coefs| == |s|
    ensures forall t :: 0 <= t < |s| ==> Backward(g, s, y).coefs[t] == PairCoef(g, s, y, |s| - 1 - t)
    decreases |s|
  {
    if |s| > 0 {
      var k := |s| - 1;
      var alpha := Coef(g, s[k], y[k]);
      var q1 := Reduce(g, s[k], y[k]);
      assert q1 == QAbove(g, s, y, k);
      WindowPrefix(s, y, |g|, k);
      BackwardByIndex(q1, s[..k], y[..k]);
      var rest := Backward(q1, s[..k], y[..k]);
      assert Backward(g, s, y) == BackwardPass(rest.q, [alpha] + rest.coefs);
      QAbovePrefix(g, s, y, k, 0);
      forall t | 0 < t < |s|
        ensures Backward(g, s, y).coefs[t] == PairCoef(g, s, y, |s| - 1 - t)
      {
        var i := k - t;
        QAbovePrefix(g, s, y, k, i + 1);
        assert s[..k][i] == s[i] && y[..k][i] == y[i];
        assert rest.coefs[t - 1] == PairCoef(q1, s[..k], y[..k], k - 1 - (t - 1));
      }
    }
  }

  /**
   * The second loop corrects pair j with the coefficient the first loop
   * computed from that same pair j.
   */
  lemma TwoLoopPairsCoefficients(g: Vec, gamma: real, s: seq<Vec>, y: seq<Vec>)
    requires Window(s, y, |g|)
    ensures TwoLoop(g, gamma, s, y)
         == Forward(Scale(gamma, QAbove(g, s, y, 0)), s, y,
                    seq(|s|, j requires 0 <= j < |s| => PairCoef(g, s, y, j)))
  {
    BackwardByIndex(g, s, y);
    var b := Backward(g, s, y);
    assert Reverse(b.coefs) == seq(|s|, j requires 0 <= j < |s| => PairCoef(g, s, y, j));
  }

  // ---------------------------------------------------------------------
  // The secant equation: the product of the implicit matrix with the
  // newest y is the newest s, whatever gamma is.

  lemma {:induction false} BackwardOfZero(s: seq<Vec>, y: seq<Vec>, n: nat)
    requires Window(s, y, n)
    ensures Backward(Zero(n), s, y) == BackwardPass(Zero(n), seq(|s|, i => 0.0))
    decreases |s|
  {
    if |s| > 0 {
      var k := |s| - 1;
      DotZero(s[k]);
      assert Coef(Zero(n), s[k], y[k]) == 0.0;
      assert Reduce(Zero(n), s[k], y[k]) == Zero(n);
      WindowPrefix(s, y, n, k);
      BackwardOfZero(s[..k], y[..k], n);
      assert [0.0] + seq(k, i => 0.0) == seq(|s|, i => 0.0);
    }
  }

  lemma {:induction false} ForwardOfZero(s: seq<Vec>, y: seq<Vec>, n: nat, coefs: seq<real>)
    requires Window(s, y, n) && |coefs| == |s| > 0
    requires forall j :: 0 <= j < |s| - 1 ==> coefs[j] == 0.0
    ensures Forward(Zero(n), s, y, coefs) == Scale(coefs[|s| - 1], s[|s| - 1])
    decreases |s|
  {
    DotZero(y[0]);
    DotSymmetric(y[0], Zero(n));
    var r1 := Correct(Zero(n), s[0], y[0], coefs[0]);
    assert r1 == Add(Zero(n), Scale(coefs[0], s[0]));
    WindowSuffix(s, y, n, 1);
    if |s| == 1 {
      assert r1 == Scale(coefs[0], s[0]);
    } else {
      assert r1 == Zero(n);
      ForwardOfZero(s[1..], y[1..], n, coefs[1..]);
    }
  }

  /** `H * y_newest == s_newest`: the secant equation of the BFGS update. */
  lemma {:induction false} SecantEquation(gamma: real, s: seq<Vec>, y: seq<Vec>)
    requires |s| == |y| > 0 && Window(s, y, |y[|y| - 1]|)
    ensures TwoLoop(y[|y| - 1], gamma, s, y) == s[|s| - 1]
  {
    var k := |s| - 1;
    var n := |y[k]|;
    var g := y[k];
    DotSymmetric(y[k], s[k]);
    assert Coef(g, s[k], y[k]) == 1.0;
    assert Reduce(g, s[k], y[k]) == Zero(n);
    WindowPrefix(s, y, n, k);
    BackwardOfZero(s[..k], y[..k], n);
    var b := Backward(g, s, y);
    assert b == BackwardPass(Zero(n), [1.0] + seq(k, i => 0.0));
    assert Scale(gamma, Zero(n)) == Zero(n);
    ForwardOfZero(s, y, n, Reverse(b.coefs));
    assert Scale(1.0, s[k]) == s[k];
  }

  // ---------------------------------------------------------------------
  // One pair: the recursion equals the product-form BFGS update
  // H = V^T (gamma I) V + rho s s^T with V = I - rho y s^T, applied to g.

  /** `V g` with `V = I - rho y s^T` */
  function VTimes(g: Vec, s0: Vec, y0: Vec): (r: Vec)
    requires |s0| == |g| && |y0| == |g| && Dot(y0, s0) != 0.0
    ensures |r| == |g|
  {
    Sub(g, Scale(Rho(s0, y0) * Dot(s0, g), y0))
  }

  /** `V^T r` with `V = I - rho y s^T` */
  function VTransposeTimes(r: Vec, s0: Vec, y0: Vec): (r': Vec)
    requires |s0| == |r| && |y0| == |r| && Dot(y0, s0) != 0.0
    ensures |r'| == |r|
  {
    Sub(r, Scale(Rho(s0, y0) * Dot(y0, r), s0))
  }

  /** `(V^T (gamma I) V + rho s s^T) g` */
  function SinglePairProduct(g: Vec, gamma: real, s0: Vec, y0: Vec): (r: Vec)
    requires |s0| == |g| && |y0| == |g| && Dot(y0, s0) != 0.0
    ensures |r| == |g|
  {
    Add(VTransposeTimes(Scale(gamma, VTimes(g, s0, y0)), s0, y0), Scale(Rho(s0, y0) * Dot(s0, g), s0))
  }

  lemma {:induction false} TwoLoopOnePair(g: Vec, gamma: real, s: seq<Vec>, y: seq<Vec>)
    requires |s| == 1 && Window(s, y, |g|)
    ensures TwoLoop(g, gamma, s, y)
         == Correct(Scale(gamma, Reduce(g, s[0], y[0])), s[0], y[0], Coef(g, s[0], y[0]))
  {
    assert s[..0] == [] && y[..0] == [];
    assert Backward(Reduce(g, s[0], y[0]), s[..0], y[..0]) == BackwardPass(Reduce(g, s[0], y[0]), []);
    assert [Coef(g, s[0], y[0])] + [] == [Coef(g, s[0], y[0])];
    var b := Backward(g, s, y);
    assert b == BackwardPass(Reduce(g, s[0], y[0]), [Coef(g, s[0], y[0])]);
    assert Reverse(b.coefs) == [Coef(g, s[0], y[0])];
    var r := Scale(gamma, b.q);
    assert Forward(r, s, y, [Coef(g, s[0], y[0])])
        == Forward(Correct(r, s[0], y[0], Coef(g, s[0], y[0])), s[1..], y[1..], [Coef(g, s[0], y[0])][1..]);
  }

  lemma Regroup(r: Vec, a: real, b: real, v: Vec)
    requires |r| == |v|
    ensures Add(r, Scale(a - b, v)) == Add(Sub(r, Scale(b, v)), Scale(a, v))
  {
    forall i | 0 <= i < |r|
      ensures Add(r, Scale(a - b, v))[i] == Add(Sub(r, Scale(b, v)), Scale(a, v))[i]
    {
      assert (a - b) * v[i] == a * v[i] - b * v[i];
    }
  }

  lemma CorrectRegrouped(r: Vec, s0: Vec, y0: Vec, alpha: real)
    requires |s0| == |r| && |y0| == |r| && Dot(y0, s0) != 0.0
    ensures Correct(r, s0, y0, alpha) == Add(VTransposeTimes(r, s0, y0), Scale(alpha, s0))
  {
    var b := Rho(s0, y0) * Dot(y0, r);
    assert Correct(r, s0, y0, alpha) == Add(r, Scale(alpha - b, s0));
    assert VTransposeTimes(r, s0, y0) == Sub(r, Scale(b, s0));
    Regroup(r, alpha, b, s0);
  }

  lemma SinglePairProductUnfolded(g: Vec, gamma: real, s0: Vec, y0: Vec)
    requires |s0| == |g| && |y0| == |g| && Dot(y0, s0) != 0.0
    ensures SinglePairProduct(g, gamma, s0, y0)
         == Add(VTransposeTimes(Scale(gamma, Reduce(g, s0, y0)), s0, y0), Scale(Coef(g, s0, y0), s0))
  {
    assert Coef(g, s0, y0) == Rho(s0, y0) * Dot(s0, g);
    assert Reduce(g, s0, y0) == VTimes(g, s0, y0);
  }

  lemma {:induction false} SinglePairClosedForm(g: Vec, gamma: real, s0: Vec, y0: Vec)
    requires |s0| == |g| && |y0| == |g| && Dot(y0, s0) != 0.0
    ensures Window([s0], [y0], |g|)
    ensures TwoLoop(g, gamma, [s0], [y0]) == SinglePairProduct(g, gamma, s0, y0)
  {
    TwoLoopOnePair(g, gamma, [s0], [y0]);
    CorrectRegrouped(Scale(gamma, Reduce(g, s0, y0)), s0, y0, Coef(g, s0, y0));
    SinglePairProductUnfolded(g, gamma, s0, y0);
  }
}
