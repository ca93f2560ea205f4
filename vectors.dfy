/**
 * Flat parameter and gradient vectors, modelled as sequences of exact reals,
 * with the handful of NumPy operations the L-BFGS step uses: the inner
 * product `np.dot`, scalar multiplication, elementwise `+`, `-` and unary `-`.
 */
module Vectors {

  type Vec = seq<real>

  /** `np.dot(u.T, v)` for two vectors of the same length. */
  function Dot(u: Vec, v: Vec): real
    requires |u| == |v|
  {
    SumOfProducts(u, v)
  }

  /** `u[0] * v[0] + ... + u[n-1] * v[n-1]` */
  function SumOfProducts(u: Vec, v: Vec): real
    requires |u| == |v|
  {
    if |u| == 0 then 0.0 else u[0] * v[0] + SumOfProducts(u[1..], v[1..])
  }

  /** `c * v` */
  function Scale(c: real, v: Vec): (r: Vec)
    ensures |r| == |v|
  {
    seq(|v|, i requires 0 <= i < |v| => c * v[i])
  }

  /** `u + v` */
  function Add(u: Vec, v: Vec): (r: Vec)
    requires |u| == |v|
    ensures |r| == |u|
  {
    seq(|u|, i requires 0 <= i < |u| => u[i] + v[i])
  }

  /** `u - v` */
  function Sub(u: Vec, v: Vec): (r: Vec)
    requires |u| == |v|
    ensures |r| == |u|
  {
    seq(|u|, i requires 0 <= i < |u| => u[i] - v[i])
  }

  /** `-v` */
  function Neg(v: Vec): (r: Vec)
    ensures |r| == |v|
  {
    seq(|v|, i requires 0 <= i < |v| => -v[i])
  }

  /** The zero vector of length n. */
  function Zero(n: nat): (r: Vec)
    ensures |r| == n
  {
    seq(n, i requires 0 <= i < n => 0.0)
  }

  lemma {:induction false} DotSymmetric(u: Vec, v: Vec)
    requires |u| == |v|
    ensures Dot(u, v) == Dot(v, u)
  {
    SumSymmetric(u, v);
  }

  lemma {:induction false} SumSymmetric(u: Vec, v: Vec)
    requires |u| == |v|
    ensures SumOfProducts(u, v) == SumOfProducts(v, u)
  {
    if |u| > 0 {
      SumSymmetric(u[1..], v[1..]);
    }
  }

  lemma DotZero(u: Vec)
    ensures Dot(u, Zero(|u|)) == 0.0
  {
    SumZero(u);
  }

  lemma {:induction false} SumZero(u: Vec)
    ensures SumOfProducts(u, Zero(|u|)) == 0.0
  {
    if |u| > 0 {
      assert Zero(|u|)[1..] == Zero(|u| - 1);
      SumZero(u[1..]);
    }
  }

  /** `v . v` is a sum of squares, so it is never negative. */
  lemma DotSelfNonNegative(v: Vec)
    ensures Dot(v, v) >= 0.0
  {
    SumOfSquaresNonNegative(v);
  }

  lemma {:induction false} SumOfSquaresNonNegative(v: Vec)
    ensures SumOfProducts(v, v) >= 0.0
  {
    if |v| > 0 {
      SumOfSquaresNonNegative(v[1..]);
      assert v[0] * v[0] >= 0.0;
    }
  }

  /** The displacement `w1 - w0` of the update `w1 = w0 + alpha * d` is `alpha * d`. */
  lemma DisplacementOfUpdate(w0: Vec, alpha: real, d: Vec)
    requires |w0| == |d|
    ensures Sub(Add(w0, Scale(alpha, d)), w0) == Scale(alpha, d)
  {
  }
}
