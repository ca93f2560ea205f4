/**
 * The `LBFGS` optimizer object: its configuration, the curvature-pair lists
 * `s` and `y` it updates in place, and the loss `old_phi0` it carries from
 * one step to the next.
 */
module LbfgsOptimizer {
  import opened Vectors
  import opened TwoLoopRecursion
  import opened LbfgsStep

  class Lbfgs {
    var s: seq<Vec>
    var y: seq<Vec>
    var oldPhi0: Option<real>
    // configuration: set once by the constructor, never updated by a step
    const m: int
    const c1: real
    const c2: real
    const lnMaxiter: int
    const tol: Option<real>
    const nIterNoChange: int

    /** The part of the object a step reads and writes. */
    function Mem(): Memory
      reads this
    {
      Memory(s, y, oldPhi0)
    }

    /** The two lists always hold the same number of entries, at most m when m >= 1. */
    ghost predicate Valid()
      reads this
    {
      |s| == |y| && (m >= 1 ==> |s| <= m)
    }

    /**
     * A fresh optimizer: empty lists, no previous `phi0`, and the defaults
     * m = 3, c1 = 1e-4, c2 = 0.9, ln_maxiter = 10; a missing
     * `n_iter_no_change` becomes 1.
     */
    constructor (m: int := 3, c1: real := 0.0001, c2: real := 0.9, lnMaxiter: int := 10,
                 tol: Option<real> := None, nIterNoChange: Option<int> := None)
      ensures Valid()
      ensures this.s == [] && this.y == [] && this.oldPhi0 == None
      ensures this.m == m && this.c1 == c1 && this.c2 == c2 && this.lnMaxiter == lnMaxiter && this.tol == tol
      ensures this.nIterNoChange == if nIterNoChange.None? then 1 else nIterNoChange.value
    {
      this.tol := tol;
      this.nIterNoChange := if nIterNoChange.None? then 1 else nIterNoChange.value;
      this.c1 := c1;
      this.c2 := c2;
      this.oldPhi0 := None;
      this.s := [];
      this.y := [];
      this.m := m;
      this.lnMaxiter := lnMaxiter;
    }

    /**
     * `step`: one iteration of L-BFGS. On the cold start (epoch 0) the
     * direction is `-g`; otherwise the newest y becomes `g - y[-1]`, the
     * direction is minus the two-loop product with `H0 = gamma * I`, and a
     * negative curvature `s[-1] . y[-1]` stops the step. The line search
     * gets the previous `old_phi0`, then `old_phi0` takes this step's
     * `phi0`, the weights move to `w1 = w0 + alpha * d`, and the window pops
     * its oldest pair when full and appends `(w1 - w0, g)`.
     */
    method Step(epoch: nat, w0: Vec, g: Vec, freshLoss: real, lastLoss: real, lineSearch: LineSearch)
      returns (out: Outcome)
      requires Valid() && Defined(Mem(), Input(epoch, w0, g, freshLoss, lastLoss))
      modifies this
      ensures Valid()
      ensures Transition(Memory(s, y, oldPhi0), out)
           == StepTransition(Memory(old(s), old(y), old(oldPhi0)), m, Input(epoch, w0, g, freshLoss, lastLoss), lineSearch)
    {
      ghost var inp := Input(epoch, w0, g, freshLoss, lastLoss);
      ghost var sp := SearchPhase(Memory(s, y, oldPhi0), inp);
      var d: Vec;
      var phi0: real;
      if epoch == 0 {
        d := Neg(g);
        phi0 := freshLoss;
      } else {
        if |y| == 0 {
          return Failed(NoPairToConvert, None);
        }
        y := y[|y| - 1 := Sub(g, y[|y| - 1])];
        assert sp.mem == Memory(s, y, oldPhi0);
        var gamma := Dot(s[|s| - 1], y[|y| - 1]) / Dot(y[|y| - 1], y[|y| - 1]);
        var r := ComputeSearchDir(g, gamma, s, y);
        d := Neg(r);
        var curvature := Dot(s[|s| - 1], y[|y| - 1]);
        if curvature < 0.0 {
          return Failed(NegativeCurvature, None);
        }
        phi0 := lastLoss;
      }
      assert sp == Searched(Memory(s, y, oldPhi0), Ready(d, phi0));
      var alpha := lineSearch(d, phi0, oldPhi0);
      out := Update(w0, g, d, phi0, alpha);
    }

    /**
     * The end of `step`, once `alpha` is known: `old_phi0` takes `phi0`, the
     * weights `w1 = w0 + alpha * d` are written back into the model, the
     * oldest pair is popped when the window is full, and `(w1 - w0, g)` is
     * appended.
     */
    method Update(w0: Vec, g: Vec, d: Vec, phi0: real, alpha: real) returns (out: Outcome)
      requires Shaped(Mem(), |g|) && |w0| == |g| && |d| == |g|
      modifies this
      ensures Transition(Mem(), out) == UpdatePhase(old(Mem()), m, w0, g, d, phi0, alpha)
    {
      ghost var t := UpdatePhase(Mem(), m, w0, g, d, phi0, alpha);
      oldPhi0 := Some(phi0);
      var w1 := Add(w0, Scale(alpha, d));
      // `restore_w_to_model(model, w1)`: from here on the model holds w1
      if |s| == m && |y| == m {
        if |s| == 0 {
          return Failed(PopFromEmptyWindow, Some(w1));
        }
        s := s[1..];
        y := y[1..];
      }
      s := s + [Sub(w1, w0)];
      y := y + [g];
      out := Moved(d, phi0, alpha, w1);
      assert t.mem.s == s;
    }

    /**
     * `compute_search_dir(g, gamma * I, s, y)`: the two-loop recursion.
     * The first loop walks the pairs newest to oldest and collects one
     * coefficient per pair in `a`; the second walks them oldest to newest
     * and consumes `a` reversed, so each pair gets its own coefficient back.
     */
    method ComputeSearchDir(g: Vec, gamma: real, s: seq<Vec>, y: seq<Vec>) returns (r: Vec)
      requires Window(s, y, |g|)
      ensures r == TwoLoop(g, gamma, s, y)
      ensures |r| == |g|
    {
      var q, a := FirstLoop(g, s, y);
      r := SecondLoop(Scale(gamma, q), s, y, a);
    }

    /**
     * The first loop of `compute_search_dir`, over `zip(reversed(s), reversed(y))`:
     * `q` starts as a copy of `g`, and pair j (newest first) appends
     * `alpha = p * (s_j . q)` to `a` and subtracts `alpha * y_j` from `q`.
     */
    method FirstLoop(g: Vec, s: seq<Vec>, y: seq<Vec>) returns (q: Vec, a: seq<real>)
      requires Window(s, y, |g|)
      ensures BackwardPass(q, a) == Backward(g, s, y)
    {
      var k := |s|;
      q := g;
      a := [];
      var i := 0;
      assert s[..k] == s && y[..k] == y;
      while i < k
        invariant 0 <= i <= k && |q| == |g| && |a| == i
        invariant Backward(q, s[..k - i], y[..k - i]).q == Backward(g, s, y).q
        invariant a + Backward(q, s[..k - i], y[..k - i]).coefs == Backward(g, s, y).coefs
      {
        var j := k - 1 - i;
        var alpha := Coef(q, s[j], y[j]);
        BackwardAt(q, s, y, k - i);
        ghost var rest := Backward(Reduce(q, s[j], y[j]), s[..j], y[..j]).coefs;
        assert (a + [alpha]) + rest == a + ([alpha] + rest);
        a := a + [alpha];
        q := Sub(q, Scale(alpha, y[j]));
        i := i + 1;
      }
      assert s[..0] == [] && y[..0] == [];
      assert a + [] == a;
    }

    /**
     * The second loop of `compute_search_dir`, over `zip(s, y, reversed(a))`:
     * pair j (oldest first) computes `b = p * (y_j . r)` and adds
     * `s_j * (a_j - b)` to `r`, where `a_j` is entry `|a| - 1 - j` of `a`.
     */
    method SecondLoop(r0: Vec, s: seq<Vec>, y: seq<Vec>, a: seq<real>) returns (r: Vec)
      requires Window(s, y, |r0|) && |a| == |s|
      ensures r == Forward(r0, s, y, Reverse(a))
    {
      var k := |s|;
      ghost var coefs := Reverse(a);
      r := r0;
      var j := 0;
      assert s[0..] == s && y[0..] == y && coefs[0..] == coefs;
      while j < k
        invariant 0 <= j <= k && |r| == |r0|
        invariant Forward(r, s[j..], y[j..], coefs[j..]) == Forward(r0, s, y, coefs)
      {
        var b := Beta(r, s[j], y[j]);
        var aj := a[k - 1 - j];
        ForwardAt(r, s, y, coefs, j);
        CorrectionStep(r, s[j], y[j], aj, b);
        r := Add(r, Scale(aj - b, s[j]));
        j := j + 1;
      }
    }
  }
}
