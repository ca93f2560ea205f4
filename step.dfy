/**
 * One call of `LBFGS.step` as a pure transition of the optimizer's memory
 * (the lists `s`, `y` and the scalar `old_phi0`). The weights `w0`, the
 * gradient `g`, the two losses `step` reads (the freshly computed mean
 * squared error and the last recorded one), and the line search are
 * supplied by the caller.
 */
module LbfgsStep {
  import opened Vectors
  import opened TwoLoopRecursion
  import opened PairWindow

  datatype Option<T> = None | Some(value: T)

  /** The ways a step stops before it completes. */
  datatype Error =
    | NegativeCurvature    // the `Exception("Curvature condition is negative")` the step raises
    | NoPairToConvert      // `self.y[-1]` on an empty list raises IndexError
    | PopFromEmptyWindow   // `self.s.pop(0)` on an empty list (only when m == 0) raises IndexError

  /** The optimizer state a step reads and writes: `self.s`, `self.y`, `self.old_phi0`. */
  datatype Memory = Memory(s: seq<Vec>, y: seq<Vec>, oldPhi0: Option<real>)

  /**
   * What one step gets from outside: the epoch counter of the training
   * driver, the flattened weights `w0`, the gradient `g`, the loss
   * `mse(Y, predict(X))` read on the cold-start branch and the last
   * recorded loss `history["loss_mse"][-1]` read on the other branch.
   */
  datatype Input = Input(epoch: nat, w0: Vec, g: Vec, freshLoss: real, lastLoss: real)

  /** The line search: from the direction, `phi0` and `old_phi0` to the step length `alpha`. */
  type LineSearch = (Vec, real, Option<real>) -> real

  /** The first half of a step: a direction and the `phi0` for the line search, or an error. */
  datatype Search = Ready(d: Vec, phi0: real) | Abort(error: Error)
  datatype Searched = Searched(mem: Memory, res: Search)

  /**
   * What a step hands back: the direction, `phi0`, `alpha` and the new
   * weights `w1`, or an error together with the weights already written back
   * into the model before it was raised (`None` when the model was not touched).
   */
  datatype Outcome =
    | Moved(d: Vec, phi0: real, alpha: real, w1: Vec)
    | Failed(error: Error, written: Option<Vec>)
  datatype Transition = Transition(mem: Memory, out: Outcome)

  /** Parallel lists of n-vectors. */
  predicate Shaped(mem: Memory, n: nat)
  {
    && |mem.s| == |mem.y|
    && (forall i :: 0 <= i < |mem.s| ==> |mem.s[i]| == n && |mem.y[i]| == n)
  }

  /** `self.y[-1] = g - self.y[-1]`: the newest entry becomes a gradient difference. */
  function ConvertNewest(y: seq<Vec>, g: Vec): (r: seq<Vec>)
    requires |y| > 0 && |y[|y| - 1]| == |g|
    ensures |r| == |y|
    ensures r[|y| - 1] == Sub(g, y[|y| - 1])
    ensures r[..|y| - 1] == y[..|y| - 1]
  {
    y[|y| - 1 := Sub(g, y[|y| - 1])]
  }

  /**
   * `gamma = (s[-1] . y[-1]) / (y[-1] . y[-1])`: the scale for which
   * `gamma * y[-1]` and `s[-1]` have the same component along `y[-1]`.
   */
  function Gamma(s: seq<Vec>, y: seq<Vec>): (gamma: real)
    requires |s| == |y| > 0 && |s[|s| - 1]| == |y[|y| - 1]|
    requires Dot(y[|y| - 1], y[|y| - 1]) != 0.0
    ensures gamma * Dot(y[|y| - 1], y[|y| - 1]) == Dot(s[|s| - 1], y[|y| - 1])
    ensures Dot(s[|s| - 1], y[|y| - 1]) > 0.0 ==> gamma > 0.0
  {
    DotSelfNonNegative(y[|y| - 1]);
    Dot(s[|s| - 1], y[|y| - 1]) / Dot(y[|y| - 1], y[|y| - 1])
  }

  /** The newest entry of y is not the zero vector, so gamma is defined. */
  predicate NewestNonZero(y: seq<Vec>)
  {
    |y| > 0 && Dot(y[|y| - 1], y[|y| - 1]) != 0.0
  }

  /**
   * The divisions of a non-cold step are defined: after the conversion
   * every pair has `y_i . s_i != 0`, and the newest y is not zero.
   */
  predicate SearchDefined(mem: Memory, g: Vec)
    requires Shaped(mem, |g|)
  {
    |mem.y| == 0 ||
    (Window(mem.s, ConvertNewest(mem.y, g), |g|) && NewestNonZero(ConvertNewest(mem.y, g)))
  }

  /** What a step needs of its caller. */
  predicate Defined(mem: Memory, inp: Input)
  {
    && Shaped(mem, |inp.g|)
    && |inp.w0| == |inp.g|
    && (inp.epoch != 0 ==> SearchDefined(mem, inp.g))
  }

  /** The non-cold branch once the newest y has been converted. */
  function SearchWithPairs(s: seq<Vec>, y: seq<Vec>, oldPhi0: Option<real>, inp: Input): (r: Searched)
    requires Window(s, y, |inp.g|) && NewestNonZero(y)
    ensures r.mem == Memory(s, y, oldPhi0)
    ensures r.res == Abort(NegativeCurvature) <==> Dot(s[|s| - 1], y[|y| - 1]) < 0.0
    ensures r.res.Abort? ==> r.res.error == NegativeCurvature
    ensures r.res.Ready? ==> r.res.d == Neg(TwoLoop(inp.g, Gamma(s, y), s, y)) && r.res.phi0 == inp.lastLoss
  {
    Searched(Memory(s, y, oldPhi0),
      if Dot(s[|s| - 1], y[|y| - 1]) < 0.0 then Abort(NegativeCurvature)
      else Ready(Neg(TwoLoop(inp.g, Gamma(s, y), s, y)), inp.lastLoss))
  }

  /** The y list as the rest of the step sees it. */
  function YAfterSearch(mem: Memory, inp: Input): (y: seq<Vec>)
    requires Defined(mem, inp)
    ensures |y| == |mem.y|
    ensures inp.epoch == 0 ==> y == mem.y
    ensures |y| > 0 ==> y[..|y| - 1] == mem.y[..|mem.y| - 1]
    ensures inp.epoch != 0 && |y| > 0 ==> y[|y| - 1] == Sub(inp.g, mem.y[|mem.y| - 1])
  {
    if inp.epoch == 0 || |mem.y| == 0 then mem.y else ConvertNewest(mem.y, inp.g)
  }

  /**
   * The first half of `step`: the cold-start test, the direction, and the
   * curvature check, up to the choice of `phi0`. Only the newest y may change, and only on the non-cold branch.
   */
  function SearchPhase(mem: Memory, inp: Input): (r: Searched)
    requires Defined(mem, inp)
    ensures r.mem == Memory(mem.s, YAfterSearch(mem, inp), mem.oldPhi0)
    ensures Shaped(r.mem, |inp.g|)
    ensures r.res == Abort(NoPairToConvert) <==> inp.epoch != 0 && |mem.s| == 0
    ensures r.res == Abort(NegativeCurvature)
        <==> inp.epoch != 0 && |mem.s| > 0 && Dot(mem.s[|mem.s| - 1], Sub(inp.g, mem.y[|mem.y| - 1])) < 0.0
    ensures r.res.Abort? ==> r.res.error in {NoPairToConvert, NegativeCurvature}
    ensures r.res.Ready? && inp.epoch == 0 ==> r.res.d == Neg(inp.g) && r.res.phi0 == inp.freshLoss
    ensures r.res.Ready? && inp.epoch != 0 ==>
      && r.res.phi0 == inp.lastLoss
      && Window(mem.s, r.mem.y, |inp.g|) && NewestNonZero(r.mem.y)
      && r.res.d == Neg(TwoLoop(inp.g, Gamma(mem.s, r.mem.y), mem.s, r.mem.y))
    ensures r.res.Ready? ==> |r.res.d| == |inp.g|
  {
    if inp.epoch == 0 then Searched(mem, Ready(Neg(inp.g), inp.freshLoss))
    else if |mem.y| == 0 then Searched(mem, Abort(NoPairToConvert))
    else SearchWithPairs(mem.s, ConvertNewest(mem.y, inp.g), mem.oldPhi0, inp)
  }

  /** `w1 = w0 + alpha * d` */
  function Advance(w0: Vec, alpha: real, d: Vec): (w1: Vec)
    requires |w0| == |d|
    ensures |w1| == |w0|
    ensures Sub(w1, w0) == Scale(alpha, d)
  {
    DisplacementOfUpdate(w0, alpha, d);
    Add(w0, Scale(alpha, d))
  }

  /**
   * The second half of `step`, once `alpha` is known: hand `phi0` on, move
   * the weights, then pop the oldest pair when the window is full and
   * append the new one.
   */
  function UpdatePhase(mem: Memory, m: int, w0: Vec, g: Vec, d: Vec, phi0: real, alpha: real): (t: Transition)
    requires Shaped(mem, |g|) && |w0| == |g| && |d| == |g|
    ensures t.mem.oldPhi0 == Some(phi0)
    ensures Shaped(t.mem, |g|)
    ensures m >= 1 && |mem.s| <= m ==> |t.mem.s| <= m
    ensures t.out.Failed? <==> m == 0 && |mem.s| == 0
    ensures t.out.Failed? ==>
      && t.out == Failed(PopFromEmptyWindow, Some(Add(w0, Scale(alpha, d))))
      && t.mem.s == mem.s && t.mem.y == mem.y
    ensures t.out.Moved? ==>
      && t.out == Moved(d, phi0, alpha, Add(w0, Scale(alpha, d)))
      && |t.mem.s| > 0
      && t.mem.s[|t.mem.s| - 1] == Scale(alpha, d)
      && t.mem.y[|t.mem.y| - 1] == g
      && t.mem.s[..|t.mem.s| - 1] == (if |mem.s| == m then mem.s[1..] else mem.s)
      && t.mem.y[..|t.mem.y| - 1] == (if |mem.s| == m then mem.y[1..] else mem.y)
  {
    if |mem.s| == m && |mem.y| == m && |mem.s| == 0 then
      Transition(Memory(mem.s, mem.y, Some(phi0)), Failed(PopFromEmptyWindow, Some(Advance(w0, alpha, d))))
    else
      Transition(
        Memory(Push(mem.s, Sub(Advance(w0, alpha, d), w0), m), Push(mem.y, g, m), Some(phi0)),
        Moved(d, phi0, alpha, Advance(w0, alpha, d)))
  }

  /** A whole call of `step`; the line search sees the `old_phi0` left by the previous call. */
  function StepTransition(mem: Memory, m: int, inp: Input, lineSearch: LineSearch): (t: Transition)
    requires Defined(mem, inp)
    ensures Shaped(t.mem, |inp.g|)
    ensures m >= 1 && |mem.s| <= m ==> |t.mem.s| <= m
  {
    var sr := SearchPhase(mem, inp);
    match sr.res
    case Abort(e) => Transition(sr.mem, Failed(e, None))
    case Ready(d, phi0) => UpdatePhase(sr.mem, m, inp.w0, inp.g, d, phi0, lineSearch(d, phi0, sr.mem.oldPhi0))
  }

  /** The outcome is the error `e`, whatever the weights left in the model. */
  predicate FailedWith(out: Outcome, e: Error)
  {
    out.Failed? && out.error == e
  }

  /** Which calls of `step` fail, with which error, and what they leave behind. */
  lemma StepFailures(mem: Memory, m: int, inp: Input, lineSearch: LineSearch)
    requires Defined(mem, inp)
    ensures var t := StepTransition(mem, m, inp, lineSearch);
      && (t.out == Failed(NoPairToConvert, None) <==> inp.epoch != 0 && |mem.s| == 0)
      && (t.out == Failed(NegativeCurvature, None)
          <==> inp.epoch != 0 && |mem.s| > 0 && Dot(mem.s[|mem.s| - 1], Sub(inp.g, mem.y[|mem.y| - 1])) < 0.0)
      && (FailedWith(t.out, PopFromEmptyWindow) <==> inp.epoch == 0 && m == 0 && |mem.s| == 0)
      && (t.out.Failed? ==> t.mem.s == mem.s && t.mem.y == YAfterSearch(mem, inp))
      && (t.out.Failed? && t.out.error != PopFromEmptyWindow ==> t.out.written == None && t.mem.oldPhi0 == mem.oldPhi0)
    ensures var t := StepTransition(mem, m, inp, lineSearch);
      var alpha := lineSearch(Neg(inp.g), inp.freshLoss, mem.oldPhi0);
      FailedWith(t.out, PopFromEmptyWindow) ==>
        && t.out.written == Some(Add(inp.w0, Scale(alpha, Neg(inp.g))))
        && t.mem.oldPhi0 == Some(inp.freshLoss)
  {
    var sr := SearchPhase(mem, inp);
    if sr.res.Ready? {
      var _ := UpdatePhase(sr.mem, m, inp.w0, inp.g, sr.res.d, sr.res.phi0, lineSearch(sr.res.d, sr.res.phi0, mem.oldPhi0));
    }
  }

  /**
   * A completed step: the direction is steepest descent on a cold start and
   * the two-loop product otherwise, the line search got the previous call's
   * `old_phi0`, and the new `old_phi0` is this call's `phi0`.
   */
  lemma StepMoves(mem: Memory, m: int, inp: Input, lineSearch: LineSearch)
    requires Defined(mem, inp)
    requires StepTransition(mem, m, inp, lineSearch).out.Moved?
    ensures var t := StepTransition(mem, m, inp, lineSearch);
      && |t.out.d| == |inp.g|
      && (inp.epoch == 0 ==> t.out.d == Neg(inp.g) && t.out.phi0 == inp.freshLoss)
      && (inp.epoch != 0 ==> t.out.phi0 == inp.lastLoss)
      && t.out.alpha == lineSearch(t.out.d, t.out.phi0, mem.oldPhi0)
      && t.out.w1 == Add(inp.w0, Scale(t.out.alpha, t.out.d))
      && t.mem.oldPhi0 == Some(t.out.phi0)
    ensures var t := StepTransition(mem, m, inp, lineSearch);
      var y := YAfterSearch(mem, inp);
      inp.epoch != 0 ==>
        && Window(mem.s, y, |inp.g|) && NewestNonZero(y)
        && t.out.d == Neg(TwoLoop(inp.g, Gamma(mem.s, y), mem.s, y))
  {
    var sr := SearchPhase(mem, inp);
    var _ := UpdatePhase(sr.mem, m, inp.w0, inp.g, sr.res.d, sr.res.phi0, lineSearch(sr.res.d, sr.res.phi0, mem.oldPhi0));
  }

  /**
   * The window after a completed step: the newest pair is `(w1 - w0, g)`,
   * that is `(alpha * d, g)`, and the older pairs are the previous ones,
   * less the oldest when the window was full, in their old order.
   */
  lemma StepPushesPair(mem: Memory, m: int, inp: Input, lineSearch: LineSearch)
    requires Defined(mem, inp)
    requires StepTransition(mem, m, inp, lineSearch).out.Moved?
    ensures var t := StepTransition(mem, m, inp, lineSearch);
      && |t.out.d| == |inp.g| && |t.mem.s| > 0
      && t.mem.s[|t.mem.s| - 1] == Sub(t.out.w1, inp.w0) == Scale(t.out.alpha, t.out.d)
      && t.mem.y[|t.mem.y| - 1] == inp.g
    ensures var t := StepTransition(mem, m, inp, lineSearch);
      var y := YAfterSearch(mem, inp);
      && t.mem.s[..|t.mem.s| - 1] == (if |mem.s| == m then mem.s[1..] else mem.s)
      && t.mem.y[..|t.mem.y| - 1] == (if |mem.s| == m then y[1..] else y)
  {
    var sr := SearchPhase(mem, inp);
    var alpha := lineSearch(sr.res.d, sr.res.phi0, mem.oldPhi0);
    var _ := UpdatePhase(sr.mem, m, inp.w0, inp.g, sr.res.d, sr.res.phi0, alpha);
    DisplacementOfUpdate(inp.w0, alpha, sr.res.d);
  }

  /**
   * With `m >= 1`, a completed step leaves in `s` the m most recent
   * displacements of everything the window has seen, oldest first.
   */
  lemma StepKeepsLatestPairs(mem: Memory, m: int, inp: Input, lineSearch: LineSearch)
    requires Defined(mem, inp) && m >= 1 && |mem.s| <= m
    requires StepTransition(mem, m, inp, lineSearch).out.Moved?
    ensures var t := StepTransition(mem, m, inp, lineSearch);
      && t.mem.s == Latest(mem.s + [Sub(t.out.w1, inp.w0)], m)
      && t.mem.y == Latest(YAfterSearch(mem, inp) + [inp.g], m)
  {
    var t := StepTransition(mem, m, inp, lineSearch);
    var sr := SearchPhase(mem, inp);
    var alpha := lineSearch(sr.res.d, sr.res.phi0, mem.oldPhi0);
    assert t == UpdatePhase(sr.mem, m, inp.w0, inp.g, sr.res.d, sr.res.phi0, alpha);
    PushKeepsLatest(mem.s, Sub(t.out.w1, inp.w0), m);
    PushKeepsLatest(YAfterSearch(mem, inp), inp.g, m);
  }

  /**
   * A cold start reads neither `s` nor `y`: two memories with the same
   * `old_phi0` give the same outcome (when `m != 0`, so that no `pop` of an
   * empty list can happen).
   */
  lemma ColdStartIgnoresWindow(mem1: Memory, mem2: Memory, m: int, inp: Input, lineSearch: LineSearch)
    requires Defined(mem1, inp) && Defined(mem2, inp)
    requires inp.epoch == 0 && m != 0 && mem1.oldPhi0 == mem2.oldPhi0
    ensures StepTransition(mem1, m, inp, lineSearch).out == StepTransition(mem2, m, inp, lineSearch).out
    ensures StepTransition(mem1, m, inp, lineSearch).out
         == Moved(Neg(inp.g), inp.freshLoss, lineSearch(Neg(inp.g), inp.freshLoss, mem1.oldPhi0),
                  Add(inp.w0, Scale(lineSearch(Neg(inp.g), inp.freshLoss, mem1.oldPhi0), Neg(inp.g))))
  {
    var _ := UpdatePhase(mem1, m, inp.w0, inp.g, Neg(inp.g), inp.freshLoss, lineSearch(Neg(inp.g), inp.freshLoss, mem1.oldPhi0));
    var _ := UpdatePhase(mem2, m, inp.w0, inp.g, Neg(inp.g), inp.freshLoss, lineSearch(Neg(inp.g), inp.freshLoss, mem2.oldPhi0));
  }

  /**
   * Two consecutive calls: when the second one starts from the weights the
   * first one produced, the newest pair its two-loop recursion uses is the
   * true curvature pair (w1 - w0, g1 - g0), and its line search gets the
   * first call's `phi0` as `old_phi0`.
   */
  lemma ConsecutiveStepsFormCurvaturePair(mem: Memory, m: int, inp1: Input, inp2: Input, lineSearch: LineSearch)
    requires Defined(mem, inp1)
    requires StepTransition(mem, m, inp1, lineSearch).out.Moved?
    requires inp2.epoch != 0 && inp2.w0 == StepTransition(mem, m, inp1, lineSearch).out.w1
    requires Defined(StepTransition(mem, m, inp1, lineSearch).mem, inp2)
    ensures var t1 := StepTransition(mem, m, inp1, lineSearch);
      && |t1.mem.s| > 0
      && t1.mem.s[|t1.mem.s| - 1] == Sub(inp2.w0, inp1.w0)
      && YAfterSearch(t1.mem, inp2)[|t1.mem.y| - 1] == Sub(inp2.g, inp1.g)
      && YAfterSearch(t1.mem, inp2)[..|t1.mem.y| - 1] == t1.mem.y[..|t1.mem.y| - 1]
    ensures var t1 := StepTransition(mem, m, inp1, lineSearch);
      var t2 := StepTransition(t1.mem, m, inp2, lineSearch);
      t2.out.Moved? ==> t2.out.alpha == lineSearch(t2.out.d, t2.out.phi0, Some(t1.out.phi0))
  {
    var t1 := StepTransition(mem, m, inp1, lineSearch);
    StepMoves(mem, m, inp1, lineSearch);
    StepPushesPair(mem, m, inp1, lineSearch);
    var t2 := StepTransition(t1.mem, m, inp2, lineSearch);
    if t2.out.Moved? {
      StepMoves(t1.mem, m, inp2, lineSearch);
    }
  }

  /**
   * Every completed pair (all but the newest, whose y still holds a raw
   * gradient) has non-negative curvature `s_i . y_i`.
   */
  predicate CompletedPairsCurved(mem: Memory, n: nat)
    requires Shaped(mem, n)
  {
    forall i :: 0 <= i < |mem.s| - 1 ==> Dot(mem.s[i], mem.y[i]) >= 0.0
  }

  /**
   * The curvature check keeps that invariant: a non-cold step only completes
   * a pair whose curvature is not negative. A cold start keeps it when the
   * window is empty (the first call of training); on a later cold start of
   * epoch 0 the newest entry of y would stay a raw gradient.
   */
  lemma StepKeepsCompletedPairsCurved(mem: Memory, m: int, inp: Input, lineSearch: LineSearch)
    requires Defined(mem, inp) && CompletedPairsCurved(mem, |inp.g|)
    requires inp.epoch == 0 ==> |mem.s| == 0
    ensures CompletedPairsCurved(StepTransition(mem, m, inp, lineSearch).mem, |inp.g|)
  {
    var sr := SearchPhase(mem, inp);
    SearchKeepsCurved(mem, inp);
    if sr.res.Ready? {
      UpdateKeepsCurved(sr.mem, m, inp.w0, inp.g, sr.res.d, sr.res.phi0, lineSearch(sr.res.d, sr.res.phi0, sr.mem.oldPhi0));
    }
  }

  /**
   * Without the empty-window assumption the invariant fails: a cold step of
   * epoch 0 on a window holding one pair whose `y` is still a raw gradient
   * completes that pair unconverted, here with `s_0 . y_0 == -1`.
   */
  lemma ColdStepOnFilledWindowBreaksCurvature()
    ensures Defined(Memory([[-1.0]], [[1.0]], None), Input(0, [0.0], [2.0], 0.0, 0.0))
    ensures var mem := Memory([[-1.0]], [[1.0]], None);
      var t := StepTransition(mem, 3, Input(0, [0.0], [2.0], 0.0, 0.0), (d: Vec, p: real, o: Option<real>) => 1.0);
      && CompletedPairsCurved(mem, 1)
      && t.out.Moved?
      && t.mem.s == [[-1.0], [-2.0]] && t.mem.y == [[1.0], [2.0]]
      && !CompletedPairsCurved(t.mem, 1)
  {
    var mem := Memory([[-1.0]], [[1.0]], None);
    var inp := Input(0, [0.0], [2.0], 0.0, 0.0);
    var lineSearch: LineSearch := (d: Vec, p: real, o: Option<real>) => 1.0;
    var t := StepTransition(mem, 3, inp, lineSearch);
    assert SearchPhase(mem, inp) == Searched(mem, Ready([-2.0], 0.0));
    assert lineSearch([-2.0], 0.0, None) == 1.0;
    assert t == UpdatePhase(mem, 3, inp.w0, inp.g, [-2.0], 0.0, 1.0);
    assert Advance([0.0], 1.0, [-2.0]) == [-2.0];
    assert Sub([-2.0], [0.0]) == [-2.0];
    assert t.mem.s == [[-1.0], [-2.0]] && t.mem.y == [[1.0], [2.0]];
    assert Shaped(t.mem, 1);
    assert SumOfProducts([-1.0], [1.0]) == -1.0 by {
      assert [-1.0][1..] == [] && [1.0][1..] == [];
    }
    assert Dot(t.mem.s[0], t.mem.y[0]) < 0.0;
  }

  /**
   * Every completed pair has strictly positive curvature `s_i . y_i > 0`,
   * the condition under which the two-loop product is positive definite.
   */
  predicate CompletedPairsPositive(mem: Memory, n: nat)
    requires Shaped(mem, n)
  {
    forall i :: 0 <= i < |mem.s| - 1 ==> Dot(mem.s[i], mem.y[i]) > 0.0
  }

  /**
   * On the domain of a step the non-strict invariant is enough for the
   * strict one afterwards: the divisions of the two loops need
   * `y_i . s_i != 0` for every pair of the converted window, so the pairs
   * a step completes, already non-negative, are positive.
   */
  lemma StepKeepsCompletedPairsPositive(mem: Memory, m: int, inp: Input, lineSearch: LineSearch)
    requires Defined(mem, inp) && CompletedPairsCurved(mem, |inp.g|)
    requires inp.epoch == 0 ==> |mem.s| == 0
    ensures CompletedPairsPositive(StepTransition(mem, m, inp, lineSearch).mem, |inp.g|)
  {
    var sr := SearchPhase(mem, inp);
    SearchKeepsCurved(mem, inp);
    if inp.epoch != 0 && |mem.s| > 0 {
      WindowPairsNonZero(mem.s, sr.mem.y, |inp.g|);
    }
    if sr.res.Ready? {
      UpdateKeepsPositive(sr.mem, m, inp.w0, inp.g, sr.res.d, sr.res.phi0, lineSearch(sr.res.d, sr.res.phi0, sr.mem.oldPhi0));
    }
  }

  /** The update phase turns pairs of positive curvature into completed pairs. */
  lemma UpdateKeepsPositive(mem: Memory, m: int, w0: Vec, g: Vec, d: Vec, phi0: real, alpha: real)
    requires Shaped(mem, |g|) && |w0| == |g| && |d| == |g|
    requires forall i :: 0 <= i < |mem.s| ==> Dot(mem.s[i], mem.y[i]) > 0.0
    ensures CompletedPairsPositive(UpdatePhase(mem, m, w0, g, d, phi0, alpha).mem, |g|)
  {
    if !(|mem.s| == m && |mem.s| == 0) {
      PushKeepsPositive(mem.s, mem.y, Sub(Advance(w0, alpha, d), w0), g, m);
    }
  }

  /** Pushing a new pair onto a window whose pairs all have positive curvature. */
  lemma PushKeepsPositive(s: seq<Vec>, y: seq<Vec>, sNew: Vec, yNew: Vec, m: int)
    requires |s| == |y| && (|s| == m ==> |s| > 0)
    requires forall i :: 0 <= i < |s| ==> |s[i]| == |y[i]| && Dot(s[i], y[i]) > 0.0
    ensures |Push(s, sNew, m)| == |Push(y, yNew, m)|
    ensures forall i :: 0 <= i < |Push(s, sNew, m)| - 1 ==>
      |Push(s, sNew, m)[i]| == |Push(y, yNew, m)[i]| && Dot(Push(s, sNew, m)[i], Push(y, yNew, m)[i]) > 0.0
  {
    var off := if |s| == m then 1 else 0;
    assert forall i :: 0 <= i < |Push(s, sNew, m)| - 1 ==> Push(s, sNew, m)[i] == s[i + off] && Push(y, yNew, m)[i] == y[i + off];
  }

  /** Every pair of a window has nonzero curvature `s_i . y_i`. */
  lemma WindowPairsNonZero(s: seq<Vec>, y: seq<Vec>, n: nat)
    requires Window(s, y, n)
    ensures forall i :: 0 <= i < |s| ==> Dot(s[i], y[i]) != 0.0
  {
    forall i | 0 <= i < |s|
      ensures Dot(s[i], y[i]) != 0.0
    {
      DotSymmetric(y[i], s[i]);
    }
  }

  /** The search phase leaves every completed pair alone and checks the newest one. */
  lemma SearchKeepsCurved(mem: Memory, inp: Input)
    requires Defined(mem, inp) && CompletedPairsCurved(mem, |inp.g|)
    requires inp.epoch == 0 ==> |mem.s| == 0
    ensures CompletedPairsCurved(SearchPhase(mem, inp).mem, |inp.g|)
    ensures SearchPhase(mem, inp).res.Ready? ==>
      forall i :: 0 <= i < |mem.s| ==> Dot(mem.s[i], SearchPhase(mem, inp).mem.y[i]) >= 0.0
  {
    var y := SearchPhase(mem, inp).mem.y;
    assert forall i :: 0 <= i < |mem.s| - 1 ==> y[i] == mem.y[i];
  }

  /** The update phase completes the pair it pops or keeps, and appends a fresh one. */
  lemma UpdateKeepsCurved(mem: Memory, m: int, w0: Vec, g: Vec, d: Vec, phi0: real, alpha: real)
    requires Shaped(mem, |g|) && |w0| == |g| && |d| == |g|
    requires forall i :: 0 <= i < |mem.s| ==> Dot(mem.s[i], mem.y[i]) >= 0.0
    ensures CompletedPairsCurved(UpdatePhase(mem, m, w0, g, d, phi0, alpha).mem, |g|)
  {
    if !(|mem.s| == m && |mem.s| == 0) {
      PushKeepsCurved(mem.s, mem.y, Sub(Advance(w0, alpha, d), w0), g, m);
    }
  }

  /** Pushing a new pair onto a window whose pairs all have non-negative curvature. */
  lemma PushKeepsCurved(s: seq<Vec>, y: seq<Vec>, sNew: Vec, yNew: Vec, m: int)
    requires |s| == |y| && (|s| == m ==> |s| > 0)
    requires forall i :: 0 <= i < |s| ==> |s[i]| == |y[i]| && Dot(s[i], y[i]) >= 0.0
    ensures |Push(s, sNew, m)| == |Push(y, yNew, m)|
    ensures forall i :: 0 <= i < |Push(s, sNew, m)| - 1 ==>
      |Push(s, sNew, m)[i]| == |Push(y, yNew, m)[i]| && Dot(Push(s, sNew, m)[i], Push(y, yNew, m)[i]) >= 0.0
  {
    var off := if |s| == m then 1 else 0;
    assert forall i :: 0 <= i < |Push(s, sNew, m)| - 1 ==> Push(s, sNew, m)[i] == s[i + off] && Push(y, yNew, m)[i] == y[i + off];
  }
}
