# L-BFGS step of the isanet optimizer, modelled in Dafny

This project models the limited-memory BFGS optimizer of the isanet neural
network library (`class LBFGS` in `isanet/optimizer/LBFGS.py`). It covers
three things:

- the optimizer object and its state: the lists `s` and `y` of curvature
  pairs, the window size `m`, and `old_phi0`, the loss the previous step
  passed to its line search;
- one call of `step`: the cold-start branch or the normal branch, the
  conversion of the newest `y` entry into a gradient difference, the scaling
  `gamma`, the curvature check, the hand-over of `old_phi0`, and the FIFO
  update of the window;
- `compute_search_dir`: the two-loop recursion.

Vectors are sequences of exact reals (`Vectors`). The initial matrix
`H0 = gamma * I` is applied as scalar multiplication by `gamma`. The
line search is a parameter: a total function from the direction, `phi0`
and `old_phi0` to the step length `alpha`. The gradient, the weights and
the two losses the step reads are inputs of the step.

Files and modules:

- `vectors.dfy` (`Vectors`): dot product, scaling, sums and differences,
  the symmetry of the dot product, the dot product with the zero vector,
  `v . v >= 0`, and the displacement `w1 - w0` of an update.
- `two_loop.dfy` (`TwoLoopRecursion`): the two-loop recursion as pure
  functions (`Backward` for the first loop, `Forward` for the second,
  `TwoLoop` for the two together), a description indexed by pair, the
  secant equation, and the closed form for one pair.
- `window.dfy` (`PairWindow`): the bounded FIFO kept in `s` and in `y`,
  and the fact that it always holds the `m` most recent entries.
- `step.dfy` (`LbfgsStep`): one `step` call as a pure transition of
  `(s, y, old_phi0)`, plus lemmas about its errors, its direction, its
  window, consecutive steps and the curvature invariant.
- `lbfgs.dfy` (`LbfgsOptimizer`): the class `Lbfgs`. `Step` updates the
  fields in place and is proved equal to the pure transition; its last part,
  from `old_phi0` to the append, is the method `Update`.
  `ComputeSearchDir` runs the two loops and is proved equal to `TwoLoop`.

The model follows the code as written in four places where its behaviour
differs from the usual statement of L-BFGS:

- Curvature check. The code raises only when `s[-1] . y[-1] < 0`, and the
  check runs after the direction has been computed with the pair it checks.
  A zero curvature, which the code's `<` lets through, falls outside the
  model: both loops divide by `y_i . s_i` (LBFGS.py:79, 86), so a step is
  defined only when every pair of the converted window has `y_i . s_i != 0`
  (`SearchDefined`). On that domain the code's `< 0` test decides exactly
  as a `<= 0` test would.
- Retained pairs. The code checks only the newest pair. The model proves two
  invariants of the completed pairs. `StepKeepsCompletedPairsCurved` proves
  the non-strict `s_i . y_i >= 0` (`CompletedPairsCurved`), which follows
  from the check alone. `StepKeepsCompletedPairsPositive` proves the strict
  `s_i . y_i > 0` (`CompletedPairsPositive`), under which the two-loop
  product is positive definite. The strict one also uses the nonzero
  condition of the domain.
- Cold start. The code's condition `~model.is_fitted and self.epoch == 0` is
  true on every call during epoch 0, because `~` applied to a bool is a
  nonzero int. The model therefore uses `epoch == 0`. With several batches in
  epoch 0, each cold step pushes `(w1 - w0, g)`, but only the newest `y`
  entry is ever converted to a gradient difference. So the older entries of
  `y` keep raw gradients. `StepKeepsCompletedPairsCurved` therefore assumes
  that a cold step starts from an empty window, and
  `ColdStepOnFilledWindowBreaksCurvature` shows a second cold step that
  completes a pair with `s_0 . y_0 == -1`.
- Window size. The code accepts any `m`. With `m == 0`, the first push
  calls `pop(0)` on an empty list. The model returns this as the error
  `PopFromEmptyWindow`, raised after `old_phi0` has been updated and after
  the new weights `w1` have been written back into the model.

Raised exceptions are modelled as `Failed(error, written)` outcomes. The
state left behind is the state at the point of the raise. On a negative
curvature, the newest `y` has already been converted. On the pop error,
`old_phi0` already holds this step's `phi0` and the model already holds
`w1`, which the outcome reports as `written == Some(w1)`. The other two
errors are raised before the model's weights are touched, so they carry
`written == None`.

## Model

| member | source | states |
|---|---|---|
| LbfgsOptimizer.Lbfgs.constructor | isanet/optimizer/LBFGS.py:13-31 | empty `s` and `y`, no `old_phi0`, the given `m`, `c1`, `c2`, `ln_maxiter`, `tol`; a missing `n_iter_no_change` becomes 1 |
| LbfgsOptimizer.Lbfgs.Step | isanet/optimizer/LBFGS.py:40-72 | updates `s`, `y`, `old_phi0` in place, in source order. The new fields and the outcome, including the weights written back before a pop error, are exactly the pure transition `StepTransition` of the old fields; `|s| == |y|` and, with `m >= 1`, `|s| <= m` are kept |
| LbfgsOptimizer.Lbfgs.Update | isanet/optimizer/LBFGS.py:64-72 | sets `old_phi0`, computes `w1`, pops and appends in place; the new fields and the outcome (`Some(w1)` on the pop error) are exactly `UpdatePhase` of the old fields |
| LbfgsOptimizer.Lbfgs.ComputeSearchDir | isanet/optimizer/LBFGS.py:75-89 | the result of the two loops is `TwoLoop(g, gamma, s, y)` and has the length of `g` |
| LbfgsOptimizer.Lbfgs.FirstLoop | isanet/optimizer/LBFGS.py:76-82 | the loop over `zip(reversed(s), reversed(y))` leaves `q` and `a` equal to `Backward(g, s, y)`: one coefficient per pair, newest pair first |
| LbfgsOptimizer.Lbfgs.SecondLoop | isanet/optimizer/LBFGS.py:84-88 | the loop over `zip(s, y, reversed(a))` gives `Forward(r0, s, y, Reverse(a))`: oldest pair first, each pair with the reversed coefficient |
| TwoLoopRecursion.TwoLoop | isanet/optimizer/LBFGS.py:75-89 | the direction has the length of `g`; on an empty window it is `gamma * g` (only `H0` acts) |
| TwoLoopRecursion.Backward | isanet/optimizer/LBFGS.py:78-82 | the first loop keeps the length of `q` and appends exactly one coefficient per pair |
| TwoLoopRecursion.Forward | isanet/optimizer/LBFGS.py:85-88 | the second loop keeps the length of `r` |
| TwoLoopRecursion.BackwardAt | isanet/optimizer/LBFGS.py:78-82 | the first loop on the `n` oldest pairs handles pair `n - 1` first, then the older pairs from the reduced `q` |
| TwoLoopRecursion.ForwardAt | isanet/optimizer/LBFGS.py:85-88 | the second loop at pair `j` makes one correction with coefficient `j`, then continues with pair `j + 1` |
| TwoLoopRecursion.CorrectionStep | isanet/optimizer/LBFGS.py:86-88 | `r += s_i * (a_i - b)` with `b = p * (y_i . r)` is the correction `Correct` |
| TwoLoopRecursion.BackwardByIndex | isanet/optimizer/LBFGS.py:78-82 | entry `t` of `a` is the coefficient of pair `|s| - 1 - t`, computed from `q` reduced by all newer pairs; the final `q` is `g` reduced by every pair |
| TwoLoopRecursion.TwoLoopPairsCoefficients | isanet/optimizer/LBFGS.py:78-88 | with `reversed(a)`, the second loop gives every pair the coefficient the first loop computed for that same pair |
| TwoLoopRecursion.SecantEquation | isanet/optimizer/LBFGS.py:75-89 | for any `gamma`, applying the recursion to the newest `y` returns the newest `s` (`H y_k = s_k`) |
| TwoLoopRecursion.SinglePairClosedForm | isanet/optimizer/LBFGS.py:75-89 | with one pair, the recursion equals the BFGS product `V^T (gamma I) V g + rho s (s . g)`, where `V = I - rho y s^T` |
| PairWindow.Push | isanet/optimizer/LBFGS.py:67-72 | the appended entry is last; the entries before it are the old list, minus its first entry when the list was full; with `m >= 1` the length stays at most `m` |
| PairWindow.PushKeepsLatest | isanet/optimizer/LBFGS.py:67-72 | one pop-and-append leaves exactly the `m` most recent entries, in insertion order |
| PairWindow.PushAllKeepsLatest | isanet/optimizer/LBFGS.py:67-72 | after any number of pushes the window holds the `m` most recent entries of everything pushed, oldest first (after `m + 1` pushes into an empty window, the first is gone) |
| Vectors.DisplacementOfUpdate | isanet/optimizer/LBFGS.py:65-71 | the stored displacement `w1 - w0` of `w1 = w0 + alpha * d` is `alpha * d` |
| LbfgsStep.ConvertNewest | isanet/optimizer/LBFGS.py:48 | the newest `y` entry becomes `g - y[-1]`; the number of entries and every older entry are unchanged |
| LbfgsStep.YAfterSearch | isanet/optimizer/LBFGS.py:44-48 | the `y` seen by the rest of the step: unchanged on a cold start; otherwise the same older entries and the newest one replaced by `g - y[-1]` |
| LbfgsStep.Gamma | isanet/optimizer/LBFGS.py:49 | `gamma` solves `gamma * (y[-1] . y[-1]) == s[-1] . y[-1]`, and it is positive when the newest pair's curvature is |
| LbfgsStep.SearchWithPairs | isanet/optimizer/LBFGS.py:49-56 | after the conversion: error iff `s[-1] . y[-1] < 0`; otherwise `d = -TwoLoop(g, gamma, s, y)` and `phi0` is the last recorded loss |
| LbfgsStep.SearchPhase | isanet/optimizer/LBFGS.py:44-56 | cold start gives `d = -g` with the fresh loss, without touching the window. Otherwise an empty `y` is an index error, then the curvature error iff the converted pair has negative curvature. Only the newest `y` entry changes |
| LbfgsStep.Advance | isanet/optimizer/LBFGS.py:65 | `w1` has the length of `w0`, and `w1 - w0 == alpha * d` |
| LbfgsStep.UpdatePhase | isanet/optimizer/LBFGS.py:64-72 | `old_phi0` becomes `phi0`. The pop of an empty list fails iff `m == 0` and the window is empty, leaving the window alone and reporting the already written weights `w0 + alpha * d`. Otherwise the newest pair is `(alpha * d, g)`, the older pairs keep their order, and with `m >= 1` the window holds at most `m` pairs |
| LbfgsStep.StepTransition | isanet/optimizer/LBFGS.py:40-72 | a whole step keeps `|s| == |y|` and the vector lengths, and with `m >= 1` keeps at most `m` pairs |
| LbfgsStep.StepFailures | isanet/optimizer/LBFGS.py:44-70 | the index error iff not cold and the window is empty. The curvature error iff not cold and `s[-1] . (g - y[-1]) < 0`. The pop error iff cold, `m == 0` and empty. A failed step leaves `s` alone. The two search errors leave `old_phi0` unchanged and report no written weights. The pop error sets `old_phi0` to the fresh loss and reports the written weights `w0 + alpha * (-g)` |
| LbfgsStep.StepMoves | isanet/optimizer/LBFGS.py:44-65 | a completed step used `d = -g` on a cold start and `-TwoLoop` on the converted window otherwise. Its line search got the previous `old_phi0`, `old_phi0` becomes this step's `phi0`, and `w1 = w0 + alpha * d` |
| LbfgsStep.StepPushesPair | isanet/optimizer/LBFGS.py:65-72 | after a completed step the newest `s` is `w1 - w0 = alpha * d` and the newest `y` is the raw `g`; the older pairs are the previous ones, without the oldest when the window was full |
| LbfgsStep.StepKeepsLatestPairs | isanet/optimizer/LBFGS.py:67-72 | with `m >= 1`, the window after a completed step is the `m` most recent entries of the old window plus the new pair |
| LbfgsStep.ColdStartIgnoresWindow | isanet/optimizer/LBFGS.py:44-46 | on a cold start (`m != 0`), the outcome is `Moved(-g, fresh loss, alpha, w0 + alpha * (-g))` whatever `s` and `y` hold |
| LbfgsStep.ConsecutiveStepsFormCurvaturePair | isanet/optimizer/LBFGS.py:48-72 | when a step starts from the weights the previous step produced, the newest pair it uses is `(w1 - w0, g1 - g0)`, the older pairs are untouched, and its line search receives the previous step's `phi0` |
| LbfgsStep.StepKeepsCompletedPairsCurved | isanet/optimizer/LBFGS.py:48-72 | every completed pair has `s_i . y_i >= 0`, and each step keeps this, given that a cold step starts from an empty window |
| LbfgsStep.SearchKeepsCurved | isanet/optimizer/LBFGS.py:48-55 | the search phase does not change completed pairs; when it succeeds, every pair of the converted window has `s_i . y_i >= 0` |
| LbfgsStep.UpdateKeepsCurved | isanet/optimizer/LBFGS.py:67-72 | the window update turns the pairs it keeps into completed pairs with non-negative curvature |
| LbfgsStep.StepKeepsCompletedPairsPositive | isanet/optimizer/LBFGS.py:48-72 | on the domain of a step, where the loops' divisions by `y_i . s_i` are defined, every completed pair afterwards has `s_i . y_i > 0`, given the non-strict invariant before and a cold step starting from an empty window |
| LbfgsStep.UpdateKeepsPositive | isanet/optimizer/LBFGS.py:67-72 | the window update turns pairs of positive curvature into completed pairs of positive curvature |
| LbfgsStep.PushKeepsPositive | isanet/optimizer/LBFGS.py:67-72 | pushing onto a window whose pairs all have positive curvature keeps that for every pair but the new one |
| LbfgsStep.WindowPairsNonZero | isanet/optimizer/LBFGS.py:79-86 | every pair the loops divide by has `s_i . y_i != 0` |
| Vectors.DotSelfNonNegative | isanet/optimizer/LBFGS.py:49 | the denominator `y[-1] . y[-1]` of `gamma` is never negative |
| LbfgsStep.ColdStepOnFilledWindowBreaksCurvature | isanet/optimizer/LBFGS.py:44-48 | from the window `([-1], [1])`, a cold step with `g = [2]`, `w0 = [0]`, `alpha = 1` and `m = 3` completes the pair `([-1], [1])` with curvature `-1`: the empty-window assumption of the curvature invariant is needed |
| LbfgsStep.PushKeepsCurved | isanet/optimizer/LBFGS.py:67-72 | pushing onto a window whose pairs all have non-negative curvature keeps that for every pair but the new one |

## Left out

- The line search (`line_search_wolfe`, `phi_function`) is a parameter that returns `alpha`. Its Wolfe conditions, its use of `c1` and `c2`, and its diagnostics are not part of this model.
- Backpropagation, `make_vector`, `restore_w_to_model`, `metrics.mse`, `model.predict` and the loss history are calls into other modules. The gradient, the weights and the two losses they produce are inputs of the step. Writing the new weights back into the model (`restore_w_to_model`) is the `w1` of a completed step and the `written` weights of the pop error.
- A zero curvature `s[-1] . y[-1] == 0`: the code's check lets it through, and the loops then divide by zero. The model's domain excludes it, so this path, and anything that follows it, is not captured.
- Floating point: vectors hold exact reals. NumPy would give `inf` or `nan` when `y_i . s_i` or `y[-1] . y[-1]` is zero. The model asks for both to be nonzero, through `SearchDefined`.
- `optimize` (adding up `n_vars` and building `self.H0 = np.eye(n_vars)`) is not part of this model.
- `n_vars`: the step reads it only to size the identity in `H0 = gamma * np.eye(n_vars)` (line 50). The model applies `H0` as multiplication by `gamma`, which is the same vector when `n_vars == len(g)`, the only case where the product is defined. So the field is not modelled, and a mismatched `n_vars`, which NumPy would reject, is not captured.
- The fields `past_g`, `past_d`, `past_ng`, `w` and `restart` are set in `__init__` but never read by the step, so they are not modelled. `tol` and `n_iter_no_change` are kept only as configuration, because the stopping rules live in the base `Optimizer`, which is not part of this model.
- The `print` calls and the commented-out `input()` are console output only.
- `model.is_fitted`: the cold-start test is `epoch == 0`, for the reason given above.
- Aliasing: `copy.deepcopy(g)`, `q -= ...` and `r += ...` act on fresh arrays in the source. The model uses values, so `g` is unchanged by construction. The in-place `pop` and `append` on `self.s` and `self.y` become reassignments of sequence fields.
- Exceptions do not unwind: a raise becomes a `Failed` outcome, with the fields as they stood when it was raised.
- The training script for the MONK-2 data set (`monk2_test_pr.py`) is a driver, not optimizer logic.
