/**
 * The bounded FIFO that `LBFGS.step` keeps in each of the lists `self.s`
 * and `self.y`: when the list already holds `m` entries its oldest entry
 * (index 0) is popped, then the new entry is appended at the end.
 */
module PairWindow {

  /** The window update for one list: `pop(0)` when full, then `append(x)`. */
  function Push<T>(w: seq<T>, x: T, m: int): (r: seq<T>)
    requires |w| == m ==> |w| > 0   // `pop(0)` on an empty list raises
    ensures |r| > 0 && r[|r| - 1] == x
    ensures r[..|r| - 1] == if |w| == m then w[1..] else w
    ensures m >= 1 && |w| <= m ==> |r| <= m
  {
    (if |w| == m then w[1..] else w) + [x]
  }

  /** The `m` most recent entries of a history (all of it when it is shorter). */
  function Latest<T>(h: seq<T>, m: nat): (r: seq<T>)
    ensures |r| == if |h| <= m then |h| else m
  {
    if |h| <= m then h else h[|h| - m..]
  }

  /** Pushing the entries of `xs` one after another, oldest first. */
  function PushAll<T>(w: seq<T>, xs: seq<T>, m: int): (r: seq<T>)
    requires m >= 1 && |w| <= m
    ensures |r| <= m
    decreases |xs|
  {
    if |xs| == 0 then w else PushAll(Push(w, xs[0], m), xs[1..], m)
  }

  lemma LatestTwice<T>(h: seq<T>, t: seq<T>, m: nat)
    ensures Latest(Latest(h, m) + t, m) == Latest(h + t, m)
  {
    if |h| > m {
      var k := |h| - m;
      assert Latest(h, m) + t == (h + t)[k..];
    }
  }

  /** One push keeps exactly the `m` most recent entries, in insertion order. */
  lemma PushKeepsLatest<T>(w: seq<T>, x: T, m: int)
    requires m >= 1 && |w| <= m
    ensures Push(w, x, m) == Latest(w + [x], m)
  {
    if |w| == m {
      assert (w + [x])[1..] == w[1..] + [x];
    }
  }

  /**
   * After any number of pushes into a window that started with at most m
   * entries, the window holds the m most recent entries of everything
   * pushed, oldest first: pushing m + 1 entries into an empty window
   * leaves the last m of them and drops the first.
   */
  lemma {:induction false} PushAllKeepsLatest<T>(w: seq<T>, xs: seq<T>, m: int)
    requires m >= 1 && |w| <= m
    ensures PushAll(w, xs, m) == Latest(w + xs, m)
    decreases |xs|
  {
    if |xs| == 0 {
      assert w + xs == w;
    } else {
      var w1 := Push(w, xs[0], m);
      PushKeepsLatest(w, xs[0], m);
      PushAllKeepsLatest(w1, xs[1..], m);
      LatestTwice(w + [xs[0]], xs[1..], m);
      assert w + [xs[0]] + xs[1..] == w + xs;
    }
  }
}
