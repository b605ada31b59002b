/** Running a state machine over a sequence of inputs and collecting what it emits. */
module Folds {

  /** The last n elements. */
  function Last<T>(s: seq<T>, n: nat): (last: seq<T>)
    requires n <= |s|
    ensures |last| == n && forall k :: 0 <= k < n ==> last[k] == s[|s| - n + k]
  {
    seq(n, k requires 0 <= k < n => s[|s| - n + k])
  }

  function Run<S, A, R>(step: (S, A) -> (S, seq<R>), s: S, inputs: seq<A>): (S, seq<R>)
    decreases |inputs|
  {
    if inputs == [] then (s, []) else
    var (t, out) := Run(step, s, inputs[..|inputs| - 1]);
    var (u, more) := step(t, inputs[|inputs| - 1]);
    (u, out + more)
  }

  lemma RunSnoc<S, A, R>(step: (S, A) -> (S, seq<R>), s: S, inputs: seq<A>, last: A)
    ensures Run(step, s, inputs + [last])
         == var (t, out) := Run(step, s, inputs);
            var (u, more) := step(t, last);
            (u, out + more)
  {
    assert (inputs + [last])[..|inputs|] == inputs;
  }

  /** Running over a + b is running over b from where a ended. */
  lemma {:induction false} RunAppend<S, A, R>(step: (S, A) -> (S, seq<R>), s: S, a: seq<A>, b: seq<A>)
    ensures Run(step, s, a + b)
         == var (t, first) := Run(step, s, a);
            var (u, second) := Run(step, t, b);
            (u, first + second)
    decreases |b|
  {
    var (t, first) := Run(step, s, a);
    if b == [] {
      assert a + b == a && first + [] == first;
    } else {
      var k := |b| - 1;
      RunAppend(step, s, a, b[..k]);
      var (m, middle) := Run(step, t, b[..k]);
      var (u, more) := step(m, b[k]);
      assert a + b == (a + b[..k]) + [b[k]];
      RunSnoc(step, s, a + b[..k], b[k]);
      assert b == b[..k] + [b[k]];
      RunSnoc(step, t, b[..k], b[k]);
      assert (first + middle) + more == first + (middle + more);
    }
  }
}
