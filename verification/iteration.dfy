/** Repeated application of a step function, shared by the month walker (repeated month steps)
    and by the pay route (repeated pays of one schedule). */
module Iteration {

  /** `k` successive applications of `step`; none for `k <= 0`, like a `0..k` loop. */
  function Iterate<S>(step: S -> S, k: int, x: S): S
    decreases k
  {
    if k <= 0 then x else step(Iterate(step, k - 1, x))
  }

  /** The last of `k + 1` steps is one more step after the first `k`. */
  lemma IterateLast<S>(step: S -> S, k: nat, x: S)
    ensures Iterate(step, k + 1, x) == step(Iterate(step, k, x))
  {
  }

  /** Iteration composes: `a` steps after `b` steps are `a + b` steps. */
  lemma {:induction false} IterateAdditive<S>(step: S -> S, a: nat, b: nat, x: S)
    ensures Iterate(step, a, Iterate(step, b, x)) == Iterate(step, a + b, x)
    decreases a
  {
    if a > 0 {
      IterateAdditive(step, a - 1, b, x);
    }
  }

  /** An invariant indexed by the number of steps taken, which each of the first `k` steps
      carries from `i` to `i + 1`, holds after `k` steps. */
  lemma {:induction false} IterateInvariant<S>(step: S -> S, inv: (S, int) -> bool, k: nat, x: S)
    requires inv(x, 0)
    requires forall y, i :: 0 <= i < k && inv(y, i) ==> inv(step(y), i + 1)
    ensures inv(Iterate(step, k, x), k)
    decreases k
  {
    if k > 0 {
      IterateInvariant(step, inv, k - 1, x);
    }
  }
}
