/** Finite runs of a step relation, and what an inductive invariant says about them. */
module Runs {

  ghost predicate IsRun<S(!new)>(step: (S, S) -> bool, run: seq<S>)
    decreases |run|
  {
    && run != []
    && (|run| > 1 ==> step(run[|run| - 2], run[|run| - 1]) && IsRun(step, run[..|run| - 1]))
  }

  ghost predicate Inductive<S(!new)>(step: (S, S) -> bool, inv: S -> bool) {
    forall s, s' :: inv(s) && step(s, s') ==> inv(s')
  }

  lemma {:induction false} StepAt<S(!new)>(step: (S, S) -> bool, run: seq<S>, k: nat)
    requires IsRun(step, run) && k + 1 < |run|
    ensures step(run[k], run[k + 1])
    decreases |run|
  {
    if k + 2 < |run| { StepAt(step, run[..|run| - 1], k); }
  }

  /** An inductive invariant that holds at one point of a run holds at every later one. */
  lemma {:induction false} Holds<S(!new)>(step: (S, S) -> bool, inv: S -> bool, run: seq<S>, i: nat, k: nat)
    requires IsRun(step, run) && Inductive(step, inv) && i <= k < |run| && inv(run[i])
    ensures inv(run[k])
    decreases k
  {
    if i < k {
      Holds(step, inv, run, i, k - 1);
      StepAt(step, run, k - 1);
    }
  }

  lemma Extend<S(!new)>(step: (S, S) -> bool, run: seq<S>, s: S)
    requires IsRun(step, run) && step(run[|run| - 1], s)
    ensures IsRun(step, run + [s])
  {
    assert (run + [s])[..|run|] == run;
  }
}
