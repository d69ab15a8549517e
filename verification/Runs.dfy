/** Runs of a transition relation, as the sequence of states gone through, and the
    counting argument that bounds them: every step spends potential, and only the
    steps into two given states earn some. */
module Runs {

  predicate StepAt<S>(can: (S, S) -> bool, run: seq<S>, i: nat)
    requires i + 1 < |run|
  {
    can(run[i], run[i + 1])
  }

  predicate IsRun<S>(can: (S, S) -> bool, run: seq<S>) {
    run != [] && forall i | 0 <= i < |run| - 1 :: StepAt(can, run, i)
  }

  function Last<S>(run: seq<S>): S
    requires run != []
  {
    run[|run| - 1]
  }

  function Steps<S>(run: seq<S>): nat
    requires run != []
  {
    |run| - 1
  }

  /** How many steps of the run enter `x`. */
  function Entries<S(==)>(run: seq<S>, x: S): nat
    requires run != []
  {
    if |run| == 1 then 0
    else Entries(run[..|run| - 1], x) + if Last(run) == x then 1 else 0
  }

  lemma {:induction false} EntriesAppend<S>(run: seq<S>, more: seq<S>, x: S)
    requires run != []
    ensures Entries(run + more, x) == Entries(run, x) + multiset(more)[x]
  {
    if more == [] {
      assert run + more == run;
    } else {
      var front := more[..|more| - 1];
      assert (run + more)[..|run + more| - 1] == run + front;
      assert more == front + [Last(more)];
      EntriesAppend(run, front, x);
    }
  }

  lemma RunAppend<S>(can: (S, S) -> bool, run: seq<S>, more: seq<S>)
    requires IsRun(can, run) && IsRun(can, [Last(run)] + more)
    ensures IsRun(can, run + more)
  {
    var joined, tail := run + more, [Last(run)] + more;
    forall i | 0 <= i < |joined| - 1 ensures StepAt(can, joined, i) {
      if i < |run| - 1 { assert StepAt(can, run, i); } else { assert StepAt(can, tail, i - (|run| - 1)); }
    }
  }

  lemma RunExtend<S>(can: (S, S) -> bool, run: seq<S>, t: S)
    requires IsRun(can, run) && can(Last(run), t)
    ensures IsRun(can, run + [t])
  {
    assert StepAt(can, [Last(run), t], 0);
    RunAppend(can, run, [t]);
  }

  lemma RunCons<S>(can: (S, S) -> bool, s: S, run: seq<S>)
    requires IsRun(can, run) && can(s, run[0])
    ensures IsRun(can, [s] + run)
  {
    var longer := [s] + run;
    forall i | 0 <= i < |longer| - 1 ensures StepAt(can, longer, i) {
      if i > 0 { assert StepAt(can, run, i - 1); }
    }
  }

  lemma RunPrefix<S>(can: (S, S) -> bool, run: seq<S>, n: nat)
    requires IsRun(can, run) && 1 <= n <= |run|
    ensures IsRun(can, run[..n])
  {
    forall i | 0 <= i < n - 1 ensures StepAt(can, run[..n], i) { assert StepAt(can, run, i); }
  }

  lemma RunWeaken<S(!new)>(can: (S, S) -> bool, might: (S, S) -> bool, run: seq<S>)
    requires IsRun(can, run) && forall s, t :: can(s, t) ==> might(s, t)
    ensures IsRun(might, run)
  {
    forall i | 0 <= i < |run| - 1 ensures StepAt(might, run, i) { assert StepAt(can, run, i); }
  }

  /** Every step spends at least one unit of potential, except that entering `x`
      or `y` earns some: what a step relation must satisfy for runs to be bounded. */
  ghost predicate Pays<S(!new)>(can: (S, S) -> bool, potential: S -> nat, x: S, earnX: nat, y: S, earnY: nat) {
    forall s, t :: can(s, t) ==>
      1 + potential(t) <= potential(s) + (if t == x then earnX else 0) + (if t == y then earnY else 0)
  }

  lemma {:induction false} PotentialBoundsRun<S(!new)>(
      can: (S, S) -> bool, potential: S -> nat, x: S, earnX: nat, y: S, earnY: nat, run: seq<S>)
    requires IsRun(can, run) && Pays(can, potential, x, earnX, y, earnY)
    ensures Steps(run) + potential(Last(run)) <= potential(run[0]) + earnX * Entries(run, x) + earnY * Entries(run, y)
  {
    if |run| > 1 {
      var front := run[..|run| - 1];
      RunPrefix(can, run, |run| - 1);
      PotentialBoundsRun(can, potential, x, earnX, y, earnY, front);
      assert StepAt(can, run, |front| - 1);
      Distribute(earnX, Entries(front, x), if Last(run) == x then 1 else 0);
      Distribute(earnY, Entries(front, y), if Last(run) == y then 1 else 0);
    }
  }

  lemma Distribute(k: nat, a: nat, b: nat)
    ensures k * (a + b) == k * a + k * b
  {
  }
}
