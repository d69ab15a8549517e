/** The remediation plan machine of packages/shared/src/media-remediation.ts. */
module RemediationPlan {
  import opened Runs

  datatype Status =
    | Proposed | AwaitingApproval | Approved | Executing | Waiting | Verifying
    | Succeeded | Failed | Blocked | Cancelled | Superseded

  predicate Terminal(s: Status) {
    s.Succeeded? || s.Failed? || s.Cancelled? || s.Superseded?
  }

  function Transitions(s: Status): seq<Status> {
    match s
    case Proposed => [AwaitingApproval, Approved, Blocked, Superseded, Cancelled]
    case AwaitingApproval => [Approved, Blocked, Superseded, Cancelled]
    case Approved => [Executing, Blocked, Superseded, Cancelled]
    case Executing => [Waiting, Verifying, Failed, Blocked, Cancelled]
    case Waiting => [Executing, Verifying, Failed, Blocked, Cancelled, Superseded]
    case Verifying => [Succeeded, Failed, Blocked]
    case Blocked => [Proposed, Superseded, Cancelled]
    case Succeeded => []
    case Failed => []
    case Cancelled => []
    case Superseded => []
  }

  predicate CanTransitionPlan(from: Status, to: Status) {
    from != to && to in Transitions(from)
  }

  predicate IsActivePlan(s: Status) { !Terminal(s) }

  ghost predicate PlanRun(run: seq<Status>) {
    IsRun(CanTransitionPlan, run) && run[0] == Proposed
  }

  // ----------------------------------------------------------------- safety

  /** What one step reveals about where the plan came from. */
  predicate Orderly(s: Status, t: Status) {
    && IsActivePlan(s)
    && (t.Executing? ==> s.Approved? || s.Waiting?)
    && (t.Waiting? ==> s.Executing?)
    && (t.Verifying? ==> s.Executing? || s.Waiting?)
    && (t.Succeeded? ==> s.Verifying?)
  }

  lemma StepsAreOrderly(run: seq<Status>)
    requires IsRun(CanTransitionPlan, run)
    ensures IsRun(Orderly, run)
  {
    forall s, t | CanTransitionPlan(s, t) ensures Orderly(s, t) {}
    RunWeaken(CanTransitionPlan, Orderly, run);
  }

  /** The plan at `i` was approved, and nothing has blocked it since. */
  ghost predicate Licensed(run: seq<Status>, i: nat) {
    exists a :: 0 <= a < i < |run| && run[a] == Approved && Blocked !in run[a..i]
  }

  lemma {:induction false} LicensedAt(run: seq<Status>, i: nat)
    requires IsRun(Orderly, run) && run[0] == Proposed && i < |run|
    requires run[i].Executing? || run[i].Waiting? || run[i].Verifying?
    ensures Licensed(run, i)
  {
    assert StepAt(Orderly, run, i - 1);
    if run[i - 1].Approved? {
      assert run[i - 1..i] == [Approved];
    } else {
      LicensedAt(run, i - 1);
      var a :| 0 <= a < i - 1 < |run| && run[a] == Approved && Blocked !in run[a..i - 1];
      assert run[a..i] == run[a..i - 1] + [run[i - 1]];
    }
  }

  /** In every run a plan executes, waits or verifies only under an approval
      granted after its latest block. */
  lemma ExecutesOnlyWhileApproved(run: seq<Status>, i: nat)
    requires PlanRun(run) && i < |run| && (run[i].Executing? || run[i].Waiting? || run[i].Verifying?)
    ensures Licensed(run, i)
  {
    StepsAreOrderly(run);
    LicensedAt(run, i);
  }

  /** Success is claimed only straight after verifying, hence never for a plan
      that was not approved and executed. */
  lemma SucceedsOnlyAfterVerifying(run: seq<Status>, i: nat)
    requires PlanRun(run) && i < |run| && run[i].Succeeded?
    ensures i > 0 && run[i - 1].Verifying? && Licensed(run, i - 1)
  {
    StepsAreOrderly(run);
    assert StepAt(Orderly, run, i - 1);
    LicensedAt(run, i - 1);
  }

  /** A decided plan stays decided: a terminal status can only be the last one,
      and every other status can still move. */
  lemma TerminalExactlyWhenStuck(s: Status)
    ensures Terminal(s) <==> forall t :: !CanTransitionPlan(s, t)
  {
    if !Terminal(s) {
      match s
      case Proposed => assert CanTransitionPlan(s, Approved);
      case AwaitingApproval => assert CanTransitionPlan(s, Approved);
      case Approved => assert CanTransitionPlan(s, Executing);
      case Executing => assert CanTransitionPlan(s, Waiting);
      case Waiting => assert CanTransitionPlan(s, Executing);
      case Verifying => assert CanTransitionPlan(s, Succeeded);
      case Blocked => assert CanTransitionPlan(s, Proposed);
    }
  }

  lemma TerminalIsLast(run: seq<Status>, i: nat)
    requires PlanRun(run) && i < |run| && Terminal(run[i])
    ensures i == |run| - 1
  {
    StepsAreOrderly(run);
    assert i < |run| - 1 ==> StepAt(Orderly, run, i);
  }

  /** The statuses a plan can have just before it gets `t`. */
  function WaysInto(t: Status): set<Status> {
    match t
    case Proposed => {Blocked}
    case AwaitingApproval => {Proposed}
    case Approved => {Proposed, AwaitingApproval}
    case Executing => {Approved, Waiting}
    case Waiting => {Executing}
    case Verifying => {Executing, Waiting}
    case Succeeded => {Verifying}
    case Failed => {Executing, Waiting, Verifying}
    case Blocked => {Proposed, AwaitingApproval, Approved, Executing, Waiting, Verifying}
    case Cancelled => {Proposed, AwaitingApproval, Approved, Executing, Waiting, Blocked}
    case Superseded => {Proposed, AwaitingApproval, Approved, Waiting, Blocked}
  }

  /** Every legal move, read the other way round: by where it leads, not where it starts. */
  lemma EveryWayInto(s: Status, t: Status)
    ensures CanTransitionPlan(s, t) <==> s in WaysInto(t)
  {
  }

  // ----------------------------------------------------------------- length

  function Remaining(s: Status): nat {
    match s
    case Proposed => 5
    case AwaitingApproval => 4
    case Approved => 3
    case Executing => 2
    case Waiting => 3
    case Verifying => 1
    case Blocked => 6
    case Succeeded => 0
    case Failed => 0
    case Cancelled => 0
    case Superseded => 0
  }

  /** A run entering `Blocked` b times and `Waiting` w times has at most
      5 + 6b + 2w steps. */
  lemma RunLength(run: seq<Status>)
    requires PlanRun(run)
    ensures Steps(run) <= 5 + 6 * Entries(run, Blocked) + 2 * Entries(run, Waiting)
  {
    assert Pays(CanTransitionPlan, Remaining, Blocked, 6, Waiting, 2) by {
      forall s, t | CanTransitionPlan(s, t)
        ensures 1 + Remaining(t) <= Remaining(s) + (if t == Blocked then 6 else 0) + (if t == Waiting then 2 else 0)
      {
      }
    }
    PotentialBoundsRun(CanTransitionPlan, Remaining, Blocked, 6, Waiting, 2, run);
  }

  lemma Continue(run: seq<Status>, t: Status) returns (longer: seq<Status>)
    requires PlanRun(run) && CanTransitionPlan(Last(run), t)
    ensures longer == run + [t] && PlanRun(longer) && Steps(longer) == Steps(run) + 1
    ensures Entries(longer, Blocked) == Entries(run, Blocked) + if t.Blocked? then 1 else 0
    ensures Entries(longer, Waiting) == Entries(run, Waiting) + if t.Waiting? then 1 else 0
  {
    longer := run + [t];
    RunExtend(CanTransitionPlan, run, t);
    EntriesAppend(run, [t], Blocked);
    EntriesAppend(run, [t], Waiting);
  }

  lemma {:induction false} BlockRepeatedly(b: nat) returns (run: seq<Status>)
    ensures PlanRun(run) && Last(run) == Executing && Steps(run) == 3 + 6 * b
    ensures Entries(run, Blocked) == b && Entries(run, Waiting) == 0
  {
    if b == 0 {
      run := [Proposed];
    } else {
      run := BlockRepeatedly(b - 1);
      run := Continue(run, Verifying);
      run := Continue(run, Blocked);
      run := Continue(run, Proposed);
    }
    run := Continue(run, AwaitingApproval);
    run := Continue(run, Approved);
    run := Continue(run, Executing);
  }

  lemma {:induction false} WaitRepeatedly(b: nat, w: nat) returns (run: seq<Status>)
    ensures PlanRun(run) && Last(run) == Executing && Steps(run) == 3 + 6 * b + 2 * w
    ensures Entries(run, Blocked) == b && Entries(run, Waiting) == w
    decreases w
  {
    if w == 0 {
      run := BlockRepeatedly(b);
    } else {
      run := WaitRepeatedly(b, w - 1);
      run := Continue(run, Waiting);
      run := Continue(run, Executing);
    }
  }

  /** The bound of `RunLength` is attained, by a plan that succeeds. */
  lemma RunLengthIsTight(b: nat, w: nat) returns (run: seq<Status>)
    ensures PlanRun(run) && Last(run) == Succeeded && Entries(run, Blocked) == b && Entries(run, Waiting) == w
    ensures Steps(run) == 5 + 6 * b + 2 * w
  {
    run := WaitRepeatedly(b, w);
    run := Continue(run, Verifying);
    run := Continue(run, Succeeded);
  }
}
