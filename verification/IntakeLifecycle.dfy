/** The intake state machine of packages/shared/src/intake.ts. */
module IntakeLifecycle {
  import opened Sequences
  import opened Runs

  datatype IntakeState =
    | Queued | Downloading | Completed | Verified | Identified | QualityScored | ReadyToImport | Importing
    | Imported | MetadataReady | ArtworkReady | SubtitleReady | Seeding | Archived
    | Failed | Quarantined | Cancelled

  /** The order in which INTAKE_STATES lists the states. */
  function Index(s: IntakeState): (p: nat)
    ensures p <= 16
  {
    match s
    case Queued => 0
    case Downloading => 1
    case Completed => 2
    case Verified => 3
    case Identified => 4
    case QualityScored => 5
    case ReadyToImport => 6
    case Importing => 7
    case Imported => 8
    case MetadataReady => 9
    case ArtworkReady => 10
    case SubtitleReady => 11
    case Seeding => 12
    case Archived => 13
    case Failed => 14
    case Quarantined => 15
    case Cancelled => 16
  }

  function Stage(p: nat): (s: IntakeState)
    requires p <= 16
    ensures Index(s) == p
  {
    match p
    case 0 => Queued
    case 1 => Downloading
    case 2 => Completed
    case 3 => Verified
    case 4 => Identified
    case 5 => QualityScored
    case 6 => ReadyToImport
    case 7 => Importing
    case 8 => Imported
    case 9 => MetadataReady
    case 10 => ArtworkReady
    case 11 => SubtitleReady
    case 12 => Seeding
    case 13 => Archived
    case 14 => Failed
    case 15 => Quarantined
    case 16 => Cancelled
  }

  predicate Terminal(s: IntakeState) {
    s.Archived? || s.Failed? || s.Quarantined? || s.Cancelled?
  }

  /** INTAKE_STATES from position `p` on, without the terminal ones. */
  function RetryTargets(p: nat): (r: seq<IntakeState>)
    requires p <= 17
    ensures forall s :: s in r <==> !Terminal(s) && p <= Index(s)
    decreases 17 - p
  {
    if p == 17 then []
    else if Terminal(Stage(p)) then RetryTargets(p + 1)
    else [Stage(p)] + RetryTargets(p + 1)
  }

  function HappyPath(s: IntakeState): seq<IntakeState> {
    match s
    case Queued => [Completed, Downloading]
    case Downloading => [Completed]
    case Completed => [Verified, Quarantined]
    case Verified => [Identified, Quarantined]
    case Identified => [QualityScored]
    case QualityScored => [ReadyToImport]
    case ReadyToImport => [Importing]
    case Importing => [Imported]
    case Imported => [MetadataReady, Quarantined]
    case MetadataReady => [ArtworkReady]
    case ArtworkReady => [SubtitleReady]
    case SubtitleReady => [Seeding, Archived]
    case Seeding => [Archived]
    case Archived => []
    case Failed => RetryTargets(0)
    case Quarantined => [Verified, Identified, Failed]
    case Cancelled => []
  }

  predicate CanTransition(from: IntakeState, to: IntakeState) {
    if from == to then false
    else if Terminal(from) && from != Failed && from != Quarantined then false
    else if to == Failed || to == Cancelled then !Terminal(from)
    else to in HappyPath(from)
  }

  function NextState(from: IntakeState): Option<IntakeState> {
    var next := HappyPath(from);
    if next == [] then None else Some(next[0])
  }

  ghost predicate IntakeRun(run: seq<IntakeState>) {
    IsRun(CanTransition, run) && run[0] == Queued
  }

  /** A failed intake may be retried into exactly the non-terminal states; it can
      be neither cancelled nor failed again. */
  lemma RetryIsLegal(t: IntakeState)
    ensures CanTransition(Failed, t) <==> !Terminal(t)
    ensures CanTransition(t, Failed) <==> !Terminal(t)
  {
  }

  /** Quarantine is entered from exactly three states: after the download, after
      verification, and after the import. */
  lemma WaysIntoQuarantine(s: IntakeState)
    ensures CanTransition(s, Quarantined) <==> s.Completed? || s.Verified? || s.Imported?
    ensures CanTransition(Quarantined, s) <==> s.Verified? || s.Identified?
  {
  }

  /** Whether an intake that enters `t` can have been in `s` just before. */
  predicate WayInto(t: IntakeState, s: IntakeState) {
    match t
    case Queued => s.Failed?
    case Downloading => s.Queued? || s.Failed?
    case Completed => s.Queued? || s.Downloading? || s.Failed?
    case Verified => s.Completed? || s.Quarantined? || s.Failed?
    case Identified => s.Verified? || s.Quarantined? || s.Failed?
    case QualityScored => s.Identified? || s.Failed?
    case ReadyToImport => s.QualityScored? || s.Failed?
    case Importing => s.ReadyToImport? || s.Failed?
    case Imported => s.Importing? || s.Failed?
    case MetadataReady => s.Imported? || s.Failed?
    case ArtworkReady => s.MetadataReady? || s.Failed?
    case SubtitleReady => s.ArtworkReady? || s.Failed?
    case Seeding => s.SubtitleReady? || s.Failed?
    case Archived => s.SubtitleReady? || s.Seeding?
    case Failed => Index(s) <= 12
    case Quarantined => s.Completed? || s.Verified? || s.Imported?
    case Cancelled => Index(s) <= 12
  }

  lemma WayIntoByTable(s: IntakeState, t: IntakeState)
    requires s != Failed && t != Failed && t != Cancelled
    ensures (s != t && (!Terminal(s) || s == Quarantined) && t in HappyPath(s)) <==> WayInto(t, s)
  {
    hide RetryTargets;
  }

  /** Every legal move, read the other way round: by where it leads, not where it starts. */
  lemma EveryWayInto(s: IntakeState, t: IntakeState)
    ensures CanTransition(s, t) <==> WayInto(t, s)
  {
    hide HappyPath;
    RetryIsLegal(s);
    RetryIsLegal(t);
    if s != Failed && t != Failed && t != Cancelled { WayIntoByTable(s, t); }
  }

  // ------------------------------------------------------- how long a run is

  /** The longest way from a state to the end of its life without entering
      `Failed` or `Quarantined` again. */
  function Remaining(s: IntakeState): nat {
    match s
    case Queued => 13
    case Downloading => 12
    case Completed => 11
    case Verified => 10
    case Identified => 9
    case QualityScored => 8
    case ReadyToImport => 7
    case Importing => 6
    case Imported => 5
    case MetadataReady => 4
    case ArtworkReady => 3
    case SubtitleReady => 2
    case Seeding => 1
    case Archived => 0
    case Cancelled => 0
    case Failed => 14
    case Quarantined => 11
  }

  // ------------------------------------------------------------ the pipeline

  /** The place of a non-terminal state in the pipeline. */
  function Position(s: IntakeState): (p: nat)
    requires !Terminal(s)
    ensures p <= 12
  {
    Index(s)
  }

  lemma StageOfPosition(s: IntakeState)
    requires !Terminal(s)
    ensures Stage(Position(s)) == s
  {
  }

  lemma StageStep(p: nat)
    requires p + 1 <= 12
    ensures CanTransition(Stage(p), Stage(p + 1))
  {
  }

  /** The straight way from position `lo` up to, not including, `hi`. */
  function Line(lo: nat, hi: nat): (r: seq<IntakeState>)
    requires lo <= hi <= 13
    ensures |r| == hi - lo && forall i :: 0 <= i < |r| ==> r[i] == Stage(lo + i)
  {
    seq(hi - lo, i requires 0 <= i < hi - lo => Stage(lo + i))
  }

  lemma LineIsRun(lo: nat, hi: nat)
    requires lo < hi <= 13
    ensures IsRun(CanTransition, Line(lo, hi))
    ensures forall x :: Terminal(x) ==> multiset(Line(lo, hi))[x] == 0
  {
    var r := Line(lo, hi);
    forall i | 0 <= i < |r| - 1 ensures StepAt(CanTransition, r, i) { StageStep(lo + i); }
    forall x | Terminal(x) ensures multiset(r)[x] == 0 { assert x !in r; }
  }

  lemma StepPays(s: IntakeState, t: IntakeState)
    ensures CanTransition(s, t) ==>
              1 + Remaining(t) <= Remaining(s) + (if t == Failed then 14 else 0) + (if t == Quarantined then 7 else 0)
  {
  }

  /** A run with f entries into `Failed` and q into `Quarantined` has at most
      13 + 14f + 7q steps. */
  lemma RunLength(run: seq<IntakeState>)
    requires IntakeRun(run)
    ensures Steps(run) <= 13 + 14 * Entries(run, Failed) + 7 * Entries(run, Quarantined)
  {
    assert Pays(CanTransition, Remaining, Failed, 14, Quarantined, 7) by {
      forall s, t | CanTransition(s, t)
        ensures 1 + Remaining(t) <= Remaining(s) + (if t == Failed then 14 else 0) + (if t == Quarantined then 7 else 0)
      {
        StepPays(s, t);
      }
    }
    PotentialBoundsRun(CanTransition, Remaining, Failed, 14, Quarantined, 7, run);
  }

  /** Going on from the end of a run, counting as it goes. */
  lemma Continue(run: seq<IntakeState>, more: seq<IntakeState>)
    requires IntakeRun(run) && IsRun(CanTransition, [Last(run)] + more)
    ensures IntakeRun(run + more) && Steps(run + more) == Steps(run) + |more|
    ensures forall x :: Entries(run + more, x) == Entries(run, x) + multiset(more)[x]
  {
    RunAppend(CanTransition, run, more);
    forall x { EntriesAppend(run, more, x); }
  }

  lemma LineCons(p: nat, hi: nat)
    requires p < hi <= 13
    ensures [Stage(p)] + Line(p + 1, hi) == Line(p, hi)
  {
    var a, b := [Stage(p)] + Line(p + 1, hi), Line(p, hi);
    assert forall i :: 0 <= i < |b| ==> a[i] == b[i];
  }

  lemma GoAlong(run: seq<IntakeState>, p: nat, hi: nat)
    requires IntakeRun(run) && p + 1 < hi <= 13 && Last(run) == Stage(p)
    ensures var longer := run + Line(p + 1, hi);
            && IntakeRun(longer) && Last(longer) == Stage(hi - 1) && Steps(longer) == Steps(run) + (hi - 1 - p)
            && Entries(longer, Failed) == Entries(run, Failed) && Entries(longer, Quarantined) == Entries(run, Quarantined)
  {
    StaysLegal(run, p, hi);
    LineEntersNoEnd(run, p + 1, hi, Failed);
    LineEntersNoEnd(run, p + 1, hi, Quarantined);
  }

  lemma StaysLegal(run: seq<IntakeState>, p: nat, hi: nat)
    requires IntakeRun(run) && p + 1 < hi <= 13 && Last(run) == Stage(p)
    ensures IntakeRun(run + Line(p + 1, hi))
  {
    LineIsRun(p, hi);
    LineCons(p, hi);
    RunAppend(CanTransition, run, Line(p + 1, hi));
  }

  lemma LineEntersNoEnd(run: seq<IntakeState>, lo: nat, hi: nat, x: IntakeState)
    requires run != [] && lo < hi <= 13 && Terminal(x)
    ensures Entries(run + Line(lo, hi), x) == Entries(run, x)
  {
    LineIsRun(lo, hi);
    EntriesAppend(run, Line(lo, hi), x);
  }

  lemma FailLate(run: seq<IntakeState>) returns (longer: seq<IntakeState>)
    requires IntakeRun(run) && Last(run) == Queued
    ensures IntakeRun(longer) && Last(longer) == Queued && Steps(longer) == Steps(run) + 14
    ensures Entries(longer, Failed) == Entries(run, Failed) + 1 && Entries(longer, Quarantined) == Entries(run, Quarantined)
  {
    GoAlong(run, 0, 13);
    longer := run + Line(1, 13);
    assert CanTransition(Seeding, Failed);
    Continue(longer, [Failed, Queued]);
    longer := longer + [Failed, Queued];
  }

  lemma QuarantineLate(run: seq<IntakeState>) returns (longer: seq<IntakeState>)
    requires IntakeRun(run) && Last(run) == Imported
    ensures IntakeRun(longer) && Last(longer) == Imported && Steps(longer) == Steps(run) + 7
    ensures Entries(longer, Failed) == Entries(run, Failed) && Entries(longer, Quarantined) == Entries(run, Quarantined) + 1
  {
    Continue(run, [Quarantined, Verified]);
    longer := run + [Quarantined, Verified];
    GoAlong(longer, 3, 9);
    longer := longer + Line(4, 9);
  }

  lemma {:induction false} FailRepeatedly(f: nat) returns (run: seq<IntakeState>)
    ensures IntakeRun(run) && Last(run) == Queued && Steps(run) == 14 * f
    ensures Entries(run, Failed) == f && Entries(run, Quarantined) == 0
  {
    if f == 0 {
      run := [Queued];
    } else {
      run := FailRepeatedly(f - 1);
      run := FailLate(run);
    }
  }

  lemma {:induction false} QuarantineRepeatedly(f: nat, q: nat) returns (run: seq<IntakeState>)
    ensures IntakeRun(run) && Last(run) == Imported && Steps(run) == 8 + 14 * f + 7 * q
    ensures Entries(run, Failed) == f && Entries(run, Quarantined) == q
    decreases q
  {
    if q == 0 {
      run := FailRepeatedly(f);
      GoAlong(run, 0, 9);
      run := run + Line(1, 9);
    } else {
      run := QuarantineRepeatedly(f, q - 1);
      run := QuarantineLate(run);
    }
  }

  /** The bound of `RunLength` is attained for every f and q. */
  lemma RunLengthIsTight(f: nat, q: nat) returns (run: seq<IntakeState>)
    ensures IntakeRun(run) && Entries(run, Failed) == f && Entries(run, Quarantined) == q
    ensures Steps(run) == 13 + 14 * f + 7 * q
  {
    run := QuarantineRepeatedly(f, q);
    GoAlong(run, 8, 13);
    run := run + Line(9, 13);
    Continue(run, [Archived]);
    run := run + [Archived];
  }

  // ------------------------------------------------ what precedes an import

  /** The import at `i` was preceded, with no quarantine in between, by
      identification, scoring and readiness, in that order. */
  ghost predicate Gated(run: seq<IntakeState>, i: nat) {
    exists a, b, c ::
      && 0 <= a < b < c < i < |run|
      && run[a] == Identified && run[b] == QualityScored && run[c] == ReadyToImport
      && Quarantined !in run[a..i]
  }

  ghost predicate EveryImportGated(run: seq<IntakeState>) {
    forall i :: 0 <= i < |run| && run[i] == Importing ==> Gated(run, i)
  }

  predicate RetryAt(run: seq<IntakeState>, i: nat, policy: (IntakeState, IntakeState) -> bool)
    requires i + 2 < |run|
  {
    run[i + 1] == Failed ==> policy(run[i], run[i + 2])
  }

  /** Every retry goes from the state that failed to one the policy allows. */
  ghost predicate Follows(run: seq<IntakeState>, policy: (IntakeState, IntakeState) -> bool) {
    forall i | 0 <= i < |run| - 2 :: RetryAt(run, i, policy)
  }

  /** The position that must have been reached before a retry may enter `t`. */
  function Required(t: IntakeState): nat
    requires !Terminal(t)
  {
    var p := Position(t);
    if p <= 4 then 0 else if p <= 7 then p - 1 else 6
  }

  ghost predicate SkipsNothing(policy: (IntakeState, IntakeState) -> bool) {
    forall s, t :: !Terminal(s) && !Terminal(t) && policy(s, t) ==> Required(t) <= Position(s)
  }

  /** Whatever fails behind the import may be imported again. */
  ghost predicate ImportsAgain(policy: (IntakeState, IntakeState) -> bool) {
    forall t :: !Terminal(t) && Position(t) > 7 ==> policy(t, Importing)
  }

  /** Every import of every run that follows the policy is gated. */
  ghost predicate GatesImports(policy: (IntakeState, IntakeState) -> bool) {
    forall run :: IntakeRun(run) && Follows(run, policy) ==> EveryImportGated(run)
  }

  // ---------------------------------------- how many gates have been passed

  /** One more state of a run: the gates are passed in order, and quarantine closes
      them all again. */
  function Pass(gates: nat, t: IntakeState): nat {
    if t == Quarantined then 0 else if gates < 3 && t == Stage(4 + gates) then gates + 1 else gates
  }

  /** The gates passed since the latest quarantine. */
  function Gates(run: seq<IntakeState>): (g: nat)
    ensures g <= 3
  {
    if run == [] then 0 else Pass(Gates(run[..|run| - 1]), Last(run))
  }

  /** The run passes the first |at| gates at these places, and is not quarantined since. */
  ghost predicate PassesAt(run: seq<IntakeState>, at: seq<nat>) {
    && |at| <= 3
    && (forall k :: 0 <= k < |at| ==> at[k] < |run| && run[at[k]] == Stage(4 + k))
    && (forall j, k :: 0 <= j < k < |at| ==> at[j] < at[k])
    && (at != [] ==> Quarantined !in run[at[0]..])
  }

  lemma {:induction false} GatesArePassed(run: seq<IntakeState>) returns (at: seq<nat>)
    ensures PassesAt(run, at) && |at| == Gates(run)
  {
    at := [];
    if run != [] && Last(run) != Quarantined {
      var front := run[..|run| - 1];
      at := GatesArePassed(front);
      if at != [] { assert run[at[0]..] == front[at[0]..] + [Last(run)]; }
      if Gates(run) > Gates(front) { at := at + [|run| - 1]; }
    }
  }

  lemma {:induction false} PassedGatesCount(run: seq<IntakeState>, at: seq<nat>)
    requires PassesAt(run, at)
    ensures |at| <= Gates(run)
  {
    if at != [] {
      var n, front := |at| - 1, run[..|run| - 1];
      assert Last(run) == run[at[0]..][|run| - 1 - at[0]] != Quarantined;
      assert front[at[0]..] == run[at[0]..|run| - 1];
      if at[n] == |run| - 1 { PassedGatesCount(front, at[..n]); } else { PassedGatesCount(front, at); }
    }
  }

  lemma GatedByPlaces(run: seq<IntakeState>, i: nat, at: seq<nat>)
    requires i < |run| && PassesAt(run[..i], at) && |at| == 3
    ensures Gated(run, i)
  {
    var a, b, c := at[0], at[1], at[2];
    assert run[..i][a..] == run[a..i];
    assert run[a] == Stage(4 + 0) && run[b] == Stage(4 + 1) && run[c] == Stage(4 + 2);
    assert Quarantined !in run[a..i];
  }

  /** An import is gated exactly when all three gates have been passed. */
  lemma GatedIff(run: seq<IntakeState>, i: nat)
    requires i < |run|
    ensures Gated(run, i) <==> Gates(run[..i]) == 3
  {
    if Gates(run[..i]) == 3 {
      var at := GatesArePassed(run[..i]);
      GatedByPlaces(run, i, at);
    } else if Gated(run, i) {
      var a: nat, b: nat, c: nat :|
        && a < b < c < i && run[a] == Identified && run[b] == QualityScored && run[c] == ReadyToImport
        && Quarantined !in run[a..i];
      assert run[..i][a..] == run[a..i];
      PassedGatesCount(run[..i], [a, b, c]);
    }
  }

  // ------------------------------------------------ what a policy can pledge

  /** The moves of a run, a failure and its retry taken as one. */
  predicate Moves(policy: (IntakeState, IntakeState) -> bool, s: IntakeState, t: IntakeState) {
    && s != Failed && t != Failed
    && (CanTransition(s, t) || (!Terminal(s) && !Terminal(t) && policy(s, t)))
  }

  /** A number of gates for each state that holds at first and that every move and
      every retry keeps. */
  ghost predicate Kept(policy: (IntakeState, IntakeState) -> bool, pledge: IntakeState -> nat) {
    pledge(Queued) == 0 && forall s, t :: Moves(policy, s, t) ==> pledge(t) <= Pass(pledge(s), t)
  }

  lemma GatesStep(run: seq<IntakeState>, i: nat)
    requires i < |run|
    ensures Gates(run[..i + 1]) == Pass(Gates(run[..i]), run[i])
  {
    assert run[..i + 1][..i] == run[..i];
  }

  /** Where a state of a run was moved to from: the one before, or the one that failed. */
  lemma MovedFrom(run: seq<IntakeState>, policy: (IntakeState, IntakeState) -> bool, i: nat) returns (j: nat)
    requires IntakeRun(run) && Follows(run, policy) && 0 < i < |run| && run[i] != Failed
    ensures j < i && Moves(policy, run[j], run[i]) && Gates(run[..j + 1]) == Gates(run[..i])
  {
    hide CanTransition;
    j := i - 1;
    assert StepAt(CanTransition, run, i - 1);
    RetryIsLegal(run[i]);
    if run[i - 1] == Failed {
      RetryIsLegal(run[i - 2]);
      assert StepAt(CanTransition, run, i - 2);
      assert RetryAt(run, i - 2, policy);
      GatesStep(run, i - 1);
      j := i - 2;
    }
  }

  lemma {:induction false} PledgeHolds(
      run: seq<IntakeState>, policy: (IntakeState, IntakeState) -> bool, pledge: IntakeState -> nat, i: nat)
    requires IntakeRun(run) && Follows(run, policy) && Kept(policy, pledge) && i < |run| && run[i] != Failed
    ensures pledge(run[i]) <= Gates(run[..i + 1])
  {
    if i > 0 {
      var j := MovedFrom(run, policy, i);
      PledgeHolds(run, policy, pledge, j);
      GatesStep(run, i);
      PassIsMonotone(pledge(run[j]), Gates(run[..i]), run[i]);
    }
  }

  lemma PassIsMonotone(g: nat, h: nat, t: IntakeState)
    requires g <= h
    ensures Pass(g, t) <= Pass(h, t)
  {
  }

  lemma PledgedImportIsGated(
      run: seq<IntakeState>, policy: (IntakeState, IntakeState) -> bool, pledge: IntakeState -> nat, i: nat)
    requires IntakeRun(run) && Follows(run, policy) && Kept(policy, pledge) && pledge(Importing) == 3
    requires i < |run| && run[i] == Importing
    ensures Gated(run, i)
  {
    PledgeHolds(run, policy, pledge, i);
    assert run[..i + 1][..i] == run[..i];
    GatedIff(run, i);
  }

  /** A run that follows the policy can end in `t` with so many gates passed. */
  ghost predicate Reaches(policy: (IntakeState, IntakeState) -> bool, t: IntakeState, gates: nat) {
    exists run :: IntakeRun(run) && Follows(run, policy) && Last(run) == t && Gates(run) == gates
  }

  /** The fewest gates with which a state can be reached. */
  ghost function Fewest(policy: (IntakeState, IntakeState) -> bool, t: IntakeState): (g: nat)
    ensures g <= 3 && forall h :: h <= 3 && Reaches(policy, t, h) ==> g <= h
    ensures g < 3 ==> Reaches(policy, t, g)
  {
    if Reaches(policy, t, 0) then 0 else if Reaches(policy, t, 1) then 1 else if Reaches(policy, t, 2) then 2 else 3
  }

  lemma FollowsLonger(run: seq<IntakeState>, more: seq<IntakeState>, policy: (IntakeState, IntakeState) -> bool)
    requires Follows(run, policy) && run != [] && Last(run) != Failed
    requires Follows([Last(run)] + more, policy)
    ensures Follows(run + more, policy)
  {
    var longer, p, tail := run + more, |run| - 1, [Last(run)] + more;
    forall i | 0 <= i < |longer| - 2 ensures RetryAt(longer, i, policy) {
      if i >= p {
        assert RetryAt(tail, i - p, policy);
        assert longer[i] == tail[i - p] && longer[i + 1] == tail[i - p + 1] && longer[i + 2] == tail[i - p + 2];
      } else if i + 2 <= p {
        assert RetryAt(run, i, policy);
      } else {
        assert longer[i + 1] == Last(run);
      }
    }
  }

  /** A move continues a run: straight on, or through a failure. */
  lemma MoveContinues(
      run: seq<IntakeState>, policy: (IntakeState, IntakeState) -> bool, t: IntakeState) returns (longer: seq<IntakeState>)
    requires IntakeRun(run) && Follows(run, policy) && Moves(policy, Last(run), t)
    ensures IntakeRun(longer) && Follows(longer, policy) && Last(longer) == t && Gates(longer) == Pass(Gates(run), t)
  {
    hide CanTransition;
    var s := Last(run);
    if CanTransition(s, t) {
      longer := run + [t];
      RunExtend(CanTransition, run, t);
      FollowsLonger(run, [t], policy);
      assert longer[..|longer| - 1] == run;
    } else {
      longer := run + [Failed, t];
      RetryIsLegal(s);
      RetryIsLegal(t);
      RunExtend(CanTransition, run, Failed);
      RunExtend(CanTransition, run + [Failed], t);
      assert longer == run + [Failed] + [t];
      assert RetryAt([s] + [Failed, t], 0, policy);
      FollowsLonger(run, [Failed, t], policy);
      assert longer[..|longer| - 1] == run + [Failed] && (run + [Failed])[..|run|] == run;
    }
  }

  lemma MoveReaches(policy: (IntakeState, IntakeState) -> bool, s: IntakeState, t: IntakeState, gates: nat)
    requires Reaches(policy, s, gates) && Moves(policy, s, t)
    ensures Reaches(policy, t, Pass(gates, t))
  {
    var run :| IntakeRun(run) && Follows(run, policy) && Last(run) == s && Gates(run) == gates;
    var longer := MoveContinues(run, policy, t);
  }

  lemma FirstStatesReached(policy: (IntakeState, IntakeState) -> bool)
    ensures Reaches(policy, Queued, 0) && Reaches(policy, Quarantined, 0)
  {
    assert Last([Queued]) == Queued && Gates([Queued]) == Gates([]);
    assert IntakeRun([Queued]) && Follows([Queued], policy);
    MoveReaches(policy, Queued, Completed, 0);
    MoveReaches(policy, Completed, Quarantined, 0);
  }

  lemma FewestIsKept(policy: (IntakeState, IntakeState) -> bool)
    ensures Kept(policy, s => Fewest(policy, s))
  {
    FirstStatesReached(policy);
    forall s, t | Moves(policy, s, t) ensures Fewest(policy, t) <= Pass(Fewest(policy, s), t) {
      if Fewest(policy, s) < 3 { MoveReaches(policy, s, t, Fewest(policy, s)); }
    }
  }

  lemma GatedImportsPledge(policy: (IntakeState, IntakeState) -> bool)
    requires GatesImports(policy)
    ensures Fewest(policy, Importing) == 3
  {
    var g := Fewest(policy, Importing);
    if g < 3 {
      var run :| IntakeRun(run) && Follows(run, policy) && Last(run) == Importing && Gates(run) == g;
      GatedIff(run, |run| - 1);
      assert false;
    }
  }

  /** For every retry policy: every import of every run is gated if and only if the
      states can be given numbers of gates that every move keeps, with all three
      before an import. */
  lemma RetryPolicyGatesImports(policy: (IntakeState, IntakeState) -> bool)
    ensures GatesImports(policy) <==> exists pledge :: Kept(policy, pledge) && pledge(Importing) == 3
  {
    if GatesImports(policy) {
      var fewest := s => Fewest(policy, s);
      FewestIsKept(policy);
      GatedImportsPledge(policy);
      assert Kept(policy, fewest) && fewest(Importing) == 3;
    }
    if pledge :| Kept(policy, pledge) && pledge(Importing) == 3 {
      forall run, i | IntakeRun(run) && Follows(run, policy) && 0 <= i < |run| && run[i] == Importing ensures Gated(run, i) {
        PledgedImportIsGated(run, policy, pledge, i);
      }
    }
  }

  // ------------------------------------------------ policies that skip stages

  /** The gates of the stages up to a state. */
  function StagePledge(s: IntakeState): nat {
    if Terminal(s) || Position(s) < 4 then 0 else if Position(s) < 6 then Position(s) - 3 else 3
  }

  lemma ImportIsGated(run: seq<IntakeState>, policy: (IntakeState, IntakeState) -> bool, i: nat)
    requires IntakeRun(run) && Follows(run, policy) && SkipsNothing(policy)
    requires i < |run| && run[i] == Importing
    ensures Gated(run, i)
  {
    forall s, t | Moves(policy, s, t) ensures StagePledge(t) <= Pass(StagePledge(s), t) {
      if CanTransition(s, t) { StagesAreKept(s, t); }
    }
    PledgedImportIsGated(run, policy, StagePledge, i);
  }

  lemma StagesAreKept(s: IntakeState, t: IntakeState)
    requires CanTransition(s, t) && s != Failed && t != Failed
    ensures StagePledge(t) <= Pass(StagePledge(s), t)
  {
  }

  /** The run that goes straight to `s`, fails, and is retried into `t`. */
  function SkippingRun(s: IntakeState, t: IntakeState): seq<IntakeState>
    requires !Terminal(s) && !Terminal(t)
  {
    Line(0, Position(s) + 1) + [Failed] + Onward(t)
  }

  /** From `t` to an import: straight on, or by failing once more. */
  function Onward(t: IntakeState): seq<IntakeState>
    requires !Terminal(t)
  {
    if Position(t) <= 7 then Line(Position(t), 8) else [t, Failed, Importing]
  }

  lemma StraightOn(t: IntakeState)
    requires !Terminal(t) && Position(t) <= 7
    ensures IsRun(CanTransition, [Failed] + Line(Position(t), 8))
  {
    var line := Line(Position(t), 8);
    RetryIsLegal(t);
    StageOfPosition(t);
    LineIsRun(Position(t), 8);
    RunCons(CanTransition, Failed, line);
  }

  lemma FailOnceMore(t: IntakeState)
    requires !Terminal(t)
    ensures IsRun(CanTransition, [Failed] + [t, Failed, Importing])
  {
    var run := [Failed] + [t, Failed, Importing];
    RetryIsLegal(t);
    RetryIsLegal(Importing);
    assert run[0] == run[2] == Failed && run[1] == t && run[3] == Importing;
    assert StepAt(CanTransition, run, 0) && StepAt(CanTransition, run, 1) && StepAt(CanTransition, run, 2);
  }

  lemma OnwardIsRun(t: IntakeState)
    requires !Terminal(t)
    ensures IsRun(CanTransition, [Failed] + Onward(t)) && Last(Onward(t)) == Importing
  {
    if Position(t) <= 7 { StraightOn(t); } else { FailOnceMore(t); }
  }

  lemma RunThroughFailure(a: seq<IntakeState>, b: seq<IntakeState>)
    requires IntakeRun(a) && CanTransition(Last(a), Failed) && b != [] && IsRun(CanTransition, [Failed] + b)
    ensures IntakeRun(a + [Failed] + b) && Last(a + [Failed] + b) == Last(b)
  {
    RunExtend(CanTransition, a, Failed);
    RunAppend(CanTransition, a + [Failed], b);
  }

  lemma SkippingRunIsLegal(s: IntakeState, t: IntakeState)
    requires !Terminal(s) && !Terminal(t)
    ensures IntakeRun(SkippingRun(s, t)) && Last(SkippingRun(s, t)) == Importing
  {
    LineIsRun(0, Position(s) + 1);
    StageOfPosition(s);
    RetryIsLegal(s);
    OnwardIsRun(t);
    RunThroughFailure(Line(0, Position(s) + 1), Onward(t));
  }

  lemma OnwardRetries(t: IntakeState, policy: (IntakeState, IntakeState) -> bool, i: nat)
    requires !Terminal(t) && (Position(t) > 7 ==> policy(t, Importing)) && i + 2 < |Onward(t)|
    ensures RetryAt(Onward(t), i, policy)
  {
    if Position(t) <= 7 {
      assert Onward(t)[i + 1] in Line(Position(t), 8);
    }
  }

  lemma OnwardStarts(t: IntakeState)
    requires !Terminal(t)
    ensures Onward(t) != [] && Onward(t)[0] == t
  {
    StageOfPosition(t);
  }

  /** Failing between two stretches retries only what the second one retries,
      and its own failure. */
  lemma FollowsThroughFailure(a: seq<IntakeState>, b: seq<IntakeState>, policy: (IntakeState, IntakeState) -> bool)
    requires a != [] && b != [] && Failed !in a && b[0] != Failed && policy(Last(a), b[0]) && Follows(b, policy)
    ensures Follows(a + [Failed] + b, policy)
  {
    var run, p := a + [Failed] + b, |a| - 1;
    forall i | 0 <= i < |run| - 2 ensures RetryAt(run, i, policy) {
      if i < p {
        assert run[i + 1] in a;
      } else if i > p + 1 {
        assert RetryAt(b, i - p - 2, policy);
        assert run[i] == b[i - p - 2] && run[i + 1] == b[i - p - 1] && run[i + 2] == b[i - p];
      }
    }
  }

  lemma SkippingRunFollows(s: IntakeState, t: IntakeState, policy: (IntakeState, IntakeState) -> bool)
    requires !Terminal(s) && !Terminal(t) && policy(s, t) && (Position(t) > 7 ==> policy(t, Importing))
    ensures Follows(SkippingRun(s, t), policy)
  {
    StageOfPosition(s);
    OnwardStarts(t);
    forall i | 0 <= i < |Onward(t)| - 2 { OnwardRetries(t, policy, i); }
    FollowsThroughFailure(Line(0, Position(s) + 1), Onward(t), policy);
  }

  lemma SkippingRunMisses(s: IntakeState, t: IntakeState)
    requires !Terminal(s) && !Terminal(t) && Position(s) < Required(t)
    ensures Stage(Required(t)) !in SkippingRun(s, t)
  {
    var run, p, x := SkippingRun(s, t), Position(s), Stage(Required(t));
    forall i | 0 <= i < |run| ensures run[i] != x {
      if i <= p {
        assert run[i] == Stage(i);
      } else if i > p + 1 {
        assert run[i] == Onward(t)[i - p - 2];
      }
    }
  }

  lemma SkippingIsUngated(s: IntakeState, t: IntakeState)
    requires !Terminal(s) && !Terminal(t) && Position(s) < Required(t)
    ensures IntakeRun(SkippingRun(s, t)) && !EveryImportGated(SkippingRun(s, t))
  {
    var run := SkippingRun(s, t);
    SkippingRunIsLegal(s, t);
    SkippingRunMisses(s, t);
    assert 4 <= Required(t) <= 6;
  }

  /** A policy under which every import is gated allows no retry past a gate still to
      be passed, up to the import; nor behind it, where it could be retried into the
      import from there. */
  lemma SkippingIsRuledOut(policy: (IntakeState, IntakeState) -> bool, s: IntakeState, t: IntakeState)
    requires GatesImports(policy) && !Terminal(s) && !Terminal(t) && policy(s, t)
    requires Position(t) > 7 ==> policy(t, Importing)
    ensures Required(t) <= Position(s)
  {
    if Position(s) < Required(t) {
      SkippingIsUngated(s, t);
      SkippingRunFollows(s, t, policy);
      assert false;
    }
  }

  /** A policy that imports again what fails behind the import keeps every import
      gated if and only if it skips nothing. */
  lemma ImportsAgainGatesIff(policy: (IntakeState, IntakeState) -> bool)
    requires ImportsAgain(policy)
    ensures GatesImports(policy) <==> SkipsNothing(policy)
  {
    if GatesImports(policy) {
      forall s, t | !Terminal(s) && !Terminal(t) && policy(s, t) ensures Required(t) <= Position(s) {
        SkippingIsRuledOut(policy, s, t);
      }
    }
    if SkipsNothing(policy) {
      forall run, i | IntakeRun(run) && Follows(run, policy) && 0 <= i < |run| && run[i] == Importing ensures Gated(run, i) {
        ImportIsGated(run, policy, i);
      }
    }
  }

  /** The policy whose only retry is from the queue to seeding. */
  predicate StraightToSeeding(s: IntakeState, t: IntakeState) { s == Queued && t == Seeding }

  function NoneBehind(s: IntakeState): nat { if !Terminal(s) && Position(s) > 7 then 0 else StagePledge(s) }

  /** Without such retries skipping may do no harm: this policy skips every gate, and
      no run of it has an import that is not gated. */
  lemma HarmlessSkip()
    ensures !SkipsNothing(StraightToSeeding) && GatesImports(StraightToSeeding)
  {
    assert StraightToSeeding(Queued, Seeding) && Position(Queued) < Required(Seeding);
    forall s, t | Moves(StraightToSeeding, s, t) ensures NoneBehind(t) <= Pass(NoneBehind(s), t) {
      if CanTransition(s, t) { StagesAreKept(s, t); }
    }
    assert Kept(StraightToSeeding, NoneBehind);
    RetryPolicyGatesImports(StraightToSeeding);
  }

  /** Runs that never fail, or whose retries resume the state that failed. */
  lemma ResumedImportsAreGated(run: seq<IntakeState>)
    requires IntakeRun(run) && Follows(run, (s, t) => s == t)
    ensures EveryImportGated(run)
  {
    forall i | 0 <= i < |run| && run[i] == Importing ensures Gated(run, i) {
      ImportIsGated(run, (s, t) => s == t, i);
    }
  }

  // --------------------------------------------------- the stage that follows

  predicate Advances(s: IntakeState, t: IntakeState) { NextState(s) == Some(t) }

  /** What the pipeline does on success is always a legal move, and one that
      uses up potential unless it is a retry. */
  lemma AdvancingIsLegal(s: IntakeState, t: IntakeState)
    requires Advances(s, t)
    ensures CanTransition(s, t) && Remaining(t) < Remaining(s) && t != Cancelled
  {
    StepPays(s, t);
  }

  /** Where an intake advances to: along the pipeline, past the download, which is not
      intake's own; a failed one starts again, a quarantined one is verified again. */
  lemma AdvancesAlongTheLine(s: IntakeState)
    ensures NextState(s) ==
              if s == Queued || s == Downloading then Some(Completed)
              else if s == Failed then Some(Queued)
              else if s == Quarantined then Some(Verified)
              else if s == Archived || s == Cancelled then None
              else Some(Stage(Index(s) + 1))
  {
  }

  /** Advancing from any state reaches the end of the line: an intake nobody
      interferes with is archived, unless it was cancelled. */
  lemma {:induction false} AdvancingReachesTheEnd(s: IntakeState) returns (run: seq<IntakeState>)
    ensures IsRun(Advances, run) && run[0] == s
    ensures NextState(Last(run)) == None && (Last(run) == Archived <==> s != Cancelled)
    decreases Remaining(s)
  {
    match NextState(s)
    case None => run := [s];
    case Some(t) =>
      AdvancingIsLegal(s, t);
      var rest := AdvancingReachesTheEnd(t);
      assert StepAt(Advances, [s, t], 0);
      assert [t] + rest[1..] == rest;
      RunAppend(Advances, [s, t], rest[1..]);
      run := [s, t] + rest[1..];
  }
}
