/** The token-refresh protocol of apps/frontend/src/lib/api.ts. */
module ApiClient {
  import opened Sequences

  // Any number of requests share two module variables: the stored tokens and the
  // refresh promise in flight. JavaScript runs each stretch of code between two
  // awaits without interruption, so the protocol is a step system with one event
  // per stretch. An event names what the outside world decided (an answer, a lost
  // connection, a timer); everything else is computed.

  /** The empty string is falsy in the source: an empty token is no token. */
  datatype Tokens = Tokens(access: string, refresh: string)

  datatype CallPhase = Fetching | Reading | Settled(ok: bool)

  /** One POST to /auth/refresh: the refresh token it presented and how far it got. */
  datatype Call = Call(presented: string, phase: CallPhase)

  datatype Promise = Resolved(ok: bool) | Of(call: nat)

  datatype Kind = Api(auth: bool) | Artwork

  datatype Outcome = Answered(status: nat) | Broken

  datatype Phase = InFlight | Waiting(on: Promise) | BackingOff | Done(outcome: Outcome)

  /** One logical request. `sent` lists the access token each send carried. */
  datatype Request = Request(kind: Kind, retry: bool, backoffs: nat, sent: seq<Option<string>>, phase: Phase)

  datatype State = State(tokens: Option<Tokens>, inFlight: Option<nat>, calls: seq<Call>, requests: seq<Request>)

  datatype Event =
    | Begin(kind: Kind)
    | Answer(i: nat, status: nat)
    | Lost(i: nat)
    | RefreshAnswer(k: nat, ok: bool)
    | RefreshBody(k: nat, body: Option<Tokens>)
    | RefreshLost(k: nat)
    | Resume(i: nat)
    | Wake(i: nat)

  const UNAUTHORIZED: nat := 401
  const TOO_MANY: nat := 429
  const MAX_BACKOFFS: nat := 2

  // ------------------------------------------------------- the step function

  predicate HoldsRefresh(s: State) {
    s.tokens.Some? && s.tokens.value.refresh != ""
  }

  function Bearer(tokens: Option<Tokens>, kind: Kind): Option<string> {
    if kind != Api(false) && tokens.Some? && tokens.value.access != "" then Some(tokens.value.access) else None
  }

  predicate IsPhase(s: State, i: nat, p: Phase) {
    i < |s.requests| && s.requests[i].phase == p
  }

  predicate IsCall(s: State, k: nat, p: CallPhase) {
    k < |s.calls| && s.calls[k].phase == p
  }

  predicate Enabled(s: State, e: Event) {
    match e
    case Begin(_) => true
    case Answer(i, _) => IsPhase(s, i, InFlight)
    case Lost(i) => IsPhase(s, i, InFlight)
    case RefreshAnswer(k, _) => IsCall(s, k, Fetching)
    case RefreshBody(k, _) => IsCall(s, k, Reading)
    case RefreshLost(k) => IsCall(s, k, Fetching)
    case Resume(i) =>
      && i < |s.requests|
      && s.requests[i].phase.Waiting?
      && (s.requests[i].phase.on.Of? ==>
            && s.requests[i].phase.on.call < |s.calls|
            && s.calls[s.requests[i].phase.on.call].phase.Settled?)
    case Wake(i) => IsPhase(s, i, BackingOff)
  }

  /** `performRefresh` up to its first await: refuse, join, or start a call. */
  function PerformRefresh(s: State): (State, Promise) {
    if !HoldsRefresh(s) then (s, Resolved(false))
    else if s.inFlight.Some? then (s, Of(s.inFlight.value))
    else (s.(inFlight := Some(|s.calls|), calls := s.calls + [Call(s.tokens.value.refresh, Fetching)]), Of(|s.calls|))
  }

  /** The end of the refresh call: store or drop the tokens and clear the promise. */
  function Settle(s: State, k: nat, tokens: Option<Tokens>): State
    requires k < |s.calls|
  {
    s.(tokens := tokens, inFlight := None, calls := s.calls[k := s.calls[k].(phase := Settled(tokens.Some?))])
  }

  function SetPhase(s: State, i: nat, p: Phase): State
    requires i < |s.requests|
  {
    s.(requests := s.requests[i := s.requests[i].(phase := p)])
  }

  function Resend(s: State, i: nat, r: Request): State
    requires i < |s.requests|
  {
    s.(requests := s.requests[i := r.(sent := r.sent + [Bearer(s.tokens, r.kind)], phase := InFlight)])
  }

  predicate TriesRefresh(s: State, r: Request, status: nat) {
    && status == UNAUTHORIZED
    && !r.retry
    && if r.kind.Artwork? then r.backoffs == 0 else r.kind.auth && HoldsRefresh(s)
  }

  function Verdict(s: State, p: Promise): bool
    requires p.Of? ==> p.call < |s.calls| && s.calls[p.call].phase.Settled?
  {
    match p
    case Resolved(ok) => ok
    case Of(k) => s.calls[k].phase.ok
  }

  function Apply(s: State, e: Event): State
    requires Enabled(s, e)
  {
    match e
    case Begin(kind) =>
      s.(requests := s.requests + [Request(kind, false, 0, [Bearer(s.tokens, kind)], InFlight)])
    case Answer(i, status) =>
      var r := s.requests[i];
      if TriesRefresh(s, r, status) then
        var (s', p) := PerformRefresh(s);
        SetPhase(s', i, Waiting(p))
      else if r.kind.Artwork? && status == TOO_MANY && r.backoffs < MAX_BACKOFFS then
        SetPhase(s, i, BackingOff)
      else
        SetPhase(s, i, Done(Answered(status)))
    case Lost(i) => SetPhase(s, i, Done(Broken))
    case RefreshAnswer(k, ok) =>
      if ok then s.(calls := s.calls[k := s.calls[k].(phase := Reading)]) else Settle(s, k, None)
    case RefreshBody(k, body) => Settle(s, k, body)
    case RefreshLost(k) => Settle(s, k, None)
    case Resume(i) =>
      var r := s.requests[i];
      if Verdict(s, r.phase.on) then Resend(s, i, r.(retry := true))
      else SetPhase(s, i, Done(Answered(UNAUTHORIZED)))
    case Wake(i) => Resend(s, i, s.requests[i].(backoffs := s.requests[i].backoffs + 1))
  }

  // -------------------------------------------------------------------- runs

  /** No request yet; the tokens read from storage, if any. */
  function Initial(tokens: Option<Tokens>): State { State(tokens, None, [], []) }

  predicate Legal(s: State, run: seq<Event>)
    decreases run
  {
    run == [] || (Enabled(s, run[0]) && Legal(Apply(s, run[0]), run[1..]))
  }

  function After(s: State, run: seq<Event>): State
    requires Legal(s, run)
    decreases run
  {
    if run == [] then s else After(Apply(s, run[0]), run[1..])
  }

  /** Every refresh hands out a refresh token that is not held and was never presented. */
  predicate FreshRefresh(s: State, run: seq<Event>)
    requires Legal(s, run)
    decreases run
  {
    run != [] ==>
      && (run[0].RefreshBody? && run[0].body.Some? ==> UnseenRefresh(s, run[0].body.value.refresh))
      && FreshRefresh(Apply(s, run[0]), run[1..])
  }

  predicate UnseenRefresh(s: State, t: string) {
    && (s.tokens.Some? ==> s.tokens.value.refresh != t)
    && forall c :: c in s.calls ==> c.presented != t
  }

  /** Every refresh hands out an access token that no request ever carried. */
  predicate FreshAccess(s: State, run: seq<Event>)
    requires Legal(s, run)
    decreases run
  {
    run != [] ==>
      && (run[0].RefreshBody? && run[0].body.Some? ==> UnsentAccess(s, run[0].body.value.access))
      && FreshAccess(Apply(s, run[0]), run[1..])
  }

  predicate UnsentAccess(s: State, t: string) {
    forall r :: r in s.requests ==> Some(t) !in r.sent
  }

  // ------------------------------------- one refresh at a time, two sends each

  predicate Outstanding(s: State, k: nat) {
    k < |s.calls| && !s.calls[k].phase.Settled?
  }

  /** The unsettled calls are exactly the one the shared promise names, and it
      presents the refresh token still held. */
  ghost predicate SingleFlight(s: State) {
    && (forall k: nat :: Outstanding(s, k) <==> s.inFlight == Some(k))
    && (s.inFlight.Some? ==> s.tokens.Some? && s.calls[s.inFlight.value].presented == s.tokens.value.refresh)
    && (forall c :: c in s.calls ==> c.presented != "")
  }

  predicate RequestOk(s: State, r: Request) {
    && |r.sent| == 1 + (if r.retry then 1 else 0) + r.backoffs
    && r.backoffs <= MAX_BACKOFFS
    && (r.kind.Api? ==> r.backoffs == 0 && !r.phase.BackingOff?)
    && (r.phase.BackingOff? ==> r.backoffs < MAX_BACKOFFS)
    && (r.phase.Waiting? ==> !r.retry && r.backoffs == 0)
    && (r.phase.Waiting? && r.phase.on.Of? ==> r.phase.on.call < |s.calls|)
    && (r.phase.Waiting? && r.phase.on.Resolved? ==> !r.phase.on.ok)
  }

  ghost predicate RequestsOk(s: State) {
    forall r :: r in s.requests ==> RequestOk(s, r)
  }

  lemma SingleFlightStep(s: State, e: Event)
    requires Enabled(s, e) && SingleFlight(s)
    ensures SingleFlight(Apply(s, e))
  {
    var s' := Apply(s, e);
    forall k: nat ensures Outstanding(s', k) <==> s'.inFlight == Some(k) {
      assert Outstanding(s, k) <==> s.inFlight == Some(k);
      if e.RefreshAnswer? || e.RefreshBody? || e.RefreshLost? {
        assert Outstanding(s, e.k);
      }
    }
  }

  lemma RequestsOkStep(s: State, e: Event)
    requires Enabled(s, e) && SingleFlight(s) && RequestsOk(s)
    ensures RequestsOk(Apply(s, e))
  {
    var s' := Apply(s, e);
    if s.inFlight.Some? { assert Outstanding(s, s.inFlight.value); }
    forall j | 0 <= j < |s'.requests| ensures RequestOk(s', s'.requests[j]) {
      if j < |s.requests| { assert RequestOk(s, s.requests[j]); }
    }
  }

  lemma {:induction false} StructureHolds(s: State, run: seq<Event>)
    requires Legal(s, run) && SingleFlight(s) && RequestsOk(s)
    ensures SingleFlight(After(s, run)) && RequestsOk(After(s, run))
    decreases run
  {
    if run != [] {
      SingleFlightStep(s, run[0]);
      RequestsOkStep(s, run[0]);
      StructureHolds(Apply(s, run[0]), run[1..]);
    }
  }

  /** In every interleaving two unsettled refresh calls are the same call, and a
      request that waits for a refresh waits for one that settled or is in flight. */
  lemma AtMostOneRefreshOutstanding(tokens: Option<Tokens>, run: seq<Event>)
    requires Legal(Initial(tokens), run)
    ensures var s := After(Initial(tokens), run);
            && (forall j: nat, k: nat :: Outstanding(s, j) && Outstanding(s, k) ==> j == k)
            && (forall r :: r in s.requests && r.phase.Waiting? && r.phase.on.Of? ==>
                  r.phase.on.call < |s.calls| &&
                  (s.calls[r.phase.on.call].phase.Settled? || s.inFlight == Some(r.phase.on.call)))
  {
    StructureHolds(Initial(tokens), run);
    var s := After(Initial(tokens), run);
    forall r | r in s.requests && r.phase.Waiting? && r.phase.on.Of?
      ensures r.phase.on.call < |s.calls| &&
              (s.calls[r.phase.on.call].phase.Settled? || s.inFlight == Some(r.phase.on.call))
    {
      assert RequestOk(s, r);
      assert Outstanding(s, r.phase.on.call) <==> s.inFlight == Some(r.phase.on.call);
    }
  }

  /** A request is replayed at most once; only an artwork tile may add two
      rate-limit retries. */
  lemma SentAtMostTwice(tokens: Option<Tokens>, run: seq<Event>, r: Request)
    requires Legal(Initial(tokens), run) && r in After(Initial(tokens), run).requests
    ensures 1 <= |r.sent| <= if r.kind.Api? then 2 else 4
  {
    StructureHolds(Initial(tokens), run);
    assert RequestOk(After(Initial(tokens), run), r);
  }

  // ------------------------------------------- no refresh token presented twice

  /** The held refresh token was presented by the call in flight and no other. */
  ghost predicate NeverReused(s: State) {
    && (forall j, k :: 0 <= j < k < |s.calls| ==> s.calls[j].presented != s.calls[k].presented)
    && (s.tokens.Some? ==>
          forall k :: 0 <= k < |s.calls| && s.calls[k].presented == s.tokens.value.refresh ==> s.inFlight == Some(k))
  }

  lemma NeverReusedStep(s: State, e: Event)
    requires Enabled(s, e) && SingleFlight(s) && NeverReused(s)
    requires e.RefreshBody? && e.body.Some? ==> UnseenRefresh(s, e.body.value.refresh)
    ensures NeverReused(Apply(s, e))
  {
    var s' := Apply(s, e);
    assert forall k :: 0 <= k < |s.calls| ==> s'.calls[k].presented == s.calls[k].presented;
    forall k | 0 <= k < |s'.calls| && s'.tokens.Some? && s'.calls[k].presented == s'.tokens.value.refresh
      ensures s'.inFlight == Some(k)
    {
      if k < |s.calls| { assert s.calls[k] in s.calls; }
    }
  }

  lemma {:induction false} NeverReusedHolds(s: State, run: seq<Event>)
    requires Legal(s, run) && FreshRefresh(s, run) && SingleFlight(s) && NeverReused(s)
    ensures NeverReused(After(s, run))
    decreases run
  {
    if run != [] {
      SingleFlightStep(s, run[0]);
      NeverReusedStep(s, run[0]);
      NeverReusedHolds(Apply(s, run[0]), run[1..]);
    }
  }

  /** With rotating refresh tokens no interleaving presents one twice, so the
      server's reuse detection is never provoked. */
  lemma NoRefreshTokenPresentedTwice(tokens: Option<Tokens>, run: seq<Event>, j: nat, k: nat)
    requires Legal(Initial(tokens), run) && FreshRefresh(Initial(tokens), run)
    requires j < k < |After(Initial(tokens), run).calls|
    ensures After(Initial(tokens), run).calls[j].presented != After(Initial(tokens), run).calls[k].presented
  {
    NeverReusedHolds(Initial(tokens), run);
  }

  // ------------------------------------------- a replay carries a different token

  predicate Refreshed(s: State, r: Request) {
    r.retry || (r.phase.Waiting? && r.phase.on.Of? && IsCall(s, r.phase.on.call, Settled(true)))
  }

  /** Once its refresh succeeded, a request's refused token is gone for good. */
  predicate GoneFor(s: State, r: Request) {
    Refreshed(s, r) && r.sent != [] && r.sent[0].Some? ==>
      && (s.tokens.Some? ==> s.tokens.value.access != r.sent[0].value)
      && r.sent[0] !in r.sent[1..]
  }

  ghost predicate RefusedIsGone(s: State) {
    forall r :: r in s.requests ==> GoneFor(s, r)
  }

  lemma ResendKeepsGone(s: State, i: nat, r: Request)
    requires i < |s.requests| && r.sent != [] && GoneFor(s, r)
    ensures GoneFor(Resend(s, i, r), Resend(s, i, r).requests[i])
  {
    assert Resend(s, i, r).requests[i].sent[1..] == r.sent[1..] + [Bearer(s.tokens, r.kind)];
  }

  lemma SettleKeepsGone(s: State, k: nat, next: Option<Tokens>, r: Request)
    requires k < |s.calls| && r in s.requests && RequestOk(s, r) && GoneFor(s, r)
    requires next.Some? ==> UnsentAccess(s, next.value.access)
    ensures GoneFor(Settle(s, k, next), r)
  {
    assert r.sent[0] in r.sent;
  }

  lemma RefusedIsGoneStep(s: State, e: Event)
    requires Enabled(s, e) && SingleFlight(s) && RequestsOk(s) && RefusedIsGone(s)
    requires e.RefreshBody? && e.body.Some? ==> UnsentAccess(s, e.body.value.access)
    ensures RefusedIsGone(Apply(s, e))
  {
    var s' := Apply(s, e);
    forall r' | r' in s'.requests ensures GoneFor(s', r') {
      var j :| 0 <= j < |s'.requests| && s'.requests[j] == r';
      if j < |s.requests| {
        assert RequestOk(s, s.requests[j]) && GoneFor(s, s.requests[j]);
        RequestKeepsGone(s, e, j);
      }
    }
  }

  lemma RequestKeepsGone(s: State, e: Event, j: nat)
    requires Enabled(s, e) && SingleFlight(s) && j < |s.requests|
    requires RequestOk(s, s.requests[j]) && GoneFor(s, s.requests[j])
    requires e.RefreshBody? && e.body.Some? ==> UnsentAccess(s, e.body.value.access)
    ensures GoneFor(Apply(s, e), Apply(s, e).requests[j])
  {
    var r := s.requests[j];
    match e
    case RefreshAnswer(k, ok) => if !ok { SettleKeepsGone(s, k, None, r); }
    case RefreshBody(k, body) => SettleKeepsGone(s, k, body, r);
    case RefreshLost(k) => SettleKeepsGone(s, k, None, r);
    case Resume(i) => if i == j && Verdict(s, r.phase.on) { ResendKeepsGone(s, i, r.(retry := true)); }
    case Wake(i) => if i == j { ResendKeepsGone(s, i, r.(backoffs := r.backoffs + 1)); }
    case Answer(i, status) => AnswerKeepsGone(s, i, status, j);
    case _ =>
  }

  lemma AnswerKeepsGone(s: State, i: nat, status: nat, j: nat)
    requires Enabled(s, Answer(i, status)) && SingleFlight(s)
    requires j < |s.requests| && RequestOk(s, s.requests[j]) && GoneFor(s, s.requests[j])
    ensures GoneFor(Apply(s, Answer(i, status)), Apply(s, Answer(i, status)).requests[j])
  {
    if s.inFlight.Some? { assert Outstanding(s, s.inFlight.value); }
  }

  lemma {:induction false} RefusedIsGoneHolds(s: State, run: seq<Event>)
    requires Legal(s, run) && FreshAccess(s, run) && SingleFlight(s) && RequestsOk(s) && RefusedIsGone(s)
    ensures RefusedIsGone(After(s, run))
    decreases run
  {
    if run != [] {
      SingleFlightStep(s, run[0]);
      RequestsOkStep(s, run[0]);
      RefusedIsGoneStep(s, run[0]);
      RefusedIsGoneHolds(Apply(s, run[0]), run[1..]);
    }
  }

  /** A request replayed after a refresh never carries the token that was refused. */
  lemma ReplayNeverCarriesRefusedToken(tokens: Option<Tokens>, run: seq<Event>, r: Request, n: nat)
    requires Legal(Initial(tokens), run) && FreshAccess(Initial(tokens), run)
    requires r in After(Initial(tokens), run).requests && r.retry && 1 <= n < |r.sent|
    ensures r.sent[n].Some? ==> r.sent[n] != r.sent[0]
  {
    RefusedIsGoneHolds(Initial(tokens), run);
    assert r.sent[n] in r.sent[1..];
  }

  // --------------------------------------------------- every run is finite

  /** The most events one request can cause, its share of refresh calls included. */
  function Budget(e: Event): nat {
    match e
    case Begin(kind) => if kind.Api? then 6 else 10
    case _ => 0
  }

  function RequestFuel(r: Request): nat {
    var left := if r.backoffs <= MAX_BACKOFFS then 2 * (MAX_BACKOFFS - r.backoffs) else 0;
    match r.phase
    case Done(_) => 0
    case BackingOff => left
    case Waiting(_) => if r.kind.Api? then 2 else 6
    case InFlight =>
      if r.retry || r.backoffs > 0 then (if r.kind.Api? then 1 else left + 1)
      else if r.kind.Api? then 5 else 9
  }

  function CallFuel(c: Call): nat {
    match c.phase
    case Fetching => 2
    case Reading => 1
    case Settled(_) => 0
  }

  function Fuel(s: State): nat {
    Sum(s.requests, RequestFuel) + Sum(s.calls, CallFuel)
  }

  lemma RequestFuelStep(s: State, e: Event, i: nat)
    requires Enabled(s, e) && RequestsOk(s) && i < |s.requests|
    requires (e.Answer? || e.Lost? || e.Resume? || e.Wake?) && e.i == i
    ensures var s' := Apply(s, e);
            && |s'.requests| == |s.requests| && s'.requests == s.requests[i := s'.requests[i]]
            && (s'.calls == s.calls ==> RequestFuel(s'.requests[i]) < RequestFuel(s.requests[i]))
            && (s'.calls != s.calls ==>
                  && s'.calls == s.calls + [Call(s.tokens.value.refresh, Fetching)]
                  && RequestFuel(s'.requests[i]) + 2 < RequestFuel(s.requests[i]))
  {
    assert RequestOk(s, s.requests[i]);
  }

  lemma FuelStep(s: State, e: Event)
    requires Enabled(s, e) && RequestsOk(s)
    ensures 1 + Fuel(Apply(s, e)) <= Fuel(s) + Budget(e)
  {
    var s' := Apply(s, e);
    match e
    case Begin(kind) =>
      SumAppend(s.requests, [s'.requests[|s.requests|]], RequestFuel);
    case RefreshAnswer(k, _) => SumUpdate(s.calls, k, s'.calls[k], CallFuel);
    case RefreshBody(k, _) => SumUpdate(s.calls, k, s'.calls[k], CallFuel);
    case RefreshLost(k) => SumUpdate(s.calls, k, s'.calls[k], CallFuel);
    case Answer(i, status) =>
      RequestFuelStep(s, e, i);
      SumUpdate(s.requests, i, s'.requests[i], RequestFuel);
      if s'.calls != s.calls { SumAppend(s.calls, [s'.calls[|s.calls|]], CallFuel); }
    case _ =>
      RequestFuelStep(s, e, e.i);
      SumUpdate(s.requests, e.i, s'.requests[e.i], RequestFuel);
  }

  lemma {:induction false} FuelBound(s: State, run: seq<Event>)
    requires Legal(s, run) && SingleFlight(s) && RequestsOk(s)
    ensures |run| + Fuel(After(s, run)) <= Fuel(s) + Sum(run, Budget)
    decreases run
  {
    if run != [] {
      SingleFlightStep(s, run[0]);
      RequestsOkStep(s, run[0]);
      FuelStep(s, run[0]);
      FuelBound(Apply(s, run[0]), run[1..]);
    }
  }

  /** Refreshing never recurses without end: n requests and m artwork tiles
      cause at most 6n + 10m events in any run. */
  lemma RunsAreBounded(tokens: Option<Tokens>, run: seq<Event>)
    requires Legal(Initial(tokens), run)
    ensures |run| <= Sum(run, Budget)
  {
    FuelBound(Initial(tokens), run);
  }

  ghost predicate Quiet(s: State) {
    forall e :: Enabled(s, e) ==> e.Begin?
  }

  lemma QuietClearsRefresh(s: State)
    requires SingleFlight(s) && Quiet(s)
    ensures s.inFlight.None? && forall k: nat :: !Outstanding(s, k)
  {
    forall k: nat ensures !Outstanding(s, k) {
      assert Enabled(s, RefreshAnswer(k, true)) ==> false;
      assert Enabled(s, RefreshBody(k, None)) ==> false;
    }
    assert forall k: nat :: s.inFlight == Some(k) ==> Outstanding(s, k);
  }

  lemma QuietRequestIsDone(s: State, i: nat)
    requires SingleFlight(s) && RequestsOk(s) && Quiet(s) && i < |s.requests|
    ensures s.requests[i].phase.Done?
  {
    QuietClearsRefresh(s);
    assert RequestOk(s, s.requests[i]);
    assert Enabled(s, Lost(i)) ==> false;
    assert Enabled(s, Wake(i)) ==> false;
    assert Enabled(s, Resume(i)) ==> false;
    assert s.requests[i].phase.Waiting? && s.requests[i].phase.on.Of? ==> !Outstanding(s, s.requests[i].phase.on.call);
  }

  /** Nobody waits for ever: when a run has nothing left to happen but new requests,
      every request is done, every refresh call settled and the promise cleared. */
  lemma QuietMeansDone(tokens: Option<Tokens>, run: seq<Event>)
    requires Legal(Initial(tokens), run) && Quiet(After(Initial(tokens), run))
    ensures var s := After(Initial(tokens), run);
            && s.inFlight.None?
            && (forall k: nat :: !Outstanding(s, k))
            && (forall r :: r in s.requests ==> r.phase.Done?)
  {
    StructureHolds(Initial(tokens), run);
    var s := After(Initial(tokens), run);
    QuietClearsRefresh(s);
    forall i: nat | i < |s.requests| { QuietRequestIsDone(s, i); }
  }

  /** A dropped session stays dropped: without tokens nothing is ever presented again. */
  lemma {:induction false} LoggedOutStaysLoggedOut(s: State, run: seq<Event>)
    requires Legal(s, run) && SingleFlight(s) && s.tokens.None?
    ensures After(s, run).tokens.None? && After(s, run).calls == s.calls
    decreases run
  {
    if run != [] {
      var e := run[0];
      SingleFlightStep(s, e);
      if e.RefreshAnswer? || e.RefreshBody? || e.RefreshLost? {
        assert Outstanding(s, e.k);
        assert false;
      } else {
        LoggedOutStaysLoggedOut(Apply(s, e), run[1..]);
      }
    }
  }

  // ----------------------------------------- what a run is seen to do

  /** The tokens held after a run, read off its events alone: a refresh that comes
      to an end stores what it brought, or drops everything. */
  function Held(tokens: Option<Tokens>, run: seq<Event>): Option<Tokens> {
    if run == [] then tokens
    else
      var before := Held(tokens, run[..|run| - 1]);
      match run[|run| - 1]
      case RefreshBody(_, body) => body
      case RefreshAnswer(_, ok) => if ok then before else None
      case RefreshLost(_) => None
      case _ => before
  }

  /** What was heard last of request `i`. */
  function LastHeard(run: seq<Event>, i: nat): Option<Outcome> {
    if run == [] then None
    else
      var e := run[|run| - 1];
      if e.Answer? && e.i == i then Some(Answered(e.status))
      else if e.Lost? && e.i == i then Some(Broken)
      else LastHeard(run[..|run| - 1], i)
  }

  /** Refresh call `k` brought tokens. */
  predicate Brought(run: seq<Event>, k: nat) {
    exists e :: e in run && e.RefreshBody? && e.k == k && e.body.Some?
  }

  lemma {:induction false} AfterSnoc(s: State, run: seq<Event>, e: Event)
    requires Legal(s, run + [e])
    ensures Legal(s, run) && Enabled(After(s, run), e) && After(s, run + [e]) == Apply(After(s, run), e)
    decreases run
  {
    if run == [] {
      assert run + [e] == [e];
    } else {
      assert (run + [e])[0] == run[0] && (run + [e])[1..] == run[1..] + [e];
      AfterSnoc(Apply(s, run[0]), run[1..], e);
    }
  }

  lemma Snoc(s: State, run: seq<Event>) returns (front: seq<Event>, e: Event)
    requires Legal(s, run) && run != []
    ensures run == front + [e] && front == run[..|run| - 1] && e == run[|run| - 1]
    ensures Legal(s, front) && Enabled(After(s, front), e) && After(s, run) == Apply(After(s, front), e)
  {
    front, e := run[..|run| - 1], run[|run| - 1];
    assert run == front + [e];
    AfterSnoc(s, front, e);
  }

  /** The tokens held are those the last refresh to end brought; if it brought none,
      there are none. */
  lemma {:induction false} TokensAreTheLastBrought(tokens: Option<Tokens>, run: seq<Event>)
    requires Legal(Initial(tokens), run)
    ensures After(Initial(tokens), run).tokens == Held(tokens, run)
    decreases |run|
  {
    if run != [] {
      var front, e := Snoc(Initial(tokens), run);
      TokensAreTheLastBrought(tokens, front);
    }
  }

  /** A refresh call counts as successful exactly if it brought tokens. */
  lemma {:induction false} CallSucceedsIffBrought(tokens: Option<Tokens>, run: seq<Event>, k: nat)
    requires Legal(Initial(tokens), run)
    ensures IsCall(After(Initial(tokens), run), k, Settled(true)) <==> Brought(run, k)
    decreases |run|
  {
    if run != [] {
      var front, e := Snoc(Initial(tokens), run);
      CallSucceedsIffBrought(tokens, front, k);
      assert forall x :: x in run <==> x in front || x == e;
      if Brought(front, k) {
        var b :| b in front && b.RefreshBody? && b.k == k && b.body.Some?;
        assert b in run;
      }
      if e.RefreshBody? && e.k == k && e.body.Some? { assert e in run; }
    }
  }

  /** What a suspended or finished request shows of the last thing heard of it. */
  predicate ShowsLastHeard(run: seq<Event>, i: nat, phase: Phase) {
    match phase
    case InFlight => true
    case Waiting(_) => LastHeard(run, i) == Some(Answered(401))
    case BackingOff => LastHeard(run, i) == Some(Answered(429))
    case Done(outcome) => LastHeard(run, i) == Some(outcome)
  }

  /** What the caller of a request gets is what was heard last: no refresh and no
      retry ever makes up, changes or hides an answer. */
  lemma {:induction false} OutcomeIsTheLastHeard(tokens: Option<Tokens>, run: seq<Event>, i: nat)
    requires Legal(Initial(tokens), run) && i < |After(Initial(tokens), run).requests|
    ensures ShowsLastHeard(run, i, After(Initial(tokens), run).requests[i].phase)
    decreases |run|
  {
    if run != [] {
      var front, e := Snoc(Initial(tokens), run);
      if i < |After(Initial(tokens), front).requests| { OutcomeIsTheLastHeard(tokens, front, i); }
    }
  }

  /** An answer decides how a request goes on. The first 401 to a request that may
      carry tokens makes it wait for the refresh in flight, which presents the refresh
      token held; a tile asks even without one and waits for a refusal. A 429 makes
      a tile back off, twice at most. Anything else is the outcome. */
  lemma AnswerDecides(tokens: Option<Tokens>, run: seq<Event>, i: nat, status: nat)
    requires Legal(Initial(tokens), run) && Enabled(After(Initial(tokens), run), Answer(i, status))
    ensures var s := After(Initial(tokens), run);
            var s', r := Apply(s, Answer(i, status)), s.requests[i];
            var held := s.tokens.Some? && s.tokens.value.refresh != "";
            var phase := s'.requests[i].phase;
            && s'.requests[i].sent == r.sent
            && if status == 401 && |r.sent| == 1 && held && r.kind != Api(false) then
                 && phase.Waiting? && phase.on.Of? && s'.inFlight == Some(phase.on.call)
                 && phase.on.call < |s'.calls| && s'.calls[phase.on.call].presented == s.tokens.value.refresh
               else if status == 401 && |r.sent| == 1 && r.kind == Artwork then
                 phase == Waiting(Resolved(false))
               else if status == 429 && r.kind == Artwork && r.backoffs < 2 then
                 phase == BackingOff
               else
                 phase == Done(Answered(status))
  {
    StructureHolds(Initial(tokens), run);
    var s := After(Initial(tokens), run);
    assert RequestOk(s, s.requests[i]);
    SingleFlightStep(s, Answer(i, status));
  }

  /** The access token a request of this kind carries while these tokens are held. */
  ghost predicate Carries(token: Option<string>, held: Option<Tokens>, kind: Kind) {
    if kind == Api(false) || held.None? || held.value.access == "" then token == None else token == Some(held.value.access)
  }

  /** Every send carries the access token held at that moment. A new request is sent
      at once, a tile again when its back-off ends, and a waiting request again exactly
      if the refresh it waits for brought tokens; no other event sends anything. */
  lemma SendsCarryTheTokensHeld(tokens: Option<Tokens>, run: seq<Event>, e: Event, i: nat)
    requires Legal(Initial(tokens), run + [e]) && i < |After(Initial(tokens), run + [e]).requests|
    ensures Legal(Initial(tokens), run)
    ensures var s, s' := After(Initial(tokens), run), After(Initial(tokens), run + [e]);
            var sent := s'.requests[i].sent;
            if i >= |s.requests| then
              && i == |s.requests| && e.Begin? && s'.requests[i].kind == e.kind
              && |sent| == 1 && Carries(sent[0], Held(tokens, run), e.kind)
            else
              var r := s.requests[i];
              var replays := e == Resume(i) && r.phase.Waiting? && r.phase.on.Of? && Brought(run, r.phase.on.call);
              && s'.requests[i].kind == r.kind
              && if replays || e == Wake(i) then
                   && s'.requests[i].phase == InFlight && |sent| == |r.sent| + 1 && sent[..|r.sent|] == r.sent
                   && Carries(sent[|r.sent|], Held(tokens, run), r.kind)
                 else
                   sent == r.sent
  {
    AfterSnoc(Initial(tokens), run, e);
    var s := After(Initial(tokens), run);
    TokensAreTheLastBrought(tokens, run);
    StructureHolds(Initial(tokens), run);
    if i < |s.requests| {
      assert RequestOk(s, s.requests[i]);
      if e == Resume(i) && s.requests[i].phase.on.Of? {
        CallSucceedsIffBrought(tokens, run, s.requests[i].phase.on.call);
      }
    }
  }

  /** No refresh call ends in a failure and none brings anything. */
  predicate NoRefreshEnds(run: seq<Event>) {
    forall e :: e in run ==> !e.RefreshBody? && !e.RefreshLost? && (e.RefreshAnswer? ==> e.ok)
  }

  lemma {:induction false} HeldMeanwhile(tokens: Option<Tokens>, run: seq<Event>, more: seq<Event>)
    requires NoRefreshEnds(more)
    ensures Held(tokens, run + more) == Held(tokens, run)
    decreases |more|
  {
    if more == [] {
      assert run + more == run;
    } else {
      var front := more[..|more| - 1];
      assert (run + more)[..|run + more| - 1] == run + front && (run + more)[|run + more| - 1] == more[|more| - 1];
      HeldMeanwhile(tokens, run, front);
    }
  }

  /** A request that waited for a refresh and resumes before another one ends is sent
      again with exactly the access token that refresh brought. */
  lemma ReplayCarriesWhatWasBrought(
      tokens: Option<Tokens>, before: seq<Event>, k: nat, brought: Tokens, meanwhile: seq<Event>, i: nat)
    requires var run := (before + [RefreshBody(k, Some(brought))]) + meanwhile;
             && Legal(Initial(tokens), run + [Resume(i)]) && Legal(Initial(tokens), run)
             && i < |After(Initial(tokens), run).requests|
             && After(Initial(tokens), run).requests[i].phase == Waiting(Of(k))
             && After(Initial(tokens), run).requests[i].kind != Api(false)
    requires NoRefreshEnds(meanwhile) && brought.access != ""
    ensures var run := (before + [RefreshBody(k, Some(brought))]) + meanwhile;
            var r, after := After(Initial(tokens), run).requests[i], After(Initial(tokens), run + [Resume(i)]).requests;
            i < |after| && after[i].phase == InFlight && after[i].sent == r.sent + [Some(brought.access)]
  {
    var first := before + [RefreshBody(k, Some(brought))];
    var run := first + meanwhile;
    assert first[..|first| - 1] == before && first[|first| - 1] == RefreshBody(k, Some(brought));
    HeldMeanwhile(tokens, first, meanwhile);
    assert run[|before|] == RefreshBody(k, Some(brought)) && Brought(run, k);
    AfterSnoc(Initial(tokens), run, Resume(i));
    SendsCarryTheTokensHeld(tokens, run, Resume(i), i);
  }

  // ----------------------------------------------------- the client itself

  /** The module variables of api.ts and the requests suspended in it. */
  class Client {
    var tokens: Option<Tokens>
    var inFlight: Option<nat>
    var calls: seq<Call>
    var requests: seq<Request>

    ghost function View(): State
      reads this
    {
      State(tokens, inFlight, calls, requests)
    }

    constructor (stored: Option<Tokens>)
      ensures View() == Initial(stored)
    {
      tokens, inFlight, calls, requests := stored, None, [], [];
    }

    method StartRequest(kind: Kind)
      modifies this
      ensures View() == Apply(old(View()), Begin(kind))
    {
      requests := requests + [Request(kind, false, 0, [Bearer(tokens, kind)], InFlight)];
    }

    method Refresh() returns (p: Promise)
      modifies this
      ensures (View(), p) == PerformRefresh(old(View()))
      ensures requests == old(requests) && tokens == old(tokens)
    {
      if tokens.None? || tokens.value.refresh == "" {
        return Resolved(false);
      }
      if inFlight.Some? {
        return Of(inFlight.value);
      }
      p := Of(|calls|);
      inFlight := Some(|calls|);
      calls := calls + [Call(tokens.value.refresh, Fetching)];
    }

    method SetTokens(next: Option<Tokens>)
      modifies this`tokens
      ensures tokens == next
    {
      tokens := next;
    }

    method SettleRefresh(k: nat, next: Option<Tokens>)
      requires k < |calls|
      modifies this
      ensures View() == Settle(old(View()), k, next)
    {
      SetTokens(next);
      calls := calls[k := calls[k].(phase := Settled(next.Some?))];
      inFlight := None;
    }

    method OnAnswer(i: nat, status: nat)
      requires Enabled(View(), Answer(i, status))
      modifies this
      ensures View() == Apply(old(View()), Answer(i, status))
    {
      var r := requests[i];
      var holds := tokens.Some? && tokens.value.refresh != "";
      var eligible := if r.kind.Artwork? then r.backoffs == 0 else r.kind.auth && holds;
      if status == UNAUTHORIZED && !r.retry && eligible {
        var p := Refresh();
        requests := requests[i := r.(phase := Waiting(p))];
      } else if r.kind.Artwork? && status == TOO_MANY && r.backoffs < MAX_BACKOFFS {
        requests := requests[i := r.(phase := BackingOff)];
      } else {
        requests := requests[i := r.(phase := Done(Answered(status)))];
      }
    }

    method OnRefreshAnswer(k: nat, ok: bool)
      requires Enabled(View(), RefreshAnswer(k, ok))
      modifies this
      ensures View() == Apply(old(View()), RefreshAnswer(k, ok))
    {
      if ok {
        calls := calls[k := calls[k].(phase := Reading)];
      } else {
        SettleRefresh(k, None);
      }
    }

    method OnRefreshBody(k: nat, body: Option<Tokens>)
      requires Enabled(View(), RefreshBody(k, body))
      modifies this
      ensures View() == Apply(old(View()), RefreshBody(k, body))
    {
      SettleRefresh(k, body);
    }

    method OnRefreshLost(k: nat)
      requires Enabled(View(), RefreshLost(k))
      modifies this
      ensures View() == Apply(old(View()), RefreshLost(k))
    {
      SettleRefresh(k, None);
    }

    method OnLost(i: nat)
      requires Enabled(View(), Lost(i))
      modifies this
      ensures View() == Apply(old(View()), Lost(i))
    {
      requests := requests[i := requests[i].(phase := Done(Broken))];
    }

    method OnWake(i: nat)
      requires Enabled(View(), Wake(i))
      modifies this
      ensures View() == Apply(old(View()), Wake(i))
    {
      var r := requests[i];
      requests := requests[i := r.(backoffs := r.backoffs + 1, sent := r.sent + [Bearer(tokens, r.kind)], phase := InFlight)];
    }

    method OnResume(i: nat)
      requires Enabled(View(), Resume(i))
      modifies this
      ensures View() == Apply(old(View()), Resume(i))
    {
      var r := requests[i];
      var refreshed := match r.phase.on case Resolved(ok) => ok case Of(k) => calls[k].phase.ok;
      if refreshed {
        requests := requests[i := r.(retry := true, sent := r.sent + [Bearer(tokens, r.kind)], phase := InFlight)];
      } else {
        requests := requests[i := r.(phase := Done(Answered(UNAUTHORIZED)))];
      }
    }

    /** Whatever the outside world decides next. */
    method Happen(e: Event)
      requires Enabled(View(), e)
      modifies this
      ensures View() == Apply(old(View()), e)
    {
      match e
      case Begin(kind) => StartRequest(kind);
      case Answer(i, status) => OnAnswer(i, status);
      case Lost(i) => OnLost(i);
      case RefreshAnswer(k, ok) => OnRefreshAnswer(k, ok);
      case RefreshBody(k, body) => OnRefreshBody(k, body);
      case RefreshLost(k) => OnRefreshLost(k);
      case Resume(i) => OnResume(i);
      case Wake(i) => OnWake(i);
    }

    /** A whole run of events, in any order the protocol allows: every theorem about
        runs is a theorem about the client that went through them. */
    method Execute(run: seq<Event>)
      requires Legal(View(), run)
      modifies this
      ensures View() == After(old(View()), run)
    {
      assert run[0..] == run;
      for k := 0 to |run|
        invariant Legal(View(), run[k..]) && After(View(), run[k..]) == After(old(View()), run)
      {
        assert run[k..][1..] == run[k + 1..];
        Happen(run[k]);
      }
    }
  }

  /** A client that starts from storage and lives through a run: at most one refresh
      is under way in it, and with fresh refresh tokens none was presented twice. */
  method Session(stored: Option<Tokens>, run: seq<Event>) returns (c: Client)
    requires Legal(Initial(stored), run)
    ensures fresh(c) && c.View() == After(Initial(stored), run)
    ensures forall j: nat, k: nat :: Outstanding(c.View(), j) && Outstanding(c.View(), k) ==> j == k
    ensures FreshRefresh(Initial(stored), run) ==>
              forall j, k :: 0 <= j < k < |c.calls| ==> c.calls[j].presented != c.calls[k].presented
  {
    c := new Client(stored);
    c.Execute(run);
    AtMostOneRefreshOutstanding(stored, run);
    if FreshRefresh(Initial(stored), run) { NeverReusedHolds(Initial(stored), run); }
  }
}
