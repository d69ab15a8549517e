/** The names on a redacted screen: ops/scripts/ansi-to-svg.py. */
module ScreenNames {
  import opened Sequences
  import opened Redaction
  import opened TitleSpace
  import opened ShippedNames
  import opened ScreenLayout

  // What the registry promises of a run of requests, carried to the places of a
  // screen where its names are put.

  // ------------------------------------------------- a redaction is a run

  /** The requests made so far. */
  type Log = seq<Request>

  /** Names as the registry gives them, remembering the requests instead of it. */
  function LogNaming(sp: Spelling): Naming<Log> {
    (log: Log, original: string, kind: Kind) =>
      (log + [Request(original, kind)], Serve(After(sp, log), sp, Request(original, kind)).1)
  }

  /** Going on with the log is going on with the registry it leads to. */
  ghost predicate Tracks(sp: Spelling, log: Log, logged: (Log, Line), named: (Names, Line)) {
    log <= logged.0 && named == (After(sp, logged.0), logged.1)
  }

  ghost predicate Simulates(sp: Spelling, a: LineStep<Log>, b: LineStep<Names>) {
    forall log, line :: Tracks(sp, log, a(log, line), b(After(sp, log), line))
  }

  lemma AskOnce(sp: Spelling, log: Log, r: Request)
    ensures After(sp, log + [r]) == Serve(After(sp, log), sp, r).0
  {
    assert (log + [r])[..|log|] == log;
  }

  /** What the registry is asked, for what stands in the span. */
  function Ask(e: Edit, line: Line): Request
    requires SpanIn(e, line).Some?
  {
    Request(Original(line, SpanIn(e, line).value), KindOf(e))
  }

  lemma EditSimulates(sp: Spelling, e: Edit)
    ensures Simulates(sp, EditStep(LogNaming(sp), e), EditStep(RegistryNaming(sp), e))
  {
    var a, b := EditStep(LogNaming(sp), e), EditStep(RegistryNaming(sp), e);
    forall log, line ensures Tracks(sp, log, a(log, line), b(After(sp, log), line)) {
      if SpanIn(e, line).Some? { AskOnce(sp, log, Ask(e, line)); }
    }
  }

  lemma {:induction false} ThroughSimulates(
      sp: Spelling, log: Log, line: Line, a: seq<LineStep<Log>>, b: seq<LineStep<Names>>, k: nat)
    requires k <= |a| == |b| && forall i :: 0 <= i < |a| ==> Simulates(sp, a[i], b[i])
    ensures Tracks(sp, log, Through(log, line, a, k), Through(After(sp, log), line, b, k))
  {
    if k > 0 {
      ThroughSimulates(sp, log, line, a, b, k - 1);
      var (log', line') := Through(log, line, a, k - 1);
      assert Simulates(sp, a[k - 1], b[k - 1]);
      assert Tracks(sp, log', a[k - 1](log', line'), b[k - 1](After(sp, log'), line'));
    }
  }

  lemma RowSimulates(sp: Spelling, columns: seq<Column>)
    ensures Simulates(sp, RowStep(LogNaming(sp), columns), RowStep(RegistryNaming(sp), columns))
  {
    var a, b := RowStep(LogNaming(sp), columns), RowStep(RegistryNaming(sp), columns);
    forall log, line ensures Tracks(sp, log, a(log, line), b(After(sp, log), line)) {
      forall i | 0 <= i < |columns| { EditSimulates(sp, OnColumn(Plain(line), columns[i])); }
      ThroughSimulates(sp, log, line, ColumnSteps(LogNaming(sp), Plain(line), columns),
                       ColumnSteps(RegistryNaming(sp), Plain(line), columns), |columns|);
    }
  }

  ghost predicate TracksAll(sp: Spelling, log: Log, logged: (Log, seq<Line>), named: (Names, seq<Line>)) {
    log <= logged.0 && named == (After(sp, logged.0), logged.1)
  }

  lemma {:induction false} SweepSimulates(
      sp: Spelling, log: Log, lines: seq<Line>, a: LineStep<Log>, b: LineStep<Names>, i: nat)
    requires i <= |lines| && Simulates(sp, a, b)
    ensures TracksAll(sp, log, Sweep(log, lines, a, i), Sweep(After(sp, log), lines, b, i))
  {
    if i > 0 {
      SweepSimulates(sp, log, lines, a, b, i - 1);
      var (log', ls) := Sweep(log, lines, a, i - 1);
      assert Tracks(sp, log', a(log', ls[i - 1]), b(After(sp, log'), ls[i - 1]));
    }
  }

  lemma {:induction false} SweepAllSimulates(
      sp: Spelling, log: Log, lines: seq<Line>, a: seq<LineStep<Log>>, b: seq<LineStep<Names>>, k: nat)
    requires k <= |a| == |b| && forall i :: 0 <= i < |a| ==> Simulates(sp, a[i], b[i])
    ensures TracksAll(sp, log, SweepAll(log, lines, a, k), SweepAll(After(sp, log), lines, b, k))
  {
    if k > 0 {
      SweepAllSimulates(sp, log, lines, a, b, k - 1);
      var (log', ls) := SweepAll(log, lines, a, k - 1);
      SweepSimulates(sp, log', ls, a[k - 1], b[k - 1], |ls|);
    }
  }

  /** A column redaction from where a run of requests led is the same run, gone on
      with the requests in the log. */
  lemma RedactIsARun(sp: Spelling, log: Log, lines: seq<Line>, columns: seq<Column>)
    ensures TracksAll(sp, log, RedactLines(log, LogNaming(sp), lines, columns),
                      RedactLines(After(sp, log), RegistryNaming(sp), lines, columns))
  {
    RowSimulates(sp, columns);
    SweepSimulates(sp, log, lines, RowStep(LogNaming(sp), columns), RowStep(RegistryNaming(sp), columns), |lines|);
  }

  /** So is a prose redaction. */
  lemma MatchIsARun(sp: Spelling, log: Log, lines: seq<Line>, patterns: seq<Pattern>)
    ensures TracksAll(sp, log, MatchAll(log, LogNaming(sp), lines, patterns),
                      MatchAll(After(sp, log), RegistryNaming(sp), lines, patterns))
  {
    var a, b := MatchSteps(LogNaming(sp), patterns), MatchSteps(RegistryNaming(sp), patterns);
    forall i | 0 <= i < |patterns| ensures Simulates(sp, a[i], b[i]) { EditSimulates(sp, OnMatch(patterns[i])); }
    SweepAllSimulates(sp, log, lines, a, b, |patterns|);
  }

  // ------------------------------------------------ logs only ever grow

  ghost predicate Adds(step: LineStep<Log>) { forall log, line :: log <= step(log, line).0 }

  lemma {:induction false} ThroughAdds(log: Log, line: Line, steps: seq<LineStep<Log>>, k: nat, m: nat)
    requires k <= m <= |steps| && forall i :: 0 <= i < |steps| ==> Adds(steps[i])
    ensures Through(log, line, steps, k).0 <= Through(log, line, steps, m).0
    decreases m
  {
    if k < m {
      ThroughAdds(log, line, steps, k, m - 1);
      assert Adds(steps[m - 1]);
    }
  }

  lemma {:induction false} SweepAdds(log: Log, lines: seq<Line>, step: LineStep<Log>, i: nat, j: nat)
    requires i <= j <= |lines| && Adds(step)
    ensures Sweep(log, lines, step, i).0 <= Sweep(log, lines, step, j).0
    decreases j
  {
    if i < j { SweepAdds(log, lines, step, i, j - 1); }
  }

  lemma {:induction false} SweepAllAdds(log: Log, lines: seq<Line>, steps: seq<LineStep<Log>>, k: nat, m: nat)
    requires k <= m <= |steps| && forall i :: 0 <= i < |steps| ==> Adds(steps[i])
    ensures SweepAll(log, lines, steps, k).0 <= SweepAll(log, lines, steps, m).0
    decreases m
  {
    if k < m {
      SweepAllAdds(log, lines, steps, k, m - 1);
      var (log', ls) := SweepAll(log, lines, steps, m - 1);
      SweepAdds(log', ls, steps[m - 1], 0, |ls|);
    }
  }

  lemma EditAdds(sp: Spelling, e: Edit)
    ensures Adds(EditStep(LogNaming(sp), e))
  {
  }

  lemma RowAdds(sp: Spelling, columns: seq<Column>)
    ensures Adds(RowStep(LogNaming(sp), columns))
  {
    forall log, line ensures log <= RowStep(LogNaming(sp), columns)(log, line).0 {
      forall i | 0 <= i < |columns| { EditAdds(sp, OnColumn(Plain(line), columns[i])); }
      ThroughAdds(log, line, ColumnSteps(LogNaming(sp), Plain(line), columns), 0, |columns|);
    }
  }

  // ---------------------------------------- the places where names are put

  /** One page: the requests before it, its lines, and what is to be redacted. */
  datatype Page = Page(sp: Spelling, log: Log, lines: seq<Line>, columns: seq<Column>, patterns: seq<Pattern>) {
    function Naming(): Naming<Log> { LogNaming(sp) }

    /** The log when the column redaction comes to a row; at the end, after it. */
    function RowLog(row: nat): Log
      requires row <= |lines|
    {
      Sweep(log, lines, RowStep(Naming(), columns), row).0
    }

    function Steps(row: nat): (r: seq<LineStep<Log>>)
      requires row < |lines|
      ensures |r| == |columns| && forall i :: 0 <= i < |r| ==> r[i] == EditStep(Naming(), OnColumn(Plain(lines[row]), columns[i]))
    {
      ColumnSteps(Naming(), Plain(lines[row]), columns)
    }

    function Redacted(): (r: (Log, seq<Line>))
      ensures |r.1| == |lines| && r.0 == RowLog(|lines|)
    {
      RedactLines(log, Naming(), lines, columns)
    }

    /** The screen after column and prose redaction, as `main` does them. */
    function Published(): (Log, seq<Line>) {
      MatchAll(Redacted().0, Naming(), Redacted().1, patterns)
    }

    /** The log when the prose redaction comes to a pattern; at the end, after it. */
    function PatternLog(pattern: nat): Log
      requires pattern <= |patterns|
    {
      SweepAll(Redacted().0, Redacted().1, MatchSteps(Naming(), patterns), pattern).0
    }
  }

  /** What it answers. */
  function StandInFor(sp: Spelling, e: Edit, log: Log, line: Line): string
    requires SpanIn(e, line).Some?
  {
    Serve(After(sp, log), sp, Ask(e, line)).1
  }

  /** A column specification on a row, or a pattern on a row. */
  datatype Spot = ColumnSpot(row: nat, spec: nat) | MatchSpot(row: nat, pattern: nat)

  predicate On(page: Page, s: Spot) {
    s.row < |page.lines| && if s.ColumnSpot? then s.spec < |page.columns| else s.pattern < |page.patterns|
  }

  function EditAt(page: Page, s: Spot): Edit
    requires On(page, s)
  {
    match s
    case ColumnSpot(row, spec) => OnColumn(Plain(page.lines[row]), page.columns[spec])
    case MatchSpot(_, pattern) => OnMatch(page.patterns[pattern])
  }

  /** What a spot meets: the requests so far, and the line as it then stands. */
  function Met(page: Page, s: Spot): (Log, Line)
    requires On(page, s)
  {
    match s
    case ColumnSpot(row, spec) => Through(page.RowLog(row), page.lines[row], page.Steps(row), spec)
    case MatchSpot(row, pattern) =>
      (NamesAt(page.Redacted().0, page.Naming(), page.Redacted().1, page.patterns, pattern, row),
       LineAt(page.Redacted().0, page.Naming(), page.Redacted().1, page.patterns, pattern, row))
  }

  /** What it leaves behind. */
  function Left(page: Page, s: Spot): (Log, Line)
    requires On(page, s)
  {
    EditStep(page.Naming(), EditAt(page, s))(Met(page, s).0, Met(page, s).1)
  }

  /** A name is put there. */
  predicate NamedAt(page: Page, s: Spot) { On(page, s) && SpanIn(EditAt(page, s), Met(page, s).1).Some? }

  function AskedAt(page: Page, s: Spot): Request
    requires NamedAt(page, s)
  {
    Ask(EditAt(page, s), Met(page, s).1)
  }

  function StandInAt(page: Page, s: Spot): string
    requires NamedAt(page, s)
  {
    StandInFor(page.sp, EditAt(page, s), Met(page, s).0, Met(page, s).1)
  }

  // ------------------------------------------------------ in which order

  /** Columns come before patterns, rows before specifications, patterns before rows. */
  predicate Before(a: Spot, b: Spot) {
    match (a, b)
    case (ColumnSpot(row, spec), ColumnSpot(row', spec')) => row < row' || (row == row' && spec < spec')
    case (ColumnSpot(_, _), MatchSpot(_, _)) => true
    case (MatchSpot(_, _), ColumnSpot(_, _)) => false
    case (MatchSpot(row, pattern), MatchSpot(row', pattern')) => pattern < pattern' || (pattern == pattern' && row < row')
  }

  lemma RowEnds(page: Page, row: nat)
    requires row < |page.lines|
    ensures page.RowLog(row + 1) == Through(page.RowLog(row), page.lines[row], page.Steps(row), |page.columns|).0
  {
    SweepAt(page.log, page.lines, RowStep(page.Naming(), page.columns), row, row);
  }

  lemma RowLogsAdd(page: Page, row: nat, later: nat)
    requires row <= later <= |page.lines|
    ensures page.RowLog(row) <= page.RowLog(later)
  {
    RowAdds(page.sp, page.columns);
    SweepAdds(page.log, page.lines, RowStep(page.Naming(), page.columns), row, later);
  }

  lemma InRowAdds(page: Page, row: nat, spec: nat, later: nat)
    requires row < |page.lines| && spec <= later <= |page.columns|
    ensures Through(page.RowLog(row), page.lines[row], page.Steps(row), spec).0 <=
            Through(page.RowLog(row), page.lines[row], page.Steps(row), later).0
  {
    forall i | 0 <= i < |page.columns| { EditAdds(page.sp, OnColumn(Plain(page.lines[row]), page.columns[i])); }
    ThroughAdds(page.RowLog(row), page.lines[row], page.Steps(row), spec, later);
  }

  /** What a column spot leaves is still there later in its row, and behind it. */
  lemma ColumnLeavesInRow(page: Page, row: nat, spec: nat, later: nat)
    requires On(page, ColumnSpot(row, spec)) && spec < later <= |page.columns|
    ensures Left(page, ColumnSpot(row, spec)).0 <= Through(page.RowLog(row), page.lines[row], page.Steps(row), later).0
  {
    InRowAdds(page, row, spec + 1, later);
  }

  lemma ColumnLeaves(page: Page, row: nat, spec: nat)
    requires On(page, ColumnSpot(row, spec))
    ensures Left(page, ColumnSpot(row, spec)).0 <= page.RowLog(row + 1)
  {
    ColumnLeavesInRow(page, row, spec, |page.columns|);
    RowEnds(page, row);
  }

  lemma PatternLogsAdd(page: Page, pattern: nat, later: nat)
    requires pattern <= later <= |page.patterns|
    ensures page.PatternLog(pattern) <= page.PatternLog(later)
  {
    forall i | 0 <= i < |page.patterns| { EditAdds(page.sp, OnMatch(page.patterns[i])); }
    SweepAllAdds(page.Redacted().0, page.Redacted().1, MatchSteps(page.Naming(), page.patterns), pattern, later);
  }

  lemma SweepLeaves(log: Log, lines: seq<Line>, step: LineStep<Log>, row: nat, later: nat)
    requires row < later <= |lines| && Adds(step)
    ensures step(Sweep(log, lines, step, row).0, lines[row]).0 <= Sweep(log, lines, step, later).0
  {
    SweepAt(log, lines, step, row, row);
    SweepAdds(log, lines, step, row + 1, later);
  }

  /** What a match spot leaves is still there for later rows and patterns. */
  lemma MatchLeavesInPattern(page: Page, row: nat, pattern: nat, later: nat)
    requires On(page, MatchSpot(row, pattern)) && row < later < |page.lines|
    ensures Left(page, MatchSpot(row, pattern)).0 <= Met(page, MatchSpot(later, pattern)).0
  {
    var steps := MatchSteps(page.Naming(), page.patterns);
    var (log, ls) := SweepAll(page.Redacted().0, page.Redacted().1, steps, pattern);
    EditAdds(page.sp, OnMatch(page.patterns[pattern]));
    SweepLeaves(log, ls, steps[pattern], row, later);
  }

  lemma SweepAllLeaves(log: Log, lines: seq<Line>, steps: seq<LineStep<Log>>, row: nat, k: nat, later: nat)
    requires row < |lines| && k < later <= |steps| && forall i :: 0 <= i < |steps| ==> Adds(steps[i])
    ensures var (log', ls) := SweepAll(log, lines, steps, k);
            steps[k](Sweep(log', ls, steps[k], row).0, ls[row]).0 <= SweepAll(log, lines, steps, later).0
  {
    var (log', ls) := SweepAll(log, lines, steps, k);
    SweepLeaves(log', ls, steps[k], row, |ls|);
    SweepAllAdds(log, lines, steps, k + 1, later);
  }

  lemma MatchBeforePattern(page: Page, row: nat, pattern: nat, later: nat)
    requires On(page, MatchSpot(row, pattern)) && pattern < later <= |page.patterns|
    ensures Left(page, MatchSpot(row, pattern)).0 <= page.PatternLog(later)
  {
    forall i | 0 <= i < |page.patterns| { EditAdds(page.sp, OnMatch(page.patterns[i])); }
    SweepAllLeaves(page.Redacted().0, page.Redacted().1, MatchSteps(page.Naming(), page.patterns), row, pattern, later);
  }

  lemma MatchMeetsPatternLog(page: Page, row: nat, pattern: nat)
    requires On(page, MatchSpot(row, pattern))
    ensures page.PatternLog(pattern) <= Met(page, MatchSpot(row, pattern)).0
  {
    var steps := MatchSteps(page.Naming(), page.patterns);
    var (log, ls) := SweepAll(page.Redacted().0, page.Redacted().1, steps, pattern);
    EditAdds(page.sp, OnMatch(page.patterns[pattern]));
    SweepAdds(log, ls, steps[pattern], 0, row);
  }

  lemma ColumnBeforeColumn(page: Page, a: Spot, b: Spot)
    requires On(page, a) && On(page, b) && Before(a, b) && a.ColumnSpot? && b.ColumnSpot?
    ensures Left(page, a).0 <= Met(page, b).0
  {
    if a.row == b.row {
      ColumnLeavesInRow(page, a.row, a.spec, b.spec);
    } else {
      ColumnLeaves(page, a.row, a.spec);
      RowLogsAdd(page, a.row + 1, b.row);
      InRowAdds(page, b.row, 0, b.spec);
    }
  }

  lemma ColumnBeforeMatches(page: Page, a: Spot, pattern: nat)
    requires On(page, a) && a.ColumnSpot? && pattern <= |page.patterns|
    ensures Left(page, a).0 <= page.PatternLog(pattern)
  {
    hide Left, Page.RowLog, Page.PatternLog;
    ColumnLeaves(page, a.row, a.spec);
    RowsBeforeMatches(page, a.row + 1, pattern);
    Chain(Left(page, a).0, page.RowLog(a.row + 1), page.PatternLog(pattern));
  }

  lemma Chain(a: Log, b: Log, c: Log)
    requires a <= b <= c
    ensures a <= c
  {
  }

  lemma RowsBeforeMatches(page: Page, row: nat, pattern: nat)
    requires row <= |page.lines| && pattern <= |page.patterns|
    ensures page.RowLog(row) <= page.PatternLog(pattern)
  {
    RowLogsAdd(page, row, |page.lines|);
    PatternLogsAdd(page, 0, pattern);
  }

  lemma MatchBeforeMatch(page: Page, a: Spot, b: Spot)
    requires On(page, a) && On(page, b) && Before(a, b) && a.MatchSpot? && b.MatchSpot?
    ensures Left(page, a).0 <= Met(page, b).0
  {
    if a.pattern == b.pattern {
      MatchLeavesInPattern(page, a.row, a.pattern, b.row);
    } else {
      MatchBeforePattern(page, a.row, a.pattern, b.pattern);
      MatchMeetsPatternLog(page, b.row, b.pattern);
    }
  }

  /** A later spot meets all that an earlier one left. */
  lemma LaterSpotMeetsMore(page: Page, a: Spot, b: Spot)
    requires On(page, a) && On(page, b) && Before(a, b)
    ensures Left(page, a).0 <= Met(page, b).0
  {
    if b.ColumnSpot? {
      ColumnBeforeColumn(page, a, b);
    } else if a.MatchSpot? {
      MatchBeforeMatch(page, a, b);
    } else {
      ColumnBeforeMatches(page, a, b.pattern);
      MatchMeetsPatternLog(page, b.row, b.pattern);
    }
  }

  lemma PublishedHoldsAll(page: Page, s: Spot)
    requires On(page, s)
    ensures Left(page, s).0 <= page.Published().0
  {
    if s.ColumnSpot? {
      ColumnBeforeMatches(page, s, |page.patterns|);
    } else {
      MatchBeforePattern(page, s.row, s.pattern, |page.patterns|);
    }
  }

  lemma PrefixEntry(log: Log, r: Request, run: Log)
    requires log + [r] <= run
    ensures |log| < |run| && run[..|log|] == log && run[|log|] == r
  {
    assert run[..|log| + 1] == log + [r];
    assert run[..|log|] == run[..|log| + 1][..|log|] && run[|log|] == run[..|log| + 1][|log|];
  }

  lemma SpotAsks(page: Page, s: Spot)
    requires NamedAt(page, s)
    ensures Left(page, s).0 == Met(page, s).0 + [AskedAt(page, s)]
  {
  }

  /** The name put at a spot is the answer to one request of the whole run. */
  lemma StandInIsAnAnswer(page: Page, s: Spot) returns (n: nat)
    requires NamedAt(page, s)
    ensures var run := page.Published().0;
            && n == |Met(page, s).0| < |run| && run[..n] == Met(page, s).0 && run[n] == AskedAt(page, s)
            && Answer(page.sp, run, n) == StandInAt(page, s)
  {
    n := |Met(page, s).0|;
    SpotAsks(page, s);
    PublishedHoldsAll(page, s);
    PrefixEntry(Met(page, s).0, AskedAt(page, s), page.Published().0);
  }

  // ------------------------------------------------- what a reader can rely on

  /** On a page, after any pages before it, a site or rule has the same stand-in
      wherever it is named, in a column or in a sentence; and two different ones
      have different stand-ins as long as no more were named than the pool has. */
  lemma SitesOnAPage(page: Page, a: Spot, b: Spot)
    requires NamedAt(page, a) && NamedAt(page, b)
    requires AskedAt(page, a).kind == AskedAt(page, b).kind && IsStable(AskedAt(page, a).kind)
    ensures Strip(AskedAt(page, a).original) == Strip(AskedAt(page, b).original) ==> StandInAt(page, a) == StandInAt(page, b)
    ensures |Named(page.Published().0, AskedAt(page, a).kind)| <= |PoolSet(page.sp, AskedAt(page, a).kind)| ==>
              Strip(AskedAt(page, a).original) != Strip(AskedAt(page, b).original) ==> StandInAt(page, a) != StandInAt(page, b)
  {
    var i := StandInIsAnAnswer(page, a);
    var j := StandInIsAnAnswer(page, b);
    StandInsOfARun(page.sp, page.Published().0, i, j);
  }

  lemma SiteNamesHaveThreeLetters(name: string)
    ensures name in FAKE_SITES ==> |name| == 3
  {
  }

  lemma StandInIsFromThePool(sp: Spelling, run: seq<Request>, i: nat)
    requires i < |run| && IsStable(run[i].kind)
    ensures Answer(sp, run, i) in Pool(sp, run[i].kind)
  {
    var end, kind := After(sp, run), run[i].kind;
    AnswerIsKept(sp, run, i);
    RunIsConsistent(sp, run, kind);
    KnownExactly(end, kind, Strip(run[i].original));
    assert StandIn(end, kind, Strip(run[i].original)) in PoolSet(sp, kind);
  }

  /** What is read at a spot: the stand-in, cut to the width of the span. */
  function ReadAt(page: Page, s: Spot): string
    requires NamedAt(page, s)
  {
    Fit(StandInAt(page, s), WidthAt(page, s))
  }

  function WidthAt(page: Page, s: Spot): nat
    requires NamedAt(page, s)
  {
    var m := SpanIn(EditAt(page, s), Met(page, s).1).value;
    m.end - m.start
  }

  /** Where it is read. */
  function PlaceOf(page: Page, s: Spot): nat
    requires NamedAt(page, s)
  {
    SpanIn(EditAt(page, s), Met(page, s).1).value.start
  }

  /** It is what stands there in the line the spot leaves. */
  lemma ReadOnTheLine(page: Page, s: Spot)
    requires NamedAt(page, s)
    ensures Shows(Left(page, s).1, PlaceOf(page, s), ReadAt(page, s))
  {
    hide Met, SpanIn, Put, Shows, Fit, Serve, After;
    var e, line := EditAt(page, s), Met(page, s).1;
    PutIsShown(e, line, SpanIn(e, line).value, StandInAt(page, s), Left(page, s).1);
  }

  /** The registry is asked for the kind of name the specification or pattern gives, for
      the text that stands where the name is read. */
  lemma AskedForWhatStands(page: Page, s: Spot)
    requires NamedAt(page, s)
    ensures AskedAt(page, s).kind == if s.ColumnSpot? then page.columns[s.spec].kind else page.patterns[s.pattern].kind
    ensures |AskedAt(page, s).original| == WidthAt(page, s) && PlaceOf(page, s) + WidthAt(page, s) <= |Met(page, s).1|
    ensures forall i :: 0 <= i < WidthAt(page, s) ==> AskedAt(page, s).original[i] == Met(page, s).1[PlaceOf(page, s) + i].ch
  {
    hide Met, SpanIn;
  }

  lemma UnnamedLeavesLine(page: Page, s: Spot)
    requires On(page, s) && !NamedAt(page, s)
    ensures Left(page, s).1 == Met(page, s).1
  {
  }

  /** The line of a row before column specification `spec`; after the last, redacted. */
  function ColumnsAt(page: Page, row: nat, spec: nat): Line
    requires row < |page.lines| && spec <= |page.columns|
  {
    Through(page.RowLog(row), page.lines[row], page.Steps(row), spec).1
  }

  lemma ColumnLeft(page: Page, row: nat, spec: nat)
    requires row < |page.lines| && spec < |page.columns|
    ensures ColumnsAt(page, row, spec) == Met(page, ColumnSpot(row, spec)).1
    ensures ColumnsAt(page, row, spec + 1) == Left(page, ColumnSpot(row, spec)).1
  {
  }

  lemma {:induction false} ColumnsLeaveLine(page: Page, row: nat, spec: nat, later: nat)
    requires row < |page.lines| && spec <= later <= |page.columns|
    requires forall k :: spec <= k < later ==> !NamedAt(page, ColumnSpot(row, k))
    ensures ColumnsAt(page, row, later) == ColumnsAt(page, row, spec)
    decreases later
  {
    hide ColumnsAt, Left, Met, NamedAt;
    if spec < later {
      ColumnsLeaveLine(page, row, spec, later - 1);
      UnnamedLeavesLine(page, ColumnSpot(row, later - 1));
      ColumnLeft(page, row, later - 1);
    }
  }

  /** The line of a row before pattern `k`; after the last, as published. */
  function RowAt(page: Page, row: nat, k: nat): Line
    requires row < |page.lines| && k <= |page.patterns|
  {
    LineAt(page.Redacted().0, page.Naming(), page.Redacted().1, page.patterns, k, row)
  }

  lemma MatchLeft(page: Page, row: nat, k: nat)
    requires row < |page.lines| && k < |page.patterns|
    ensures RowAt(page, row, k) == Met(page, MatchSpot(row, k)).1 && RowAt(page, row, k + 1) == Left(page, MatchSpot(row, k)).1
  {
    LineAtNext(page.Redacted().0, page.Naming(), page.Redacted().1, page.patterns, k, row);
  }

  lemma {:induction false} MatchesLeaveLine(page: Page, row: nat, k: nat, later: nat)
    requires row < |page.lines| && k <= later <= |page.patterns|
    requires forall i :: k <= i < later ==> !NamedAt(page, MatchSpot(row, i))
    ensures RowAt(page, row, later) == RowAt(page, row, k)
    decreases later
  {
    hide RowAt, Left, Met, NamedAt;
    if k < later {
      MatchesLeaveLine(page, row, k, later - 1);
      UnnamedLeavesLine(page, MatchSpot(row, later - 1));
      MatchLeft(page, row, later - 1);
    }
  }

  lemma ColumnsDone(page: Page, row: nat)
    requires row < |page.lines|
    ensures RowAt(page, row, 0) == ColumnsAt(page, row, |page.columns|)
  {
    SweepAt(page.log, page.lines, RowStep(page.Naming(), page.columns), |page.lines|, row);
  }

  /** No name is put in the row after this spot. */
  ghost predicate LastInRow(page: Page, s: Spot) {
    forall later :: Before(s, later) && later.row == s.row ==> !NamedAt(page, later)
  }

  lemma ColumnStays(page: Page, s: Spot)
    requires On(page, s) && s.ColumnSpot? && LastInRow(page, s)
    ensures RowAt(page, s.row, |page.patterns|) == Left(page, s).1
  {
    hide ColumnsAt, RowAt, Left, Met, NamedAt;
    ColumnLeft(page, s.row, s.spec);
    ColumnsLeaveLine(page, s.row, s.spec + 1, |page.columns|);
    ColumnsDone(page, s.row);
    MatchesLeaveLine(page, s.row, 0, |page.patterns|);
  }

  lemma MatchStays(page: Page, s: Spot)
    requires On(page, s) && s.MatchSpot? && LastInRow(page, s)
    ensures RowAt(page, s.row, |page.patterns|) == Left(page, s).1
  {
    hide RowAt, Left, Met, NamedAt;
    MatchLeft(page, s.row, s.pattern);
    MatchesLeaveLine(page, s.row, s.pattern + 1, |page.patterns|);
  }

  /** And in the published row, unless a name was put in that row later. */
  lemma ReadOnThePage(page: Page, s: Spot)
    requires NamedAt(page, s) && LastInRow(page, s)
    ensures |page.Published().1| == |page.lines|
    ensures Shows(page.Published().1[s.row], PlaceOf(page, s), ReadAt(page, s))
  {
    ReadOnTheLine(page, s);
    if s.ColumnSpot? { ColumnStays(page, s); } else { MatchStays(page, s); }
  }

  /** With the shipped names, all of three letters, a site reads the same in a wide
      column and in a narrow sentence: two mentions of it differ on the screen
      exactly when their spans differ in width and one has less than three cells. */
  lemma SiteReadsAlikeIff(page: Page, a: Spot, b: Spot)
    requires NamedAt(page, a) && NamedAt(page, b) && page.sp.sites == FAKE_SITES
    requires AskedAt(page, a).kind == Site && AskedAt(page, b).kind == Site
    requires Strip(AskedAt(page, a).original) == Strip(AskedAt(page, b).original)
    ensures ReadAt(page, a) == ReadAt(page, b) <==>
            WidthAt(page, a) == WidthAt(page, b) || (WidthAt(page, a) >= 3 && WidthAt(page, b) >= 3)
  {
    var i := StandInIsAnAnswer(page, a);
    SitesOnAPage(page, a, b);
    StandInIsFromThePool(page.sp, page.Published().0, i);
    SiteNamesHaveThreeLetters(StandInAt(page, a));
  }

  /** No two titles on a page are the same, unless 616 titles and paths were asked
      for before the first of them. */
  lemma TitlesOnAPage(page: Page, a: Spot, b: Spot)
    requires AsShipped(page.sp) && NamedAt(page, a) && NamedAt(page, b) && Before(a, b)
    requires AskedAt(page, a).kind == Title && AskedAt(page, b).kind == Title
    ensures StandInAt(page, a) == StandInAt(page, b) <==> TitleRequests(Met(page, a).0) >= 616
  {
    var i := StandInIsAnAnswer(page, a);
    var j := StandInIsAnAnswer(page, b);
    SpotAsks(page, a);
    LaterSpotMeetsMore(page, a, b);
    ShippedTitlesEqualIff(page.sp, page.Published().0, i, j);
  }

  // ------------------------------------------------------ the rails of a page

  /** Every name of a run with the shipped names is plain ASCII. */
  lemma AnswersAreAscii(sp: Spelling, run: seq<Request>, i: nat)
    requires AllShipped(sp) && i < |run|
    ensures Ascii(Answer(sp, run, i))
  {
    if IsStable(run[i].kind) {
      StandInIsFromThePool(sp, run, i);
      PoolsAreAscii(Answer(sp, run, i));
    } else {
      OtherNamesAreAscii(After(sp, run[..i]), sp, run[i].original, run[i].kind);
    }
  }

  /** The spelling of the script, as far as its names go. */
  ghost predicate AllShipped(sp: Spelling) { AsShipped(sp) && sp.sites == FAKE_SITES && sp.rules == FAKE_RULES }

  /** What a spot puts in its line, if anything. */
  function PutAt(page: Page, s: Spot): string
    requires On(page, s)
  {
    Given(Met(page, s).0, page.Naming(), Met(page, s).1, EditAt(page, s))
  }

  lemma PutIsStandIn(page: Page, s: Spot)
    requires On(page, s)
    ensures PutAt(page, s) == if NamedAt(page, s) then StandInAt(page, s) else ""
  {
    hide Met, SpanIn, Serve, After;
  }

  lemma PutHasNoRail(page: Page, s: Spot)
    requires AllShipped(page.sp) && On(page, s)
    ensures RAIL !in PutAt(page, s)
  {
    hide PutAt, NamedAt, StandInAt, Page.Redacted, Page.Published, AsShipped, Answer, Met, AskedAt;
    PutIsStandIn(page, s);
    if NamedAt(page, s) {
      var n := StandInIsAnAnswer(page, s);
      AnswersAreAscii(page.sp, page.Published().0, n);
    }
  }

  /** No rail stands in what a spot disturbs: its span and, for a name in a sentence
      that is shorter, up to the last rail behind it. A spot that puts no name
      disturbs nothing. */
  predicate SparesRails(page: Page, s: Spot)
    requires On(page, s)
  {
    NamedAt(page, s) ==>
      var line := Met(page, s).1;
      var m := SpanIn(EditAt(page, s), line).value;
      NoRail(line, m.start, Reach(line, m.end, if s.ColumnSpot? then 0 else WidthAt(page, s) - |ReadAt(page, s)|))
  }

  lemma SpotRails(page: Page, s: Spot)
    requires AllShipped(page.sp) && On(page, s)
    ensures RailsLeft(Met(page, s).1, Left(page, s).1, SparesRails(page, s))
  {
    hide Met, Left, PutAt, RailsLeft, LeavesRails, SparesRails, AllShipped;
    PutHasNoRail(page, s);
    SpotRailsIfPut(page, s);
    SparesIffLeaves(page, s);
  }

  lemma SparesIffLeaves(page: Page, s: Spot)
    requires On(page, s)
    ensures SparesRails(page, s) <==> LeavesRails(Met(page, s).1, EditAt(page, s), PutAt(page, s))
  {
    hide Met, SpanIn, StandInAt, PutAt, NoRail, Reach;
    PutIsStandIn(page, s);
  }

  lemma SpotRailsIfPut(page: Page, s: Spot)
    requires On(page, s) && RAIL !in PutAt(page, s)
    ensures RailsLeft(Met(page, s).1, Left(page, s).1, LeavesRails(Met(page, s).1, EditAt(page, s), PutAt(page, s)))
  {
    hide Met, SpanIn, RailsLeft, LeavesRails;
    EditRails(Met(page, s).0, page.Naming(), Met(page, s).1, EditAt(page, s));
  }

  predicate ColumnsSpare(page: Page, row: nat)
    requires row < |page.lines|
  {
    forall k :: 0 <= k < |page.columns| ==> SparesRails(page, ColumnSpot(row, k))
  }

  predicate MatchesSpare(page: Page, row: nat)
    requires row < |page.lines|
  {
    forall k :: 0 <= k < |page.patterns| ==> SparesRails(page, MatchSpot(row, k))
  }

  lemma ColumnRailsInRow(page: Page, row: nat)
    requires AllShipped(page.sp) && row < |page.lines|
    ensures RailsLeft(page.lines[row], RowAt(page, row, 0), ColumnsSpare(page, row))
  {
    hide SparesRails, RailsLeft, RowAt, Left, Met, AllShipped;
    var n := |page.columns|;
    var history := seq(n + 1, k requires 0 <= k <= n => ColumnsAt(page, row, k));
    var left := seq(n, k requires 0 <= k < n => SparesRails(page, ColumnSpot(row, k)));
    forall k: nat | k < n ensures RailsLeftAt(history, left, k) {
      SpotRails(page, ColumnSpot(row, k));
      ColumnLeft(page, row, k);
    }
    HistoryOfRails(history, left, n);
    ColumnsDone(page, row);
    assert forall k :: 0 <= k < n ==> left[k] == SparesRails(page, ColumnSpot(row, k));
  }

  lemma MatchRailsInRow(page: Page, row: nat)
    requires AllShipped(page.sp) && row < |page.lines|
    ensures RailsLeft(RowAt(page, row, 0), RowAt(page, row, |page.patterns|), MatchesSpare(page, row))
  {
    hide SparesRails, RailsLeft, RowAt, Left, Met, AllShipped;
    var n := |page.patterns|;
    var history := seq(n + 1, k requires 0 <= k <= n => RowAt(page, row, k));
    var left := seq(n, k requires 0 <= k < n => SparesRails(page, MatchSpot(row, k)));
    forall k: nat | k < n ensures RailsLeftAt(history, left, k) {
      SpotRails(page, MatchSpot(row, k));
      MatchLeft(page, row, k);
    }
    HistoryOfRails(history, left, n);
    assert forall k :: 0 <= k < n ==> left[k] == SparesRails(page, MatchSpot(row, k));
  }

  /** With the shipped names the redaction of a page leaves every rail of a row, of
      whichever pane, at its column if and only if every spot of the row, meeting the
      line as it then stands, spares the rails. */
  lemma RailsOnAPage(page: Page, row: nat)
    requires AllShipped(page.sp) && row < |page.lines|
    ensures |page.Published().1| == |page.lines|
    ensures SameRails(page.lines[row], page.Published().1[row]) <==>
            forall s :: On(page, s) && s.row == row ==> SparesRails(page, s)
  {
    hide SparesRails, SameRails, Weight, AllShipped, RowAt, Page.Published, Page.Redacted;
    RowPublished(page, row);
    ColumnRailsInRow(page, row);
    MatchRailsInRow(page, row);
    RailsLeftTwice(page.lines[row], RowAt(page, row, 0), RowAt(page, row, |page.patterns|),
                   ColumnsSpare(page, row), MatchesSpare(page, row));
    SpotsOfARow(page, row);
  }

  lemma RowPublished(page: Page, row: nat)
    requires row < |page.lines|
    ensures |page.Published().1| == |page.lines| && page.Published().1[row] == RowAt(page, row, |page.patterns|)
  {
  }

  lemma SpotsOfARow(page: Page, row: nat)
    requires row < |page.lines|
    ensures (forall s :: On(page, s) && s.row == row ==> SparesRails(page, s)) <==>
            ColumnsSpare(page, row) && MatchesSpare(page, row)
  {
    hide SparesRails;
    if ColumnsSpare(page, row) && MatchesSpare(page, row) {
      forall s | On(page, s) && s.row == row ensures SparesRails(page, s) {
        match s
        case ColumnSpot(r, k) =>
        case MatchSpot(r, k) =>
      }
    }
  }

  /** The screen and the registry, taken through one page by the code. */
  method Publish(screen: Screen, reg: Registry, columns: seq<Column>, patterns: seq<Pattern>, ghost page: Page)
    requires reg.View() == After(reg.sp, page.log) && page == Page(reg.sp, page.log, screen.lines, columns, patterns)
    modifies screen, reg
    ensures screen.lines == page.Published().1 && reg.View() == After(reg.sp, page.Published().0)
    ensures page.log <= page.Published().0
  {
    RedactIsARun(page.sp, page.log, page.lines, columns);
    MatchIsARun(page.sp, page.Redacted().0, page.Redacted().1, patterns);
    screen.Redact(reg, columns);
    screen.RedactMatches(reg, patterns);
  }
}
