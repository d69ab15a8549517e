/** Rewriting the lines of a captured screen: ops/scripts/ansi-to-svg.py. What each
    kind of substitution leaves of a line. */
module ScreenLayout {
  import opened Sequences
  import opened Redaction

  datatype Style = Style(fg: Option<string>, bg: Option<string>, bold: bool, faint: bool, underline: bool, strike: bool)

  datatype Cell = Cell(ch: char, style: Style)

  type Line = seq<Cell>

  /** How names are given out, from whatever is remembered of those given out so
      far. The layout is the same whatever they are. */
  type Naming<!N> = (N, string, Kind) -> (N, string)

  function RegistryNaming(sp: Spelling): Naming<Names> {
    (names: Names, original: string, kind: Kind) => NameFor(names, sp, original, kind)
  }

  const RAIL: char := '\U{2502}'
  const ELLIPSIS: char := '\U{2026}'

  function Plain(line: Line): (s: string)
    ensures |s| == |line| && forall i :: 0 <= i < |line| ==> s[i] == line[i].ch
  {
    seq(|line|, i requires 0 <= i < |line| => line[i].ch)
  }

  // ------------------------------------------------------ fitting a stand-in

  /** A name cut to a width, the cut marked by an ellipsis. */
  function Fit(name: string, width: nat): (r: string)
    ensures |r| <= width
    ensures |name| <= width ==> r == name
    ensures |name| > width > 0 ==>
              |r| == width && r[width - 1] == '\U{2026}' && forall i :: 0 <= i < width - 1 ==> r[i] == name[i]
  {
    if |name| <= width then name
    else if width == 0 then ""
    else name[..width - 1] + [ELLIPSIS]
  }

  function PadRight(s: string, width: nat): (r: string)
    requires |s| <= width
    ensures |r| == width
  {
    s + seq(width - |s|, _ => ' ')
  }

  /** `invent`: a stand-in of exactly the given width. */
  function Invent(name: string, width: nat): (r: string)
    ensures |r| == width
  {
    PadRight(Fit(name, width), width)
  }

  lemma InventIsFitted(name: string, width: nat)
    ensures var r, n := Invent(name, width), |Fit(name, width)|;
            r[..n] == Fit(name, width) && forall i :: n <= i < width ==> r[i] == ' '
  {
  }

  // ----------------------------------------------------- column substitution

  /** The line with other characters from `start` on, every cell keeping its style. */
  function Overwrite(line: Line, start: nat, text: string): (r: Line)
    requires start + |text| <= |line|
    ensures |r| == |line|
  {
    seq(|line|, i requires 0 <= i < |line| =>
      if start <= i < start + |text| then Cell(text[i - start], line[i].style) else line[i])
  }

  /** The text stands in the line from `start` on. */
  ghost predicate Shows(line: Line, start: nat, text: string) {
    start + |text| <= |line| && forall j :: start <= j < start + |text| ==> line[j].ch == text[j - start]
  }

  /** Styles and all characters outside the span are the same; inside is the text. */
  ghost predicate Rewritten(line: Line, r: Line, start: nat, text: string) {
    && SameStyles(line, r) && Shows(r, start, text)
    && forall i :: 0 <= i < |line| && !(start <= i < start + |text|) ==> r[i] == line[i]
  }

  lemma OverwriteExact(line: Line, start: nat, text: string)
    requires start + |text| <= |line|
    ensures Rewritten(line, Overwrite(line, start, text), start, text)
  {
  }

  // ------------------------------------------------------ prose substitution

  /** The last rail of a stretch of cells, or -1. */
  function LastRail(line: Line): (r: int)
    ensures -1 <= r < |line| && (r >= 0 ==> line[r].ch == RAIL)
    ensures forall i :: r < i < |line| ==> line[i].ch != RAIL
  {
    LastRailBefore(line, |line|)
  }

  function LastRailBefore(line: Line, n: nat): (r: int)
    requires n <= |line|
    ensures -1 <= r < n && (r >= 0 ==> line[r].ch == RAIL)
    ensures forall i :: r < i < n ==> line[i].ch != RAIL
  {
    if n == 0 then -1 else if line[n - 1].ch == RAIL then n - 1 else LastRailBefore(line, n - 1)
  }

  function Styled(text: string, style: Style): (r: Line)
    ensures |r| == |text| && forall i :: 0 <= i < |text| ==> r[i] == Cell(text[i], style)
  {
    seq(|text|, i requires 0 <= i < |text| => Cell(text[i], style))
  }

  function Blanks(n: nat, style: Style): (r: Line)
    ensures |r| == n && forall i :: 0 <= i < n ==> r[i] == Cell(' ', style)
  {
    seq(n, _ => Cell(' ', style))
  }

  /** The line with a span replaced by a shorter text, the rest moved left and the
      reclaimed space put before the last rail, or at the end. */
  function Shift(line: Line, start: nat, end: nat, name: string): Line
    requires start < end <= |line| && |name| <= end - start
  {
    var style := line[start].style;
    var tail := line[end..];
    var delta := end - start - |name|;
    var rail := LastRail(tail);
    line[..start] + Styled(name, style) +
    if rail >= 0 then tail[..rail] + Blanks(delta, style) + tail[rail..] else tail + Blanks(delta, style)
  }

  /** Where the reclaimed space goes: the last rail right of the span, if any. */
  function Anchor(line: Line, end: nat): (a: nat)
    requires end <= |line|
    ensures end <= a <= |line|
  {
    if LastRail(line[end..]) >= 0 then end + LastRail(line[end..]) else |line|
  }

  /** A prose substitution keeps the cell count; the cells before the span and
      those from the anchoring rail on keep their columns; the text between moves
      left by what was saved; and only blanks fill the gap. */
  lemma ShiftKeepsFrame(line: Line, start: nat, end: nat, name: string)
    requires start < end <= |line| && |name| <= end - start
    ensures var r, a := Shift(line, start, end, name), Anchor(line, end);
            var moved, gap := start + |name|, start + |name| + (a - end);
            && |r| == |line|
            && r[..start] == line[..start] && r[a..] == line[a..]
            && r[start..moved] == Styled(name, line[start].style)
            && r[moved..gap] == line[end..a]
            && r[gap..a] == Blanks(end - start - |name|, line[start].style)
  {
    var style, a := line[start].style, Anchor(line, end);
    ShiftIsPieces(line, start, end, name);
    Pieces(line[..start], Styled(name, style), line[end..a], Blanks(end - start - |name|, style), line[a..]);
  }

  lemma ShiftIsPieces(line: Line, start: nat, end: nat, name: string)
    requires start < end <= |line| && |name| <= end - start
    ensures var style, a := line[start].style, Anchor(line, end);
            Shift(line, start, end, name) ==
            line[..start] + Styled(name, style) + (line[end..a] + Blanks(end - start - |name|, style) + line[a..])
  {
    var tail, rail, a := line[end..], LastRail(line[end..]), Anchor(line, end);
    if rail >= 0 {
      assert tail[..rail] == line[end..a] && tail[rail..] == line[a..];
    } else {
      var gap := Blanks(end - start - |name|, line[start].style);
      assert line[end..a] == tail && line[a..] == [] && tail + gap + [] == tail + gap;
    }
  }

  lemma Pieces(a: Line, b: Line, c: Line, d: Line, e: Line)
    ensures var r := a + b + (c + d + e);
            && |r| == |a| + |b| + |c| + |d| + |e|
            && r[..|a|] == a && r[|a|..|a| + |b|] == b && r[|a| + |b|..|a| + |b| + |c|] == c
            && r[|a| + |b| + |c|..|a| + |b| + |c| + |d|] == d && r[|a| + |b| + |c| + |d|..] == e
  {
  }

  // ------------------------------------------------------- one substitution

  /** One column specification: which rows, which columns, which kind of name. */
  datatype Column = Column(matches: string -> bool, start: int, end: Option<int>, kind: Kind)

  /** What a search finds in a line: the span to substitute, if any. */
  datatype Span = Span(start: nat, end: nat)

  datatype RawPattern = RawPattern(search: string -> Option<Span>, kind: Kind)

  /** A search reports a span of the text it was given. */
  ghost predicate Sound(p: RawPattern) {
    forall s :: p.search(s).Some? ==> p.search(s).value.start <= p.search(s).value.end <= |s|
  }

  type Pattern = p: RawPattern | Sound(p) witness RawPattern((s: string) => None, Site)

  /** A substitution to be tried on a line: a column specification, decided on the
      row as it was, or a pattern. */
  datatype Edit = OnColumn(plain: string, column: Column) | OnMatch(pattern: Pattern)

  function KindOf(e: Edit): Kind { if e.OnColumn? then e.column.kind else e.pattern.kind }

  /** The span, unless there is nothing but blanks in it. */
  function IfNotBlank(line: Line, m: Span): (r: Option<Span>)
    requires m.start <= m.end <= |line|
    ensures r.Some? ==> r.value == m && m.start < m.end
  {
    if Blank(Plain(line[m.start..m.end])) then None else Some(m)
  }

  function Min(a: int, b: int): int { if a < b then a else b }

  /** The span of a column specification, as `redact` and `_apply` clip it. */
  function ColumnSpan(line: Line, start: nat, end: int): (m: Option<Span>)
    ensures m.Some? ==> m.value.start < m.value.end <= |line|
  {
    if Min(end, |line|) <= start then None else IfNotBlank(line, Span(start, Min(end, |line|)))
  }

  function ColumnStart(c: Column): nat { if c.start < 0 then 0 else c.start }

  function ColumnEnd(line: Line, c: Column): int { if c.end.None? then |line| else c.end.value }

  /** The span a substitution rewrites, if any. */
  function SpanIn(e: Edit, line: Line): (m: Option<Span>)
    ensures m.Some? ==> m.value.start < m.value.end <= |line|
  {
    match e
    case OnColumn(plain, c) => if !c.matches(plain) then None else ColumnSpan(line, ColumnStart(c), ColumnEnd(line, c))
    case OnMatch(p) =>
      var m := p.search(Plain(line));
      if m.None? then None else IfNotBlank(line, m.value)
  }

  /** A column specification rewrites the cells from its start, or the beginning of the
      line, to its end, or the end of the line, if the row matches and not all of them are
      blank: the space, and the codes 9 to 13 and 28 to 31. */
  lemma ColumnIsNamedIff(plain: string, c: Column, line: Line, start: nat, end: nat)
    ensures SpanIn(OnColumn(plain, c), line) == Some(Span(start, end)) <==>
              && c.matches(plain)
              && (start == c.start || (start == 0 && c.start < 0))
              && (end == |line| || (end < |line| && c.end == Some(end)))
              && (c.end.Some? && c.end.value <= |line| ==> end == c.end.value)
              && start < end
              && exists i :: start <= i < end && !(9 <= line[i].ch as int <= 13 || 28 <= line[i].ch as int <= 32)
  {
    if start < end <= |line| { SpanIsBlankIff(line, Span(start, end)); }
  }

  lemma SpanIsBlankIff(line: Line, m: Span)
    requires m.start <= m.end <= |line|
    ensures IfNotBlank(line, m) == Some(m) <==>
              exists i :: m.start <= i < m.end && !(9 <= line[i].ch as int <= 13 || 28 <= line[i].ch as int <= 32)
  {
    var s := Plain(line[m.start..m.end]);
    forall i: nat | i < |s|
      ensures IsBlank(s[i]) <==> 9 <= line[m.start + i].ch as int <= 13 || 28 <= line[m.start + i].ch as int <= 32
    {
      BlanksAre(s[i]);
    }
    if IfNotBlank(line, m).Some? {
      var i: nat :| i < |s| && !IsBlank(s[i]);
      assert !(9 <= line[m.start + i].ch as int <= 13 || 28 <= line[m.start + i].ch as int <= 32);
    }
    forall i | m.start <= i < m.end && !(9 <= line[i].ch as int <= 13 || 28 <= line[i].ch as int <= 32)
      ensures IfNotBlank(line, m) == Some(m)
    {
      assert !IsBlank(s[i - m.start]);
    }
  }

  /** A pattern rewrites the span its search reports, if not all of it is blank. */
  lemma MatchIsNamedIff(p: Pattern, line: Line, m: Span)
    ensures SpanIn(OnMatch(p), line) == Some(m) <==>
              && p.search(Plain(line)) == Some(m)
              && exists i :: m.start <= i < m.end <= |line| && !(9 <= line[i].ch as int <= 13 || 28 <= line[i].ch as int <= 32)
  {
    if p.search(Plain(line)) == Some(m) { SpanIsBlankIff(line, m); }
  }

  /** What stands in the span, and the line with a name put there instead. */
  function Original(line: Line, m: Span): string
    requires m.start <= m.end <= |line|
  {
    Plain(line[m.start..m.end])
  }

  function Put(e: Edit, line: Line, m: Span, name: string): Line
    requires m.start < m.end <= |line|
  {
    if e.OnColumn? then Overwrite(line, m.start, Invent(name, m.end - m.start))
    else Shift(line, m.start, m.end, Fit(name, m.end - m.start))
  }

  function Apply<N>(names: N, naming: Naming<N>, line: Line, e: Edit): (N, Line) {
    match SpanIn(e, line)
    case None => (names, line)
    case Some(m) =>
      var (next, name) := naming(names, Original(line, m), KindOf(e));
      (next, Put(e, line, m, name))
  }

  /** A column substitution keeps the width of the line, every style, and every
      character outside the span; inside stands the fitted name, padded. */
  lemma ColumnKeepsLayout<N>(names: N, naming: Naming<N>, line: Line, e: Edit)
    requires e.OnColumn?
    ensures var r := Apply(names, naming, line, e).1;
            match SpanIn(e, line)
            case None => r == line
            case Some(m) => Rewritten(line, r, m.start, Invent(naming(names, Original(line, m), KindOf(e)).1, m.end - m.start))
  {
    match SpanIn(e, line)
    case None =>
    case Some(m) => PutRewrites(e, line, m, naming(names, Original(line, m), KindOf(e)).1);
  }

  lemma PutRewrites(e: Edit, line: Line, m: Span, name: string)
    requires e.OnColumn? && m.start < m.end <= |line|
    ensures Rewritten(line, Put(e, line, m, name), m.start, Invent(name, m.end - m.start))
  {
    OverwriteExact(line, m.start, Invent(name, m.end - m.start));
  }

  /** A prose substitution puts the fitted name at the head of the span, in the style of
      its first cell, moves what follows to it, and keeps all the rest of the line. */
  lemma MatchMovesText(e: Edit, line: Line, m: Span, name: string)
    requires e.OnMatch? && m.start < m.end <= |line|
    ensures var r, shown, a := Put(e, line, m, name), Fit(name, m.end - m.start), Anchor(line, m.end);
            var moved, gap := m.start + |shown|, m.start + |shown| + (a - m.end);
            && |r| == |line| && r[..m.start] == line[..m.start] && r[a..] == line[a..]
            && r[m.start..moved] == Styled(shown, line[m.start].style) && r[moved..gap] == line[m.end..a]
            && r[gap..a] == Blanks(m.end - m.start - |shown|, line[m.start].style)
  {
    hide Shift, Fit, Styled, Blanks, Anchor;
    ShiftKeepsFrame(line, m.start, m.end, Fit(name, m.end - m.start));
  }

  lemma ShowsPrefix(r: Line, start: nat, text: string, shown: string)
    requires Shows(r, start, text) && |shown| <= |text| && text[..|shown|] == shown
    ensures Shows(r, start, shown)
  {
    forall j | start <= j < start + |shown| ensures r[j].ch == shown[j - start] {
      assert r[j].ch == text[j - start] == text[..|shown|][j - start];
    }
  }

  lemma ShowsStyled(r: Line, start: nat, name: string, style: Style)
    requires start + |name| <= |r| && r[start..start + |name|] == Styled(name, style)
    ensures Shows(r, start, name)
  {
    forall j | start <= j < start + |name| ensures r[j].ch == name[j - start] {
      assert r[j] == r[start..start + |name|][j - start];
    }
  }

  lemma ColumnShows(e: Edit, line: Line, m: Span, name: string, r: Line)
    requires e.OnColumn? && m.start < m.end <= |line| && r == Put(e, line, m, name)
    ensures |r| == |line| && Shows(r, m.start, Fit(name, m.end - m.start))
  {
    var text := Invent(name, m.end - m.start);
    OverwriteExact(line, m.start, text);
    InventIsFitted(name, m.end - m.start);
    ShowsPrefix(r, m.start, text, Fit(name, m.end - m.start));
  }

  lemma MatchShows(e: Edit, line: Line, m: Span, name: string, r: Line)
    requires e.OnMatch? && m.start < m.end <= |line| && r == Put(e, line, m, name)
    ensures |r| == |line| && Shows(r, m.start, Fit(name, m.end - m.start))
  {
    hide Shift;
    ShiftShows(line, m.start, m.end, Fit(name, m.end - m.start), r);
  }

  lemma ShiftShows(line: Line, start: nat, end: nat, name: string, r: Line)
    requires start < end <= |line| && |name| <= end - start && r == Shift(line, start, end, name)
    ensures |r| == |line| && Shows(r, start, name)
  {
    ShiftKeepsFrame(line, start, end, name);
    ShowsStyled(r, start, name, line[start].style);
  }

  /** A name that is put in a span is seen there, cut to the span's width. */
  lemma PutIsShown(e: Edit, line: Line, m: Span, name: string, r: Line)
    requires m.start < m.end <= |line| && r == Put(e, line, m, name)
    ensures |r| == |line| && Shows(r, m.start, Fit(name, m.end - m.start))
  {
    if e.OnColumn? { ColumnShows(e, line, m, name, r); } else { MatchShows(e, line, m, name, r); }
  }

  // ------------------------------------------------------------ many of them

  /** What is done to one line, given the names so far. */
  type LineStep<!N> = (N, Line) -> (N, Line)

  /** One line after the first `k` of several steps. */
  function Through<N>(names: N, line: Line, steps: seq<LineStep<N>>, k: nat): (N, Line)
    requires k <= |steps|
  {
    if k == 0 then (names, line)
    else
      var (n, l) := Through(names, line, steps, k - 1);
      steps[k - 1](n, l)
  }

  /** The screen after one step has been done to each of its first `i` lines. */
  function Sweep<N>(names: N, lines: seq<Line>, step: LineStep<N>, i: nat): (r: (N, seq<Line>))
    requires i <= |lines|
    ensures |r.1| == |lines|
  {
    if i == 0 then (names, lines)
    else
      var (n, ls) := Sweep(names, lines, step, i - 1);
      var (n', l) := step(n, ls[i - 1]);
      (n', ls[i - 1 := l])
  }

  /** The screen after the first `k` of several steps, each over every line. */
  function SweepAll<N>(names: N, lines: seq<Line>, steps: seq<LineStep<N>>, k: nat): (r: (N, seq<Line>))
    requires k <= |steps|
    ensures |r.1| == |lines|
  {
    if k == 0 then (names, lines)
    else
      var (n, ls) := SweepAll(names, lines, steps, k - 1);
      Sweep(n, ls, steps[k - 1], |ls|)
  }

  function EditStep<N>(naming: Naming<N>, e: Edit): LineStep<N> {
    (names: N, line: Line) => Apply(names, naming, line, e)
  }

  function ColumnSteps<N>(naming: Naming<N>, plain: string, columns: seq<Column>): (r: seq<LineStep<N>>)
    ensures |r| == |columns| && forall i :: 0 <= i < |columns| ==> r[i] == EditStep(naming, OnColumn(plain, columns[i]))
  {
    seq(|columns|, i requires 0 <= i < |columns| => EditStep(naming, OnColumn(plain, columns[i])))
  }

  /** All column specifications on one line; rows are matched on the line as it was. */
  function RedactLine<N>(names: N, naming: Naming<N>, line: Line, columns: seq<Column>): (N, Line) {
    Through(names, line, ColumnSteps(naming, Plain(line), columns), |columns|)
  }

  function RowStep<N>(naming: Naming<N>, columns: seq<Column>): LineStep<N> {
    (names: N, line: Line) => RedactLine(names, naming, line, columns)
  }

  /** `redact`: every line, with all column specifications. */
  function RedactLines<N>(names: N, naming: Naming<N>, lines: seq<Line>, columns: seq<Column>): (N, seq<Line>) {
    Sweep(names, lines, RowStep(naming, columns), |lines|)
  }

  ghost predicate SameStyles(a: Line, b: Line) {
    |a| == |b| && forall i :: 0 <= i < |a| ==> a[i].style == b[i].style
  }

  lemma {:induction false} ThroughKeepsStyles<N(!new)>(names: N, line: Line, steps: seq<LineStep<N>>, k: nat)
    requires k <= |steps| && forall i, n, l :: 0 <= i < |steps| ==> SameStyles(l, steps[i](n, l).1)
    ensures SameStyles(line, Through(names, line, steps, k).1)
  {
    if k > 0 {
      ThroughKeepsStyles(names, line, steps, k - 1);
      var (n, l) := Through(names, line, steps, k - 1);
      assert SameStyles(l, steps[k - 1](n, l).1);
    }
  }

  lemma LineKeepsStyles<N(!new)>(names: N, naming: Naming<N>, line: Line, columns: seq<Column>)
    ensures SameStyles(line, RedactLine(names, naming, line, columns).1)
  {
    var steps := ColumnSteps(naming, Plain(line), columns);
    forall i, n, l | 0 <= i < |steps| ensures SameStyles(l, steps[i](n, l).1) {
      ColumnKeepsLayout(n, naming, l, OnColumn(Plain(line), columns[i]));
    }
    ThroughKeepsStyles(names, line, steps, |columns|);
  }

  /** Each line is changed once, when the sweep comes to it. */
  lemma {:induction false} SweepAt<N>(names: N, lines: seq<Line>, step: LineStep<N>, i: nat, j: nat)
    requires i <= |lines| && j < |lines|
    ensures Sweep(names, lines, step, i).1[j] == if j < i then step(Sweep(names, lines, step, j).0, lines[j]).1 else lines[j]
  {
    if i > 0 {
      SweepAt(names, lines, step, i - 1, j);
      SweepAt(names, lines, step, i - 1, i - 1);
    }
  }

  /** A whole column redaction keeps the number of lines, each line's cell count
      and every style. */
  lemma RedactKeepsLayout<N(!new)>(names: N, naming: Naming<N>, lines: seq<Line>, columns: seq<Column>)
    ensures var r := RedactLines(names, naming, lines, columns).1;
            |r| == |lines| && forall j :: 0 <= j < |lines| ==> SameStyles(lines[j], r[j])
  {
    var step := RowStep(naming, columns);
    forall j: nat | j < |lines| ensures SameStyles(lines[j], RedactLines(names, naming, lines, columns).1[j]) {
      SweepAt(names, lines, step, |lines|, j);
      LineKeepsStyles(Sweep(names, lines, step, j).0, naming, lines[j], columns);
    }
  }

  /** Cell `i` lies in none of the columns that are looked at on a matching row. */
  ghost predicate OutsideColumns(line: Line, columns: seq<Column>, i: nat) {
    forall c :: c in columns && c.matches(Plain(line)) ==> i < c.start || (c.end.Some? && c.end.value <= i)
  }

  lemma {:induction false} ThroughKeepsCell<N(!new)>(names: N, line: Line, steps: seq<LineStep<N>>, k: nat, i: nat)
    requires k <= |steps| && i < |line|
    requires forall j, n, l :: 0 <= j < |steps| && i < |l| ==> i < |steps[j](n, l).1| && steps[j](n, l).1[i] == l[i]
    ensures var r := Through(names, line, steps, k).1; i < |r| && r[i] == line[i]
  {
    if k > 0 {
      ThroughKeepsCell(names, line, steps, k - 1, i);
      var (n, l) := Through(names, line, steps, k - 1);
      assert steps[k - 1](n, l).1[i] == l[i];
    }
  }

  lemma ColumnKeepsCell<N>(names: N, naming: Naming<N>, line: Line, plain: string, c: Column, i: nat)
    requires i < |line| && (c.matches(plain) ==> i < c.start || (c.end.Some? && c.end.value <= i))
    ensures var r := Apply(names, naming, line, OnColumn(plain, c)).1; i < |r| && r[i] == line[i]
  {
    ColumnKeepsLayout(names, naming, line, OnColumn(plain, c));
    if SpanIn(OnColumn(plain, c), line).Some? {
      var m := SpanIn(OnColumn(plain, c), line).value;
      ColumnIsNamedIff(plain, c, line, m.start, m.end);
    }
  }

  /** A column redaction touches nothing outside the columns of matching rows. */
  lemma OutsideIsUntouched<N(!new)>(names: N, naming: Naming<N>, lines: seq<Line>, columns: seq<Column>, j: nat, i: nat)
    requires j < |lines| && i < |lines[j]| && OutsideColumns(lines[j], columns, i)
    ensures var r := RedactLines(names, naming, lines, columns).1; |r| == |lines| && i < |r[j]| && r[j][i] == lines[j][i]
  {
    var line, step := lines[j], RowStep(naming, columns);
    SweepAt(names, lines, step, |lines|, j);
    var steps := ColumnSteps(naming, Plain(line), columns);
    forall k, n, l | 0 <= k < |steps| && i < |l| ensures i < |steps[k](n, l).1| && steps[k](n, l).1[i] == l[i] {
      ColumnKeepsCell(n, naming, l, Plain(line), columns[k], i);
    }
    ThroughKeepsCell(Sweep(names, lines, step, j).0, line, steps, |columns|, i);
  }

  function MatchSteps<N>(naming: Naming<N>, patterns: seq<Pattern>): (r: seq<LineStep<N>>)
    ensures |r| == |patterns| && forall i :: 0 <= i < |patterns| ==> r[i] == EditStep(naming, OnMatch(patterns[i]))
  {
    seq(|patterns|, i requires 0 <= i < |patterns| => EditStep(naming, OnMatch(patterns[i])))
  }

  /** `redact_matches`: every pattern in turn, over every line. */
  function MatchAll<N>(names: N, naming: Naming<N>, lines: seq<Line>, patterns: seq<Pattern>): (N, seq<Line>) {
    SweepAll(names, lines, MatchSteps(naming, patterns), |patterns|)
  }

  ghost predicate SameBetween(a: Line, b: Line, lo: int, hi: int)
    requires 0 <= lo <= hi <= |a| && |a| == |b|
  {
    forall i :: lo <= i < hi ==> b[i] == a[i]
  }

  /** The frame of a line: its width and everything from its last rail on. */
  ghost predicate SameFrame(a: Line, b: Line) {
    |a| == |b| && LastRail(a) == LastRail(b) && (LastRail(a) >= 0 ==> SameBetween(a, b, LastRail(a), |a|))
  }

  /** A prose substitution, cell by cell. */
  lemma ShiftAt(line: Line, start: nat, end: nat, name: string, i: nat)
    requires start < end <= |line| && |name| <= end - start && i < |line|
    ensures var r, a, style, saved := Shift(line, start, end, name), Anchor(line, end), line[start].style, end - start - |name|;
            && |r| == |line|
            && r[i] == (if i < start then line[i]
                        else if i < start + |name| then Cell(name[i - start], style)
                        else if i < a - saved then line[i + saved]
                        else if i < a then Cell(' ', style)
                        else line[i])
  {
    var r, a, style := Shift(line, start, end, name), Anchor(line, end), line[start].style;
    var moved, gap := start + |name|, start + |name| + (a - end);
    ShiftKeepsFrame(line, start, end, name);
    hide Shift;
    if i < start {
      assert r[i] == r[..start][i] == line[..start][i];
    } else if i < moved {
      assert r[i] == r[start..moved][i - start] == Styled(name, style)[i - start];
    } else if i < gap {
      assert r[i] == r[moved..gap][i - moved] == line[end..a][i - moved];
    } else if i < a {
      assert r[i] == r[gap..a][i - gap];
    } else {
      assert r[i] == r[a..][i - a] == line[a..][i - a];
    }
  }

  /** Nothing changes before the span or from the anchoring rail on. */
  lemma ShiftKeepsEnds(line: Line, start: nat, end: nat, name: string)
    requires start < end <= |line| && |name| <= end - start
    ensures var r, a := Shift(line, start, end, name), Anchor(line, end);
            |r| == |line| && SameBetween(line, r, 0, start) && SameBetween(line, r, a, |line|)
  {
    hide Shift;
    ShiftAt(line, start, end, name, start);
    forall i: nat | i < |line| { ShiftAt(line, start, end, name, i); }
  }

  lemma AnchorIsLastRail(line: Line, end: nat)
    requires end <= |line|
    ensures Anchor(line, end) == if end <= LastRail(line) then LastRail(line) else |line|
  {
    var tail := line[end..];
    assert forall i :: end <= i < |line| ==> tail[i - end] == line[i];
    assert LastRail(tail) >= 0 ==> tail[LastRail(tail)] == line[end + LastRail(tail)];
  }

  /** A substitution that ends at or before the last rail leaves the frame alone. */
  lemma InsideKeepsFrame(line: Line, start: nat, end: nat, name: string)
    requires start < end <= LastRail(line) && |name| <= end - start
    ensures SameFrame(line, Shift(line, start, end, name))
  {
    hide Shift;
    AnchorIsLastRail(line, end);
    ShiftKeepsEnds(line, start, end, name);
  }

  /** One that reaches past it leaves no rail behind its start. */
  lemma NoRailBehind(line: Line, start: nat, end: nat, name: string)
    requires start < end <= |line| && LastRail(line) < end && |name| <= end - start && RAIL !in name
    ensures LastRail(Shift(line, start, end, name)) < start
  {
    hide Shift;
    AnchorIsLastRail(line, end);
    ShiftAt(line, start, end, name, start);
    var r := Shift(line, start, end, name);
    forall i: nat | start <= i < |line| ensures r[i].ch != RAIL { ShiftAt(line, start, end, name, i); }
  }

  /** The name stands in the span already and, if it is shorter than the span,
      nothing but blanks in its style follows it. */
  ghost predicate AlreadyThere(line: Line, start: nat, end: nat, name: string)
    requires start < end <= |line| && |name| <= end - start
  {
    && (forall i :: start <= i < start + |name| ==> line[i] == Cell(name[i - start], line[start].style))
    && (|name| < end - start ==> forall i :: start + |name| <= i < |line| ==> line[i] == Cell(' ', line[start].style))
  }

  /** Where nothing changes, blanks at the end of the line spread to the left. */
  lemma {:induction false} BlanksSpread(line: Line, start: nat, end: nat, name: string, i: nat)
    requires start < end <= |line| && |name| < end - start && LastRail(line) < end && Shift(line, start, end, name) == line
    requires start + |name| <= i < |line|
    ensures line[i] == Cell(' ', line[start].style)
    decreases |line| - i
  {
    hide Shift;
    AnchorIsLastRail(line, end);
    ShiftAt(line, start, end, name, i);
    if i + (end - start - |name|) < |line| { BlanksSpread(line, start, end, name, i + (end - start - |name|)); }
  }

  /** With no rail at its end or behind, a substitution changes nothing exactly in
      that case. */
  lemma UnchangedIff(line: Line, start: nat, end: nat, name: string)
    requires start < end <= |line| && LastRail(line) < end && |name| <= end - start
    ensures Shift(line, start, end, name) == line <==> AlreadyThere(line, start, end, name)
  {
    hide Shift;
    var r := Shift(line, start, end, name);
    AnchorIsLastRail(line, end);
    ShiftAt(line, start, end, name, start);
    forall i: nat | i < |line| { ShiftAt(line, start, end, name, i); }
    if r == line && |name| < end - start {
      forall i: nat | start + |name| <= i < |line| { BlanksSpread(line, start, end, name, i); }
    }
    if AlreadyThere(line, start, end, name) {
      forall i: nat | i < |line| ensures r[i] == line[i] { ShiftAt(line, start, end, name, i); }
    }
  }

  /** Behind the last rail it leaves the frame alone only by changing nothing. */
  lemma BehindRailChangesFrame(line: Line, start: nat, end: nat, name: string)
    requires 0 <= LastRail(line) < start < end <= |line| && |name| <= end - start
    ensures SameFrame(line, Shift(line, start, end, name)) <==> Shift(line, start, end, name) == line
  {
    hide Shift;
    ShiftKeepsEnds(line, start, end, name);
  }

  /** A substitution by a name without a rail keeps the last rail and all that
      follows exactly when there is no rail, when it ends at or before the last one,
      or when it begins behind it and finds its result there already. */
  lemma FrameKeptIff(line: Line, start: nat, end: nat, name: string)
    requires start < end <= |line| && |name| <= end - start && RAIL !in name
    ensures SameFrame(line, Shift(line, start, end, name)) <==>
            || LastRail(line) < 0
            || end <= LastRail(line)
            || (LastRail(line) < start && AlreadyThere(line, start, end, name))
  {
    hide Shift;
    if end <= LastRail(line) {
      InsideKeepsFrame(line, start, end, name);
    } else {
      ShiftKeepsEnds(line, start, end, name);
      NoRailBehind(line, start, end, name);
      if 0 <= LastRail(line) < start {
        BehindRailChangesFrame(line, start, end, name);
        UnchangedIff(line, start, end, name);
      }
    }
  }

  // -------------------------------------------------- the rails of every pane

  predicate IsRail(line: Line, i: int)
    requires 0 <= i < |line|
  {
    line[i].ch == RAIL
  }

  /** Every rail of the line, of whichever pane, stands at the same column. */
  ghost predicate SameRails(a: Line, b: Line) {
    |a| == |b| && forall i :: 0 <= i < |a| ==> IsRail(a, i) == IsRail(b, i)
  }

  predicate NoRail(line: Line, lo: nat, hi: nat)
    requires hi <= |line|
  {
    forall i :: lo <= i < hi ==> !IsRail(line, i)
  }

  /** How far a substitution that saves so many cells disturbs the line: up to its
      own end if it saves none, else up to the rail the saved space is put before. */
  function Reach(line: Line, end: nat, saved: nat): (r: nat)
    requires end <= |line|
    ensures end <= r <= |line|
  {
    if saved == 0 then end else Anchor(line, end)
  }

  /** The columns of the rails between two columns, added up from one. */
  function Weight(line: Line, lo: nat, hi: nat): nat
    requires lo <= hi <= |line|
    decreases hi
  {
    if lo == hi then 0 else Weight(line, lo, hi - 1) + if IsRail(line, hi - 1) then hi else 0
  }

  lemma {:induction false} WeightSplits(line: Line, lo: nat, mid: nat, hi: nat)
    requires lo <= mid <= hi <= |line|
    ensures Weight(line, lo, hi) == Weight(line, lo, mid) + Weight(line, mid, hi)
    decreases hi
  {
    if mid < hi { WeightSplits(line, lo, mid, hi - 1); }
  }

  lemma {:induction false} SameRailsWeighTheSame(a: Line, b: Line, lo: nat, hi: nat)
    requires lo <= hi <= |a| && |a| == |b| && forall i :: lo <= i < hi ==> IsRail(a, i) == IsRail(b, i)
    ensures Weight(a, lo, hi) == Weight(b, lo, hi)
    decreases hi
  {
    if lo < hi { SameRailsWeighTheSame(a, b, lo, hi - 1); }
  }

  lemma {:induction false} WeightlessIff(line: Line, lo: nat, hi: nat)
    requires lo <= hi <= |line|
    ensures Weight(line, lo, hi) == 0 <==> NoRail(line, lo, hi)
    decreases hi
  {
    if lo < hi { WeightlessIff(line, lo, hi - 1); }
  }

  /** Rails moved to the left weigh less. */
  lemma {:induction false} MovedRailsWeighLess(a: Line, b: Line, lo: nat, hi: nat, saved: nat)
    requires saved <= lo <= hi <= |a| && |a| == |b| && forall i :: lo <= i < hi ==> IsRail(a, i) == IsRail(b, i - saved)
    ensures Weight(b, lo - saved, hi - saved) <= Weight(a, lo, hi)
    ensures Weight(b, lo - saved, hi - saved) == Weight(a, lo, hi) <==> saved == 0 || NoRail(a, lo, hi)
    decreases hi
  {
    if lo < hi { MovedRailsWeighLess(a, b, lo, hi - 1, saved); }
  }

  /** The rails after a substitution by a name without one: none in the name, those
      behind the span moved left by the cells saved, none in the gap. */
  lemma ShiftRailAt(line: Line, start: nat, end: nat, name: string, i: nat)
    requires start < end <= |line| && |name| <= end - start && RAIL !in name && i < |line|
    ensures var r, a, saved := Shift(line, start, end, name), Anchor(line, end), end - start - |name|;
            && |r| == |line|
            && IsRail(r, i) == (if i < start then IsRail(line, i)
                                else if i < start + |name| then false
                                else if i < a - saved then IsRail(line, i + saved)
                                else if i < a then false
                                else IsRail(line, i))
  {
    hide Shift;
    ShiftAt(line, start, end, name, i);
  }

  /** The rails of `r` are those of `line` outside start..a; in there those of
      end..a have moved to `moved` and there are no others. */
  ghost predicate RailsMoved(line: Line, r: Line, start: nat, moved: nat, end: nat, a: nat)
    requires start <= moved <= end <= a <= |line|
  {
    && |r| == |line|
    && (forall i :: 0 <= i < start ==> IsRail(line, i) == IsRail(r, i))
    && NoRail(r, start, moved) && NoRail(r, moved + a - end, a)
    && (forall i :: end <= i < a ==> IsRail(line, i) == IsRail(r, i - (end - moved)))
    && (forall i :: a <= i < |line| ==> IsRail(line, i) == IsRail(r, i))
  }

  lemma ShiftMovesRails(line: Line, start: nat, end: nat, name: string)
    requires start < end <= |line| && |name| <= end - start && RAIL !in name
    ensures RailsMoved(line, Shift(line, start, end, name), start, start + |name|, end, Anchor(line, end))
  {
    hide Shift;
    var r, a, saved := Shift(line, start, end, name), Anchor(line, end), end - start - |name|;
    ShiftRailAt(line, start, end, name, start);
    forall i: nat | i < start ensures IsRail(line, i) == IsRail(r, i) { ShiftRailAt(line, start, end, name, i); }
    forall i: nat | start <= i < start + |name| ensures !IsRail(r, i) { ShiftRailAt(line, start, end, name, i); }
    forall i: nat | end <= i < a ensures IsRail(line, i) == IsRail(r, i - saved) {
      ShiftRailAt(line, start, end, name, i - saved);
    }
    forall i: nat | a - saved <= i < a ensures !IsRail(r, i) { ShiftRailAt(line, start, end, name, i); }
    forall i: nat | a <= i < |line| ensures IsRail(line, i) == IsRail(r, i) { ShiftRailAt(line, start, end, name, i); }
  }

  lemma WeightInParts(line: Line, a: nat, b: nat, c: nat, d: nat)
    requires a <= b <= c <= d <= |line|
    ensures Weight(line, 0, |line|) ==
            Weight(line, 0, a) + Weight(line, a, b) + Weight(line, b, c) + Weight(line, c, d) + Weight(line, d, |line|)
  {
    WeightSplits(line, 0, a, |line|);
    WeightSplits(line, a, b, |line|);
    WeightSplits(line, b, c, |line|);
    WeightSplits(line, c, d, |line|);
  }

  lemma WeightAfterMove(line: Line, r: Line, start: nat, moved: nat, end: nat, a: nat)
    requires start <= moved <= end <= a <= |line| && RailsMoved(line, r, start, moved, end, a)
    ensures Weight(r, 0, |r|) == Weight(line, 0, start) + Weight(r, moved, moved + a - end) + Weight(line, a, |line|)
  {
    WeightInParts(r, start, moved, moved + a - end, a);
    SameRailsWeighTheSame(line, r, 0, start);
    SameRailsWeighTheSame(line, r, a, |line|);
    WeightlessIff(r, start, moved);
    WeightlessIff(r, moved + a - end, a);
  }

  /** Such a move makes the rails lighter, unless none is lost or moved. */
  lemma MoveIsLighter(line: Line, r: Line, start: nat, moved: nat, end: nat, a: nat)
    requires start <= moved <= end <= a <= |line| && RailsMoved(line, r, start, moved, end, a)
    ensures Weight(r, 0, |r|) <= Weight(line, 0, |line|)
    ensures Weight(r, 0, |r|) == Weight(line, 0, |line|) <==> NoRail(line, start, end) && (moved == end || NoRail(line, end, a))
  {
    WeightAfterMove(line, r, start, moved, end, a);
    WeightInParts(line, start, end, a, a);
    WeightlessIff(line, start, end);
    MovedRailsWeighLess(line, r, end, a, end - moved);
  }

  /** A substitution by a name without a rail makes the rails lighter, unless there
      are none where it reaches. */
  lemma RailsGetLighter(line: Line, start: nat, end: nat, name: string)
    requires start < end <= |line| && |name| <= end - start && RAIL !in name
    ensures var r := Shift(line, start, end, name);
            && |r| == |line| && Weight(r, 0, |r|) <= Weight(line, 0, |line|)
            && (Weight(r, 0, |r|) == Weight(line, 0, |line|) <==>
                NoRail(line, start, Reach(line, end, end - start - |name|)))
  {
    hide Shift;
    var r, a := Shift(line, start, end, name), Anchor(line, end);
    ShiftMovesRails(line, start, end, name);
    MoveIsLighter(line, r, start, start + |name|, end, a);
    assert NoRail(line, start, a) <==> NoRail(line, start, end) && NoRail(line, end, a);
  }

  /** A substitution by a name without a rail keeps every rail of the line at its
      column exactly when there is none in the part of the line it disturbs. */
  lemma RailsKeptIff(line: Line, start: nat, end: nat, name: string)
    requires start < end <= |line| && |name| <= end - start && RAIL !in name
    ensures SameRails(line, Shift(line, start, end, name)) <==>
            NoRail(line, start, Reach(line, end, end - start - |name|))
  {
    hide Shift;
    var r := Shift(line, start, end, name);
    RailsGetLighter(line, start, end, name);
    if SameRails(line, r) { SameRailsWeighTheSame(line, r, 0, |line|); }
    if NoRail(line, start, Reach(line, end, end - start - |name|)) {
      forall i: nat | i < |line| ensures IsRail(line, i) == IsRail(r, i) { ShiftRailAt(line, start, end, name, i); }
    }
  }

  /** Side by side: a shorter name in one pane moves that pane's own right rail to
      the left, although the last rail of the line and all behind it stay. */
  lemma PaneRailMoves(line: Line, start: nat, end: nat, name: string, rail: nat)
    requires start < end <= rail < LastRail(line) && IsRail(line, rail) && |name| < end - start && RAIL !in name
    ensures var r := Shift(line, start, end, name);
            && SameFrame(line, r) && !SameRails(line, r)
            && IsRail(r, rail - (end - start - |name|))
  {
    hide Shift;
    InsideKeepsFrame(line, start, end, name);
    AnchorIsLastRail(line, end);
    RailsKeptIff(line, start, end, name);
    ShiftRailAt(line, start, end, name, rail - (end - start - |name|));
  }

  /** Two panes, and "Arc" for "Nova" in the first. */
  lemma TwoPanes(style: Style)
    ensures var line := Styled(['N', 'o', 'v', 'a', '\U{2502}', 'y', '\U{2502}'], style);
            var r := Shift(line, 0, 4, "Arc");
            && SameFrame(line, r) && IsRail(line, 4) && !IsRail(r, 4) && IsRail(r, 3)
  {
    hide Shift;
    var line := Styled(['N', 'o', 'v', 'a', '\U{2502}', 'y', '\U{2502}'], style);
    assert IsRail(line, 6);
    assert LastRail(line) == 6;
    PaneRailMoves(line, 0, 4, "Arc", 4);
    AnchorIsLastRail(line, 4);
    ShiftRailAt(line, 0, 4, "Arc", 4);
  }

  // ----------------------------------------------- a whole prose redaction

  /** Line `j` of a screen as pattern `k` finds it; after the last pattern, as it
      is left. */
  function LineAt<N>(names: N, naming: Naming<N>, lines: seq<Line>, patterns: seq<Pattern>, k: nat, j: nat): Line
    requires k <= |patterns| && j < |lines|
  {
    SweepAll(names, lines, MatchSteps(naming, patterns), k).1[j]
  }

  /** What is remembered when pattern `k` comes to line `j`. */
  function NamesAt<N>(names: N, naming: Naming<N>, lines: seq<Line>, patterns: seq<Pattern>, k: nat, j: nat): N
    requires k < |patterns| && j < |lines|
  {
    var steps := MatchSteps(naming, patterns);
    var (n, ls) := SweepAll(names, lines, steps, k);
    Sweep(n, ls, steps[k], j).0
  }

  lemma LineAtNext<N>(names: N, naming: Naming<N>, lines: seq<Line>, patterns: seq<Pattern>, k: nat, j: nat)
    requires k < |patterns| && j < |lines|
    ensures LineAt(names, naming, lines, patterns, k + 1, j) ==
            Apply(NamesAt(names, naming, lines, patterns, k, j), naming,
                  LineAt(names, naming, lines, patterns, k, j), OnMatch(patterns[k])).1
  {
    var steps := MatchSteps(naming, patterns);
    var (n, ls) := SweepAll(names, lines, steps, k);
    SweepAt(n, ls, steps[k], |ls|, j);
  }

  /** From one line to the next of the same width: unchanged without a match; else
      the cells before the span keep their places, and so do the rightmost rail to
      the right of the span and all cells after it. */
  ghost predicate RailStays(line: Line, r: Line, p: Pattern) {
    && |r| == |line|
    && match SpanIn(OnMatch(p), line)
       case None => r == line
       case Some(m) => SameBetween(line, r, 0, m.start) && SameBetween(line, r, Anchor(line, m.end), |line|)
  }

  lemma PutKeepsRail(e: Edit, line: Line, m: Span, name: string, r: Line)
    requires e.OnMatch? && m.start < m.end <= |line| && r == Put(e, line, m, name)
    ensures |r| == |line| && SameBetween(line, r, 0, m.start) && SameBetween(line, r, Anchor(line, m.end), |line|)
  {
    hide Shift;
    ShiftKeepsEnds(line, m.start, m.end, Fit(name, m.end - m.start));
  }

  lemma MatchKeepsRail<N>(names: N, naming: Naming<N>, line: Line, p: Pattern)
    ensures RailStays(line, Apply(names, naming, line, OnMatch(p)).1, p)
  {
    match SpanIn(OnMatch(p), line)
    case None =>
    case Some(m) =>
      PutKeepsRail(OnMatch(p), line, m, naming(names, Original(line, m), p.kind).1, Apply(names, naming, line, OnMatch(p)).1);
  }

  /** Every substitution of a whole prose redaction, whatever the lines, the
      patterns and the names, keeps the cell count and the rail right of its span. */
  lemma EveryMatchKeepsRail<N>(names: N, naming: Naming<N>, lines: seq<Line>, patterns: seq<Pattern>, k: nat, j: nat)
    requires k < |patterns| && j < |lines|
    ensures RailStays(LineAt(names, naming, lines, patterns, k, j), LineAt(names, naming, lines, patterns, k + 1, j), patterns[k])
  {
    LineAtNext(names, naming, lines, patterns, k, j);
    MatchKeepsRail(NamesAt(names, naming, lines, patterns, k, j), naming,
                   LineAt(names, naming, lines, patterns, k, j), patterns[k]);
  }

  /** Whatever pattern `p` substitutes in the line ends at or before its last rail. */
  predicate StaysInside(line: Line, p: Pattern) {
    SpanIn(OnMatch(p), line).Some? ==> SpanIn(OnMatch(p), line).value.end <= LastRail(line)
  }

  lemma PutKeepsFrame(e: Edit, line: Line, m: Span, name: string, r: Line)
    requires e.OnMatch? && m.start < m.end <= LastRail(line) && r == Put(e, line, m, name)
    ensures SameFrame(line, r)
  {
    hide Shift;
    InsideKeepsFrame(line, m.start, m.end, Fit(name, m.end - m.start));
  }

  lemma InsideMatchKeepsFrame<N>(names: N, naming: Naming<N>, line: Line, p: Pattern)
    requires StaysInside(line, p)
    ensures SameFrame(line, Apply(names, naming, line, OnMatch(p)).1)
  {
    match SpanIn(OnMatch(p), line)
    case None =>
    case Some(m) =>
      PutKeepsFrame(OnMatch(p), line, m, naming(names, Original(line, m), p.kind).1, Apply(names, naming, line, OnMatch(p)).1);
  }

  /** All patterns stay inside line `j`, as each of them finds it. */
  ghost predicate StayInside<N>(names: N, naming: Naming<N>, lines: seq<Line>, patterns: seq<Pattern>, j: nat)
    requires j < |lines|
  {
    forall i :: 0 <= i < |patterns| ==> StaysInside(LineAt(names, naming, lines, patterns, i, j), patterns[i])
  }

  lemma MatchIsKept<N>(names: N, naming: Naming<N>, lines: seq<Line>, patterns: seq<Pattern>, i: nat, j: nat)
    requires i < |patterns| && j < |lines|
    ensures var line, next := LineAt(names, naming, lines, patterns, i, j), LineAt(names, naming, lines, patterns, i + 1, j);
            |next| == |line| && (StaysInside(line, patterns[i]) ==> SameFrame(line, next))
  {
    EveryMatchKeepsRail(names, naming, lines, patterns, i, j);
    LineAtNext(names, naming, lines, patterns, i, j);
    var line := LineAt(names, naming, lines, patterns, i, j);
    if StaysInside(line, patterns[i]) {
      InsideMatchKeepsFrame(NamesAt(names, naming, lines, patterns, i, j), naming, line, patterns[i]);
    }
  }

  ghost predicate SameFrameAt(history: seq<Line>, i: nat)
    requires i + 1 < |history|
  {
    SameFrame(history[i], history[i + 1])
  }

  ghost predicate SameWidthAt(history: seq<Line>, i: nat)
    requires i + 1 < |history|
  {
    |history[i]| == |history[i + 1]|
  }

  lemma {:induction false} HistoryKeepsWidth(history: seq<Line>, k: nat)
    requires k < |history| && forall i: nat :: i < k ==> SameWidthAt(history, i)
    ensures |history[0]| == |history[k]|
  {
    if k > 0 {
      HistoryKeepsWidth(history, k - 1);
      assert SameWidthAt(history, k - 1);
    }
  }

  lemma {:induction false} HistoryKeepsFrame(history: seq<Line>, k: nat)
    requires k < |history| && forall i: nat :: i < k ==> SameFrameAt(history, i)
    ensures SameFrame(history[0], history[k])
  {
    if k > 0 {
      HistoryKeepsFrame(history, k - 1);
      assert SameFrameAt(history, k - 1);
    }
  }

  function History<N>(names: N, naming: Naming<N>, lines: seq<Line>, patterns: seq<Pattern>, j: nat): (h: seq<Line>)
    requires j < |lines|
    ensures |h| == |patterns| + 1 && forall k :: 0 <= k <= |patterns| ==> h[k] == LineAt(names, naming, lines, patterns, k, j)
  {
    seq(|patterns| + 1, k requires 0 <= k <= |patterns| => LineAt(names, naming, lines, patterns, k, j))
  }

  /** A whole prose redaction of any lines by any patterns keeps the number of
      lines and every line's cell count. A line on which no pattern, when its turn
      comes, finds a span reaching over the last rail keeps that rail and all cells
      after it, whatever happens on the other lines. */
  lemma MatchAllKeeps<N>(names: N, naming: Naming<N>, lines: seq<Line>, patterns: seq<Pattern>, j: nat)
    requires j < |lines|
    ensures var r := MatchAll(names, naming, lines, patterns).1;
            && |r| == |lines| && |r[j]| == |lines[j]|
            && (StayInside(names, naming, lines, patterns, j) ==> SameFrame(lines[j], r[j]))
  {
    var history := History(names, naming, lines, patterns, j);
    forall i: nat | i < |patterns| ensures SameWidthAt(history, i) { MatchIsKept(names, naming, lines, patterns, i, j); }
    HistoryKeepsWidth(history, |patterns|);
    if StayInside(names, naming, lines, patterns, j) {
      forall i: nat | i < |patterns| ensures SameFrameAt(history, i) { MatchIsKept(names, naming, lines, patterns, i, j); }
      HistoryKeepsFrame(history, |patterns|);
    }
  }

  // ------------------------------------------ every rail, over a whole redaction

  /** The cells a substitution saves: none in a column, where the name is padded. */
  function Saved(e: Edit, m: Span, name: string): nat
    requires m.start < m.end
  {
    if e.OnColumn? then 0 else m.end - m.start - |Fit(name, m.end - m.start)|
  }

  /** No rail stands where a substitution, putting this name, disturbs the line. */
  predicate LeavesRails(line: Line, e: Edit, name: string) {
    match SpanIn(e, line)
    case None => true
    case Some(m) => NoRail(line, m.start, Reach(line, m.end, Saved(e, m, name)))
  }

  /** The name a substitution puts in the line, if any. */
  function Given<N>(names: N, naming: Naming<N>, line: Line, e: Edit): (name: string) {
    match SpanIn(e, line)
    case None => ""
    case Some(m) => naming(names, Original(line, m), KindOf(e)).1
  }

  lemma FitHasNoRail(name: string, width: nat)
    requires RAIL !in name
    ensures RAIL !in Fit(name, width) && RAIL !in Invent(name, width)
  {
  }

  /** From one line to the next: as many cells, rails no heavier, and as heavy, and
      the same, exactly if `left`. */
  ghost predicate RailsLeft(line: Line, r: Line, left: bool) {
    && |r| == |line| && Weight(r, 0, |r|) <= Weight(line, 0, |line|)
    && (Weight(r, 0, |r|) == Weight(line, 0, |line|) <==> left)
    && (SameRails(line, r) <==> left)
  }

  /** Overwriting leaves the rails outside the text and none inside. */
  lemma OverwriteMovesRails(line: Line, start: nat, text: string)
    requires start + |text| <= |line| && RAIL !in text
    ensures var end := start + |text|; RailsMoved(line, Overwrite(line, start, text), start, end, end, end)
  {
  }

  lemma ColumnRails(line: Line, start: nat, text: string)
    requires start + |text| <= |line| && RAIL !in text
    ensures RailsLeft(line, Overwrite(line, start, text), NoRail(line, start, start + |text|))
  {
    var r, end := Overwrite(line, start, text), start + |text|;
    OverwriteMovesRails(line, start, text);
    MoveIsLighter(line, r, start, end, end, end);
    if SameRails(line, r) { SameRailsWeighTheSame(line, r, 0, |line|); }
  }

  lemma PutRails(e: Edit, line: Line, m: Span, name: string, r: Line)
    requires m.start < m.end <= |line| && r == Put(e, line, m, name) && RAIL !in name
    ensures RailsLeft(line, r, NoRail(line, m.start, Reach(line, m.end, Saved(e, m, name))))
  {
    hide Shift, Overwrite, NoRail, SameRails, Weight;
    FitHasNoRail(name, m.end - m.start);
    if e.OnColumn? {
      ColumnRails(line, m.start, Invent(name, m.end - m.start));
    } else {
      RailsGetLighter(line, m.start, m.end, Fit(name, m.end - m.start));
      RailsKeptIff(line, m.start, m.end, Fit(name, m.end - m.start));
    }
  }

  lemma EditRails<N>(names: N, naming: Naming<N>, line: Line, e: Edit)
    requires RAIL !in Given(names, naming, line, e)
    ensures RailsLeft(line, Apply(names, naming, line, e).1, LeavesRails(line, e, Given(names, naming, line, e)))
  {
    match SpanIn(e, line)
    case None =>
    case Some(m) => PutRails(e, line, m, Given(names, naming, line, e), Apply(names, naming, line, e).1);
  }

  /** The name pattern `k` puts in line `j`, and whether it leaves the rails there. */
  function GivenAt<N>(names: N, naming: Naming<N>, lines: seq<Line>, patterns: seq<Pattern>, k: nat, j: nat): string
    requires k < |patterns| && j < |lines|
  {
    Given(NamesAt(names, naming, lines, patterns, k, j), naming, LineAt(names, naming, lines, patterns, k, j),
          OnMatch(patterns[k]))
  }

  predicate LeavesRailsAt<N>(names: N, naming: Naming<N>, lines: seq<Line>, patterns: seq<Pattern>, k: nat, j: nat)
    requires k < |patterns| && j < |lines|
  {
    LeavesRails(LineAt(names, naming, lines, patterns, k, j), OnMatch(patterns[k]), GivenAt(names, naming, lines, patterns, k, j))
  }

  lemma MatchRailsAt<N>(names: N, naming: Naming<N>, lines: seq<Line>, patterns: seq<Pattern>, k: nat, j: nat)
    requires k < |patterns| && j < |lines| && RAIL !in GivenAt(names, naming, lines, patterns, k, j)
    ensures RailsLeft(LineAt(names, naming, lines, patterns, k, j), LineAt(names, naming, lines, patterns, k + 1, j),
                      LeavesRailsAt(names, naming, lines, patterns, k, j))
  {
    LineAtNext(names, naming, lines, patterns, k, j);
    EditRails(NamesAt(names, naming, lines, patterns, k, j), naming, LineAt(names, naming, lines, patterns, k, j),
              OnMatch(patterns[k]));
  }

  ghost predicate RailsLeftAt(history: seq<Line>, left: seq<bool>, i: nat)
    requires i + 1 < |history| && i < |left|
  {
    RailsLeft(history[i], history[i + 1], left[i])
  }

  /** Rails that were lost or moved left never come back. */
  lemma {:induction false} HistoryOfRails(history: seq<Line>, left: seq<bool>, k: nat)
    requires k < |history| && k <= |left| && forall i: nat :: i < k ==> RailsLeftAt(history, left, i)
    ensures RailsLeft(history[0], history[k], forall i :: 0 <= i < k ==> left[i])
  {
    if k > 0 {
      HistoryOfRails(history, left, k - 1);
      assert RailsLeftAt(history, left, k - 1);
      RailsLeftTwice(history[0], history[k - 1], history[k], forall i :: 0 <= i < k - 1 ==> left[i], left[k - 1]);
    }
  }

  lemma RailsLeftTwice(a: Line, b: Line, c: Line, first: bool, second: bool)
    requires RailsLeft(a, b, first) && RailsLeft(b, c, second)
    ensures RailsLeft(a, c, first && second)
  {
    if SameRails(a, c) { SameRailsWeighTheSame(a, c, 0, |a|); }
  }

  /** A whole prose redaction by names without a rail leaves every rail of a line at
      its column if and only if each pattern, when its turn comes, finds none where
      it disturbs the line. No later substitution makes up for an earlier one. */
  lemma RailsKeptThroughoutIff<N>(names: N, naming: Naming<N>, lines: seq<Line>, patterns: seq<Pattern>, j: nat)
    requires j < |lines| && forall k :: 0 <= k < |patterns| ==> RAIL !in GivenAt(names, naming, lines, patterns, k, j)
    ensures SameRails(lines[j], MatchAll(names, naming, lines, patterns).1[j]) <==>
            forall k :: 0 <= k < |patterns| ==> LeavesRailsAt(names, naming, lines, patterns, k, j)
  {
    var history := History(names, naming, lines, patterns, j);
    var left := seq(|patterns|, k requires 0 <= k < |patterns| => LeavesRailsAt(names, naming, lines, patterns, k, j));
    forall k: nat | k < |patterns| ensures RailsLeftAt(history, left, k) { MatchRailsAt(names, naming, lines, patterns, k, j); }
    HistoryOfRails(history, left, |patterns|);
    assert forall k :: 0 <= k < |patterns| ==> left[k] == LeavesRailsAt(names, naming, lines, patterns, k, j);
  }

  // ---------------------------------------------------------------- the screen

  /** The cells of a span take new characters, one by one. */
  method WriteCells(line: Line, start: nat, text: string) returns (r: Line)
    requires start + |text| <= |line|
    ensures r == Overwrite(line, start, text)
  {
    r := line;
    assert Overwrite(line, start, text[..0]) == line;
    for offset := 0 to |text|
      invariant r == Overwrite(line, start, text[..offset])
    {
      r := r[start + offset := Cell(text[offset], r[start + offset].style)];
    }
    assert text[..|text|] == text;
  }

  /** The captured lines, rewritten in place with names from a registry. */
  class Screen {
    var lines: seq<Line>

    constructor (captured: seq<Line>)
      ensures lines == captured
    {
      lines := captured;
    }

    /** `_apply`: one span of one line. */
    method ApplySpan(reg: Registry, line: Line, start: nat, end: int, kind: Kind) returns (r: Line)
      modifies reg
      ensures match ColumnSpan(line, start, end)
              case None => reg.View() == old(reg.View()) && r == line
              case Some(m) =>
                var (next, name) := NameFor(old(reg.View()), reg.sp, Original(line, m), kind);
                reg.View() == next && r == Overwrite(line, m.start, Invent(name, m.end - m.start))
    {
      var e := Min(end, |line|);
      if e <= start { return line; }
      var original := Plain(line[start..e]);
      if Blank(original) { return line; }
      var name := reg.TakeName(original, kind);
      r := WriteCells(line, start, Invent(name, e - start));
    }

    /** One column specification on one line. */
    method RedactColumn(reg: Registry, plain: string, line: Line, c: Column) returns (r: Line)
      modifies reg
      ensures (reg.View(), r) == Apply(old(reg.View()), RegistryNaming(reg.sp), line, OnColumn(plain, c))
    {
      hide Shift, Overwrite, Invent, ColumnSpan;
      if !c.matches(plain) { return line; }
      assert SpanIn(OnColumn(plain, c), line) == ColumnSpan(line, ColumnStart(c), ColumnEnd(line, c));
      r := ApplySpan(reg, line, ColumnStart(c), ColumnEnd(line, c), c.kind);
    }

    method RedactColumns(
        reg: Registry, line: Line, columns: seq<Column>, ghost steps: seq<LineStep<Names>>) returns (r: Line)
      requires |steps| == |columns|
      requires forall i :: 0 <= i < |steps| ==> Does(steps[i], RegistryNaming(reg.sp), OnColumn(Plain(line), columns[i]))
      modifies reg
      ensures (reg.View(), r) == Through(old(reg.View()), line, steps, |steps|)
    {
      var plain := Plain(line);
      r := line;
      for k := 0 to |columns|
        invariant (reg.View(), r) == Through(old(reg.View()), line, steps, k)
      {
        assert Does(steps[k], RegistryNaming(reg.sp), OnColumn(plain, columns[k]));
        r := RedactColumn(reg, plain, r, columns[k]);
      }
    }

    method RedactRow(reg: Registry, line: Line, columns: seq<Column>) returns (r: Line)
      modifies reg
      ensures (reg.View(), r) == RedactLine(old(reg.View()), RegistryNaming(reg.sp), line, columns)
    {
      r := RedactColumns(reg, line, columns, ColumnSteps(RegistryNaming(reg.sp), Plain(line), columns));
    }

    /** `redact`. */
    method Redact(reg: Registry, columns: seq<Column>)
      modifies this, reg
      ensures (reg.View(), lines) == RedactLines(old(reg.View()), RegistryNaming(reg.sp), old(lines), columns)
    {
      var ls := lines;
      for i := 0 to |lines|
        invariant lines == old(lines) && |ls| == |lines|
        invariant (reg.View(), ls) == Sweep(old(reg.View()), lines, RowStep(RegistryNaming(reg.sp), columns), i)
      {
        var row := RedactRow(reg, ls[i], columns);
        ls := ls[i := row];
      }
      lines := ls;
    }

    /** `_apply_shifted` at the span a pattern finds. */
    method RedactMatch(reg: Registry, line: Line, p: Pattern) returns (r: Line)
      modifies reg
      ensures (reg.View(), r) == Apply(old(reg.View()), RegistryNaming(reg.sp), line, OnMatch(p))
    {
      hide Shift;
      var found := p.search(Plain(line));
      if found.None? { return line; }
      var start, end := found.value.start, found.value.end;
      var original := Plain(line[start..end]);
      if Blank(original) { return line; }
      assert SpanIn(OnMatch(p), line) == found;
      var name := reg.TakeName(original, p.kind);
      r := Shift(line, start, end, Fit(name, end - start));
      assert r == Put(OnMatch(p), line, found.value, name);
    }

    /** One pattern over every line. */
    method RedactPattern(reg: Registry, p: Pattern, ghost step: LineStep<Names>)
      requires Does(step, RegistryNaming(reg.sp), OnMatch(p))
      modifies this, reg
      ensures (reg.View(), lines) == Sweep(old(reg.View()), old(lines), step, |old(lines)|)
    {
      var ls := lines;
      for i := 0 to |lines|
        invariant lines == old(lines) && |ls| == |lines|
        invariant (reg.View(), ls) == Sweep(old(reg.View()), lines, step, i)
      {
        ghost var names := reg.View();
        var row := RedactMatch(reg, ls[i], p);
        assert step(names, ls[i]) == (reg.View(), row);
        ls := ls[i := row];
      }
      lines := ls;
    }

    /** `redact_matches`. */
    method RedactMatches(reg: Registry, patterns: seq<Pattern>)
      modifies this, reg
      ensures (reg.View(), lines) == MatchAll(old(reg.View()), RegistryNaming(reg.sp), old(lines), patterns)
    {
      ghost var steps := MatchSteps(RegistryNaming(reg.sp), patterns);
      for k := 0 to |patterns|
        invariant (reg.View(), lines) == SweepAll(old(reg.View()), old(lines), steps, k)
      {
        RedactPattern(reg, patterns[k], steps[k]);
      }
    }
  }

  ghost predicate Does(step: LineStep<Names>, naming: Naming<Names>, e: Edit) {
    forall n, l {:trigger Apply(n, naming, l, e)} :: step(n, l) == Apply(n, naming, l, e)
  }

  // ------------------------------------------------------- background runs

  datatype Rect = Rect(start: nat, end: nat, colour: string)

  predicate Visible(bg: Option<string>) { bg.Some? && bg.value != "" }

  /** Column `col` lies under one of the rectangles. */
  ghost predicate Covered(rects: seq<Rect>, col: int) {
    exists k :: 0 <= k < |rects| && rects[k].start <= col < rects[k].end
  }

  /** A rectangle over cells that all have its colour. */
  ghost predicate Solid(bgs: seq<Option<string>>, n: nat, r: Rect)
    requires n <= |bgs|
  {
    r.start < r.end <= n && r.colour != "" && forall c :: r.start <= c < r.end ==> bgs[c] == Some(r.colour)
  }

  /** Apart, or touching with different colours. */
  predicate Separate(a: Rect, b: Rect) {
    a.end < b.start || (a.end == b.start && a.colour != b.colour)
  }

  /** The rectangles paint exactly the cells before `n` that have a background,
      each in its colour, without overlap and without needless seams. */
  ghost predicate Paints(bgs: seq<Option<string>>, n: nat, rects: seq<Rect>)
    requires n <= |bgs|
  {
    && (forall k :: 0 <= k < |rects| ==> Solid(bgs, n, rects[k]))
    && (forall c :: 0 <= c < n && bgs[c].Some? && bgs[c].value != "" ==> Covered(rects, c))
    && (forall j, k :: 0 <= j < k < |rects| ==> Separate(rects[j], rects[k]))
  }

  /** Close the run of `bg` from `start` to `end`. */
  function CloseRun(rects: seq<Rect>, start: nat, end: nat, bg: Option<string>): seq<Rect> {
    if Visible(bg) then rects + [Rect(start, end, bg.value)] else rects
  }

  lemma ClosedRunPaints(bgs: seq<Option<string>>, start: nat, end: nat, rects: seq<Rect>, bg: Option<string>)
    requires start <= end <= |bgs| && Paints(bgs, start, rects) && (forall c :: start <= c < end ==> bgs[c] == bg)
    requires start == end ==> bg == None
    requires start > 0 ==> bgs[start - 1] != bg
    ensures Paints(bgs, end, CloseRun(rects, start, end, bg))
  {
    if Visible(bg) {
      ClosedRunCovers(bgs, start, end, rects, bg);
      forall k | 0 <= k < |rects| ensures Separate(rects[k], Rect(start, end, bg.value)) {
        assert Solid(bgs, start, rects[k]);
        assert rects[k].end == start ==> bgs[start - 1] == Some(rects[k].colour);
      }
    }
  }

  lemma ClosedRunCovers(bgs: seq<Option<string>>, start: nat, end: nat, rects: seq<Rect>, bg: Option<string>)
    requires Visible(bg) && start <= end <= |bgs| && forall c :: 0 <= c < start && Visible(bgs[c]) ==> Covered(rects, c)
    ensures forall col :: 0 <= col < end && Visible(bgs[col]) ==> Covered(CloseRun(rects, start, end, bg), col)
  {
    var longer := CloseRun(rects, start, end, bg);
    forall col | 0 <= col < end && Visible(bgs[col]) ensures Covered(longer, col) {
      if col < start {
        var k :| 0 <= k < |rects| && rects[k].start <= col < rects[k].end;
        assert longer[k] == rects[k];
      } else {
        assert longer[|rects|] == Rect(start, end, bg.value);
      }
    }
  }

  /** The background loop of `to_svg` for one row, its sentinel step last. */
  method BackgroundRuns(bgs: seq<Option<string>>) returns (rects: seq<Rect>)
    ensures Paints(bgs, |bgs|, rects)
  {
    rects := [];
    var runStart, runBg := 0, None;
    for col := 0 to |bgs|
      invariant runStart <= col && Paints(bgs, runStart, rects)
      invariant forall c :: runStart <= c < col ==> bgs[c] == runBg
      invariant runStart == col ==> col == 0 && runBg == None
      invariant runStart > 0 ==> bgs[runStart - 1] != runBg
    {
      var bg := bgs[col];
      if bg != runBg {
        ClosedRunPaints(bgs, runStart, col, rects, runBg);
        rects := CloseRun(rects, runStart, col, runBg);
        runStart, runBg := col, bg;
      }
    }
    ClosedRunPaints(bgs, runStart, |bgs|, rects, runBg);
    rects := CloseRun(rects, runStart, |bgs|, runBg);
  }
}
