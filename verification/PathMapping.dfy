/** Path translation between spaces: packages/shared/src/intake.ts. */
module PathMapping {
  import opened Sequences

  // ------------------------------------------------------------ normalising

  function Collapse(p: string): (r: string)
    ensures p != "" <==> r != ""
    ensures p != "" ==> r[0] == p[0]
  {
    if p == "" then ""
    else if p[0] == '/' && |p| > 1 && p[1] == '/' then Collapse(p[1..])
    else [p[0]] + Collapse(p[1..])
  }

  function DropTrailing(c: string): string {
    if |c| > 1 && c[|c| - 1] == '/' then c[..|c| - 1] else c
  }

  function NormalizePrefix(p: string): string {
    DropTrailing(Collapse(p))
  }

  predicate IsUnderPrefix(path: string, prefix: string) {
    var p, q := NormalizePrefix(path), NormalizePrefix(prefix);
    p == q || (if q == "/" then "/" else q + "/") <= p
  }

  // --------------------------------------- what a path means: its segments

  predicate Absolute(p: string) { p != "" && p[0] == '/' }

  function WordLength(s: string): (n: nat)
    ensures n <= |s| && '/' !in s[..n] && (n < |s| ==> s[n] == '/')
  {
    if s == "" || s[0] == '/' then 0
    else
      var n := WordLength(s[1..]);
      assert s[..n + 1] == [s[0]] + s[1..][..n];
      n + 1
  }

  /** The non-empty pieces between separators. */
  function Segments(p: string): seq<string> {
    if p == "" then []
    else if p[0] == '/' then Segments(p[1..])
    else
      var n := WordLength(p);
      [p[..n]] + Segments(p[n..])
  }

  predicate Proper(segs: seq<string>) {
    forall w :: w in segs ==> w != "" && '/' !in w
  }

  function Join(segs: seq<string>): string {
    if segs == [] then ""
    else if |segs| == 1 then segs[0]
    else segs[0] + "/" + Join(segs[1..])
  }

  function Render(absolute: bool, segs: seq<string>): string {
    (if absolute then "/" else "") + Join(segs)
  }

  lemma {:induction false} SegmentsProper(p: string)
    ensures Proper(Segments(p))
    decreases |p|
  {
    if p != "" {
      SegmentsProper(if p[0] == '/' then p[1..] else p[WordLength(p)..]);
    }
  }

  lemma {:induction false} WordLengthAt(w: string, r: string)
    requires '/' !in w && (r == "" || r[0] == '/')
    ensures WordLength(w + r) == |w|
  {
    if w == "" {
      assert w + r == r;
    } else {
      assert (w + r)[1..] == w[1..] + r;
      WordLengthAt(w[1..], r);
    }
  }

  lemma {:induction false} SegmentsConcat(u: string, v: string)
    ensures Segments(u + "/" + v) == Segments(u) + Segments(v)
    decreases |u|
  {
    if u == "" {
      assert (u + "/" + v)[1..] == v;
    } else if u[0] == '/' {
      assert (u + "/" + v)[1..] == u[1..] + "/" + v;
      SegmentsConcat(u[1..], v);
    } else {
      var n := WordLength(u);
      assert u + "/" + v == u[..n] + (u[n..] + "/" + v);
      WordLengthAt(u[..n], u[n..] + "/" + v);
      assert (u + "/" + v)[n..] == u[n..] + "/" + v;
      SegmentsConcat(u[n..], v);
    }
  }

  lemma ProperTail(segs: seq<string>)
    requires segs != [] && Proper(segs)
    ensures segs[0] != "" && '/' !in segs[0] && Proper(segs[1..])
  {
    assert segs[0] in segs;
    forall w | w in segs[1..] ensures w != "" && '/' !in w { assert w in segs; }
  }

  lemma {:induction false} SegmentsOfJoin(segs: seq<string>)
    requires Proper(segs)
    ensures Segments(Join(segs)) == segs
  {
    if segs != [] {
      ProperTail(segs);
      SingleSegment(segs[0]);
      if |segs| > 1 {
        SegmentsOfJoin(segs[1..]);
        SegmentsConcat(segs[0], Join(segs[1..]));
      }
    }
  }

  lemma {:induction false} JoinEnds(segs: seq<string>)
    requires segs != [] && Proper(segs)
    ensures Join(segs) != "" && Join(segs)[0] != '/' && Join(segs)[|Join(segs)| - 1] != '/'
  {
    var w := segs[0];
    ProperTail(segs);
    if |segs| > 1 {
      var rest := Join(segs[1..]);
      JoinEnds(segs[1..]);
      assert (w + "/" + rest)[|w| + |rest|] == rest[|rest| - 1];
    }
  }

  lemma SegmentsJoin(segs: seq<string>)
    requires Proper(segs)
    ensures Segments(Join(segs)) == segs
    ensures Join(segs) == "" <==> segs == []
    ensures segs != [] ==> Join(segs)[0] != '/' && Join(segs)[|Join(segs)| - 1] != '/'
  {
    SegmentsOfJoin(segs);
    if segs != [] { JoinEnds(segs); }
  }

  lemma SegmentsRender(absolute: bool, segs: seq<string>)
    requires Proper(segs)
    ensures Segments(Render(absolute, segs)) == segs
    ensures Absolute(Render(absolute, segs)) == absolute
  {
    SegmentsJoin(segs);
    SegmentsConcat("", Join(segs));
    assert "" + "/" + Join(segs) == "/" + Join(segs);
    assert "" + Join(segs) == Join(segs);
  }

  lemma {:induction false} JoinAppend(a: seq<string>, b: seq<string>)
    requires a != [] && b != []
    ensures Join(a + b) == Join(a) + "/" + Join(b)
  {
    if |a| > 1 {
      assert (a + b)[1..] == a[1..] + b;
      JoinAppend(a[1..], b);
    } else {
      assert (a + b)[1..] == b;
    }
  }

  lemma RenderAppend(absolute: bool, a: seq<string>, b: seq<string>)
    requires a != [] && b != []
    ensures Render(absolute, a + b) == Render(absolute, a) + "/" + Join(b)
  {
    JoinAppend(a, b);
  }

  lemma PrefixOfSum(u: string, v: string)
    ensures u <= u + v
  {
  }

  lemma {:induction false} CollapseWord(w: string, r: string)
    requires '/' !in w
    ensures Collapse(w + r) == w + Collapse(r)
  {
    if w == "" {
      assert w + r == r;
    } else {
      assert (w + r)[1..] == w[1..] + r;
      CollapseWord(w[1..], r);
    }
  }

  lemma {:induction false} CollapseRoot(r: string)
    requires r != "" && Segments(r) == []
    ensures Collapse(r) == "/"
  {
    if |r| > 1 { CollapseRoot(r[1..]); }
  }

  /** Normalising gives the canonical spelling of the root flag and the segments. */
  lemma {:induction false} NormalForm(p: string)
    ensures NormalizePrefix(p) == Render(Absolute(p), Segments(p))
    decreases |p|
  {
    if p == "" {
    } else if p[0] == '/' {
      NormalForm(p[1..]);
      SlashFirst(p);
    } else {
      var n := WordLength(p);
      assert p == p[..n] + p[n..];
      NormalForm(p[n..]);
      WordFirst(p[..n], p[n..]);
    }
  }

  lemma SlashFirst(p: string)
    requires p != "" && p[0] == '/' && NormalizePrefix(p[1..]) == Render(Absolute(p[1..]), Segments(p[1..]))
    ensures NormalizePrefix(p) == Render(true, Segments(p))
  {
    if |p| == 1 {
      assert Collapse(p) == "/";
    } else if p[1] != '/' {
      SlashThen(Collapse(p[1..]));
      assert "/" + ("" + Join(Segments(p))) == "/" + Join(Segments(p));
    }
  }

  lemma SlashThen(c: string)
    requires c != "" && c[0] != '/'
    ensures DropTrailing("/" + c) == "/" + DropTrailing(c)
  {
  }

  lemma WordBefore(w: string, c: string, segs: seq<string>)
    requires w != "" && segs != [] && Join(segs) != "" && DropTrailing(c) == "/" + Join(segs)
    ensures DropTrailing(w + c) == Join([w] + segs)
  {
    JoinAppend([w], segs);
    assert w + ("/" + Join(segs)) == w + "/" + Join(segs);
  }

  lemma WordFirst(w: string, r: string)
    requires w != "" && '/' !in w && (r == "" || r[0] == '/')
    requires NormalizePrefix(r) == Render(Absolute(r), Segments(r))
    ensures NormalizePrefix(w + r) == Join([w] + Segments(r))
  {
    CollapseWord(w, r);
    if r == "" {
      assert w + Collapse(r) == w;
    } else if Segments(r) == [] {
      CollapseRoot(r);
      assert (w + "/")[..|w|] == w;
    } else {
      SegmentsProper(r);
      SegmentsJoin(Segments(r));
      WordBefore(w, Collapse(r), Segments(r));
    }
  }

  lemma NormalizeKeepsMeaning(p: string)
    ensures Segments(NormalizePrefix(p)) == Segments(p) && Absolute(NormalizePrefix(p)) == Absolute(p)
    ensures NormalizePrefix(NormalizePrefix(p)) == NormalizePrefix(p)
    ensures NormalizePrefix(p) == "" <==> p == ""
    ensures NormalizePrefix(p) == "/" <==> p != "" && Segments(p) == []
  {
    NormalForm(p);
    SegmentsProper(p);
    SegmentsRender(Absolute(p), Segments(p));
    SegmentsJoin(Segments(p));
    NormalForm(NormalizePrefix(p));
  }

  /** How a non-empty, non-root prefix sits in a path below it. */
  lemma UnderSplits(p: string, q: string) returns (v: string)
    requires IsUnderPrefix(p, q) && NormalizePrefix(q) != "/"
    ensures NormalizePrefix(p) == NormalizePrefix(q) || NormalizePrefix(p) == NormalizePrefix(q) + "/" + v
    ensures Segments(p) == Segments(q) + (if NormalizePrefix(p) == NormalizePrefix(q) then [] else Segments(v))
  {
    var np, nq := NormalizePrefix(p), NormalizePrefix(q);
    v := if np == nq then "" else np[|nq| + 1..];
    if np != nq { assert np == nq + "/" + v; }
    NormalizeKeepsMeaning(p);
    NormalizeKeepsMeaning(q);
    SegmentsConcat(nq, v);
  }

  lemma SegmentPrefixIsUnder(p: string, q: string)
    requires Segments(q) != [] && Absolute(p) == Absolute(q) && Segments(q) <= Segments(p)
    ensures IsUnderPrefix(p, q)
  {
    var a, b := Segments(q), Segments(p)[|Segments(q)|..];
    assert Segments(p) == a + b;
    NormalForm(p);
    NormalForm(q);
    if b == [] {
      assert a + b == a;
    } else {
      RenderAppend(Absolute(p), a, b);
      SegmentsProper(q);
      SegmentsRender(Absolute(q), a);
      PrefixOfSum(NormalizePrefix(q) + "/", Join(b));
    }
  }

  /** `IsUnderPrefix` compares whole segments: for a non-empty prefix it holds
      exactly when the prefix's segments begin the path's. The empty prefix
      holds the empty path and every absolute one. */
  lemma UnderIsSegmentPrefix(p: string, q: string)
    ensures IsUnderPrefix(p, q) <==>
            if q == "" then p == "" || Absolute(p) else Absolute(p) == Absolute(q) && Segments(q) <= Segments(p)
  {
    NormalizeKeepsMeaning(p);
    NormalizeKeepsMeaning(q);
    if Segments(q) != [] {
      if IsUnderPrefix(p, q) { var v := UnderSplits(p, q); }
      if Absolute(p) == Absolute(q) && Segments(q) <= Segments(p) { SegmentPrefixIsUnder(p, q); }
    }
  }

  /** Reflexive and transitive on all strings. */
  lemma UnderIsPreorder(p: string, q: string, r: string)
    ensures IsUnderPrefix(p, p)
    ensures IsUnderPrefix(p, q) && IsUnderPrefix(q, r) ==> IsUnderPrefix(p, r)
  {
    UnderIsSegmentPrefix(p, p);
    UnderIsSegmentPrefix(p, q);
    UnderIsSegmentPrefix(q, r);
    UnderIsSegmentPrefix(p, r);
  }

  /** A sibling whose name merely starts with the prefix is not under it:
      `/media-backup` is never under `/media`. */
  lemma SiblingIsNotUnder(q: string, extra: string)
    requires q != "" && q[|q| - 1] != '/' && extra != "" && '/' !in extra
    ensures !IsUnderPrefix(q + extra, q)
  {
    UnderIsSegmentPrefix(q + extra, q);
    LastSegmentGrows(q, extra);
    var a, b := Segments(q), Segments(q + extra);
    SegmentsProper(extra);
    assert b[|a| - 1] == a[|a| - 1] + Segments(extra)[0];
  }

  /** Text glued on without a separator lengthens the last segment. */
  lemma {:induction false} LastSegmentGrows(q: string, extra: string)
    requires q != "" && q[|q| - 1] != '/' && extra != "" && extra[0] != '/'
    ensures Segments(q) != [] && Segments(extra) != []
    ensures Segments(q + extra) == Glue(Segments(q), Segments(extra))
    decreases |q|
  {
    if q[0] == '/' {
      assert (q + extra)[1..] == q[1..] + extra;
      LastSegmentGrows(q[1..], extra);
    } else {
      var n := WordLength(q);
      if n < |q| {
        assert q + extra == q[..n] + (q[n..] + extra);
        WordLengthAt(q[..n], q[n..] + extra);
        assert (q + extra)[n..] == q[n..] + extra;
        assert (q + extra)[..n] == q[..n];
        LastSegmentGrows(q[n..], extra);
        GlueCons(q[..n], Segments(q[n..]), Segments(extra));
      } else {
        OneSegmentGrows(q, extra);
      }
    }
  }

  function Glue(a: seq<string>, b: seq<string>): seq<string>
    requires a != [] && b != []
  {
    a[..|a| - 1] + [a[|a| - 1] + b[0]] + b[1..]
  }

  lemma GlueCons(w: string, a: seq<string>, b: seq<string>)
    requires a != [] && b != []
    ensures Glue([w] + a, b) == [w] + Glue(a, b)
  {
    var c := [w] + a;
    assert c[..|c| - 1] == [w] + a[..|a| - 1] && c[|c| - 1] == a[|a| - 1];
  }

  lemma FirstSegment(w: string, r: string)
    requires w != "" && '/' !in w && (r == "" || r[0] == '/')
    ensures Segments(w + r) == [w] + Segments(r)
  {
    WordLengthAt(w, r);
    assert (w + r)[..|w|] == w && (w + r)[|w|..] == r;
  }

  lemma OneSegmentGrows(q: string, extra: string)
    requires q != "" && '/' !in q && extra != "" && extra[0] != '/'
    ensures Segments(q) == [q] && Segments(extra) != []
    ensures Segments(q + extra) == Glue([q], Segments(extra))
  {
    SingleSegment(q);
    var n := WordLength(extra);
    assert extra == extra[..n] + extra[n..];
    WordsMerge(q, extra[..n], extra[n..]);
  }

  lemma SingleSegment(q: string)
    requires q != "" && '/' !in q
    ensures Segments(q) == [q]
  {
    FirstSegment(q, "");
    assert q + "" == q;
  }

  lemma WordsMerge(q: string, w: string, r: string)
    requires q != "" && '/' !in q && w != "" && '/' !in w && (r == "" || r[0] == '/')
    ensures Segments(w + r) == [w] + Segments(r) && Segments(q + (w + r)) == Glue([q], [w] + Segments(r))
  {
    var u := OneWord(q, w, r);
    FirstSegment(w, r);
    FirstSegment(u, r);
    GlueOne(q, w, Segments(r));
  }

  lemma OneWord(q: string, w: string, r: string) returns (u: string)
    requires q != "" && '/' !in q && '/' !in w
    ensures u == q + w && u != "" && '/' !in u && q + (w + r) == u + r
  {
    u := q + w;
  }

  lemma GlueOne(q: string, w: string, rest: seq<string>)
    ensures Glue([q], [w] + rest) == [q + w] + rest
  {
    assert [q][..0] == [] && ([w] + rest)[1..] == rest;
  }

  // ------------------------------------------------------------------- rules

  datatype Space = Canonical | Host | Container | Provider | MediaServer

  datatype Rule = Rule(
    id: string, space: Space, fromPrefix: string, toPrefix: string,
    scopeId: Option<string>, priority: int, enabled: bool)

  predicate InScope(r: Rule, space: Space, scope: Option<string>) {
    r.enabled && r.space == space && (r.scopeId.None? || r.scopeId == scope)
  }

  function Matching(path: string, space: Space, rules: seq<Rule>, scope: Option<string>): seq<Rule> {
    Filter(Filter(rules, (r: Rule) => InScope(r, space, scope)), (r: Rule) => IsUnderPrefix(path, r.fromPrefix))
  }

  function Scoped(r: Rule): int { if r.scopeId.Some? then 1 else 0 }

  /** Negative when `a` is the more specific rule. */
  function Specificity(a: Rule, b: Rule): int {
    if Scoped(a) != Scoped(b) then Scoped(b) - Scoped(a)
    else if a.priority != b.priority then b.priority - a.priority
    else |NormalizePrefix(b.fromPrefix)| - |NormalizePrefix(a.fromPrefix)|
  }

  function Chosen(path: string, space: Space, rules: seq<Rule>, scope: Option<string>): Option<Rule> {
    var sorted := StableSort(Matching(path, space, rules, scope), Specificity);
    if sorted == [] then None else Some(sorted[0])
  }

  function Rewrite(path: string, r: Rule): string
    requires |NormalizePrefix(r.fromPrefix)| <= |NormalizePrefix(path)|
  {
    var rest := NormalizePrefix(path)[|NormalizePrefix(r.fromPrefix)|..];
    var out := NormalizePrefix(r.toPrefix) + rest;
    if out == "" then "/" else out
  }

  function ToSpace(path: string, space: Space, rules: seq<Rule>, scope: Option<string>): string {
    if space.Canonical? then path
    else match Chosen(path, space, rules, scope)
      case None => path
      case Some(r) =>
        ChosenMatches(path, space, rules, scope);
        UnderStartsWith(path, r.fromPrefix);
        Rewrite(path, r)
  }

  function Swap(r: Rule): Rule { r.(fromPrefix := r.toPrefix, toPrefix := r.fromPrefix) }

  function Inverted(space: Space, rules: seq<Rule>): seq<Rule> {
    var kept := Filter(rules, (r: Rule) => r.enabled && r.space == space);
    seq(|kept|, i requires 0 <= i < |kept| => Swap(kept[i]))
  }

  function FromSpace(path: string, space: Space, rules: seq<Rule>, scope: Option<string>): string {
    if space.Canonical? then path else ToSpace(path, space, Inverted(space, rules), scope)
  }

  lemma UnderStartsWith(p: string, q: string)
    requires IsUnderPrefix(p, q)
    ensures NormalizePrefix(q) <= NormalizePrefix(p)
  {
  }

  lemma SpecificityCoherent()
    ensures Coherent(Specificity)
  {
  }

  lemma MatchingMembers(path: string, space: Space, rules: seq<Rule>, scope: Option<string>, r: Rule)
    ensures r in Matching(path, space, rules, scope) <==>
            r in rules && InScope(r, space, scope) && IsUnderPrefix(path, r.fromPrefix)
  {
  }

  lemma ChosenMatches(path: string, space: Space, rules: seq<Rule>, scope: Option<string>)
    ensures Chosen(path, space, rules, scope).None? <==> Matching(path, space, rules, scope) == []
    ensures var c := Chosen(path, space, rules, scope);
            c.Some? ==> c.value in rules && InScope(c.value, space, scope) && IsUnderPrefix(path, c.value.fromPrefix)
  {
    var m := Matching(path, space, rules, scope);
    var sorted := StableSort(m, Specificity);
    assert |multiset(sorted)| == |multiset(m)|;
    PermutationMembers(sorted, m);
    if sorted != [] { MatchingMembers(path, space, rules, scope, sorted[0]); }
  }

  /** The rule that translates a path is enabled, of this space, and global or of
      this scope, and the path lies under its prefix. It beats every other such rule:
      a scoped rule beats a global one, then the higher priority wins, then the longer
      normalised prefix. */
  lemma ChosenIsMostSpecific(path: string, space: Space, rules: seq<Rule>, scope: Option<string>, other: Rule)
    requires other in rules && other.enabled && other.space == space && (other.scopeId.None? || other.scopeId == scope)
    requires IsUnderPrefix(path, other.fromPrefix)
    ensures Chosen(path, space, rules, scope).Some?
    ensures var c := Chosen(path, space, rules, scope).value;
            && c in rules && c.enabled && c.space == space && (c.scopeId.None? || c.scopeId == scope)
            && IsUnderPrefix(path, c.fromPrefix)
            && (|| (c.scopeId.Some? && other.scopeId.None?)
                || (c.scopeId.Some? == other.scopeId.Some? && c.priority > other.priority)
                || (c.scopeId.Some? == other.scopeId.Some? && c.priority == other.priority &&
                    |NormalizePrefix(c.fromPrefix)| >= |NormalizePrefix(other.fromPrefix)|))
  {
    var m := Matching(path, space, rules, scope);
    var sorted := StableSort(m, Specificity);
    MatchingMembers(path, space, rules, scope, other);
    ChosenMatches(path, space, rules, scope);
    SpecificityCoherent();
    SortSorted(m, Specificity);
    PermutationMembers(sorted, m);
    var i :| 0 <= i < |sorted| && sorted[i] == other;
    if i > 0 { assert Specificity(sorted[0], sorted[i]) <= 0; }
  }

  /** A path no enabled rule of this space and scope covers means the same there, and
      so does every path in the canonical space. */
  lemma UnmappedIsUnchanged(path: string, space: Space, rules: seq<Rule>, scope: Option<string>)
    requires space.Canonical? || forall r :: r in rules && Usable(space, scope)(r) ==> !IsUnderPrefix(path, r.fromPrefix)
    ensures ToSpace(path, space, rules, scope) == path
  {
    ChosenMatches(path, space, rules, scope);
  }

  /** A rule is out of the question if disabled, of another space, or of another scope. */
  function Usable(space: Space, scope: Option<string>): Rule -> bool {
    (r: Rule) => r.enabled && r.space == space && (r.scopeId.None? || r.scopeId == scope)
  }

  /** Rules disabled, of other spaces or of other scopes might as well not be there. */
  lemma OthersAreIgnored(path: string, space: Space, rules: seq<Rule>, scope: Option<string>)
    ensures ToSpace(path, space, rules, scope) == ToSpace(path, space, Filter(rules, Usable(space, scope)), scope)
  {
    var kept := Filter(rules, Usable(space, scope));
    FilterSame(rules, (r: Rule) => InScope(r, space, scope), Usable(space, scope));
    FilterAll(kept, (r: Rule) => InScope(r, space, scope));
  }

  lemma MatchingOfMore(path: string, space: Space, first: Rule, rest: seq<Rule>, scope: Option<string>)
    ensures Matching(path, space, [first] + rest, scope) ==
            (if Usable(space, scope)(first) && IsUnderPrefix(path, first.fromPrefix) then [first] else []) +
            Matching(path, space, rest, scope)
  {
    hide IsUnderPrefix;
    FilterAppend([first], rest, (r: Rule) => InScope(r, space, scope));
    var head, tail := Filter([first], (r: Rule) => InScope(r, space, scope)), Filter(rest, (r: Rule) => InScope(r, space, scope));
    FilterAppend(head, tail, (r: Rule) => IsUnderPrefix(path, r.fromPrefix));
    assert Filter([first][1..], (r: Rule) => InScope(r, space, scope)) == [];
    assert head == if InScope(first, space, scope) then [first] else [];
    if head == [first] { assert head[1..] == []; }
  }

  lemma HeadOfMore(first: Rule, m: seq<Rule>)
    ensures var t, u := StableSort(m, Specificity), StableSort([first] + m, Specificity);
            u != [] && u[0] == if t == [] || !Outranks(t[0], first) then first else t[0]
  {
    assert ([first] + m)[1..] == m;
  }

  /** One more rule in front is chosen unless the choice among the others outranks it. */
  lemma ChosenOfMore(path: string, space: Space, first: Rule, rest: seq<Rule>, scope: Option<string>)
    ensures Chosen(path, space, [first] + rest, scope) ==
              var c := Chosen(path, space, rest, scope);
              if Usable(space, scope)(first) && IsUnderPrefix(path, first.fromPrefix) && (c.None? || !Outranks(c.value, first))
              then Some(first) else c
  {
    hide IsUnderPrefix, Matching, Outranks, Specificity, StableSort;
    MatchingOfMore(path, space, first, rest, scope);
    var m := Matching(path, space, rest, scope);
    HeadOfMore(first, m);
    assert [] + m == m;
  }

  /** More specific: scoped before global, then by priority, then by prefix length. */
  predicate Outranks(a: Rule, b: Rule) {
    || (a.scopeId.Some? && b.scopeId.None?)
    || (a.scopeId.Some? == b.scopeId.Some? && a.priority > b.priority)
    || (a.scopeId.Some? == b.scopeId.Some? && a.priority == b.priority &&
        |NormalizePrefix(a.fromPrefix)| > |NormalizePrefix(b.fromPrefix)|)
  }

  lemma SomeRuleIsChosen(path: string, space: Space, rules: seq<Rule>, scope: Option<string>)
    requires Chosen(path, space, rules, scope).Some?
    ensures rules != []
  {
    ChosenMatches(path, space, rules, scope);
  }

  /** Of rules that tie, the first in the list is chosen. */
  lemma {:induction false} FirstOfTiesIsChosen(
      path: string, space: Space, rules: seq<Rule>, scope: Option<string>) returns (i: nat)
    requires Chosen(path, space, rules, scope).Some?
    ensures i < |rules| && Chosen(path, space, rules, scope) == Some(rules[i])
    ensures forall j :: 0 <= j < i && Usable(space, scope)(rules[j]) && IsUnderPrefix(path, rules[j].fromPrefix) ==>
              Outranks(rules[i], rules[j])
  {
    hide Chosen, IsUnderPrefix, Outranks;
    i := 0;
    SomeRuleIsChosen(path, space, rules, scope);
    if rules != [] {
      assert rules == [rules[0]] + rules[1..];
      ChosenOfMore(path, space, rules[0], rules[1..], scope);
      if Chosen(path, space, rules, scope) != Some(rules[0]) {
        i := FirstOfTiesIsChosen(path, space, rules[1..], scope);
        i := i + 1;
      }
    }
  }

  predicate SameKey(a: Rule, b: Rule) {
    && a.scopeId.Some? == b.scopeId.Some? && a.priority == b.priority
    && NormalizePrefix(a.fromPrefix) == NormalizePrefix(b.fromPrefix)
  }

  /** No two rules in scope share scopedness, priority and normalised prefix. */
  ghost predicate DistinctKeys(space: Space, rules: seq<Rule>, scope: Option<string>) {
    forall a, b :: a in rules && b in rules && Usable(space, scope)(a) && Usable(space, scope)(b) && SameKey(a, b) ==> a == b
  }

  /** Rules that match one path and tie have prefixes of one length of that path. */
  lemma TieMeansSameKey(path: string, a: Rule, b: Rule)
    requires IsUnderPrefix(path, a.fromPrefix) && IsUnderPrefix(path, b.fromPrefix)
    requires Specificity(a, b) <= 0 && Specificity(b, a) <= 0
    ensures SameKey(a, b)
  {
    UnderStartsWith(path, a.fromPrefix);
    UnderStartsWith(path, b.fromPrefix);
  }

  lemma MatchingHasNoTies(path: string, space: Space, rules: seq<Rule>, scope: Option<string>)
    requires DistinctKeys(space, rules, scope)
    ensures NoTies(Matching(path, space, rules, scope), Specificity)
  {
    var m := Matching(path, space, rules, scope);
    forall a, b | a in m && b in m && Specificity(a, b) <= 0 && Specificity(b, a) <= 0 ensures a == b {
      MatchingMembers(path, space, rules, scope, a);
      MatchingMembers(path, space, rules, scope, b);
      TieMeansSameKey(path, a, b);
    }
  }

  /** With distinct keys the order in which rules are stored is irrelevant. */
  lemma ToSpaceIgnoresRuleOrder(
      path: string, space: Space, rules: seq<Rule>, shuffled: seq<Rule>, scope: Option<string>)
    requires multiset(rules) == multiset(shuffled) && DistinctKeys(space, rules, scope)
    ensures ToSpace(path, space, rules, scope) == ToSpace(path, space, shuffled, scope)
  {
    FilterPermutation(rules, shuffled, (r: Rule) => InScope(r, space, scope));
    FilterPermutation(
      Filter(rules, (r: Rule) => InScope(r, space, scope)),
      Filter(shuffled, (r: Rule) => InScope(r, space, scope)),
      (r: Rule) => IsUnderPrefix(path, r.fromPrefix));
    MatchingHasNoTies(path, space, rules, scope);
    SpecificityCoherent();
    SortPermutation(Matching(path, space, rules, scope), Matching(path, space, shuffled, scope), Specificity);
  }

  // ------------------------------------------------------ what a rewrite means

  /** A rewrite replaces the segments of the rule's prefix and keeps the others,
      except in one family: the root prefix `/` swallows the separator, so the
      first kept segment is glued to the last new one. */
  lemma RewriteReplacesSegments(p: string, r: Rule)
    requires IsUnderPrefix(p, r.fromPrefix)
    ensures |Segments(r.fromPrefix)| <= |Segments(p)|
    ensures NormalizePrefix(r.fromPrefix) <= NormalizePrefix(p)
    ensures Segments(Rewrite(p, r)) == Segments(r.toPrefix) + Segments(p)[|Segments(r.fromPrefix)|..] <==>
            !(NormalizePrefix(r.fromPrefix) == "/" && Segments(p) != [] && Segments(r.toPrefix) != [])
  {
    UnderStartsWith(p, r.fromPrefix);
    NormalizeKeepsMeaning(r.fromPrefix);
    if NormalizePrefix(r.fromPrefix) == "/" {
      RootRewrite(p, r);
      assert Segments(p)[0..] == Segments(p);
    } else {
      PlainRewrite(p, r);
    }
  }

  lemma PlainRewrite(p: string, r: Rule)
    requires IsUnderPrefix(p, r.fromPrefix) && NormalizePrefix(r.fromPrefix) != "/"
    ensures |Segments(r.fromPrefix)| <= |Segments(p)| && NormalizePrefix(r.fromPrefix) <= NormalizePrefix(p)
    ensures Segments(Rewrite(p, r)) == Segments(r.toPrefix) + Segments(p)[|Segments(r.fromPrefix)|..]
  {
    UnderStartsWith(p, r.fromPrefix);
    var np, nf, nt := NormalizePrefix(p), NormalizePrefix(r.fromPrefix), NormalizePrefix(r.toPrefix);
    var v := UnderSplits(p, r.fromPrefix);
    NormalizeKeepsMeaning(r.toPrefix);
    if np == nf {
      assert nt + np[|nf|..] == nt;
    } else {
      AfterPrefix(nt, np, nf, v);
      SegmentsConcat(nt, v);
    }
  }

  lemma AfterPrefix(t: string, p: string, f: string, v: string)
    requires p == f + "/" + v
    ensures p[|f|..] == "/" + v && t + p[|f|..] == t + "/" + v
  {
    assert f + "/" + v == f + ("/" + v) && t + ("/" + v) == t + "/" + v;
  }

  /** Text put straight behind a rendered path keeps both apart only if one is empty. */
  lemma RenderedThen(absolute: bool, a: seq<string>, b: seq<string>)
    requires Proper(a) && Proper(b)
    ensures Segments(Render(absolute, a) + Join(b)) == a + b <==> a == [] || b == []
  {
    var t, rest := Render(absolute, a), Join(b);
    SegmentsJoin(b);
    SegmentsRender(absolute, a);
    if b == [] {
      assert t + rest == t && a + b == a;
    } else if a == [] {
      assert t + rest == Render(absolute, b) && a + b == b;
      SegmentsRender(absolute, b);
    } else {
      RenderedEnd(absolute, a);
      LastSegmentGrows(t, rest);
      assert |Glue(a, b)| == |a| + |b| - 1;
    }
  }

  lemma RenderedEnd(absolute: bool, a: seq<string>)
    requires a != [] && Proper(a)
    ensures Render(absolute, a) != "" && Render(absolute, a)[|Render(absolute, a)| - 1] != '/'
  {
    SegmentsJoin(a);
  }

  lemma RootRewrite(p: string, r: Rule)
    requires IsUnderPrefix(p, r.fromPrefix) && NormalizePrefix(r.fromPrefix) == "/"
    ensures NormalizePrefix(r.fromPrefix) <= NormalizePrefix(p) && Segments(r.fromPrefix) == []
    ensures Segments(Rewrite(p, r)) == Segments(r.toPrefix) + Segments(p) <==> Segments(p) == [] || Segments(r.toPrefix) == []
  {
    UnderStartsWith(p, r.fromPrefix);
    NormalizeKeepsMeaning(r.fromPrefix);
    var rest := BehindRoot(p);
    NormalForm(r.toPrefix);
    SegmentsProper(p);
    SegmentsProper(r.toPrefix);
    RenderedThen(Absolute(r.toPrefix), Segments(r.toPrefix), Segments(p));
    assert Segments("") == Segments("/");
  }

  lemma BehindRoot(p: string) returns (rest: string)
    requires "/" <= NormalizePrefix(p)
    ensures rest == NormalizePrefix(p)[1..] == Join(Segments(p))
  {
    rest := NormalizePrefix(p)[1..];
    NormalForm(p);
    NormalizeKeepsMeaning(p);
  }

  // -------------------------------------------------------------- round trip

  predicate Rooted(prefix: string) { NormalizePrefix(prefix) != "" && NormalizePrefix(prefix) != "/" }

  /** No prefix in scope is empty or the bare root. */
  ghost predicate AllRooted(space: Space, rules: seq<Rule>, scope: Option<string>) {
    forall r :: r in rules && InScope(r, space, scope) ==> Rooted(r.fromPrefix) && Rooted(r.toPrefix)
  }

  /** Moreover no target of one rule in scope lies under the target of another. The
      prefixes mapped from may be nested. */
  ghost predicate UnnestedTargets(space: Space, rules: seq<Rule>, scope: Option<string>) {
    && AllRooted(space, rules, scope)
    && (forall a, b :: a in rules && b in rules && InScope(a, space, scope) && InScope(b, space, scope) && a != b ==>
          !IsUnderPrefix(a.toPrefix, b.toPrefix))
  }

  /** A path lies under at most one of two unnested prefixes. */
  lemma UnderBothNests(p: string, q: string, q': string)
    requires Rooted(q) && Rooted(q') && IsUnderPrefix(p, q) && IsUnderPrefix(p, q')
    ensures IsUnderPrefix(q, q') || IsUnderPrefix(q', q)
  {
    NormalizeKeepsMeaning(q);
    NormalizeKeepsMeaning(q');
    UnderIsSegmentPrefix(p, q);
    UnderIsSegmentPrefix(p, q');
    UnderIsSegmentPrefix(q, q');
    UnderIsSegmentPrefix(q', q);
    assert Segments(q) <= Segments(q') || Segments(q') <= Segments(q);
  }

  /** Undoing one rewrite, for prefixes that are neither empty nor the root. */
  lemma RewriteUndone(p: string, r: Rule)
    requires IsUnderPrefix(p, r.fromPrefix) && Rooted(r.fromPrefix) && Rooted(r.toPrefix)
    ensures NormalizePrefix(r.fromPrefix) <= NormalizePrefix(p)
    ensures IsUnderPrefix(Rewrite(p, r), r.toPrefix)
    ensures NormalizePrefix(r.toPrefix) <= NormalizePrefix(Rewrite(p, r))
    ensures Rewrite(Rewrite(p, r), Swap(r)) == NormalizePrefix(p)
  {
    var np, nf, nt := NormalizePrefix(p), NormalizePrefix(r.fromPrefix), NormalizePrefix(r.toPrefix);
    UnderStartsWith(p, r.fromPrefix);
    var rest, q := np[|nf|..], Rewrite(p, r);
    assert np == nf + rest && q == nt + rest;
    RewrittenIsNormal(p, r);
    assert q[|nt|..] == rest;
    if rest != "" {
      assert nf + "/" <= np;
      assert rest[0] == '/';
      assert nt + "/" <= q;
    }
  }

  lemma UnderTail(p: string, q: string) returns (b: seq<string>)
    requires IsUnderPrefix(p, q) && Rooted(q) && NormalizePrefix(p) != NormalizePrefix(q)
    ensures b != [] && Proper(b) && NormalizePrefix(p) == NormalizePrefix(q) + "/" + Join(b) && Segments(p) == Segments(q) + b
  {
    NormalizeKeepsMeaning(q);
    UnderIsSegmentPrefix(p, q);
    NormalForm(p);
    NormalForm(q);
    SegmentsProper(p);
    b := RenderTail(Absolute(p), Segments(q), Segments(p));
    assert forall w :: w in b ==> w in Segments(p);
  }

  lemma RenderTail(absolute: bool, a: seq<string>, c: seq<string>) returns (b: seq<string>)
    requires a != [] && a <= c && Render(absolute, a) != Render(absolute, c)
    ensures b != [] && c == a + b && Render(absolute, c) == Render(absolute, a) + "/" + Join(b)
  {
    b := c[|a|..];
    assert c == a + b;
    assert b == [] ==> a + b == a;
    RenderAppend(absolute, a, b);
  }

  lemma RenderIsNormal(absolute: bool, segs: seq<string>)
    requires Proper(segs)
    ensures NormalizePrefix(Render(absolute, segs)) == Render(absolute, segs)
  {
    SegmentsRender(absolute, segs);
    NormalForm(Render(absolute, segs));
  }

  lemma AppendedIsNormal(t: string, b: seq<string>)
    requires Rooted(t) && b != [] && Proper(b)
    ensures NormalizePrefix(NormalizePrefix(t) + "/" + Join(b)) == NormalizePrefix(t) + "/" + Join(b)
  {
    NormalizeKeepsMeaning(t);
    NormalForm(t);
    RenderAppend(Absolute(t), Segments(t), b);
    SegmentsProper(t);
    RenderIsNormal(Absolute(t), Segments(t) + b);
  }

  lemma RewrittenIsNormal(p: string, r: Rule)
    requires IsUnderPrefix(p, r.fromPrefix) && Rooted(r.fromPrefix) && Rooted(r.toPrefix)
    requires NormalizePrefix(r.fromPrefix) <= NormalizePrefix(p)
    ensures NormalizePrefix(Rewrite(p, r)) == Rewrite(p, r)
  {
    var np, nf, nt := NormalizePrefix(p), NormalizePrefix(r.fromPrefix), NormalizePrefix(r.toPrefix);
    if np == nf {
      NormalizeKeepsMeaning(r.toPrefix);
      assert nt + np[|nf|..] == nt;
    } else {
      var b := UnderTail(p, r.fromPrefix);
      AfterPrefix(nt, np, nf, Join(b));
      AppendedIsNormal(r.toPrefix, b);
    }
  }

  lemma InvertedMembers(space: Space, rules: seq<Rule>, r: Rule)
    ensures r in Inverted(space, rules) <==> Swap(r) in rules && r.enabled && r.space == space
  {
    var kept := Filter(rules, (x: Rule) => x.enabled && x.space == space);
    if Swap(r) in kept {
      var i :| 0 <= i < |kept| && kept[i] == Swap(r);
      assert Inverted(space, rules)[i] == r;
    }
  }

  /** The result to the character, for a prefix that is neither empty nor the root: the
      segments of the target, then those of the path behind the prefix. An empty target
      leaves an absolute path; the root as a target doubles the separator. */
  lemma RewriteIsSpelled(p: string, r: Rule)
    requires IsUnderPrefix(p, r.fromPrefix) && Rooted(r.fromPrefix)
    ensures |Segments(r.fromPrefix)| <= |Segments(p)| && NormalizePrefix(r.fromPrefix) <= NormalizePrefix(p)
    ensures var tail := Segments(p)[|Segments(r.fromPrefix)|..];
            Rewrite(p, r) ==
              if r.toPrefix == "" then Render(true, tail)
              else if Segments(r.toPrefix) == [] then (if tail == [] then "/" else "/" + Render(true, tail))
              else Render(Absolute(r.toPrefix), Segments(r.toPrefix) + tail)
  {
    hide NormalizePrefix, IsUnderPrefix, Segments;
    var np, nf, nt := NormalizePrefix(p), NormalizePrefix(r.fromPrefix), NormalizePrefix(r.toPrefix);
    UnderStartsWith(p, r.fromPrefix);
    NormalizeKeepsMeaning(p);
    NormalizeKeepsMeaning(r.fromPrefix);
    NormalizeKeepsMeaning(r.toPrefix);
    NormalForm(r.toPrefix);
    var tail: seq<string> := [];
    if np == nf {
      assert nt + np[|nf|..] == nt;
      assert Segments(r.toPrefix) + tail == Segments(r.toPrefix);
    } else {
      tail := UnderTail(p, r.fromPrefix);
      AfterPrefix(nt, np, nf, Join(tail));
      if Segments(r.toPrefix) != [] { RenderAppend(Absolute(r.toPrefix), Segments(r.toPrefix), tail); }
      assert "" + "/" + Join(tail) == "/" + Join(tail) && "/" + "/" + Join(tail) == "/" + ("/" + Join(tail));
    }
    assert Segments(p)[|Segments(r.fromPrefix)|..] == tail;
  }

  function Swapped(rules: seq<Rule>): seq<Rule> {
    seq(|rules|, i requires 0 <= i < |rules| => Swap(rules[i]))
  }

  lemma SwappedHead(rules: seq<Rule>)
    requires rules != []
    ensures Swapped(rules) == [Swap(rules[0])] + Swapped(rules[1..])
  {
  }

  lemma InvertedHead(space: Space, rules: seq<Rule>)
    requires rules != []
    ensures var head := if rules[0].enabled && rules[0].space == space then [Swap(rules[0])] else [];
            Inverted(space, rules) == head + Inverted(space, rules[1..])
  {
  }

  lemma {:induction false} SwapKeepsUsable(space: Space, rules: seq<Rule>, scope: Option<string>)
    ensures Filter(Inverted(space, rules), Usable(space, scope)) == Filter(Swapped(rules), Usable(space, scope))
  {
    if rules != [] {
      SwapKeepsUsable(space, rules[1..], scope);
      SwappedHead(rules);
      InvertedHead(space, rules);
      hide Swapped, Inverted;
    }
  }

  /** The way back is the way there under the same rules, each turned round. */
  lemma BackBySwappedRules(path: string, space: Space, rules: seq<Rule>, scope: Option<string>)
    ensures FromSpace(path, space, rules, scope) == ToSpace(path, space, Swapped(rules), scope)
  {
    hide Chosen, Inverted, Swapped;
    OthersAreIgnored(path, space, Inverted(space, rules), scope);
    OthersAreIgnored(path, space, Swapped(rules), scope);
    SwapKeepsUsable(space, rules, scope);
  }

  /** The rule a path is translated by, and the one its translation comes back by. */
  lemma WayBack(p: string, space: Space, rules: seq<Rule>, scope: Option<string>, under: Rule) returns (r: Rule, b: Rule)
    requires !space.Canonical? && AllRooted(space, rules, scope)
    requires under in rules && InScope(under, space, scope) && IsUnderPrefix(p, under.fromPrefix)
    ensures Chosen(p, space, rules, scope) == Some(r) && r in rules && InScope(r, space, scope)
    ensures IsUnderPrefix(p, r.fromPrefix) && NormalizePrefix(r.fromPrefix) <= NormalizePrefix(p)
    ensures var q := ToSpace(p, space, rules, scope);
            && q == Rewrite(p, r) && IsUnderPrefix(q, r.toPrefix)
            && Chosen(q, space, Inverted(space, rules), scope) == Some(Swap(b)) && b in rules && InScope(b, space, scope)
            && IsUnderPrefix(q, b.toPrefix) && NormalizePrefix(b.toPrefix) <= NormalizePrefix(q)
            && FromSpace(q, space, rules, scope) == Rewrite(q, Swap(b))
  {
    ChosenIsMostSpecific(p, space, rules, scope, under);
    ChosenMatches(p, space, rules, scope);
    r := Chosen(p, space, rules, scope).value;
    RewriteUndone(p, r);
    var q, inv := Rewrite(p, r), Inverted(space, rules);
    assert Swap(Swap(r)) == r;
    InvertedMembers(space, rules, Swap(r));
    ChosenIsMostSpecific(q, space, inv, scope, Swap(r));
    ChosenMatches(q, space, inv, scope);
    var back := Chosen(q, space, inv, scope).value;
    InvertedMembers(space, rules, back);
    assert Swap(Swap(back)) == back;
    b := Swap(back);
    UnderStartsWith(q, b.toPrefix);
  }

  /** The two rules take the deeper of their targets back to the same place. */
  predicate AgreeOnDeeper(a: Rule, b: Rule) {
    var deeper := if |NormalizePrefix(a.toPrefix)| < |NormalizePrefix(b.toPrefix)| then b.toPrefix else a.toPrefix;
    Rewrite(deeper, Swap(a)) == Rewrite(deeper, Swap(b))
  }

  lemma SameTail(a: string, b: string, tail: string)
    ensures a + tail == b + tail <==> a == b
  {
    if a + tail == b + tail { assert a == (a + tail)[..|a|] && b == (b + tail)[..|b|]; }
  }

  /** Two prefixes of one text, replaced in it: the results are the same exactly if
      they are where the text is no longer than the deeper of the two. */
  lemma ReplacedAlike(f: string, t: string, f': string, t': string, q: string)
    requires t <= q && t' <= q && |t'| <= |t|
    ensures f' + q[|t'|..] == f + q[|t|..] <==> f' + t[|t'|..] == f + t[|t|..]
  {
    assert q[|t'|..] == t[|t'|..] + q[|t|..] && f' + (t[|t'|..] + q[|t|..]) == (f' + t[|t'|..]) + q[|t|..];
    assert f + t[|t|..] == f;
    SameTail(f' + t[|t'|..], f, q[|t|..]);
  }

  lemma BackIsReplaced(q: string, r: Rule)
    requires Rooted(r.fromPrefix) && |NormalizePrefix(r.toPrefix)| <= |NormalizePrefix(q)|
    ensures Rewrite(q, Swap(r)) == NormalizePrefix(r.fromPrefix) + NormalizePrefix(q)[|NormalizePrefix(r.toPrefix)|..]
  {
  }

  /** What comes back by either rule is the same exactly if they agree. */
  lemma BackAlikeIff(q: string, a: Rule, b: Rule)
    requires Rooted(a.fromPrefix) && Rooted(b.fromPrefix)
    requires NormalizePrefix(a.toPrefix) <= NormalizePrefix(q) && NormalizePrefix(b.toPrefix) <= NormalizePrefix(q)
    ensures Rewrite(q, Swap(a)) == Rewrite(q, Swap(b)) <==> AgreeOnDeeper(a, b)
  {
    var nq, ta, tb := NormalizePrefix(q), NormalizePrefix(a.toPrefix), NormalizePrefix(b.toPrefix);
    BackIsReplaced(q, a);
    BackIsReplaced(q, b);
    if |ta| < |tb| {
      BackIsReplaced(b.toPrefix, a);
      BackIsReplaced(b.toPrefix, b);
      ReplacedAlike(NormalizePrefix(b.fromPrefix), tb, NormalizePrefix(a.fromPrefix), ta, nq);
    } else {
      BackIsReplaced(a.toPrefix, a);
      BackIsReplaced(a.toPrefix, b);
      ReplacedAlike(NormalizePrefix(a.fromPrefix), ta, NormalizePrefix(b.fromPrefix), tb, nq);
    }
  }

  /** Round trip, exactly: with no prefix empty or the root, a mapped path comes back
      in its normalised spelling if and only if the rule chosen for the way there and
      the rule chosen for the way back agree on the deeper of their targets. */
  lemma RoundTripIff(p: string, space: Space, rules: seq<Rule>, scope: Option<string>, under: Rule)
    requires !space.Canonical? && AllRooted(space, rules, scope)
    requires under in rules && InScope(under, space, scope) && IsUnderPrefix(p, under.fromPrefix)
    ensures var q := ToSpace(p, space, rules, scope);
            var there, back := Chosen(p, space, rules, scope), Chosen(q, space, Inverted(space, rules), scope);
            && there.Some? && back.Some?
            && (FromSpace(q, space, rules, scope) == NormalizePrefix(p) <==> AgreeOnDeeper(there.value, Swap(back.value)))
  {
    var r, b := WayBack(p, space, rules, scope, under);
    RewriteUndone(p, r);
    BackAlikeIff(ToSpace(p, space, rules, scope), r, b);
  }

  /** Round trip: where no target lies under another, translating a mapped path into
      a space and back gives its normalised spelling. */
  lemma RoundTrip(p: string, space: Space, rules: seq<Rule>, scope: Option<string>, under: Rule)
    requires !space.Canonical? && UnnestedTargets(space, rules, scope)
    requires under in rules && InScope(under, space, scope) && IsUnderPrefix(p, under.fromPrefix)
    ensures FromSpace(ToSpace(p, space, rules, scope), space, rules, scope) == NormalizePrefix(p)
  {
    var r, b := WayBack(p, space, rules, scope, under);
    if b != r {
      UnderBothNests(ToSpace(p, space, rules, scope), r.toPrefix, b.toPrefix);
      assert false;
    }
    RewriteUndone(p, r);
  }

  lemma NormalWords(w: string, y: string)
    requires w != "" && '/' !in w && y != "" && '/' !in y
    ensures var p := "/" + w + "/" + y;
            NormalizePrefix(p) == p && Absolute(p) && Segments(p) == [w, y]
  {
    assert Join([y]) == y && Join([w, y]) == w + "/" + y;
    assert "/" + (w + "/" + y) == "/" + w + "/" + y;
    RenderIsNormal(true, [w, y]);
    SegmentsRender(true, [w, y]);
  }

  /** Of two rules that match a path's translation, the deeper target is chosen. */
  lemma DeeperComesFirst(one: Rule, two: Rule, q: string, scope: Option<string>)
    requires one.space == two.space == Host && one.enabled && two.enabled && one.scopeId == two.scopeId == None
    requires one.priority == two.priority && IsUnderPrefix(q, two.toPrefix)
    requires |NormalizePrefix(one.toPrefix)| < |NormalizePrefix(two.toPrefix)|
    ensures Chosen(q, Host, Inverted(Host, [one, two]), scope) == Some(Swap(two))
  {
    var rules := [one, two];
    var inv := Inverted(Host, rules);
    assert Swap(Swap(one)) == one && Swap(Swap(two)) == two && two in rules;
    InvertedMembers(Host, rules, Swap(two));
    ChosenIsMostSpecific(q, Host, inv, scope, Swap(two));
    ChosenMatches(q, Host, inv, scope);
    var c := Chosen(q, Host, inv, scope).value;
    InvertedMembers(Host, rules, c);
    assert Swap(Swap(c)) == c;
  }

  /** Two global rules, of which only the first matches a path, while the target of
      the second is the deeper one above its translation: it comes back by the second. */
  lemma ComesBackByTheOther(one: Rule, two: Rule, p: string, q: string, scope: Option<string>)
    requires one.space == two.space == Host && one.enabled && two.enabled && one.scopeId == two.scopeId == None
    requires one.priority == two.priority && AllRooted(Host, [one, two], scope)
    requires IsUnderPrefix(p, one.fromPrefix) && !IsUnderPrefix(p, two.fromPrefix)
    requires NormalizePrefix(one.fromPrefix) <= NormalizePrefix(p) && q == Rewrite(p, one) && IsUnderPrefix(q, two.toPrefix)
    requires |NormalizePrefix(one.toPrefix)| < |NormalizePrefix(two.toPrefix)| <= |NormalizePrefix(q)|
    ensures ToSpace(p, Host, [one, two], scope) == q && FromSpace(q, Host, [one, two], scope) == Rewrite(q, Swap(two))
  {
    assert one in [one, two];
    var there, back := WayBack(p, Host, [one, two], scope, one);
    DeeperComesFirst(one, two, q, scope);
    assert Swap(Swap(back)) == back && Swap(Swap(two)) == two;
  }

  lemma UnderFirstWordOnly(a: string, b: string)
    requires a != "" && '/' !in a && b != "" && '/' !in b && a != b
    ensures var p := "/" + a + "/" + b;
            IsUnderPrefix(p, "/" + a) && !IsUnderPrefix(p, "/" + b)
  {
    hide IsUnderPrefix, NormalizePrefix, Segments;
    var p := "/" + a + "/" + b;
    NormalWord(a);
    NormalWord(b);
    NormalWords(a, b);
    UnderIsSegmentPrefix(p, "/" + a);
    UnderIsSegmentPrefix(p, "/" + b);
    assert [a] <= [a, b] && [a, b][..1] == [a] != [b];
  }

  function PrefixRule(id: string, from: string, to: string): Rule { Rule(id, Host, from, to, None, 0, true) }

  /** Nested targets may not come back: with rules from `/a` to `/x` and from `/b` to
      `/x/b`, `/a/b` becomes `/x/b` and comes back as `/b`. */
  lemma NestedTargetsMayNotComeBack(a: string, x: string, b: string, scope: Option<string>)
    requires a != "" && '/' !in a && x != "" && '/' !in x && b != "" && '/' !in b && a != b
    ensures var p, q := "/" + a + "/" + b, "/" + x + "/" + b;
            var rules := [PrefixRule("1", "/" + a, "/" + x), PrefixRule("2", "/" + b, q)];
            && ToSpace(p, Host, rules, scope) == q
            && FromSpace(q, Host, rules, scope) == "/" + b != NormalizePrefix(p)
  {
    hide NormalizePrefix, Segments, ToSpace, FromSpace;
    var p, q := "/" + a + "/" + b, "/" + x + "/" + b;
    NormalWord(a);
    NormalWord(b);
    NormalWord(x);
    NormalWords(a, b);
    NormalWords(x, b);
    UnderFirstWordOnly(a, b);
    FirstWordReplaced(a, x, b);
    var one, two := PrefixRule("1", "/" + a, "/" + x), PrefixRule("2", "/" + b, q);
    ComesBackByTheOther(one, two, p, q, scope);
    assert Rewrite(q, Swap(two)) == "/" + b;
  }

  lemma FirstWordReplaced(a: string, x: string, b: string)
    ensures var p := "/" + a + "/" + b;
            "/" + a <= p && "/" + x + p[|"/" + a|..] == "/" + x + "/" + b
  {
    var p := "/" + a + "/" + b;
    assert p == ("/" + a) + ("/" + b);
    assert p[|"/" + a|..] == "/" + b;
    assert "/" + x + ("/" + b) == "/" + x + "/" + b;
  }

  lemma SingleRule(p: string, r: Rule, scope: Option<string>)
    requires InScope(r, r.space, scope) && !r.space.Canonical?
    ensures IsUnderPrefix(p, r.fromPrefix) ==> NormalizePrefix(r.fromPrefix) <= NormalizePrefix(p)
    ensures ToSpace(p, r.space, [r], scope) == if IsUnderPrefix(p, r.fromPrefix) then Rewrite(p, r) else p
    ensures FromSpace(p, r.space, [r], scope) == ToSpace(p, r.space, [Swap(r)], scope)
  {
    ChosenMatches(p, r.space, [r], scope);
    MatchingMembers(p, r.space, [r], scope, r);
    var kept := Filter([r], (x: Rule) => x.enabled && x.space == r.space);
    assert kept == [r];
    assert Inverted(r.space, [r]) == [Swap(r)];
  }

  lemma NormalWord(w: string)
    requires w != "" && '/' !in w
    ensures NormalizePrefix("/" + w) == "/" + w && Absolute("/" + w) && Segments("/" + w) == [w]
  {
    assert ("/" + w)[1..] == w && w + "" == w;
    CollapseWord(w, "");
    SingleSegment(w);
  }

  /** The excluded family is really broken: mapping `/` to `/mnt` sends `/a` to
      `/mnta`, which is outside `/mnt`, so translating back does not recover it. */
  lemma RootRuleLosesTheSeparator(w: string, x: string, scope: Option<string>)
    requires w != "" && '/' !in w && x != "" && '/' !in x
    ensures var rules := [Rule("r", Host, "/", "/" + w, None, 0, true)];
            && ToSpace("/" + x, Host, rules, scope) == "/" + w + x
            && FromSpace("/" + w + x, Host, rules, scope) == "/" + w + x != NormalizePrefix("/" + x)
  {
    var r := Rule("r", Host, "/", "/" + w, None, 0, true);
    NormalWord(w);
    NormalWord(x);
    UnderIsSegmentPrefix("/" + x, "/");
    SingleRule("/" + x, r, scope);
    assert NormalizePrefix("/") == "/" && ("/" + x)[1..] == x;
    assert Rewrite("/" + x, r) == "/" + w + x;
    SiblingIsNotUnder("/" + w, x);
    SingleRule("/" + w + x, r, scope);
    SingleRule("/" + w + x, Swap(r), scope);
  }
}
