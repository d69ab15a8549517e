/** Stand-in names for published screenshots: ops/scripts/ansi-to-svg.py. */
module Redaction {
  import opened Sequences
  import opened Text

  // --------------------------------------------------------------- registry

  datatype Kind = Site | Rule | PathName | Title

  type NamePool = pool: seq<string> | pool != [] witness [""]

  /** The invented names: the pools for sites and rules; for titles the base names
      in order, the release name made from a base (its index, whether the original
      looked like an episode), the path made from a release name and a counter, and
      the episode test. */
  datatype Spelling = Spelling(
    sites: NamePool, rules: NamePool, bases: seq<string>,
    release: (string, nat, bool) -> string, path: (string, nat) -> string, episodic: string -> bool)

  /** Sites and rules are looked up again; titles and paths only counted. */
  datatype Key = Stable(kind: Kind, original: string) | Counted(kind: Kind, original: string, n: nat)

  datatype Used = Base(title: string) | Pooled(kind: Kind, name: string)

  datatype Names = Names(byOriginal: map<Key, string>, used: set<Used>, cursor: nat)

  const NO_NAMES := Names(map[], {}, 0)

  predicate IsBlank(c: char) { IsSpace(c) || '\U{001C}' <= c <= '\U{001F}' }

  predicate Blank(s: string) { forall i :: 0 <= i < |s| ==> IsBlank(s[i]) }

  function Strip(s: string): string {
    if s == "" then ""
    else if IsBlank(s[0]) then Strip(s[1..])
    else if IsBlank(s[|s| - 1]) then Strip(s[..|s| - 1])
    else s
  }

  function Pool(sp: Spelling, kind: Kind): NamePool { if kind == Site then sp.sites else sp.rules }

  predicate IsStable(kind: Kind) { kind == Site || kind == Rule }

  /** The first unused name of a pool, from index `i` on. */
  function FirstUnused(names: Names, sp: Spelling, kind: Kind, i: nat): (r: nat)
    requires i <= |Pool(sp, kind)|
    ensures i <= r <= |Pool(sp, kind)|
    ensures r < |Pool(sp, kind)| ==> Pooled(kind, Pool(sp, kind)[r]) !in names.used
    ensures forall k :: i <= k < r ==> Pooled(kind, Pool(sp, kind)[k]) in names.used
    decreases |Pool(sp, kind)| - i
  {
    if i == |Pool(sp, kind)| || Pooled(kind, Pool(sp, kind)[i]) !in names.used then i else FirstUnused(names, sp, kind, i + 1)
  }

  function NextFrom(names: Names, sp: Spelling, kind: Kind): (Names, string) {
    var pool := Pool(sp, kind);
    var i := FirstUnused(names, sp, kind, 0);
    if i < |pool| then (names.(used := names.used + {Pooled(kind, pool[i])}), pool[i])
    else (names, pool[|names.used| % |pool|])
  }

  function Untitled(n: nat): string { "Untitled Release " + Decimal(n) }

  function NextTitle(names: Names, sp: Spelling, episode: bool): (Names, string)
    decreases |sp.bases| - names.cursor
  {
    if names.cursor >= |sp.bases| then (names, Untitled(names.cursor))
    else
      var i := names.cursor;
      var moved := names.(cursor := i + 1);
      if Base(sp.bases[i]) in names.used then NextTitle(moved, sp, episode)
      else (moved.(used := names.used + {Base(sp.bases[i])}), sp.release(sp.bases[i], i, episode))
  }

  function NameFor(names: Names, sp: Spelling, original: string, kind: Kind): (Names, string) {
    var key := Strip(original);
    if IsStable(kind) then
      if Stable(kind, key) in names.byOriginal then (names, names.byOriginal[Stable(kind, key)])
      else
        var (next, name) := NextFrom(names, sp, kind);
        (next.(byOriginal := next.byOriginal[Stable(kind, key) := name]), name)
    else
      var (next, title) := NextTitle(names, sp, sp.episodic(original));
      var n := |next.byOriginal|;
      var name := if kind == PathName then sp.path(title, n) else title;
      (next.(byOriginal := next.byOriginal[Counted(kind, key, n) := name]), name)
  }

  // ------------------------------------------------- blanks around an original

  /** Blank are the space and the codes 9 to 13 and 28 to 31. */
  lemma BlanksAre(c: char)
    ensures IsBlank(c) <==> 9 <= c as int <= 13 || 28 <= c as int <= 32
  {
  }

  lemma {:induction false} StripDropsBefore(before: string, s: string)
    requires forall i :: 0 <= i < |before| ==> IsBlank(before[i])
    ensures Strip(before + s) == Strip(s)
  {
    if before == "" {
      assert before + s == s;
    } else {
      assert (before + s)[1..] == before[1..] + s;
      StripDropsBefore(before[1..], s);
    }
  }

  lemma {:induction false} StripDropsAfter(s: string, after: string)
    requires forall i :: 0 <= i < |after| ==> IsBlank(after[i])
    requires s != "" && !IsBlank(s[0]) && !IsBlank(s[|s| - 1])
    ensures Strip(s + after) == s
  {
    var n := |after| - 1;
    if n >= 0 {
      assert (s + after)[..|s| + n] == s + after[..n];
      StripDropsAfter(s, after[..n]);
    } else {
      assert s + after == s;
    }
  }

  lemma {:induction false} StripAllBlank(s: string)
    requires forall i :: 0 <= i < |s| ==> IsBlank(s[i])
    ensures Strip(s) == ""
  {
    if s != "" { StripAllBlank(s[1..]); }
  }

  /** Blanks on both sides are dropped, and nothing else is. */
  lemma StripDropsBlanks(before: string, s: string, after: string)
    requires forall i :: 0 <= i < |before| ==> 9 <= before[i] as int <= 13 || 28 <= before[i] as int <= 32
    requires forall i :: 0 <= i < |after| ==> 9 <= after[i] as int <= 13 || 28 <= after[i] as int <= 32
    requires forall i :: 0 <= i < |s| && (i == 0 || i == |s| - 1) ==> !(9 <= s[i] as int <= 13 || 28 <= s[i] as int <= 32)
    ensures Strip(before + (s + after)) == s
  {
    hide Strip;
    forall c { BlanksAre(c); }
    StripDropsBefore(before, s + after);
    if s == "" {
      assert s + after == after;
      StripAllBlank(after);
    } else {
      StripDropsAfter(s, after);
    }
  }

  // ---------------------------------- one stand-in per site, for a whole run

  /** Names already given out are never changed. */
  ghost predicate Grows(a: Names, b: Names) {
    forall k :: k in a.byOriginal && k.Stable? ==> k in b.byOriginal && b.byOriginal[k] == a.byOriginal[k]
  }

  lemma {:induction false} NextTitleKeeps(names: Names, sp: Spelling, episode: bool)
    ensures var next := NextTitle(names, sp, episode).0;
            next.byOriginal == names.byOriginal && forall k, n :: Pooled(k, n) in next.used <==> Pooled(k, n) in names.used
    decreases |sp.bases| - names.cursor
  {
    if names.cursor < |sp.bases| && Base(sp.bases[names.cursor]) in names.used {
      NextTitleKeeps(names.(cursor := names.cursor + 1), sp, episode);
    }
  }

  /** Asking for a site or rule records the answer, and asking again repeats it. */
  lemma NameIsRemembered(names: Names, sp: Spelling, original: string, kind: Kind)
    ensures var (next, name) := NameFor(names, sp, original, kind);
            && Grows(names, next)
            && (IsStable(kind) ==> Stable(kind, Strip(original)) in next.byOriginal &&
                                   next.byOriginal[Stable(kind, Strip(original))] == name)
  {
    if !IsStable(kind) { NextTitleKeeps(names, sp, sp.episodic(original)); }
  }

  /** The originals of a kind that have been given names. */
  function Known(names: Names, kind: Kind): set<string> {
    set k | k in names.byOriginal && k.Stable? && k.kind == kind :: k.original
  }

  function UsedNames(names: Names, kind: Kind): set<string> {
    set u | u in names.used && u.Pooled? && u.kind == kind :: u.name
  }

  function PoolSet(sp: Spelling, kind: Kind): set<string> { set n | n in Pool(sp, kind) }

  function StandIn(names: Names, kind: Kind, original: string): string
    requires original in Known(names, kind)
  {
    names.byOriginal[Stable(kind, original)]
  }

  ghost predicate Injective(names: Names, kind: Kind) {
    forall a, b :: a in Known(names, kind) && b in Known(names, kind) && StandIn(names, kind, a) == StandIn(names, kind, b) ==>
      a == b
  }

  /** While the pool lasts every original has its own name and exactly the names
      given out are marked used; afterwards the pool is used up. */
  ghost predicate Consistent(names: Names, sp: Spelling, kind: Kind) {
    && UsedNames(names, kind) <= PoolSet(sp, kind)
    && (forall a :: a in Known(names, kind) ==> StandIn(names, kind, a) in UsedNames(names, kind))
    && (if |Known(names, kind)| <= |PoolSet(sp, kind)|
        then Injective(names, kind) && |UsedNames(names, kind)| == |Known(names, kind)|
        else UsedNames(names, kind) == PoolSet(sp, kind))
  }

  lemma OtherRequestsKeep(names: Names, sp: Spelling, original: string, kind: Kind, other: Kind)
    requires other != kind || !IsStable(kind) || Stable(kind, Strip(original)) in names.byOriginal
    ensures var next := NameFor(names, sp, original, kind).0;
            && Known(next, other) == Known(names, other) && UsedNames(next, other) == UsedNames(names, other)
            && forall a :: a in Known(names, other) ==> StandIn(next, other, a) == StandIn(names, other, a)
  {
    var next := NameFor(names, sp, original, kind).0;
    if !IsStable(kind) { NextTitleKeeps(names, sp, sp.episodic(original)); }
    assert forall a :: Stable(other, a) in next.byOriginal <==> Stable(other, a) in names.byOriginal;
    forall a ensures a in Known(next, other) <==> a in Known(names, other) {
      KnownExactly(next, other, a);
      KnownExactly(names, other, a);
    }
    forall n ensures n in UsedNames(next, other) <==> n in UsedNames(names, other) {
      UsedExactly(next, other, n);
      UsedExactly(names, other, n);
    }
  }

  lemma KnownExactly(names: Names, kind: Kind, a: string)
    ensures a in Known(names, kind) <==> Stable(kind, a) in names.byOriginal
  {
    if Stable(kind, a) in names.byOriginal {
      var k := Stable(kind, a);
      assert k.Stable? && k.kind == kind && k.original == a;
    }
  }

  lemma UsedExactly(names: Names, kind: Kind, n: string)
    ensures n in UsedNames(names, kind) <==> Pooled(kind, n) in names.used
  {
    if Pooled(kind, n) in names.used {
      var u := Pooled(kind, n);
      assert u.Pooled? && u.kind == kind && u.name == n;
    }
  }

  /** A new original: one more is known, and its name is fresh if there is one. */
  lemma NewOriginal(names: Names, sp: Spelling, original: string, kind: Kind)
    requires IsStable(kind) && Stable(kind, Strip(original)) !in names.byOriginal
    requires UsedNames(names, kind) <= PoolSet(sp, kind)
    ensures var (next, name) := NameFor(names, sp, original, kind);
            var o := Strip(original);
            && o !in Known(names, kind) && Known(next, kind) == Known(names, kind) + {o}
            && StandIn(next, kind, o) == name && name in PoolSet(sp, kind)
            && (forall a :: a in Known(names, kind) ==> StandIn(next, kind, a) == StandIn(names, kind, a))
            && UsedNames(next, kind) == UsedNames(names, kind) + {name}
            && (name in UsedNames(names, kind) <==> UsedNames(names, kind) == PoolSet(sp, kind))
  {
    var (next, name) := NameFor(names, sp, original, kind);
    var o := Strip(original);
    KnownExactly(names, kind, o);
    forall a ensures a in Known(next, kind) <==> a in Known(names, kind) + {o} {
      KnownExactly(next, kind, a);
      KnownExactly(names, kind, a);
    }
    var i := FirstUnused(names, sp, kind, 0);
    forall n ensures n in UsedNames(names, kind) <==> Pooled(kind, n) in names.used { UsedExactly(names, kind, n); }
    forall n ensures n in UsedNames(next, kind) <==> Pooled(kind, n) in next.used { UsedExactly(next, kind, n); }
    assert name in Pool(sp, kind);
    if i == |Pool(sp, kind)| {
      assert forall n :: n in Pool(sp, kind) ==> Pooled(kind, n) in names.used;
      assert UsedNames(names, kind) == PoolSet(sp, kind);
    }
  }

  lemma SmallerSubset(a: set<string>, b: set<string>)
    requires a <= b
    ensures |a| <= |b| && (a != b ==> |a| < |b|)
  {
    assert b == a + (b - a);
    if a != b { assert b - a != {}; }
  }

  ghost predicate SameStandIns(a: Names, b: Names, k: Kind) {
    Known(a, k) <= Known(b, k) && forall o :: o in Known(a, k) ==> StandIn(b, k, o) == StandIn(a, k, o)
  }

  lemma FreshNameIsConsistent(names: Names, next: Names, sp: Spelling, k: Kind, o: string, name: string)
    requires Consistent(names, sp, k) && SameStandIns(names, next, k)
    requires o !in Known(names, k) && Known(next, k) == Known(names, k) + {o} && StandIn(next, k, o) == name
    requires name in PoolSet(sp, k) && name !in UsedNames(names, k) && UsedNames(next, k) == UsedNames(names, k) + {name}
    ensures Consistent(next, sp, k)
  {
    SmallerSubset(UsedNames(names, k), PoolSet(sp, k));
    forall a, b | a in Known(next, k) && b in Known(next, k) && StandIn(next, k, a) == StandIn(next, k, b) ensures a == b {
      if a != o { assert StandIn(next, k, a) in UsedNames(names, k); }
      if b != o { assert StandIn(next, k, b) in UsedNames(names, k); }
    }
  }

  lemma ConsistentStep(names: Names, sp: Spelling, original: string, kind: Kind, k: Kind)
    requires IsStable(k) && Consistent(names, sp, k)
    ensures Consistent(NameFor(names, sp, original, kind).0, sp, k)
  {
    var (next, name) := NameFor(names, sp, original, kind);
    if kind != k || Stable(kind, Strip(original)) in names.byOriginal {
      OtherRequestsKeep(names, sp, original, kind, k);
    } else {
      NewOriginal(names, sp, original, kind);
      if name in UsedNames(names, k) {
        assert UsedNames(names, k) + {name} == UsedNames(names, k);
      } else {
        FreshNameIsConsistent(names, next, sp, k, Strip(original), name);
      }
    }
  }

  /** An injective choice of names needs as many names as originals. */
  lemma {:induction false} Pigeonhole(names: Names, kind: Kind, originals: set<string>, pool: set<string>)
    requires originals <= Known(names, kind) && Injective(names, kind)
    requires forall a :: a in originals ==> StandIn(names, kind, a) in pool
    ensures |originals| <= |pool|
    decreases originals
  {
    if originals != {} {
      var a :| a in originals;
      var n := StandIn(names, kind, a);
      Pigeonhole(names, kind, originals - {a}, pool - {n});
    }
  }

  /** Distinct originals have distinct stand-ins exactly until the pool is used up. */
  lemma DistinctWhilePoolLasts(names: Names, sp: Spelling, kind: Kind)
    requires IsStable(kind) && Consistent(names, sp, kind)
    ensures Injective(names, kind) <==> |Known(names, kind)| <= |PoolSet(sp, kind)|
  {
    if Injective(names, kind) { Pigeonhole(names, kind, Known(names, kind), PoolSet(sp, kind)); }
  }

  lemma {:induction false} DistinctCount(s: seq<string>)
    requires forall i, j :: 0 <= i < j < |s| ==> s[i] != s[j]
    ensures |set n | n in s| == |s|
  {
    if s != [] {
      var front, last := s[..|s| - 1], s[|s| - 1];
      DistinctCount(front);
      assert (set n | n in s) == (set n | n in front) + {last};
      assert last !in front;
    }
  }

  const FAKE_SITES: NamePool := [
    "Arc", "Hub", "Orb", "Vex", "Lum", "Nex", "Ako", "Ryn", "Ipa", "Qel", "Tov", "Zar", "Bex", "Dyn", "Eos", "Fen"]

  const FAKE_RULES: NamePool := [
    "Weekly drama rule", "Documentary rule", "Film upgrade rule", "Season pack rule", "Archive rule", "Catch-up rule"]

  lemma PoolSizeIfDistinct(sp: Spelling, kind: Kind)
    requires var p := Pool(sp, kind); forall i, j :: 0 <= i < j < |p| ==> p[i] != p[j]
    ensures |PoolSet(sp, kind)| == |Pool(sp, kind)|
  {
    DistinctCount(Pool(sp, kind));
  }

  lemma SitesDiffer(i: nat, j: nat)
    requires i < j < |FAKE_SITES|
    ensures FAKE_SITES[i] != FAKE_SITES[j]
  {
    assert FAKE_SITES[i][0] != FAKE_SITES[j][0] || FAKE_SITES[i][1] != FAKE_SITES[j][1];
  }

  lemma RulesDiffer(i: nat, j: nat)
    requires i < j < |FAKE_RULES|
    ensures FAKE_RULES[i] != FAKE_RULES[j]
  {
    assert FAKE_RULES[i][0] != FAKE_RULES[j][0];
  }

  /** The pools that ship have 16 and 6 different names. */
  lemma ShippedPoolSizes(sp: Spelling, kind: Kind)
    requires Pool(sp, kind) == FAKE_SITES || Pool(sp, kind) == FAKE_RULES
    ensures |PoolSet(sp, kind)| == if Pool(sp, kind) == FAKE_SITES then 16 else 6
  {
    if Pool(sp, kind) == FAKE_SITES {
      forall i, j | 0 <= i < j < |FAKE_SITES| { SitesDiffer(i, j); }
    } else {
      forall i, j | 0 <= i < j < |FAKE_RULES| { RulesDiffer(i, j); }
    }
    PoolSizeIfDistinct(sp, kind);
  }

  /** One name asked for during a run. */
  datatype Request = Request(original: string, kind: Kind)

  function Serve(names: Names, sp: Spelling, r: Request): (Names, string) {
    NameFor(names, sp, r.original, r.kind)
  }

  /** The registry after a run of requests. */
  function After(sp: Spelling, run: seq<Request>): Names {
    if run == [] then NO_NAMES else Serve(After(sp, run[..|run| - 1]), sp, run[|run| - 1]).0
  }

  /** What the i-th request of a run was answered. */
  function Answer(sp: Spelling, run: seq<Request>, i: nat): string
    requires i < |run|
  {
    Serve(After(sp, run[..i]), sp, run[i]).1
  }

  lemma {:induction false} RunIsConsistent(sp: Spelling, run: seq<Request>, kind: Kind)
    requires IsStable(kind)
    ensures Consistent(After(sp, run), sp, kind)
  {
    if run == [] {
      assert Known(NO_NAMES, kind) == {} && UsedNames(NO_NAMES, kind) == {};
    } else {
      var last := run[|run| - 1];
      RunIsConsistent(sp, run[..|run| - 1], kind);
      ConsistentStep(After(sp, run[..|run| - 1]), sp, last.original, last.kind, kind);
    }
  }

  /** An answer about a site or rule is what the registry still holds at the end. */
  lemma {:induction false} AnswerIsKept(sp: Spelling, run: seq<Request>, i: nat)
    requires i < |run| && IsStable(run[i].kind)
    ensures Stable(run[i].kind, Strip(run[i].original)) in After(sp, run).byOriginal
    ensures After(sp, run).byOriginal[Stable(run[i].kind, Strip(run[i].original))] == Answer(sp, run, i)
  {
    var front, last := run[..|run| - 1], run[|run| - 1];
    NameIsRemembered(After(sp, front), sp, last.original, last.kind);
    if i < |run| - 1 {
      AnswerIsKept(sp, front, i);
      assert front[..i] == run[..i];
    }
  }

  /** The sites, or rules, a run asks for. */
  function Named(run: seq<Request>, kind: Kind): set<string> {
    set r | r in run && r.kind == kind :: Strip(r.original)
  }

  lemma NamedSnoc(run: seq<Request>, r: Request, kind: Kind)
    ensures Named(run + [r], kind) == Named(run, kind) + if r.kind == kind then {Strip(r.original)} else {}
  {
    if r.kind == kind { assert r in run + [r]; }
    assert forall x :: x in run ==> x in run + [r];
  }

  /** A registry knows exactly the sites and rules it was asked for. */
  lemma {:induction false} KnownIsNamed(sp: Spelling, run: seq<Request>, kind: Kind)
    requires IsStable(kind)
    ensures Known(After(sp, run), kind) == Named(run, kind)
  {
    if run != [] {
      var front, last := run[..|run| - 1], run[|run| - 1];
      var names := After(sp, front);
      KnownIsNamed(sp, front, kind);
      assert run == front + [last];
      NamedSnoc(front, last, kind);
      KnownExactly(names, kind, Strip(last.original));
      if last.kind != kind || Stable(kind, Strip(last.original)) in names.byOriginal {
        OtherRequestsKeep(names, sp, last.original, last.kind, kind);
      } else {
        RunIsConsistent(sp, front, kind);
        NewOriginal(names, sp, last.original, kind);
      }
    }
  }

  /** In every run the same site or rule gets the same stand-in, and two different
      ones get different stand-ins as long as the run names no more of them than
      the pool has. */
  lemma StandInsOfARun(sp: Spelling, run: seq<Request>, i: nat, j: nat)
    requires i < |run| && j < |run| && run[i].kind == run[j].kind && IsStable(run[i].kind)
    ensures Strip(run[i].original) == Strip(run[j].original) ==> Answer(sp, run, i) == Answer(sp, run, j)
    ensures |Named(run, run[i].kind)| <= |PoolSet(sp, run[i].kind)| ==>
              Strip(run[i].original) != Strip(run[j].original) ==> Answer(sp, run, i) != Answer(sp, run, j)
  {
    var end, kind := After(sp, run), run[i].kind;
    AnswerIsKept(sp, run, i);
    AnswerIsKept(sp, run, j);
    RunIsConsistent(sp, run, kind);
    KnownIsNamed(sp, run, kind);
    DistinctWhilePoolLasts(end, sp, kind);
    KnownExactly(end, kind, Strip(run[i].original));
    KnownExactly(end, kind, Strip(run[j].original));
  }

  /** A run that names more than the pool has gives two of them one stand-in. */
  lemma SharedWhenPoolIsUsedUp(sp: Spelling, run: seq<Request>, kind: Kind) returns (i: nat, j: nat)
    requires IsStable(kind) && |Named(run, kind)| > |PoolSet(sp, kind)|
    ensures i < |run| && j < |run| && run[i].kind == run[j].kind == kind
    ensures Strip(run[i].original) != Strip(run[j].original) && Answer(sp, run, i) == Answer(sp, run, j)
  {
    var end := After(sp, run);
    RunIsConsistent(sp, run, kind);
    KnownIsNamed(sp, run, kind);
    DistinctWhilePoolLasts(end, sp, kind);
    var a, b :| a in Known(end, kind) && b in Known(end, kind) && StandIn(end, kind, a) == StandIn(end, kind, b) && a != b;
    i := Asked(run, kind, a);
    j := Asked(run, kind, b);
    AnswerIsKept(sp, run, i);
    AnswerIsKept(sp, run, j);
  }

  lemma Asked(run: seq<Request>, kind: Kind, original: string) returns (i: nat)
    requires original in Named(run, kind)
    ensures i < |run| && run[i].kind == kind && Strip(run[i].original) == original
  {
    var r :| r in run && r.kind == kind && Strip(r.original) == original;
    i :| 0 <= i < |run| && run[i] == r;
  }

  /** Seventeen sites of one letter each. */
  function Letter(i: nat): string
    requires i < 17
  {
    ['a' + i as char]
  }

  function SeventeenSites(): (run: seq<Request>)
    ensures |run| == 17
  {
    seq(17, i requires 0 <= i < 17 => Request(Letter(i), Site))
  }

  lemma SeventeenNamed()
    ensures |Named(SeventeenSites(), Site)| == 17
  {
    var run := SeventeenSites();
    var letters := seq(17, i requires 0 <= i < 17 => Letter(i));
    forall i: nat | i < 17 ensures Strip(Letter(i)) == Letter(i) { }
    forall a ensures a in Named(run, Site) <==> a in letters {
      if a in letters {
        var i :| 0 <= i < 17 && letters[i] == a;
        assert run[i] in run && run[i].kind == Site && Strip(run[i].original) == a;
      }
      if a in Named(run, Site) {
        var i := Asked(run, Site, a);
        assert letters[i] == a;
      }
    }
    assert Named(run, Site) == set n | n in letters;
    DistinctCount(letters);
  }

  /** With the shipped names two of them share one. */
  lemma SeventeenSitesShare(sp: Spelling) returns (i: nat, j: nat)
    requires sp.sites == FAKE_SITES
    ensures i < j < 17 && Letter(i) != Letter(j) && Answer(sp, SeventeenSites(), i) == Answer(sp, SeventeenSites(), j)
  {
    SeventeenNamed();
    ShippedPoolSizes(sp, Site);
    i, j := SharedWhenPoolIsUsedUp(sp, SeventeenSites(), Site);
    if i > j { i, j := j, i; }
  }

  // --------------------------------------------- the names of a pool in order

  /** Exactly the first `n` names of a pool are used. */
  ghost predicate FirstAreUsed(names: Names, sp: Spelling, kind: Kind, n: nat) {
    forall p :: 0 <= p < |Pool(sp, kind)| ==> (Pooled(kind, Pool(sp, kind)[p]) in names.used <==> p < n)
  }

  ghost predicate AllDifferent(pool: NamePool) { forall p, q :: 0 <= p < q < |pool| ==> pool[p] != pool[q] }

  lemma NextInPool(names: Names, sp: Spelling, kind: Kind, n: nat)
    requires AllDifferent(Pool(sp, kind)) && FirstAreUsed(names, sp, kind, n)
    ensures var (next, name) := NextFrom(names, sp, kind);
            var pool := Pool(sp, kind);
            && FirstAreUsed(next, sp, kind, n + 1)
            && |next.used| == |names.used| + (if n < |pool| then 1 else 0)
            && name == pool[if n < |pool| then n else |names.used| % |pool|]
  {
    var i := FirstUnused(names, sp, kind, 0);
    assert n < |Pool(sp, kind)| ==> Pooled(kind, Pool(sp, kind)[n]) !in names.used;
    assert i == if n < |Pool(sp, kind)| then n else |Pool(sp, kind)|;
  }

  /** One request uses up one name of its pool if it names something new. */
  lemma PoolStep(names: Names, sp: Spelling, r: Request, kind: Kind, n: nat)
    requires IsStable(kind) && AllDifferent(Pool(sp, kind)) && FirstAreUsed(names, sp, kind, n)
    ensures var isNew := r.kind == kind && Stable(kind, Strip(r.original)) !in names.byOriginal;
            && FirstAreUsed(Serve(names, sp, r).0, sp, kind, if isNew then n + 1 else n)
            && (r.kind == kind ==>
                  |Serve(names, sp, r).0.used| == |names.used| + if isNew && n < |Pool(sp, kind)| then 1 else 0)
  {
    if r.kind == kind {
      NextInPool(names, sp, kind, n);
    } else if !IsStable(r.kind) {
      NextTitleKeeps(names, sp, sp.episodic(r.original));
    }
  }

  lemma {:induction false} NamesAreUsedInOrder(sp: Spelling, run: seq<Request>, kind: Kind)
    requires IsStable(kind) && AllDifferent(Pool(sp, kind))
    ensures FirstAreUsed(After(sp, run), sp, kind, |Named(run, kind)|)
  {
    hide Serve, FirstAreUsed, Strip;
    if run == [] {
      NoneUsed(sp, kind);
    } else {
      var front, last := run[..|run| - 1], run[|run| - 1];
      NamesAreUsedInOrder(sp, front, kind);
      PoolStep(After(sp, front), sp, last, kind, |Named(front, kind)|);
      KnownIsNamed(sp, front, kind);
      KnownExactly(After(sp, front), kind, Strip(last.original));
      OneMoreNamed(front, last, kind);
      assert run == front + [last];
    }
  }

  lemma NoneUsed(sp: Spelling, kind: Kind)
    ensures FirstAreUsed(After(sp, []), sp, kind, |Named([], kind)|)
  {
  }

  lemma OneMoreNamed(run: seq<Request>, r: Request, kind: Kind)
    ensures var isNew := r.kind == kind && Strip(r.original) !in Named(run, kind);
            |Named(run + [r], kind)| == |Named(run, kind)| + if isNew then 1 else 0
  {
    hide Named, Strip;
    NamedSnoc(run, r, kind);
    if r.kind == kind && Strip(r.original) in Named(run, kind) {
      assert Named(run, kind) + {Strip(r.original)} == Named(run, kind);
    }
  }

  /** First come, first named: a site or rule not named before gets the next name of
      its pool, in the order of the pool; when there is none left, a name chosen by
      how much is in use altogether. */
  lemma NewNameOfARun(sp: Spelling, run: seq<Request>, i: nat)
    requires i < |run| && IsStable(run[i].kind) && AllDifferent(Pool(sp, run[i].kind))
    requires forall k :: 0 <= k < i && run[k].kind == run[i].kind ==> Strip(run[k].original) != Strip(run[i].original)
    ensures var pool, n := (if run[i].kind == Site then sp.sites else sp.rules), |Named(run[..i], run[i].kind)|;
            Answer(sp, run, i) == pool[if n < |pool| then n else |After(sp, run[..i]).used| % |pool|]
  {
    var kind, names := run[i].kind, After(sp, run[..i]);
    NamesAreUsedInOrder(sp, run[..i], kind);
    NextInPool(names, sp, kind, |Named(run[..i], kind)|);
    KnownIsNamed(sp, run[..i], kind);
    KnownExactly(names, kind, Strip(run[i].original));
    if Strip(run[i].original) in Named(run[..i], kind) {
      var k := Asked(run[..i], kind, Strip(run[i].original));
      assert false;
    }
  }

  // ------------------------------------------------- a new title every time

  /** The base the next title is made from, while there is an unused one. */
  function NextBase(names: Names, sp: Spelling): Option<string>
    decreases |sp.bases| - names.cursor
  {
    if names.cursor >= |sp.bases| then None
    else if Base(sp.bases[names.cursor]) in names.used then NextBase(names.(cursor := names.cursor + 1), sp)
    else Some(sp.bases[names.cursor])
  }

  function Max(a: nat, b: nat): nat { if a < b then b else a }

  lemma {:induction false} TitleComesFromBase(names: Names, sp: Spelling, episode: bool)
    ensures var (next, title) := NextTitle(names, sp, episode);
            match NextBase(names, sp)
            case Some(b) =>
              && b in sp.bases && Base(b) !in names.used && next.used == names.used + {Base(b)}
              && exists i :: title == sp.release(b, i, episode)
            case None =>
              && next == names.(cursor := Max(names.cursor, |sp.bases|))
              && title == Untitled(next.cursor)
    decreases |sp.bases| - names.cursor
  {
    if names.cursor < |sp.bases| {
      if Base(sp.bases[names.cursor]) in names.used {
        TitleComesFromBase(names.(cursor := names.cursor + 1), sp, episode);
      } else {
        assert NextTitle(names, sp, episode).1 == sp.release(sp.bases[names.cursor], names.cursor, episode);
      }
    }
  }

  lemma UsedGrowsStep(names: Names, sp: Spelling, r: Request)
    ensures Later(sp, names, Serve(names, sp, r).0)
  {
    TitleComesFromBase(names, sp, sp.episodic(r.original));
    if IsStable(r.kind) { PoolNamesAreNotBases(names, sp, r); }
  }

  lemma PoolNamesAreNotBases(names: Names, sp: Spelling, r: Request)
    requires IsStable(r.kind)
    ensures names.used <= Serve(names, sp, r).0.used
    ensures NextBase(Serve(names, sp, r).0, sp) == NextBase(names, sp)
  {
    var next := Serve(names, sp, r).0;
    assert next.cursor == names.cursor && forall b :: Base(b) in next.used <==> Base(b) in names.used;
    SameBases(names, next, sp);
  }

  lemma {:induction false} SameBases(a: Names, b: Names, sp: Spelling)
    requires a.cursor == b.cursor && forall t :: Base(t) in a.used <==> Base(t) in b.used
    ensures NextBase(a, sp) == NextBase(b, sp)
    decreases |sp.bases| - a.cursor
  {
    if a.cursor < |sp.bases| && Base(sp.bases[a.cursor]) in a.used {
      SameBases(a.(cursor := a.cursor + 1), b.(cursor := b.cursor + 1), sp);
    }
  }

  /** More is used later on, and bases once used up stay used up. */
  ghost predicate Later(sp: Spelling, a: Names, b: Names) {
    a.used <= b.used && (NextBase(a, sp).None? ==> NextBase(b, sp).None?)
  }

  ghost predicate LaterAt(sp: Spelling, history: seq<Names>, k: nat)
    requires k + 1 < |history|
  {
    Later(sp, history[k], history[k + 1])
  }

  lemma {:induction false} HistoryGrows(sp: Spelling, history: seq<Names>, i: nat, j: nat)
    requires i <= j < |history|
    requires forall k: nat :: k < |history| - 1 ==> LaterAt(sp, history, k)
    ensures Later(sp, history[i], history[j])
    decreases j - i
  {
    if i < j {
      HistoryGrows(sp, history, i, j - 1);
      assert LaterAt(sp, history, j - 1);
    }
  }

  lemma UsedGrows(sp: Spelling, run: seq<Request>, i: nat, j: nat)
    requires i <= j <= |run|
    ensures Later(sp, After(sp, run[..i]), After(sp, run[..j]))
  {
    var history := seq(|run| + 1, k requires 0 <= k <= |run| => After(sp, run[..k]));
    forall k: nat | k < |history| - 1 ensures LaterAt(sp, history, k) { UsedGrowsOnce(sp, run, k); }
    HistoryGrows(sp, history, i, j);
  }

  lemma UsedGrowsOnce(sp: Spelling, run: seq<Request>, i: nat)
    requires i < |run|
    ensures Later(sp, After(sp, run[..i]), After(sp, run[..i + 1]))
  {
    AfterSnoc(sp, run, i);
    UsedGrowsStep(After(sp, run[..i]), sp, run[i]);
  }

  lemma AfterSnoc(sp: Spelling, run: seq<Request>, i: nat)
    requires i < |run|
    ensures After(sp, run[..i + 1]) == Serve(After(sp, run[..i]), sp, run[i]).0
  {
    assert run[..i + 1][..i] == run[..i];
  }

  /** Release names of different bases differ. */
  ghost predicate TellsBasesApart(sp: Spelling) {
    forall a, b, i, j, e, f :: a in sp.bases && b in sp.bases && sp.release(a, i, e) == sp.release(b, j, f) ==> a == b
  }

  /** In every run each title request gets a title of its own, even for the same
      original, for as long as unused bases remain. */
  lemma TitlesOfARunDiffer(sp: Spelling, run: seq<Request>, i: nat, j: nat)
    requires i < j < |run| && run[i].kind == Title && run[j].kind == Title
    requires TellsBasesApart(sp)
    ensures NextBase(After(sp, run[..j]), sp).Some? ==> Answer(sp, run, i) != Answer(sp, run, j)
  {
    var a, b := After(sp, run[..i]), After(sp, run[..j]);
    UsedGrows(sp, run, i, j);
    UsedGrows(sp, run, i + 1, j);
    AfterSnoc(sp, run, i);
    TitleComesFromBase(a, sp, sp.episodic(run[i].original));
    TitleComesFromBase(b, sp, sp.episodic(run[j].original));
  }

  lemma {:induction false} CursorInRange(names: Names, sp: Spelling, episode: bool)
    requires names.cursor <= |sp.bases|
    ensures NextTitle(names, sp, episode).0.cursor <= |sp.bases|
    decreases |sp.bases| - names.cursor
  {
    if names.cursor < |sp.bases| && Base(sp.bases[names.cursor]) in names.used {
      CursorInRange(names.(cursor := names.cursor + 1), sp, episode);
    }
  }

  lemma {:induction false} CursorOfARun(sp: Spelling, run: seq<Request>)
    ensures After(sp, run).cursor <= |sp.bases|
  {
    if run != [] {
      CursorOfARun(sp, run[..|run| - 1]);
      CursorInRange(After(sp, run[..|run| - 1]), sp, sp.episodic(run[|run| - 1].original));
    }
  }

  /** Once the bases are used up all further titles are one and the same. */
  lemma TitlesRepeatWhenUsedUp(sp: Spelling, run: seq<Request>, i: nat)
    requires i < |run| && run[i].kind == Title && NextBase(After(sp, run[..i]), sp).None?
    ensures Answer(sp, run, i) == Untitled(|sp.bases|)
  {
    CursorOfARun(sp, run[..i]);
    TitleComesFromBase(After(sp, run[..i]), sp, sp.episodic(run[i].original));
  }

  // ------------------------------------------- what the names give away

  /** Registries that differ in nothing but the originals. */
  ghost predicate Alike(a: Names, b: Names) {
    a.used == b.used && a.cursor == b.cursor && |a.byOriginal| == |b.byOriginal|
  }

  ghost predicate CountedBelow(names: Names) {
    forall k :: k in names.byOriginal && k.Counted? ==> k.n < |names.byOriginal|
  }

  lemma {:induction false} NextTitleAlike(a: Names, b: Names, sp: Spelling, episode: bool)
    requires Alike(a, b)
    ensures var (x, y) := (NextTitle(a, sp, episode), NextTitle(b, sp, episode)); Alike(x.0, y.0) && x.1 == y.1
    decreases |sp.bases| - a.cursor
  {
    if a.cursor < |sp.bases| && Base(sp.bases[a.cursor]) in a.used {
      NextTitleAlike(a.(cursor := a.cursor + 1), b.(cursor := b.cursor + 1), sp, episode);
    }
  }

  lemma {:induction false} FirstUnusedAlike(a: Names, b: Names, sp: Spelling, kind: Kind, i: nat)
    requires Alike(a, b) && i <= |Pool(sp, kind)|
    ensures FirstUnused(a, sp, kind, i) == FirstUnused(b, sp, kind, i)
    decreases |Pool(sp, kind)| - i
  {
    if i < |Pool(sp, kind)| && Pooled(kind, Pool(sp, kind)[i]) in a.used { FirstUnusedAlike(a, b, sp, kind, i + 1); }
  }

  /** The registry answers both alike. */
  ghost predicate AnswersAlike(sp: Spelling, a: Names, r: Request, b: Names, q: Request) {
    Serve(a, sp, r).1 == Serve(b, sp, q).1 && Alike(Serve(a, sp, r).0, Serve(b, sp, q).0)
  }

  lemma StableAlike(sp: Spelling, a: Names, r: Request, b: Names, q: Request)
    requires Alike(a, b) && r.kind == q.kind && IsStable(r.kind)
    requires Stable(r.kind, Strip(r.original)) in a.byOriginal <==> Stable(q.kind, Strip(q.original)) in b.byOriginal
    requires Stable(r.kind, Strip(r.original)) in a.byOriginal ==>
               a.byOriginal[Stable(r.kind, Strip(r.original))] == b.byOriginal[Stable(q.kind, Strip(q.original))]
    ensures AnswersAlike(sp, a, r, b, q)
  {
    FirstUnusedAlike(a, b, sp, r.kind, 0);
  }

  lemma TitleAlike(sp: Spelling, a: Names, r: Request, b: Names, q: Request)
    requires Alike(a, b) && CountedBelow(a) && CountedBelow(b) && r.kind == q.kind && !IsStable(r.kind)
    requires sp.episodic(r.original) == sp.episodic(q.original)
    ensures AnswersAlike(sp, a, r, b, q)
  {
    var episode := sp.episodic(r.original);
    NextTitleAlike(a, b, sp, episode);
    NextTitleKeeps(a, sp, episode);
    NextTitleKeeps(b, sp, episode);
    assert Counted(r.kind, Strip(r.original), |a.byOriginal|) !in a.byOriginal;
    assert Counted(q.kind, Strip(q.original), |b.byOriginal|) !in b.byOriginal;
  }

  lemma CountedStep(sp: Spelling, names: Names, r: Request)
    requires CountedBelow(names)
    ensures CountedBelow(Serve(names, sp, r).0)
  {
    if !IsStable(r.kind) {
      NextTitleKeeps(names, sp, sp.episodic(r.original));
      assert Counted(r.kind, Strip(r.original), |names.byOriginal|) !in names.byOriginal;
    }
  }

  lemma {:induction false} RunIsCounted(sp: Spelling, run: seq<Request>)
    ensures CountedBelow(After(sp, run))
  {
    if run != [] {
      RunIsCounted(sp, run[..|run| - 1]);
      CountedStep(sp, After(sp, run[..|run| - 1]), run[|run| - 1]);
    }
  }

  /** Two runs for different originals that ask for the same kinds of names, tell the
      same sites and rules apart, and for what looks like an episode in the same places. */
  ghost predicate SameShape(sp: Spelling, run: seq<Request>, other: seq<Request>) {
    && |run| == |other|
    && (forall i :: 0 <= i < |run| ==> run[i].kind == other[i].kind)
    && (forall i :: 0 <= i < |run| && run[i].kind in {PathName, Title} ==>
          sp.episodic(run[i].original) == sp.episodic(other[i].original))
    && (forall i, j :: 0 <= i < j < |run| && run[i].kind == run[j].kind && run[i].kind in {Site, Rule} ==>
          (Strip(run[i].original) == Strip(run[j].original) <==> Strip(other[i].original) == Strip(other[j].original)))
  }

  /** An answer given before is on record. */
  lemma AnswerOnRecord(sp: Spelling, run: seq<Request>, i: nat, n: nat)
    requires i < n <= |run| && IsStable(run[i].kind)
    ensures var names := After(sp, run[..n]).byOriginal;
            Stable(run[i].kind, Strip(run[i].original)) in names &&
            names[Stable(run[i].kind, Strip(run[i].original))] == Answer(sp, run, i)
  {
    hide Serve, After, Strip;
    AnswerIsKept(sp, run[..n], i);
    assert run[..n][..i] == run[..i];
  }

  lemma KnownAlike(sp: Spelling, run: seq<Request>, other: seq<Request>, n: nat)
    requires SameShape(sp, run, other) && n < |run| && IsStable(run[n].kind)
    requires Stable(run[n].kind, Strip(run[n].original)) in After(sp, run[..n]).byOriginal
    requires forall i :: 0 <= i < n ==> Answer(sp, run, i) == Answer(sp, other, i)
    ensures Stable(run[n].kind, Strip(other[n].original)) in After(sp, other[..n]).byOriginal
    ensures After(sp, other[..n]).byOriginal[Stable(run[n].kind, Strip(other[n].original))] ==
            After(sp, run[..n]).byOriginal[Stable(run[n].kind, Strip(run[n].original))]
  {
    hide Serve, After, Strip, Answer, Named, Known;
    var kind, o := run[n].kind, Strip(run[n].original);
    KnownIsNamed(sp, run[..n], kind);
    KnownExactly(After(sp, run[..n]), kind, o);
    var i := Asked(run[..n], kind, o);
    AnswerOnRecord(sp, run, i, n);
    AnswerOnRecord(sp, other, i, n);
  }

  lemma OtherShape(sp: Spelling, run: seq<Request>, other: seq<Request>)
    requires SameShape(sp, run, other)
    ensures SameShape(sp, other, run)
  {
  }

  lemma {:induction false} AlikeSoFar(sp: Spelling, run: seq<Request>, other: seq<Request>, n: nat)
    requires SameShape(sp, run, other) && n <= |run|
    ensures Alike(After(sp, run[..n]), After(sp, other[..n]))
    ensures forall i :: 0 <= i < n ==> Answer(sp, run, i) == Answer(sp, other, i)
  {
    hide Serve, Strip, Named;
    if n > 0 {
      var m := n - 1;
      var a, b := After(sp, run[..m]), After(sp, other[..m]);
      AlikeSoFar(sp, run, other, m);
      AfterSnoc(sp, run, m);
      AfterSnoc(sp, other, m);
      RunIsCounted(sp, run[..m]);
      RunIsCounted(sp, other[..m]);
      OtherShape(sp, run, other);
      if IsStable(run[m].kind) {
        if Stable(run[m].kind, Strip(run[m].original)) in a.byOriginal { KnownAlike(sp, run, other, m); }
        if Stable(run[m].kind, Strip(other[m].original)) in b.byOriginal { KnownAlike(sp, other, run, m); }
        StableAlike(sp, a, run[m], b, other[m]);
      } else {
        TitleAlike(sp, a, run[m], b, other[m]);
      }
    }
  }

  /** The names a run is given tell nothing about the originals but which sites and
      rules are the same, and which titles look like episodes. */
  lemma NamesGiveNothingAway(sp: Spelling, run: seq<Request>, other: seq<Request>, i: nat)
    requires SameShape(sp, run, other) && i < |run|
    ensures Answer(sp, run, i) == Answer(sp, other, i)
  {
    AlikeSoFar(sp, run, other, |run|);
  }

  // ---------------------------------------------------------- the registry

  class Registry {
    var byOriginal: map<Key, string>
    var used: set<Used>
    var cursor: nat
    const sp: Spelling

    ghost function View(): Names
      reads this
    {
      Names(byOriginal, used, cursor)
    }

    constructor (spelling: Spelling)
      ensures View() == NO_NAMES && sp == spelling
    {
      byOriginal, used, cursor, sp := map[], {}, 0, spelling;
    }

    method TakeTitle(episode: bool) returns (title: string)
      modifies this
      ensures (View(), title) == NextTitle(old(View()), sp, episode)
    {
      while cursor < |sp.bases|
        invariant NextTitle(View(), sp, episode) == NextTitle(old(View()), sp, episode)
      {
        var i := cursor;
        cursor := cursor + 1;
        if Base(sp.bases[i]) in used { continue; }
        used := used + {Base(sp.bases[i])};
        return sp.release(sp.bases[i], i, episode);
      }
      return Untitled(cursor);
    }

    method TakeFrom(kind: Kind) returns (name: string)
      modifies this
      ensures (View(), name) == NextFrom(old(View()), sp, kind)
    {
      var pool := Pool(sp, kind);
      for i := 0 to |pool|
        invariant FirstUnused(View(), sp, kind, i) == FirstUnused(old(View()), sp, kind, 0) && View() == old(View())
      {
        if Pooled(kind, pool[i]) !in used {
          used := used + {Pooled(kind, pool[i])};
          return pool[i];
        }
      }
      return pool[|used| % |pool|];
    }

    method TakeName(original: string, kind: Kind) returns (name: string)
      modifies this
      ensures (View(), name) == NameFor(old(View()), sp, original, kind)
    {
      var key := Strip(original);
      if kind == Site || kind == Rule {
        if Stable(kind, key) in byOriginal { return byOriginal[Stable(kind, key)]; }
        name := TakeFrom(kind);
        byOriginal := byOriginal[Stable(kind, key) := name];
        return;
      }
      name := TakeTitle(sp.episodic(original));
      var n := |byOriginal|;
      if kind == PathName { name := sp.path(name, n); }
      byOriginal := byOriginal[Counted(kind, key, n) := name];
    }
  }
}
