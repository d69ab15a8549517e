/** The title space of ops/scripts/ansi-to-svg.py, for any two lists of words: how
    many different titles a redaction run can ask for, and which of them are equal. */
module TitleSpace {
  import opened Sequences
  import opened Text
  import opened Redaction

  // ------------------------------------------ every request uses up one base

  function UsedBases(names: Names): set<string> { set u | u in names.used && u.Base? :: u.title }

  function BaseSet(sp: Spelling): set<string> { set b | b in sp.bases }

  /** The requests of a run that take a title: those for titles and for paths. */
  function TitleRequests(run: seq<Request>): nat {
    if run == [] then 0 else TitleRequests(run[..|run| - 1]) + if IsStable(run[|run| - 1].kind) then 0 else 1
  }

  /** Every base the cursor has passed is used. */
  ghost predicate PassedAreUsed(names: Names, sp: Spelling) {
    forall i :: 0 <= i < names.cursor && i < |sp.bases| ==> Base(sp.bases[i]) in names.used
  }

  lemma {:induction false} NextTitlePasses(names: Names, sp: Spelling, episode: bool)
    requires PassedAreUsed(names, sp)
    ensures PassedAreUsed(NextTitle(names, sp, episode).0, sp)
    decreases |sp.bases| - names.cursor
  {
    if names.cursor < |sp.bases| && Base(sp.bases[names.cursor]) in names.used {
      NextTitlePasses(names.(cursor := names.cursor + 1), sp, episode);
    }
  }

  lemma ServePasses(names: Names, sp: Spelling, r: Request)
    requires PassedAreUsed(names, sp)
    ensures PassedAreUsed(Serve(names, sp, r).0, sp)
  {
    if !IsStable(r.kind) { NextTitlePasses(names, sp, sp.episodic(r.original)); }
  }

  /** One base more at most, and only for a title or a path. */
  lemma ServeUsesOne(names: Names, sp: Spelling, r: Request)
    ensures |UsedBases(Serve(names, sp, r).0)| <= |UsedBases(names)| + if IsStable(r.kind) then 0 else 1
  {
    var next := Serve(names, sp, r).0;
    var extra := if IsStable(r.kind) || NextBase(names, sp).None? then {} else {NextBase(names, sp).value};
    TitleComesFromBase(names, sp, sp.episodic(r.original));
    assert UsedBases(next) <= UsedBases(names) + extra;
    Fewer(UsedBases(next), UsedBases(names), extra);
  }

  lemma Fewer(a: set<string>, b: set<string>, extra: set<string>)
    requires a <= b + extra && |extra| <= 1
    ensures |a| <= |b| + |extra|
  {
    SmallerSubset(a, b + extra);
  }

  lemma {:induction false} RunUsesBases(sp: Spelling, run: seq<Request>)
    ensures PassedAreUsed(After(sp, run), sp) && |UsedBases(After(sp, run))| <= TitleRequests(run)
  {
    if run == [] {
      assert UsedBases(NO_NAMES) == {};
    } else {
      var front, last := run[..|run| - 1], run[|run| - 1];
      RunUsesBases(sp, front);
      ServePasses(After(sp, front), sp, last);
      ServeUsesOne(After(sp, front), sp, last);
    }
  }

  lemma {:induction false} NoneLeft(names: Names, sp: Spelling, i: nat)
    requires PassedAreUsed(names, sp) && NextBase(names, sp).None? && i < |sp.bases|
    ensures Base(sp.bases[i]) in names.used
    decreases |sp.bases| - names.cursor
  {
    if names.cursor <= i { NoneLeft(names.(cursor := names.cursor + 1), sp, i); }
  }

  /** The bases last for as many titles and paths as there are different bases. */
  lemma BasesLast(sp: Spelling, run: seq<Request>)
    requires TitleRequests(run) < |BaseSet(sp)|
    ensures NextBase(After(sp, run), sp).Some?
  {
    var end := After(sp, run);
    RunUsesBases(sp, run);
    if NextBase(end, sp).None? {
      forall b | b in BaseSet(sp) ensures b in UsedBases(end) {
        var i :| 0 <= i < |sp.bases| && sp.bases[i] == b;
        NoneLeft(end, sp, i);
      }
      SmallerSubset(BaseSet(sp), UsedBases(end));
    }
  }

  // ----------------------------------- the titles of a run, one by one, in order

  ghost predicate Distinct(s: seq<string>) { forall i, j :: 0 <= i < j < |s| ==> s[i] != s[j] }

  /** Exactly the bases before the cursor are used. */
  ghost predicate InOrder(names: Names, sp: Spelling, c: nat) {
    && names.cursor == c <= |sp.bases|
    && forall i :: 0 <= i < |sp.bases| ==> (Base(sp.bases[i]) in names.used <==> i < c)
  }

  function Least(a: nat, b: nat): nat { if a < b then a else b }

  /** The place of the cursor after `t` titles and paths. */
  function Place(sp: Spelling, t: nat): (c: nat)
    ensures c <= |sp.bases|
  {
    Least(t, |sp.bases|)
  }

  /** The base of the `t`-th title or path of a run, and the title made from it. */
  function BaseNumber(sp: Spelling, t: nat): Option<string> {
    if t < |sp.bases| then Some(sp.bases[t]) else None
  }

  function TitleNumber(sp: Spelling, t: nat, episode: bool): string {
    if t < |sp.bases| then sp.release(sp.bases[t], t, episode) else Untitled(|sp.bases|)
  }

  lemma NextInOrder(names: Names, sp: Spelling, t: nat, episode: bool)
    requires Distinct(sp.bases) && InOrder(names, sp, Place(sp, t))
    ensures var (next, title) := NextTitle(names, sp, episode);
            && title == TitleNumber(sp, t, episode) && InOrder(next, sp, Place(sp, t + 1))
            && |next.used| == |names.used| + if t < |sp.bases| then 1 else 0
  {
  }

  lemma {:induction false} RunInOrder(sp: Spelling, run: seq<Request>)
    requires Distinct(sp.bases)
    ensures InOrder(After(sp, run), sp, Place(sp, TitleRequests(run)))
  {
    if run != [] {
      var front, last := run[..|run| - 1], run[|run| - 1];
      RunInOrder(sp, front);
      NextInOrder(After(sp, front), sp, TitleRequests(front), sp.episodic(last.original));
    }
  }

  /** The title a request is served with depends only on how many titles and paths
      were asked for before. */
  lemma TitleOfARequest(sp: Spelling, run: seq<Request>, i: nat)
    requires Distinct(sp.bases) && i < |run|
    ensures NextTitle(After(sp, run[..i]), sp, sp.episodic(run[i].original)).1 ==
            TitleNumber(sp, TitleRequests(run[..i]), sp.episodic(run[i].original))
  {
    RunInOrder(sp, run[..i]);
    NextInOrder(After(sp, run[..i]), sp, TitleRequests(run[..i]), sp.episodic(run[i].original));
  }

  // --------------------------------------- what is in use, and names shared by it

  /** How much a run has in use: bases, sites and rules, each up to its supply. */
  function InUse(sp: Spelling, run: seq<Request>): nat {
    Least(TitleRequests(run), |sp.bases|) + Least(|Named(run, Site)|, |sp.sites|) + Least(|Named(run, Rule)|, |sp.rules|)
  }

  ghost predicate NoDoubles(sp: Spelling) { Distinct(sp.bases) && AllDifferent(sp.sites) && AllDifferent(sp.rules) }

  lemma PoolInUse(sp: Spelling, run: seq<Request>, r: Request)
    requires NoDoubles(sp) && IsStable(r.kind)
    ensures var names, n := After(sp, run), |Named(run, r.kind)|;
            |Serve(names, sp, r).0.used| - |names.used| ==
            Least(|Named(run + [r], r.kind)|, |Pool(sp, r.kind)|) - Least(n, |Pool(sp, r.kind)|)
  {
    hide After, Serve, Strip, Named, FirstAreUsed;
    NamesAreUsedInOrder(sp, run, r.kind);
    PoolStep(After(sp, run), sp, r, r.kind, |Named(run, r.kind)|);
    KnownIsNamed(sp, run, r.kind);
    KnownExactly(After(sp, run), r.kind, Strip(r.original));
    OneMoreNamed(run, r, r.kind);
  }

  lemma TitleInUse(sp: Spelling, run: seq<Request>, r: Request)
    requires NoDoubles(sp) && !IsStable(r.kind)
    ensures var names, t := After(sp, run), TitleRequests(run);
            |Serve(names, sp, r).0.used| - |names.used| == Least(t + 1, |sp.bases|) - Least(t, |sp.bases|)
  {
    hide After, Strip;
    RunInOrder(sp, run);
    NextInOrder(After(sp, run), sp, TitleRequests(run), sp.episodic(r.original));
  }

  lemma {:induction false} UsedByARun(sp: Spelling, run: seq<Request>)
    requires NoDoubles(sp)
    ensures |After(sp, run).used| == InUse(sp, run)
  {
    hide Serve, Strip, Named, NoDoubles;
    if run == [] {
      NothingNamed();
    } else {
      var front, last := run[..|run| - 1], run[|run| - 1];
      UsedByARun(sp, front);
      OneMoreNamed(front, last, Site);
      OneMoreNamed(front, last, Rule);
      if IsStable(last.kind) { PoolInUse(sp, front, last); } else { TitleInUse(sp, front, last); }
      assert run == front + [last];
    }
  }

  lemma NothingNamed()
    ensures Named([], Site) == {} && Named([], Rule) == {}
  {
  }

  /** When the pool is used up, a new site or rule shares the name at the place that
      the number of titles, paths, sites and rules named so far leads to. */
  lemma SharedNameOfARun(sp: Spelling, run: seq<Request>, i: nat)
    requires NoDoubles(sp) && i < |run| && IsStable(run[i].kind) && |Named(run[..i], run[i].kind)| >= |Pool(sp, run[i].kind)|
    requires forall k :: 0 <= k < i && run[k].kind == run[i].kind ==> Strip(run[k].original) != Strip(run[i].original)
    ensures var pool := if run[i].kind == Site then sp.sites else sp.rules;
            var titles := Least(TitleRequests(run[..i]), |sp.bases|);
            var sites, rules := Least(|Named(run[..i], Site)|, |sp.sites|), Least(|Named(run[..i], Rule)|, |sp.rules|);
            Answer(sp, run, i) == pool[(titles + sites + rules) % |pool|]
  {
    hide After, Serve, Strip, Named, Answer, AllDifferent, TitleRequests;
    UsedByARun(sp, run[..i]);
    NewNameOfARun(sp, run, i);
    assert |After(sp, run[..i]).used| == InUse(sp, run[..i]);
  }

  lemma {:induction false} TitleRequestsGrow(run: seq<Request>, i: nat, j: nat)
    requires i < j <= |run| && !IsStable(run[i].kind)
    ensures TitleRequests(run[..i]) < TitleRequests(run[..j])
  {
    assert run[..j][..j - 1] == run[..j - 1];
    if i < j - 1 { TitleRequestsGrow(run, i, j - 1); }
  }

  // ----------------------------------------- two lists of words, all their pairs

  predicate OneWord(w: string) { ' ' !in w }

  ghost predicate DistinctWords(s: seq<string>) {
    (forall i :: 0 <= i < |s| ==> OneWord(s[i])) && forall i, j :: 0 <= i < j < |s| ==> s[i] != s[j]
  }

  function Pair(a: string, b: string): string { a + (" " + b) }

  function Pairs(a: string, second: seq<string>): (r: seq<string>)
    ensures |r| == |second| && forall i :: 0 <= i < |r| ==> r[i] == Pair(a, second[i])
  {
    seq(|second|, i requires 0 <= i < |second| => Pair(a, second[i]))
  }

  /** Every first word with every second word, in order. */
  function Combined(first: seq<string>, second: seq<string>): seq<string> {
    if first == [] then [] else Combined(first[..|first| - 1], second) + Pairs(first[|first| - 1], second)
  }

  lemma FirstSpace(a: string, b: string)
    requires OneWord(a)
    ensures Pair(a, b)[|a|] == ' ' && forall k :: 0 <= k < |a| ==> Pair(a, b)[k] != ' '
  {
  }

  lemma PairInjective(a: string, b: string, c: string, d: string)
    requires OneWord(a) && OneWord(c) && Pair(a, b) == Pair(c, d)
    ensures a == c && b == d
  {
    var p := Pair(a, b);
    FirstSpace(a, b);
    FirstSpace(c, d);
    assert |a| == |c|;
    assert a == p[..|a|] && b == p[|a| + 1..];
    assert c == p[..|c|] && d == p[|c| + 1..];
  }

  lemma {:induction false} CombinedMembers(first: seq<string>, second: seq<string>, k: nat) returns (i: nat, j: nat)
    requires k < |Combined(first, second)|
    ensures i < |first| && j < |second| && Combined(first, second)[k] == Pair(first[i], second[j])
  {
    var n := |first| - 1;
    var rest := Combined(first[..n], second);
    if k < |rest| {
      i, j := CombinedMembers(first[..n], second, k);
    } else {
      i, j := n, k - |rest|;
    }
  }

  lemma {:induction false} CombinedDistinct(first: seq<string>, second: seq<string>, k: nat, l: nat)
    requires DistinctWords(first) && DistinctWords(second) && k < l < |Combined(first, second)|
    ensures Combined(first, second)[k] != Combined(first, second)[l]
  {
    var n := |first| - 1;
    var rest := Combined(first[..n], second);
    if l < |rest| {
      CombinedDistinct(first[..n], second, k, l);
    } else if Combined(first, second)[k] == Combined(first, second)[l] {
      if k < |rest| {
        var i, j := CombinedMembers(first[..n], second, k);
        PairInjective(first[i], second[j], first[n], second[l - |rest|]);
      } else {
        PairInjective(first[n], second[k - |rest|], first[n], second[l - |rest|]);
      }
    }
  }

  lemma {:induction false} CombinedLength(first: seq<string>, second: seq<string>)
    ensures |Combined(first, second)| == |first| * |second|
  {
    if first != [] {
      CombinedLength(first[..|first| - 1], second);
      assert (|first| - 1) * |second| + |second| == |first| * |second|;
    }
  }

  lemma CombinedSnoc(first: seq<string>, second: seq<string>, i: nat)
    requires i < |first|
    ensures Combined(first[..i + 1], second) == Combined(first[..i], second) + Pairs(first[i], second)
  {
    assert first[..i + 1][..i] == first[..i];
  }

  /** Numbered from zero in order. */
  ghost predicate Numbers(out: seq<(string, nat)>, bases: seq<string>) {
    |out| == |bases| && forall k :: 0 <= k < |out| ==> out[k] == (bases[k], k)
  }

  /** `_title_space`: each base comes with its place in the list. */
  method BuildTitleSpace(first: seq<string>, second: seq<string>) returns (out: seq<(string, nat)>)
    ensures Numbers(out, Combined(first, second))
  {
    out := [];
    for i := 0 to |first|
      invariant Numbers(out, Combined(first[..i], second))
    {
      ghost var before, row := Combined(first[..i], second), Pairs(first[i], second);
      CombinedLength(first[..i], second);
      for j := 0 to |second|
        invariant |before| == i * |second| && Numbers(out, before + row[..j])
      {
        out := out + [(first[i] + (" " + second[j]), i * |second| + j)];
      }
      CombinedSnoc(first, second, i);
      assert row[..|second|] == row;
    }
    assert first[..|first|] == first;
  }

  /** There is a title for every pair of words. */
  lemma TitleSpaceSize(sp: Spelling, first: seq<string>, second: seq<string>)
    requires DistinctWords(first) && DistinctWords(second) && sp.bases == Combined(first, second)
    ensures |BaseSet(sp)| == |first| * |second|
  {
    forall k, l | 0 <= k < l < |sp.bases| ensures sp.bases[k] != sp.bases[l] { CombinedDistinct(first, second, k, l); }
    DistinctCount(sp.bases);
    CombinedLength(first, second);
  }

  /** A release name is its base, a space and details. */
  ghost predicate DetailsFollow(sp: Spelling, details: (nat, bool) -> string) {
    forall b, i, e :: sp.release(b, i, e) == Pair(b, details(i, e))
  }

  lemma TwoWordsThen(a: string, b: string, c: string)
    ensures Pair(Pair(a, b), c) == Pair(a, Pair(b, c))
  {
  }

  /** Details after a two-word base do not blur it. */
  lemma PairsAreToldApart(sp: Spelling, first: seq<string>, second: seq<string>, details: (nat, bool) -> string)
    requires DistinctWords(first) && DistinctWords(second) && sp.bases == Combined(first, second) && DetailsFollow(sp, details)
    ensures TellsBasesApart(sp)
  {
    forall a, b, i, j, e, f | a in sp.bases && b in sp.bases && sp.release(a, i, e) == sp.release(b, j, f) ensures a == b {
      var x, y := WordsOf(first, second, a);
      var x', y' := WordsOf(first, second, b);
      BaseRecovered(x, y, details(i, e), x', y', details(j, f));
    }
  }

  lemma WordsOf(first: seq<string>, second: seq<string>, b: string) returns (x: string, y: string)
    requires DistinctWords(first) && DistinctWords(second)
    requires b in Combined(first, second)
    ensures b == Pair(x, y) && OneWord(x) && OneWord(y) && x in first && y in second
  {
    var k :| 0 <= k < |Combined(first, second)| && Combined(first, second)[k] == b;
    var i, j := CombinedMembers(first, second, k);
    x, y := first[i], second[j];
  }

  lemma BaseRecovered(x: string, y: string, s: string, x': string, y': string, t: string)
    requires OneWord(x) && OneWord(y) && OneWord(x') && OneWord(y')
    ensures Pair(Pair(x, y), s) == Pair(Pair(x', y'), t) ==> x == x' && y == y'
  {
    TwoWordsThen(x, y, s);
    TwoWordsThen(x', y', t);
    if Pair(Pair(x, y), s) == Pair(Pair(x', y'), t) {
      PairInjective(x, Pair(y, s), x', Pair(y', t));
      PairInjective(y, s, y', t);
    }
  }

  /** "Untitled" is no first word, so what follows the last title is no title. */
  lemma UntitledIsNoPair(x: string, y: string, d: string, n: nat)
    requires OneWord(x) && x != "Untitled"
    ensures Pair(Pair(x, y), d) != Untitled(n)
  {
    TwoWordsThen(x, y, d);
    var word, rest := "Untitled", "Release " + Decimal(n);
    assert Untitled(n) == Pair(word, rest);
    if Pair(x, Pair(y, d)) == Pair(word, rest) { PairInjective(x, Pair(y, d), word, rest); }
  }

  /** The lists of words a spelling is built from, with details behind each base. */
  ghost predicate BuiltFrom(sp: Spelling, first: seq<string>, second: seq<string>, details: (nat, bool) -> string) {
    DistinctWords(first) && DistinctWords(second) && sp.bases == Combined(first, second) && DetailsFollow(sp, details)
  }

  lemma BasesDiffer(sp: Spelling, first: seq<string>, second: seq<string>, details: (nat, bool) -> string)
    requires BuiltFrom(sp, first, second, details)
    ensures Distinct(sp.bases) && |sp.bases| == |first| * |second|
  {
    forall k, l | 0 <= k < l < |sp.bases| ensures sp.bases[k] != sp.bases[l] { CombinedDistinct(first, second, k, l); }
    CombinedLength(first, second);
  }

  /** Titles with different numbers differ, up to the last base. */
  lemma TitleNumbersDiffer(
      sp: Spelling, first: seq<string>, second: seq<string>, details: (nat, bool) -> string, t: nat, e: bool, u: nat, f: bool)
    requires BuiltFrom(sp, first, second, details) && t < u && t < |sp.bases|
    requires u < |sp.bases| || "Untitled" !in first
    ensures TitleNumber(sp, t, e) != TitleNumber(sp, u, f)
  {
    BasesDiffer(sp, first, second, details);
    if u < |sp.bases| {
      PairsAreToldApart(sp, first, second, details);
      assert sp.bases[t] in sp.bases && sp.bases[u] in sp.bases;
    } else {
      var x, y := WordsOf(first, second, sp.bases[t]);
      UntitledIsNoPair(x, y, details(t, e), |sp.bases|);
    }
  }

  /** In every run with m first and n second words, two title requests, even for the
      same original, get different titles while m * n titles and paths last; and
      they get the same one exactly when none was left for the earlier of them. */
  lemma TitlesEqualIff(
      sp: Spelling, first: seq<string>, second: seq<string>, details: (nat, bool) -> string, run: seq<Request>, i: nat, j: nat)
    requires BuiltFrom(sp, first, second, details)
    requires i < j < |run| && run[i].kind == Title && run[j].kind == Title
    ensures TitleRequests(run[..j]) < |first| * |second| ==> Answer(sp, run, i) != Answer(sp, run, j)
    ensures "Untitled" !in first ==>
              (Answer(sp, run, i) == Answer(sp, run, j) <==> TitleRequests(run[..i]) >= |first| * |second|)
  {
    var t, u := TitleRequests(run[..i]), TitleRequests(run[..j]);
    BasesDiffer(sp, first, second, details);
    TitleOfARequest(sp, run, i);
    TitleOfARequest(sp, run, j);
    TitleRequestsGrow(run, i, j);
    if t < |sp.bases| && (u < |sp.bases| || "Untitled" !in first) {
      TitleNumbersDiffer(sp, first, second, details, t, sp.episodic(run[i].original), u, sp.episodic(run[j].original));
    }
  }
}
