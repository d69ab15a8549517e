/** The command palette's matcher: apps/frontend/src/lib/fuzzy.ts. */
module FuzzyMatch {
  import opened Sequences
  import opened Text

  predicate IsBoundary(c: char) { c == ' ' || c == '-' || c == '_' || c == '/' || c == '.' }

  predicate OccursAt(q: string, s: string, i: nat) {
    i + |q| <= |s| && forall k :: 0 <= k < |q| ==> s[i + k] == q[k]
  }

  /** `indexOf`: the first place from `from` on where `q` occurs in `s`, or -1. */
  function IndexFrom(s: string, q: string, from: nat): (r: int)
    ensures r == -1 || (from <= r && OccursAt(q, s, r))
    ensures forall i :: from <= i && OccursAt(q, s, i) ==> from <= r <= i
    decreases |s| - from
  {
    if OccursAt(q, s, from) then from
    else if from >= |s| then -1
    else IndexFrom(s, q, from + 1)
  }

  function IndexOf(s: string, q: string): int { IndexFrom(s, q, 0) }

  function Max(a: int, b: int): int { if a < b then b else a }

  function Min(a: int, b: int): int { if a < b then a else b }

  // -------------------------------------------------- the scoring function

  function ContiguousScore(q: string, s: string, idx: nat): int
    requires idx <= |s|
  {
    120 - Min(idx, 40)
    + (if idx == 0 then 60 else if IsBoundary(s[idx - 1]) then 30 else 0)
    + Max(0, 20 - (|s| - |q|))
  }

  /** Where greedy matching from `from` on finds each character of `q`. */
  function Greedy(q: string, s: string, from: nat): (r: Option<seq<nat>>)
    ensures r.Some? ==> |r.value| == |q| && (forall k :: 0 <= k < |q| ==> from <= r.value[k] < |s|)
    decreases |s| - from
  {
    if q == "" then Some([])
    else if from >= |s| then None
    else if s[from] == q[0] then
      var rest := Greedy(q[1..], s, from + 1);
      if rest.None? then None else Some([from] + rest.value)
    else Greedy(q, s, from + 1)
  }

  /** What matching position `at` is worth after a match at `prev`. */
  function Bonus(s: string, prev: int, at: nat): int
    requires at < |s|
  {
    (if at == prev + 1 then 6 else 1) + (if at == 0 || IsBoundary(s[at - 1]) then 5 else 0)
  }

  function Points(s: string, prev: int, positions: seq<nat>): int
    requires forall k :: 0 <= k < |positions| ==> positions[k] < |s|
    decreases positions
  {
    if positions == [] then 0
    else Bonus(s, prev, positions[0]) + Points(s, positions[0], positions[1..])
  }

  const NO_PREVIOUS: int := -2

  function ScatteredScore(q: string, s: string): Option<int> {
    match Greedy(q, s, 0)
    case None => None
    case Some(p) => Some(Points(s, NO_PREVIOUS, p) + Max(0, 15 - (|s| - |q|) / 2))
  }

  function NormalizedScore(q: string, s: string): Option<int> {
    if q == "" then Some(0)
    else if IndexOf(s, q) >= 0 then Some(ContiguousScore(q, s, IndexOf(s, q)))
    else ScatteredScore(q, s)
  }

  function Score(query: string, text: string): Option<int> {
    NormalizedScore(Lower(Trim(query)), Lower(text))
  }

  /** The matching loop of `fuzzyScore`. */
  method MatchScattered(q: string, s: string) returns (r: Option<int>)
    ensures r == ScatteredScore(q, s)
  {
    var ti, qi, score, prev := 0, 0, 0, NO_PREVIOUS;
    ghost var all := Greedy(q, s, 0);
    while ti < |s| && qi < |q|
      invariant 0 <= ti <= |s| && 0 <= qi <= |q|
      invariant all.Some? <==> Greedy(q[qi..], s, ti).Some?
      invariant all.Some? ==>
          Points(s, NO_PREVIOUS, all.value) == score + Points(s, prev, Greedy(q[qi..], s, ti).value)
    {
      if s[ti] == q[qi] {
        assert q[qi..][1..] == q[qi + 1..];
        var consecutive := ti == prev + 1;
        score := score + if consecutive then 6 else 1;
        if ti == 0 || IsBoundary(s[ti - 1]) { score := score + 5; }
        prev := ti;
        qi := qi + 1;
      }
      ti := ti + 1;
    }
    if qi < |q| { return None; }
    score := score + Max(0, 15 - (|s| - |q|) / 2);
    return Some(score);
  }

  method ScoreNormalized(q: string, s: string) returns (r: Option<int>)
    ensures r == NormalizedScore(q, s)
  {
    if q == "" { return Some(0); }
    var idx := IndexOf(s, q);
    if idx != -1 {
      var score := 120 - Min(idx, 40);
      if idx == 0 {
        score := score + 60;
      } else if IsBoundary(s[idx - 1]) {
        score := score + 30;
      }
      score := score + Max(0, 20 - (|s| - |q|));
      return Some(score);
    }
    r := MatchScattered(q, s);
  }

  method FuzzyScore(query: string, text: string) returns (r: Option<int>)
    ensures r == Score(query, text)
  {
    r := ScoreNormalized(Lower(Trim(query)), Lower(text));
  }

  /** The score of each text; a missing text has none. */
  function Scores(query: string, texts: seq<Option<string>>): (r: seq<Option<int>>)
    ensures |r| == |texts|
  {
    seq(|texts|, i requires 0 <= i < |texts| => if texts[i].Some? then Score(query, texts[i].value) else None)
  }

  /** `best` is the highest of the scores there are, None if there are none. */
  ghost predicate IsBest(scores: seq<Option<int>>, best: Option<int>) {
    && (best.Some? ==> best in scores)
    && (forall v :: Some(v) in scores ==> best.Some? && v <= best.value)
  }

  method FuzzyBest(query: string, texts: seq<Option<string>>) returns (best: Option<int>)
    ensures IsBest(Scores(query, texts), best)
  {
    best := None;
    ghost var scores := Scores(query, texts);
    for i := 0 to |texts|
      invariant IsBest(scores[..i], best)
    {
      BestOfOneMore(scores, i, best);
      if texts[i].None? { continue; }
      var s := FuzzyScore(query, texts[i].value);
      if s.Some? && (best.None? || s.value > best.value) { best := s; }
    }
    assert scores[..|texts|] == scores;
  }

  function Better(s: Option<int>, best: Option<int>): Option<int> {
    if s.Some? && (best.None? || s.value > best.value) then s else best
  }

  lemma BestOfOneMore(scores: seq<Option<int>>, i: nat, best: Option<int>)
    requires i < |scores| && IsBest(scores[..i], best)
    ensures IsBest(scores[..i + 1], Better(scores[i], best))
  {
    assert scores[..i + 1] == scores[..i] + [scores[i]];
  }

  // --------------------------------------------------- what a match means

  ghost predicate Embeds(q: string, s: string, from: nat, positions: seq<nat>) {
    && |positions| == |q|
    && (forall k :: 0 <= k < |q| ==> from <= positions[k] < |s| && s[positions[k]] == q[k])
    && (forall j, k :: 0 <= j < k < |q| ==> positions[j] < positions[k])
  }

  /** The characters of `q` occur in `s`, in order. */
  ghost predicate Subsequence(q: string, s: string) {
    exists positions :: Embeds(q, s, 0, positions)
  }

  lemma {:induction false} GreedyEmbeds(q: string, s: string, from: nat)
    requires Greedy(q, s, from).Some?
    ensures Embeds(q, s, from, Greedy(q, s, from).value)
    decreases |s| - from
  {
    if q != "" {
      if s[from] == q[0] { GreedyEmbeds(q[1..], s, from + 1); } else { GreedyEmbeds(q, s, from + 1); }
    }
  }

  /** Taking the first chance never loses a match. */
  lemma {:induction false} GreedyFinds(q: string, s: string, from: nat, positions: seq<nat>)
    requires Embeds(q, s, from, positions)
    ensures Greedy(q, s, from).Some?
    decreases |s| - from
  {
    if q != "" {
      assert from <= positions[0] < |s|;
      if s[from] == q[0] {
        assert Embeds(q[1..], s, from + 1, positions[1..]);
        GreedyFinds(q[1..], s, from + 1, positions[1..]);
      } else {
        assert positions[0] > from;
        GreedyFinds(q, s, from + 1, positions);
      }
    }
  }

  lemma SubstringIsSubsequence(q: string, s: string, i: nat)
    requires OccursAt(q, s, i)
    ensures Subsequence(q, s)
  {
    var positions := seq(|q|, k requires 0 <= k < |q| => i + k);
    assert Embeds(q, s, 0, positions);
  }

  /** Greedy matching is complete: a text scores exactly when the trimmed,
      lower-cased query is a subsequence of the lower-cased text. */
  lemma ScoresExactlySubsequences(query: string, text: string)
    ensures Score(query, text).Some? <==> Subsequence(Lower(Trim(query)), Lower(text))
  {
    var q, s := Lower(Trim(query)), Lower(text);
    if q == "" {
      assert Embeds(q, s, 0, []);
    } else {
      if IndexOf(s, q) >= 0 { SubstringIsSubsequence(q, s, IndexOf(s, q)); }
      if Greedy(q, s, 0).Some? { GreedyEmbeds(q, s, 0); }
      if Subsequence(q, s) {
        var positions :| Embeds(q, s, 0, positions);
        GreedyFinds(q, s, 0, positions);
      }
    }
  }

  // ------------------------------------------------------ bounds on scores

  lemma {:induction false} PointsAtMost(s: string, prev: int, positions: seq<nat>)
    requires forall k :: 0 <= k < |positions| ==> positions[k] < |s|
    ensures 0 <= Points(s, prev, positions) <= 11 * |positions|
    decreases positions
  {
    if positions != [] { PointsAtMost(s, positions[0], positions[1..]); }
  }

  lemma {:induction false} EmbeddingFits(s: string, from: nat, q: string, positions: seq<nat>)
    requires Embeds(q, s, from, positions) && from <= |s|
    ensures from + |q| <= |s|
    decreases q
  {
    if q != "" {
      assert Embeds(q[1..], s, positions[0] + 1, positions[1..]);
      EmbeddingFits(s, positions[0] + 1, q[1..], positions[1..]);
    }
  }

  lemma SubsequenceFits(q: string, s: string, positions: seq<nat>)
    requires Greedy(q, s, 0) == Some(positions)
    ensures |q| <= |s|
  {
    GreedyEmbeds(q, s, 0);
    EmbeddingFits(s, 0, q, positions);
  }

  predicate Contiguous(query: string, text: string) {
    IndexOf(Lower(text), Lower(Trim(query))) >= 0
  }

  lemma ContiguousScoresAtLeast(query: string, text: string)
    requires Trim(query) != ""
    ensures Contiguous(query, text) ==> Score(query, text).Some? && 80 <= Score(query, text).value <= 200
  {
  }

  /** The k-th position comes right after the one before it. */
  predicate Follows(positions: seq<nat>, k: nat)
    requires 1 <= k < |positions|
  {
    positions[k] == positions[k - 1] + 1
  }

  /** A position that does not follow the one before it earns at most 6. */
  lemma {:induction false} PointsWithGap(s: string, prev: int, positions: seq<nat>, k: nat)
    requires forall i :: 0 <= i < |positions| ==> positions[i] < |s|
    requires k < |positions| && positions[k] != (if k == 0 then prev else positions[k - 1]) + 1
    ensures Points(s, prev, positions) <= 11 * |positions| - 5
    decreases k
  {
    if k == 0 { PointsAtMost(s, positions[0], positions[1..]); } else { PointsWithGap(s, positions[0], positions[1..], k - 1); }
  }

  lemma {:induction false} NoGapSoFar(positions: seq<nat>, k: nat)
    requires k < |positions| && forall i | 1 <= i < |positions| :: Follows(positions, i)
    ensures positions[k] == positions[0] + k
  {
    if k > 0 {
      NoGapSoFar(positions, k - 1);
      assert Follows(positions, k);
    }
  }

  /** An embedding without a gap is an occurrence. */
  lemma NoGapOccurs(q: string, s: string, positions: seq<nat>)
    requires q != "" && Embeds(q, s, 0, positions) && forall i | 1 <= i < |positions| :: Follows(positions, i)
    ensures OccursAt(q, s, positions[0])
  {
    NoGapSoFar(positions, |q| - 1);
    forall k | 0 <= k < |q| ensures s[positions[0] + k] == q[k] { NoGapSoFar(positions, k); }
  }

  lemma ScatteredHasGap(q: string, s: string, positions: seq<nat>) returns (k: nat)
    requires q != "" && IndexOf(s, q) < 0 && Greedy(q, s, 0) == Some(positions)
    ensures 1 <= k < |positions| && !Follows(positions, k)
  {
    GreedyEmbeds(q, s, 0);
    if forall i | 1 <= i < |positions| :: Follows(positions, i) {
      NoGapOccurs(q, s, positions);
      assert false;
    }
    k :| 1 <= k < |positions| && !Follows(positions, k);
  }

  /** The first position earns at most 6 as well. */
  lemma ScatteredPoints(s: string, positions: seq<nat>, k: nat)
    requires forall i :: 0 <= i < |positions| ==> positions[i] < |s|
    requires 1 <= k < |positions| && !Follows(positions, k)
    ensures Points(s, NO_PREVIOUS, positions) <= 11 * |positions| - 10
  {
    PointsWithGap(s, positions[0], positions[1..], k - 1);
  }

  /** A scattered match has a gap, and no position before the first: it scores at
      most 11 for each character and 5 more. */
  lemma ScatteredScoresAtMost(query: string, text: string)
    ensures !Contiguous(query, text) && Score(query, text).Some? ==> Score(query, text).value <= 11 * |Trim(query)| + 5
  {
    var q, s := Lower(Trim(query)), Lower(text);
    if !Contiguous(query, text) && Score(query, text).Some? {
      assert q != "";
      var p := Greedy(q, s, 0).value;
      SubsequenceFits(q, s, p);
      var k := ScatteredHasGap(q, s, p);
      ScatteredPoints(s, p, k);
    }
  }

  // ------------------------------------------------- what a score is made of

  /** The place is the first of the text, or behind a blank, dash, underscore, slash or dot. */
  predicate StartsWord(s: string, i: nat)
    requires i <= |s|
  {
    i == 0 || s[i - 1] == ' ' || s[i - 1] == '-' || s[i - 1] == '_' || s[i - 1] == '/' || s[i - 1] == '.'
  }

  lemma ContiguousPoints(q: string, s: string)
    requires q != "" && IndexOf(s, q) >= 0
    ensures var i := IndexOf(s, q);
            && OccursAt(q, s, i) && (forall k: nat :: OccursAt(q, s, k) ==> i <= k)
            && NormalizedScore(q, s) == Some(
                 if i == 0 then 200 - Min(|s| - |q|, 20)
                 else (if StartsWord(s, i) then 170 else 140) - Min(i, 40) - Min(|s| - |q|, 20))
  {
    hide ScatteredScore;
  }

  /** A contiguous match counts from 200 at the start of the text, from 170 at the start
      of a later word, from 140 inside a word; its place costs up to 40 of the latter two,
      and what the text has beyond the query up to 20. */
  lemma ContiguousScoreIs(query: string, text: string)
    requires Trim(query) != "" && Contiguous(query, text)
    ensures var q, s := Lower(Trim(query)), Lower(text);
            var i := IndexOf(s, q);
            && OccursAt(q, s, i) && (forall k: nat :: OccursAt(q, s, k) ==> i <= k)
            && Score(query, text) == Some(
                 if i == 0 then 200 - Min(|s| - |q|, 20)
                 else (if StartsWord(s, i) then 170 else 140) - Min(i, 40) - Min(|s| - |q|, 20))
  {
    hide Trim, Lower, NormalizedScore, IndexOf;
    ContiguousPoints(Lower(Trim(query)), Lower(text));
  }

  /** So a match at the start of one text beats every other match in another. */
  lemma PrefixesWin(query: string, prefixed: string, other: string)
    requires Trim(query) != "" && IndexOf(Lower(prefixed), Lower(Trim(query))) == 0
    requires Contiguous(query, other) && IndexOf(Lower(other), Lower(Trim(query))) > 0
    ensures Score(query, prefixed).Some? && Score(query, other).Some?
    ensures Score(query, prefixed).value >= 180 > 169 >= Score(query, other).value
  {
    ContiguousScoreIs(query, prefixed);
    ContiguousScoreIs(query, other);
  }

  /** How many positions come right after the one before. */
  function Adjacent(positions: seq<nat>): nat {
    if |positions| < 2 then 0 else (if positions[1] == positions[0] + 1 then 1 else 0) + Adjacent(positions[1..])
  }

  /** How many positions start a word. */
  function WordStarts(s: string, positions: seq<nat>): nat
    requires forall k :: 0 <= k < |positions| ==> positions[k] < |s|
  {
    if positions == [] then 0 else (if StartsWord(s, positions[0]) then 1 else 0) + WordStarts(s, positions[1..])
  }

  lemma {:induction false} PointsCount(s: string, prev: int, positions: seq<nat>)
    requires forall k :: 0 <= k < |positions| ==> positions[k] < |s|
    ensures Points(s, prev, positions) ==
            |positions| + 5 * WordStarts(s, positions) + 5 * Adjacent(positions) +
            (if positions != [] && positions[0] == prev + 1 then 5 else 0)
    decreases positions
  {
    if positions != [] { PointsCount(s, positions[0], positions[1..]); }
  }

  /** No embedding has any of its positions earlier. */
  ghost predicate Earliest(q: string, s: string, positions: seq<nat>) {
    && Embeds(q, s, 0, positions)
    && forall other :: Embeds(q, s, 0, other) ==> forall k :: 0 <= k < |q| ==> positions[k] <= other[k]
  }

  lemma {:induction false} GreedyIsEarliest(q: string, s: string, from: nat, other: seq<nat>)
    requires Greedy(q, s, from).Some? && Embeds(q, s, from, other)
    ensures forall k :: 0 <= k < |q| ==> Greedy(q, s, from).value[k] <= other[k]
    decreases |s| - from
  {
    if q != "" {
      if s[from] == q[0] {
        var p := Greedy(q, s, from).value;
        assert Embeds(q[1..], s, from + 1, other[1..]);
        GreedyIsEarliest(q[1..], s, from + 1, other[1..]);
        assert forall k :: 1 <= k < |q| ==> p[k] == Greedy(q[1..], s, from + 1).value[k - 1] && other[k] == other[1..][k - 1];
      } else {
        assert other[0] > from;
        GreedyIsEarliest(q, s, from + 1, other);
      }
    }
  }

  lemma ScatteredPointsAre(q: string, s: string) returns (positions: seq<nat>)
    requires q != "" && IndexOf(s, q) < 0 && NormalizedScore(q, s).Some?
    ensures Earliest(q, s, positions)
    ensures NormalizedScore(q, s) ==
            Some(|q| + 5 * WordStarts(s, positions) + 5 * Adjacent(positions) + Max(0, 15 - (|s| - |q|) / 2))
  {
    hide IndexOf;
    positions := Greedy(q, s, 0).value;
    GreedyEmbeds(q, s, 0);
    forall other | Embeds(q, s, 0, other) ensures forall k :: 0 <= k < |q| ==> positions[k] <= other[k] {
      GreedyIsEarliest(q, s, 0, other);
    }
    PointsCount(s, NO_PREVIOUS, positions);
  }

  /** A scattered match scores one point for each character, five more for each that
      starts a word and for each that follows the one before it, at the earliest places
      there are, and up to 15 for a short text: one less for every two characters that
      the text has beyond the query. */
  lemma ScatteredScoreIs(query: string, text: string) returns (positions: seq<nat>)
    requires Trim(query) != "" && !Contiguous(query, text) && Score(query, text).Some?
    ensures var q, s := Lower(Trim(query)), Lower(text);
            && Earliest(q, s, positions)
            && Score(query, text) ==
                 Some(|q| + 5 * WordStarts(s, positions) + 5 * Adjacent(positions) + Max(0, 15 - (|s| - |q|) / 2))
  {
    hide Trim, Lower, NormalizedScore, IndexOf, Earliest;
    positions := ScatteredPointsAre(Lower(Trim(query)), Lower(text));
  }

  /** A query of blanks matches every text, for nothing. */
  lemma BlankQueriesScoreNothing(query: string, text: string)
    requires forall i :: 0 <= i < |query| ==> IsSpace(query[i])
    ensures Score(query, text) == Some(0)
  {
    BlankTrims(query);
  }

  lemma {:induction false} BlankTrims(s: string)
    requires forall i :: 0 <= i < |s| ==> IsSpace(s[i])
    ensures Trim(s) == ""
  {
    if s != "" { BlankTrims(s[1..]); }
  }

  /** If the query is contiguous in one text and scattered in the other, the first
      scores higher. */
  predicate Outscores(query: string, whole: string, scattered: string) {
    Contiguous(query, whole) && !Contiguous(query, scattered) && Score(query, scattered).Some? ==>
      Score(query, whole).Some? && Score(query, whole).value > Score(query, scattered).value
  }

  /** Every contiguous match of a query of this length outscores every scattered one. */
  ghost predicate SubstringsWin(n: nat) {
    forall query, whole, scattered :: |Trim(query)| == n ==> Outscores(query, whole, scattered)
  }

  lemma DashesAreTrimmed(n: nat)
    ensures Lower(Trim(Repeat('-', n))) == Repeat('-', n)
  {
  }

  /** The text in which n dashes are one slash short of being contiguous. */
  function NearMiss(n: nat): string
    requires n > 0
  {
    Repeat('-', n - 1) + "/-"
  }

  lemma {:induction false} NearMissGreedy(n: nat, k: nat)
    requires 2 <= n && k <= n - 1
    ensures Greedy(Repeat('-', n - k), NearMiss(n), k) == Some(NearMissPositions(n, k))
    decreases n - k
  {
    var q, s := Repeat('-', n - k), NearMiss(n);
    if k < n - 1 {
      assert q[1..] == Repeat('-', n - k - 1);
      NearMissGreedy(n, k + 1);
      assert s[k] == '-';
    } else {
      assert s[n - 1] == '/' && s[n] == '-';
      assert q == "-" && q[1..] == "";
      assert Greedy(q[1..], s, n + 1) == Some([]);
      var none: seq<nat> := [];
      assert [n] + none == [n] == NearMissPositions(n, k);
      assert Greedy(q, s, n) == Some([n] + none);
      assert Greedy(q, s, n - 1) == Greedy(q, s, n);
    }
  }

  function NearMissPositions(n: nat, k: nat): (r: seq<nat>)
    requires 2 <= n && k <= n - 1
    ensures r != [] && forall i :: 0 <= i < |r| ==> r[i] <= n
    decreases n - k
  {
    if k == n - 1 then [n] else [k] + NearMissPositions(n, k + 1)
  }

  lemma {:induction false} NearMissPoints(n: nat, k: nat)
    requires 2 <= n && 1 <= k <= n - 1
    ensures Points(NearMiss(n), k - 1, NearMissPositions(n, k)) == 11 * (n - 1 - k) + 6
    decreases n - k
  {
    var s, r := NearMiss(n), NearMissPositions(n, k);
    if k < n - 1 {
      NearMissPoints(n, k + 1);
      assert s[k - 1] == '-';
      assert r[1..] == NearMissPositions(n, k + 1);
    } else {
      assert s[n - 1] == '/';
      assert r[1..] == [];
    }
  }

  lemma NearMissScore(n: nat)
    requires 2 <= n
    ensures IndexOf(NearMiss(n), Repeat('-', n)) == -1
    ensures NormalizedScore(Repeat('-', n), NearMiss(n)) == Some(11 * n + 5)
  {
    forall i: nat { NearMissScattered(n, i); }
    NearMissGreedy(n, 0);
    NearMissPoints(n, 1);
    assert NearMissPositions(n, 0)[1..] == NearMissPositions(n, 1);
  }

  lemma NearMissScattered(n: nat, i: nat)
    requires 2 <= n
    ensures !OccursAt(Repeat('-', n), NearMiss(n), i)
  {
    if i <= 1 {
      assert NearMiss(n)[n - 1] == '/';
      assert NearMiss(n)[i + (n - 1 - i)] != Repeat('-', n)[n - 1 - i];
    }
  }

  function Buried(n: nat): string { Repeat('x', 40) + Repeat('-', n) + Repeat('x', 20) }

  lemma BuriedScore(n: nat)
    requires n > 0
    ensures IndexOf(Buried(n), Repeat('-', n)) == 40
    ensures NormalizedScore(Repeat('-', n), Buried(n)) == Some(80)
  {
    var q, s := Repeat('-', n), Buried(n);
    assert OccursAt(q, s, 40) && s[39] == 'x';
    var i := IndexOf(s, q);
    assert s[i + 0] == q[0];
  }

  /** The bound on scattered matches is attained for every length that has any. */
  lemma ScatteredBoundIsTight(n: nat) returns (query: string, text: string)
    requires n >= 2
    ensures |Trim(query)| == n && !Contiguous(query, text) && Score(query, text) == Some(11 * n + 5)
  {
    query, text := Repeat('-', n), NearMiss(n);
    DashesAreTrimmed(n);
    TextsAreLower(n);
    NearMissScore(n);
    assert |Lower(Trim(query))| == n;
  }

  /** "Substrings beat scattered subsequences" holds for queries of at most six
      characters and for no longer ones. */
  lemma SubstringsWinUpToSix(n: nat)
    requires n > 0
    ensures SubstringsWin(n) <==> n <= 6
  {
    if n <= 6 { ShortQueriesWin(n); } else { LongQueriesLose(n); }
  }

  lemma ShortQueriesWin(n: nat)
    requires 0 < n <= 6
    ensures SubstringsWin(n)
  {
    forall query, whole, scattered | |Trim(query)| == n ensures Outscores(query, whole, scattered) {
      ContiguousScoresAtLeast(query, whole);
      ScatteredScoresAtMost(query, scattered);
    }
  }

  lemma TextsAreLower(n: nat)
    requires n > 0
    ensures Lower(Buried(n)) == Buried(n) && Lower(NearMiss(n)) == NearMiss(n)
  {
  }

  /** Two texts that refute the claim for queries of length n. */
  lemma Refutes(n: nat, query: string, whole: string, scattered: string, q: string, w: string, s: string, points: int)
    requires Lower(Trim(query)) == q && Lower(whole) == w && Lower(scattered) == s && |q| == n
    requires IndexOf(w, q) >= 0 && IndexOf(s, q) == -1
    requires NormalizedScore(q, w) == Some(80) && NormalizedScore(q, s) == Some(points) && points >= 80
    ensures !SubstringsWin(n)
  {
    assert |Trim(query)| == n && !Outscores(query, whole, scattered);
  }

  lemma LongQueriesLose(n: nat)
    requires n > 6
    ensures !SubstringsWin(n)
  {
    DashesAreTrimmed(n);
    TextsAreLower(n);
    BuriedScore(n);
    NearMissScore(n);
    Refutes(n, Repeat('-', n), Buried(n), NearMiss(n), Repeat('-', n), Buried(n), NearMiss(n), 11 * n + 5);
  }
}
