/** Canonical title and year: packages/shared/src/media-identity.ts. Where a title
    ends and its year begins. */
module CanonicalTitles {
  import opened Sequences
  import opened Text

  // Titles are ASCII, where Unicode decomposition changes nothing.

  // ------------------------------------------------------- base normalisation

  predicate IsWordChar(c: char) { 'a' <= c <= 'z' || IsDigit(c) }

  function ExpandAmp(s: string): string {
    if s == "" then ""
    else (if s[0] == '&' then " and " else [s[0]]) + ExpandAmp(s[1..])
  }

  /** `replace(/[^a-z0-9]+/g, ' ')`. */
  function Squash(s: string): string {
    if s == "" then ""
    else if IsWordChar(s[0]) then [s[0]] + Squash(s[1..])
    else if |s| > 1 && !IsWordChar(s[1]) then Squash(s[1..])
    else " " + Squash(s[1..])
  }

  /** `replace(/\s+/g, ' ')`. */
  function CollapseSpaces(s: string): string {
    if s == "" then ""
    else if !IsSpace(s[0]) then [s[0]] + CollapseSpaces(s[1..])
    else if |s| > 1 && IsSpace(s[1]) then CollapseSpaces(s[1..])
    else " " + CollapseSpaces(s[1..])
  }

  function NormalizeTitleBase(input: string): string {
    CollapseSpaces(Trim(Squash(ExpandAmp(Lower(input)))))
  }

  // ------------------------------------------------ what it means: the words

  function WordLength(s: string): (n: nat)
    ensures n <= |s| && (forall i :: 0 <= i < n ==> IsWordChar(s[i])) && (n < |s| ==> !IsWordChar(s[n]))
  {
    if s == "" || !IsWordChar(s[0]) then 0 else 1 + WordLength(s[1..])
  }

  /** The maximal runs of letters and digits. */
  function Words(s: string): seq<string> {
    if s == "" then []
    else if !IsWordChar(s[0]) then Words(s[1..])
    else
      var n := WordLength(s);
      [s[..n]] + Words(s[n..])
  }

  predicate IsWord(w: string) { w != "" && forall i :: 0 <= i < |w| ==> IsWordChar(w[i]) }

  predicate AllWords(ws: seq<string>) { forall i :: 0 <= i < |ws| ==> IsWord(ws[i]) }

  function Join(ws: seq<string>): string {
    if ws == [] then "" else if |ws| == 1 then ws[0] else ws[0] + (" " + Join(ws[1..]))
  }

  lemma {:induction false} WordsAreWords(s: string)
    ensures AllWords(Words(s))
    decreases |s|
  {
    if s != "" { WordsAreWords(if IsWordChar(s[0]) then s[WordLength(s)..] else s[1..]); }
  }

  lemma {:induction false} WordLengthAt(w: string, r: string)
    requires (forall i :: 0 <= i < |w| ==> IsWordChar(w[i])) && (r == "" || !IsWordChar(r[0]))
    ensures WordLength(w + r) == |w|
  {
    if w == "" {
      assert w + r == r;
    } else {
      assert (w + r)[1..] == w[1..] + r;
      WordLengthAt(w[1..], r);
    }
  }

  lemma WordThen(w: string, r: string)
    requires IsWord(w) && (r == "" || !IsWordChar(r[0]))
    ensures Words(w + r) == [w] + Words(r)
  {
    WordLengthAt(w, r);
    assert (w + r)[..|w|] == w && (w + r)[|w|..] == r;
  }

  lemma {:induction false} WordsConcat(x: string, c: char, y: string)
    requires !IsWordChar(c)
    ensures Words(x + ([c] + y)) == Words(x) + Words(y)
    decreases |x|
  {
    var z := [c] + y;
    if x == "" {
      assert x + z == z && z[1..] == y;
    } else if !IsWordChar(x[0]) {
      assert (x + z)[1..] == x[1..] + z;
      WordsConcat(x[1..], c, y);
    } else {
      var n := WordLength(x);
      WordsConcat(x[n..], c, y);
      WordBefore(x[..n], x[n..], z);
      assert x == x[..n] + x[n..];
    }
  }

  lemma Regrouped(w: string, r: string, z: string)
    ensures (w + r) + z == w + (r + z)
  {
  }

  lemma WordBefore(w: string, r: string, z: string)
    requires IsWord(w) && (r == "" || !IsWordChar(r[0])) && z != "" && !IsWordChar(z[0])
    ensures Words((w + r) + z) == [w] + Words(r + z) && Words(w + r) == [w] + Words(r)
  {
    Regrouped(w, r, z);
    WordThen(w, r + z);
    WordThen(w, r);
  }

  lemma {:induction false} WordsOfJoin(ws: seq<string>)
    requires AllWords(ws)
    ensures Words(Join(ws)) == ws
  {
    if ws != [] {
      WordThen(ws[0], "");
      assert ws[0] + "" == ws[0];
      if |ws| > 1 {
        WordsOfJoin(ws[1..]);
        WordsConcat(ws[0], ' ', Join(ws[1..]));
        assert " " + Join(ws[1..]) == [' '] + Join(ws[1..]);
      }
    }
  }

  lemma JoinEnds(ws: seq<string>)
    requires AllWords(ws) && ws != []
    ensures Join(ws) != "" && IsWordChar(Join(ws)[0]) && IsWordChar(Join(ws)[|Join(ws)| - 1])
    decreases ws
  {
    assert IsWord(ws[0]);
    if |ws| > 1 { JoinEnds(ws[1..]); }
  }

  // -------------------------- the replacement chain computes the joined words

  lemma {:induction false} SquashWord(w: string, r: string)
    requires forall i :: 0 <= i < |w| ==> IsWordChar(w[i])
    ensures Squash(w + r) == w + Squash(r)
  {
    if w == "" {
      assert w + r == r;
    } else {
      assert (w + r)[1..] == w[1..] + r;
      SquashWord(w[1..], r);
      assert [w[0]] + (w[1..] + Squash(r)) == w + Squash(r);
    }
  }

  function Lead(s: string): string { if s != "" && !IsWordChar(s[0]) then " " else "" }

  function Trail(s: string): string { if s != "" && !IsWordChar(s[|s| - 1]) then " " else "" }

  lemma {:induction false} SquashOfBlank(s: string)
    requires s != "" && Words(s) == []
    ensures Squash(s) == " "
  {
    if |s| > 1 { SquashOfBlank(s[1..]); }
  }

  function Framed(s: string): string { Lead(s) + (Join(Words(s)) + Trail(s)) }

  lemma SkipBlank(s: string)
    requires |s| > 1 && !IsWordChar(s[0])
    ensures Words(s) == Words(s[1..]) && Lead(s) == " " && Trail(s) == Trail(s[1..])
    ensures Squash(s) == if Lead(s[1..]) == "" then " " + Squash(s[1..]) else Squash(s[1..])
  {
  }

  lemma FrameBlankFirst(s: string)
    requires |s| > 1 && !IsWordChar(s[0]) && Squash(s[1..]) == Framed(s[1..])
    ensures Squash(s) == Framed(s)
  {
    hide Squash, Words, Join, Trail;
    SkipBlank(s);
    var body := Join(Words(s)) + Trail(s);
    assert "" + body == body;
  }

  lemma FrameWordFirst(w: string, r: string)
    requires IsWord(w) && Words(r) != [] && !IsWordChar(r[0]) && Squash(r) == Framed(r)
    ensures Squash(w + r) == Framed(w + r)
  {
    SquashWord(w, r);
    WordThen(w, r);
    JoinCons(w, Words(r), Trail(r));
    assert Trail(w + r) == Trail(r);
    assert "" + (Join([w] + Words(r)) + Trail(r)) == Join([w] + Words(r)) + Trail(r);
  }

  lemma FrameLastWord(w: string, r: string)
    requires IsWord(w) && Words(r) == [] && (r == "" || !IsWordChar(r[0]))
    ensures Squash(w + r) == Framed(w + r)
  {
    SquashWord(w, r);
    WordThen(w, r);
    if r == "" {
      assert w + r == w;
    } else {
      SquashOfBlank(r);
      LastIsBlank(r);
      assert Trail(w + r) == " ";
    }
    assert Join([w]) == w && "" + (w + Trail(w + r)) == w + Trail(w + r);
  }

  lemma {:induction false} LastIsBlank(r: string)
    requires r != "" && Words(r) == []
    ensures !IsWordChar(r[|r| - 1])
  {
    if |r| > 1 { LastIsBlank(r[1..]); }
  }

  /** Squashing leaves the words, one space apart, and at most one space outside. */
  lemma {:induction false} SquashFrames(s: string)
    requires Words(s) != []
    ensures Squash(s) == Framed(s)
    decreases |s|
  {
    if !IsWordChar(s[0]) {
      SquashFrames(s[1..]);
      FrameBlankFirst(s);
    } else {
      var n := WordLength(s);
      assert s == s[..n] + s[n..];
      if Words(s[n..]) == [] {
        FrameLastWord(s[..n], s[n..]);
      } else {
        SquashFrames(s[n..]);
        FrameWordFirst(s[..n], s[n..]);
      }
    }
  }

  lemma JoinCons(w: string, ws: seq<string>, trail: string)
    requires ws != []
    ensures w + (" " + (Join(ws) + trail)) == Join([w] + ws) + trail
  {
    assert ([w] + ws)[1..] == ws;
    assert w + (" " + (Join(ws) + trail)) == (w + (" " + Join(ws))) + trail;
  }

  predicate Spaces(s: string) { forall i :: 0 <= i < |s| ==> IsSpace(s[i]) }

  lemma {:induction false} TrimLeftAt(v: string, t: string)
    requires Spaces(v) && t != "" && !IsSpace(t[0])
    ensures TrimLeft(v + t) == t
  {
    if v == "" {
      assert v + t == t;
    } else {
      assert (v + t)[1..] == v[1..] + t && (v + t)[0] == v[0];
      TrimLeftAt(v[1..], t);
    }
  }

  lemma {:induction false} TrimRightAt(t: string, w: string)
    requires Spaces(w) && t != "" && !IsSpace(t[|t| - 1])
    ensures TrimRight(t + w) == t
  {
    var n := |w| - 1;
    if w == "" {
      assert t + w == t;
    } else {
      assert (t + w)[..|t + w| - 1] == t + w[..n] && (t + w)[|t + w| - 1] == w[n];
      TrimRightAt(t, w[..n]);
    }
  }

  /** Trimming takes off the spaces around a text. */
  lemma TrimFrame(lead: string, body: string, trail: string)
    requires Spaces(lead) && Spaces(trail) && body != "" && !IsSpace(body[0]) && !IsSpace(body[|body| - 1])
    ensures Trim(lead + (body + trail)) == body
  {
    TrimLeftAt(lead, body + trail);
    TrimRightAt(body, trail);
  }

  lemma {:induction false} CollapseWord(w: string, r: string)
    requires forall i :: 0 <= i < |w| ==> IsWordChar(w[i])
    ensures CollapseSpaces(w + r) == w + CollapseSpaces(r)
  {
    if w == "" {
      assert w + r == r;
    } else {
      assert (w + r)[1..] == w[1..] + r;
      CollapseWord(w[1..], r);
      assert [w[0]] + (w[1..] + CollapseSpaces(r)) == w + CollapseSpaces(r);
    }
  }

  lemma {:induction false} CollapseJoined(ws: seq<string>)
    requires AllWords(ws)
    ensures CollapseSpaces(Join(ws)) == Join(ws)
  {
    if ws != [] {
      assert IsWord(ws[0]);
      CollapseWord(ws[0], "");
      assert ws[0] + "" == ws[0];
      if |ws| > 1 {
        CollapseWord(ws[0], " " + Join(ws[1..]));
        CollapseJoined(ws[1..]);
        JoinEnds(ws[1..]);
        assert (" " + Join(ws[1..]))[1..] == Join(ws[1..]);
      }
    }
  }

  function TitleWords(s: string): seq<string> { Words(ExpandAmp(Lower(s))) }

  /** The normal form of a title is its words, one space apart. */
  lemma NormalizedIsJoinedWords(s: string)
    ensures NormalizeTitleBase(s) == Join(TitleWords(s))
  {
    var x := ExpandAmp(Lower(s));
    WordsAreWords(x);
    if Words(x) == [] {
      if x != "" { SquashOfBlank(x); }
      assert Trim(Squash(x)) == "";
    } else {
      SquashFrames(x);
      JoinEnds(Words(x));
      TrimFrame(Lead(x), Join(Words(x)), Trail(x));
      CollapseJoined(Words(x));
    }
  }

  lemma {:induction false} ExpandNothing(s: string)
    requires '&' !in s
    ensures ExpandAmp(s) == s
  {
    if s != "" { ExpandNothing(s[1..]); }
  }

  lemma {:induction false} JoinChars(ws: seq<string>, i: nat)
    requires AllWords(ws) && i < |Join(ws)|
    ensures IsWordChar(Join(ws)[i]) || Join(ws)[i] == ' '
  {
    assert IsWord(ws[0]);
    if |ws| > 1 && i > |ws[0]| { JoinChars(ws[1..], i - |ws[0]| - 1); }
  }

  /** Normalising again changes nothing. */
  lemma NormalizeIsIdempotent(s: string)
    ensures NormalizeTitleBase(NormalizeTitleBase(s)) == NormalizeTitleBase(s)
  {
    WordsAreWords(ExpandAmp(Lower(s)));
    NormalizedIsJoinedWords(s);
    NormalizedIsJoinedWords(Join(TitleWords(s)));
    JoinedHasItsWords(TitleWords(s));
  }

  lemma JoinedHasItsWords(ws: seq<string>)
    requires AllWords(ws)
    ensures TitleWords(Join(ws)) == ws
  {
    var n := Join(ws);
    forall i | 0 <= i < |n| ensures LowerChar(n[i]) == n[i] && n[i] != '&' { JoinChars(ws, i); }
    assert Lower(n) == n;
    ExpandNothing(n);
    WordsOfJoin(ws);
  }

  /** Two titles normalise alike exactly when they have the same words. */
  lemma SameNormalIffSameWords(s: string, t: string)
    ensures NormalizeTitleBase(s) == NormalizeTitleBase(t) <==> TitleWords(s) == TitleWords(t)
  {
    NormalizedIsJoinedWords(s);
    NormalizedIsJoinedWords(t);
    WordsAreWords(ExpandAmp(Lower(s)));
    WordsAreWords(ExpandAmp(Lower(t)));
    WordsOfJoin(TitleWords(s));
    WordsOfJoin(TitleWords(t));
  }

  // ------------------------------------------------ words of pieces of titles

  /** A character that is neither part of a word nor expanded into one. */
  predicate IsFiller(c: char) { !IsWordChar(LowerChar(c)) && c != '&' }

  predicate AllFiller(s: string) { forall i :: 0 <= i < |s| ==> IsFiller(s[i]) }

  lemma {:induction false} ExpandConcat(x: string, y: string)
    ensures ExpandAmp(x + y) == ExpandAmp(x) + ExpandAmp(y)
  {
    if x == "" {
      assert x + y == y;
    } else {
      assert (x + y)[1..] == x[1..] + y;
      ExpandConcat(x[1..], y);
    }
  }

  lemma TitleWordsConcat(u: string, c: char, v: string)
    requires IsFiller(c)
    ensures TitleWords(u + ([c] + v)) == TitleWords(u) + TitleWords(v)
  {
    var l := LowerChar(c);
    assert Lower(u + ([c] + v)) == Lower(u) + ([l] + Lower(v));
    ExpandConcat(Lower(u), [l] + Lower(v));
    assert ([l] + Lower(v))[1..] == Lower(v);
    assert ExpandAmp([l] + Lower(v)) == [l] + ExpandAmp(Lower(v));
    WordsConcat(ExpandAmp(Lower(u)), l, ExpandAmp(Lower(v)));
  }

  lemma {:induction false} FillerHasNoWords(v: string)
    requires AllFiller(v)
    ensures TitleWords(v) == []
  {
    if v != "" {
      assert v == "" + ([v[0]] + v[1..]);
      TitleWordsConcat("", v[0], v[1..]);
      FillerHasNoWords(v[1..]);
      assert TitleWords("") == [];
    }
  }

  /** Filler behind a title adds no words. */
  lemma FillerAfter(t: string, v: string)
    requires AllFiller(v)
    ensures TitleWords(t + v) == TitleWords(t)
  {
    if v == "" {
      assert t + v == t;
    } else {
      assert t + v == t + ([v[0]] + v[1..]);
      TitleWordsConcat(t, v[0], v[1..]);
      FillerHasNoWords(v[1..]);
    }
  }

  lemma FillerFirst(s: string)
    requires s != "" && IsFiller(s[0])
    ensures TitleWords(s) == TitleWords(s[1..])
  {
    assert s == "" + ([s[0]] + s[1..]);
    TitleWordsConcat("", s[0], s[1..]);
    assert TitleWords("") == [];
  }

  /** Nor does filler in front of it. */
  lemma {:induction false} FillerBefore(v: string, t: string)
    requires AllFiller(v)
    ensures TitleWords(v + t) == TitleWords(t)
  {
    if v == "" {
      assert v + t == t;
    } else {
      assert (v + t)[1..] == v[1..] + t && (v + t)[0] == v[0];
      FillerFirst(v + t);
      FillerBefore(v[1..], t);
    }
  }

  lemma FillerAround(v: string, t: string, w: string)
    requires AllFiller(v) && AllFiller(w)
    ensures TitleWords(v + (t + w)) == TitleWords(t)
  {
    FillerBefore(v, t + w);
    FillerAfter(t, w);
  }

  lemma TrimLeftCuts(s: string) returns (v: string)
    ensures s == v + TrimLeft(s) && Spaces(v) && AllFiller(v)
  {
    v := s[..|s| - |TrimLeft(s)|];
    forall i | 0 <= i < |v| ensures IsSpace(v[i]) && IsFiller(v[i]) { assert IsSpace(s[i]); }
  }

  lemma TrimRightCuts(s: string) returns (w: string)
    ensures s == TrimRight(s) + w && AllFiller(w)
  {
    var n := |TrimRight(s)|;
    w := s[n..];
    forall i | 0 <= i < |w| ensures IsFiller(w[i]) { assert IsSpace(s[n + i]); }
  }

  lemma TrimKeepsWords(s: string)
    ensures TitleWords(Trim(s)) == TitleWords(s)
  {
    var v := TrimLeftCuts(s);
    var w := TrimRightCuts(TrimLeft(s));
    FillerAround(v, Trim(s), w);
  }

  lemma {:induction false} HasWordChar(s: string, i: nat)
    requires i < |s| && IsWordChar(s[i])
    ensures Words(s) != []
  {
    if i > 0 && !IsWordChar(s[0]) { HasWordChar(s[1..], i - 1); }
  }

  lemma {:induction false} ExpandKeepsWordChar(x: string, i: nat) returns (k: nat)
    requires i < |x| && IsWordChar(x[i])
    ensures k < |ExpandAmp(x)| && IsWordChar(ExpandAmp(x)[k])
  {
    if i == 0 {
      k := 0;
    } else {
      k := ExpandKeepsWordChar(x[1..], i - 1);
      k := k + if x[0] == '&' then 5 else 1;
    }
  }

  lemma DigitsAreWords(t: string, i: nat)
    requires i < |t| && IsDigit(t[i])
    ensures TitleWords(t) != []
  {
    var k := ExpandKeepsWordChar(Lower(t), i);
    HasWordChar(ExpandAmp(Lower(t)), k);
  }

  // ------------------------------------------- what normalising keeps and drops

  /** The lower-case letters and the digits of a text, in order. */
  function LettersAndDigits(s: string): string {
    if s == "" then ""
    else (if 'a' <= s[0] <= 'z' || '0' <= s[0] <= '9' then [s[0]] else "") + LettersAndDigits(s[1..])
  }

  lemma {:induction false} LettersConcat(u: string, v: string)
    ensures LettersAndDigits(u + v) == LettersAndDigits(u) + LettersAndDigits(v)
  {
    if u == "" {
      assert u + v == v;
    } else {
      assert (u + v)[1..] == u[1..] + v && (u + v)[0] == u[0];
      LettersConcat(u[1..], v);
      var head := if 'a' <= u[0] <= 'z' || '0' <= u[0] <= '9' then [u[0]] else "";
      Regrouped(head, LettersAndDigits(u[1..]), LettersAndDigits(v));
    }
  }

  lemma {:induction false} LettersOfWord(w: string)
    requires forall i :: 0 <= i < |w| ==> IsWordChar(w[i])
    ensures LettersAndDigits(w) == w
  {
    if w != "" { LettersOfWord(w[1..]); }
  }

  lemma {:induction false} LettersOfWords(x: string)
    ensures LettersAndDigits(Join(Words(x))) == LettersAndDigits(x)
    decreases |x|
  {
    if x != "" && !IsWordChar(x[0]) {
      LettersOfWords(x[1..]);
      assert "" + LettersAndDigits(x[1..]) == LettersAndDigits(x);
    } else if x != "" {
      var n := WordLength(x);
      LettersOfWords(x[n..]);
      assert x == x[..n] + x[n..];
      LettersConcat(x[..n], x[n..]);
      WordAhead(x[..n], Words(x[n..]));
    }
  }

  lemma WordAhead(w: string, ws: seq<string>)
    ensures LettersAndDigits(Join([w] + ws)) == LettersAndDigits(w) + LettersAndDigits(Join(ws))
  {
    if ws == [] {
      assert [w] + ws == [w] && Join([w]) == w && LettersAndDigits(w) + "" == LettersAndDigits(w);
    } else {
      assert ([w] + ws)[1..] == ws;
      LettersConcat(w, " " + Join(ws));
      assert (" " + Join(ws))[1..] == Join(ws) && "" + LettersAndDigits(Join(ws)) == LettersAndDigits(Join(ws));
    }
  }

  /** Normalising keeps the letters, in lower case, and the digits, in order; */
  lemma LettersAreKept(s: string)
    requires '&' !in s
    ensures LettersAndDigits(NormalizeTitleBase(s)) == LettersAndDigits(Lower(s))
  {
    hide LettersAndDigits, NormalizeTitleBase, Words, Join;
    NormalizedIsJoinedWords(s);
    assert '&' !in Lower(s);
    ExpandNothing(Lower(s));
    LettersOfWords(Lower(s));
  }

  /** what else it leaves is spaces. */
  lemma NothingButSpacesElse(s: string, i: nat)
    requires i < |NormalizeTitleBase(s)|
    ensures var c := NormalizeTitleBase(s)[i]; 'a' <= c <= 'z' || '0' <= c <= '9' || c == ' '
  {
    hide NormalizeTitleBase, Words, Join;
    NormalizedIsJoinedWords(s);
    WordsAreWords(ExpandAmp(Lower(s)));
    JoinChars(TitleWords(s), i);
  }

  /** Case does not matter, and an ampersand is the word "and". */
  lemma CaseAndAmpersand(u: string, v: string)
    ensures NormalizeTitleBase(Lower(u)) == NormalizeTitleBase(u)
    ensures NormalizeTitleBase(u + "&" + v) == NormalizeTitleBase(u + " and " + v)
  {
    assert Lower(Lower(u)) == Lower(u);
    var x, y := Lower(u), Lower(v);
    assert Lower(u + "&" + v) == x + "&" + y && Lower(u + " and " + v) == x + " and " + y;
    ExpandConcat(x + "&", y);
    ExpandConcat(x, "&");
    ExpandConcat(x + " and ", y);
    ExpandConcat(x, " and ");
    ExpandNothing(" and ");
    assert "&"[1..] == "" && " and " + "" == " and ";
    assert ExpandAmp("&") == " and ";
  }

  // ------------------------------------------------------ the year suffix

  const EARLIEST: nat := 1870
  const LATEST: nat := 2999
  const MAX_SEPARATORS: nat := 32

  predicate IsSep(c: char) { IsSpace(c) || c == '.' || c == '_' || c == '-' }

  predicate IsOpen(c: char) { c == '(' || c == '[' }

  predicate IsClose(c: char) { c == ')' || c == ']' }

  predicate Plausible(y: int) { EARLIEST <= y <= LATEST }

  function SkipSpaces(t: string, i: nat): (j: nat)
    requires i <= |t|
    ensures i <= j <= |t| && (forall k :: i <= k < j ==> IsSpace(t[k])) && (j < |t| ==> !IsSpace(t[j]))
    decreases |t| - i
  {
    if i < |t| && IsSpace(t[i]) then SkipSpaces(t, i + 1) else i
  }

  function SkipSeps(t: string, i: nat): (j: nat)
    requires i <= |t|
    ensures i <= j <= |t| && (forall k :: i <= k < j ==> IsSep(t[k])) && (j < |t| ==> !IsSep(t[j]))
    decreases |t| - i
  {
    if i < |t| && IsSep(t[i]) then SkipSeps(t, i + 1) else i
  }

  predicate FourDigits(t: string, d: nat) {
    d + 4 <= |t| && IsDigit(t[d]) && IsDigit(t[d + 1]) && IsDigit(t[d + 2]) && IsDigit(t[d + 3])
  }

  function YearAt(t: string, d: nat): nat
    requires FourDigits(t, d)
  {
    1000 * DigitValue(t[d]) + 100 * DigitValue(t[d + 1]) + 10 * DigitValue(t[d + 2]) + DigitValue(t[d + 3])
  }

  /** After the opening bracket: spaces, four digits, spaces, a closing bracket,
      spaces, the end. */
  predicate ClosesAt(t: string, j: nat)
    requires j <= |t|
  {
    var d := SkipSpaces(t, j);
    FourDigits(t, d) &&
    (var e := SkipSpaces(t, d + 4);
     e < |t| && IsClose(t[e]) && SkipSpaces(t, e + 1) == |t|)
  }

  /** Whether the bracketed pattern matches at `i`. No character can belong to two
      adjacent parts of it, so the match, if any, is unique. */
  predicate BracketedAt(t: string, i: nat)
    requires i <= |t|
  {
    var o := SkipSeps(t, i);
    o - i <= MAX_SEPARATORS && o < |t| && IsOpen(t[o]) && ClosesAt(t, o + 1)
  }

  /** Where the leftmost match from `i` on starts, as a search finds it; -1 if none. */
  function FindBracketed(t: string, i: nat): (r: int)
    requires i <= |t|
    ensures r == -1 || (i <= r <= |t| && BracketedAt(t, r))
    decreases |t| - i
  {
    if BracketedAt(t, i) then i
    else if i == |t| then -1
    else FindBracketed(t, i + 1)
  }

  /** Where the four digits of a bracketed match at `i` are. */
  function BracketedDigits(t: string, i: nat): (d: nat)
    requires i <= |t| && BracketedAt(t, i)
    ensures i < d && FourDigits(t, d)
  {
    SkipSpaces(t, SkipSeps(t, i) + 1)
  }

  predicate BareAt(t: string, i: nat)
    requires i <= |t|
  {
    var d := SkipSeps(t, i);
    1 <= d - i <= MAX_SEPARATORS && FourDigits(t, d) && SkipSpaces(t, d + 4) == |t|
  }

  function FindBare(t: string, i: nat): (r: int)
    requires i <= |t|
    ensures r == -1 || (i <= r <= |t| && BareAt(t, r))
    decreases |t| - i
  {
    if BareAt(t, i) then i
    else if i == |t| then -1
    else FindBare(t, i + 1)
  }

  datatype Split = Split(title: string, year: Option<nat>)

  /** Every place that matches has a match at or before it. */
  lemma {:induction false} FindsLeftmost(t: string, i: nat, j: nat)
    requires i <= j <= |t| && BracketedAt(t, j)
    ensures 0 <= FindBracketed(t, i) <= j
    decreases |t| - i
  {
    if !BracketedAt(t, i) { FindsLeftmost(t, i + 1, j); }
  }

  predicate ReleaseStyle(sep: string) {
    exists i :: 0 <= i < |sep| && (sep[i] == '.' || sep[i] == '_' || sep[i] == '-')
  }

  function SplitTrimmed(t: string): Split {
    var bracketed, bare := FindBracketed(t, 0), FindBare(t, 0);
    if bracketed >= 0 then
      var year, rest := YearAt(t, BracketedDigits(t, bracketed)), Trim(t[..bracketed]);
      if Plausible(year) && rest != "" then Split(rest, Some(year)) else Split(t, None)
    else if bare >= 0 then
      var digits := SkipSeps(t, bare);
      var year, rest := YearAt(t, digits), Trim(t[..bare]);
      if Plausible(year) && rest != "" && ReleaseStyle(t[bare..digits]) then Split(rest, Some(year)) else Split(t, None)
    else Split(t, None)
  }

  function SplitTrailingYear(raw: string): Split { SplitTrimmed(Trim(raw)) }

  datatype CanonicalTitle = CanonicalTitle(title: string, normalizedTitle: string, year: Option<int>)

  function Canonical(s: Split, knownYear: Option<int>): CanonicalTitle {
    var fromTitle := if s.year.Some? then Some(s.year.value as int) else None;
    CanonicalTitle(s.title, NormalizeTitleBase(s.title),
                   if knownYear.Some? && Plausible(knownYear.value) then knownYear else fromTitle)
  }

  function CanonicalizeTitle(raw: string, knownYear: Option<int>): CanonicalTitle {
    Canonical(SplitTrailingYear(raw), knownYear)
  }

  // ------------------------------- a year in the title or beside it: one identity

  /** The presentation form of a year: four digits in parentheses. */
  function InParentheses(year: nat): string { "(" + (Decimal(year) + ")") }

  function WithYear(title: string, year: nat): string { title + (" " + InParentheses(year)) }

  lemma YearHasFourDigits(y: nat)
    requires 1000 <= y <= 9999
    ensures |Decimal(y)| == 4 && FourDigits(Decimal(y), 0) && YearAt(Decimal(y), 0) == y
  {
    var a, b, c := y / 10, y / 100, y / 1000;
    assert a / 10 == b && b / 10 == c && 0 < c < 10;
    assert Decimal(c) == [DigitChar(c)];
    assert Decimal(b) == [DigitChar(c), DigitChar(b % 10)];
    assert Decimal(a) == [DigitChar(c), DigitChar(b % 10), DigitChar(a % 10)];
    assert Decimal(y) == [DigitChar(c), DigitChar(b % 10), DigitChar(a % 10), DigitChar(y % 10)];
  }

  /** How a title that ends in a parenthesised year looks, index by index. */
  ghost predicate EndsInYear(t: string, n: nat, y: nat) {
    && |t| == n + 6 && t[n] == '(' && t[n + 5] == ')'
    && FourDigits(t, n + 1) && YearAt(t, n + 1) == y
  }

  lemma SuffixEndsInYear(p: string, y: nat)
    requires Plausible(y)
    ensures EndsInYear(p + InParentheses(y), |p|, y)
  {
    var t, d := p + InParentheses(y), Decimal(y);
    YearHasFourDigits(y);
    assert forall k :: 0 <= k < 4 ==> t[|p| + 1 + k] == d[k];
    assert t[|p| + 1 + 0] == d[0] && t[|p| + 1 + 1] == d[1] && t[|p| + 1 + 2] == d[2] && t[|p| + 1 + 3] == d[3];
  }

  predicate AllSeps(s: string) { forall i :: 0 <= i < |s| ==> IsSep(s[i]) }

  lemma YearMatchesAt(t: string, n: nat, y: nat, j: nat)
    requires EndsInYear(t, n, y) && j <= n <= j + MAX_SEPARATORS && forall k :: j <= k < n ==> IsSep(t[k])
    ensures BracketedAt(t, j)
  {
  }

  /** The match covers the year and only separators before it. */
  lemma FindsTheYear(t: string, n: nat, y: nat)
    requires EndsInYear(t, n, y)
    ensures var m := FindBracketed(t, 0);
            0 <= m <= n && SkipSeps(t, m) == n && BracketedDigits(t, m) == n + 1
  {
    YearMatchesAt(t, n, y, n);
    FindsLeftmost(t, 0, n);
  }

  /** It reaches the start of the title only if there is nothing else. */
  lemma TakesEverythingIff(t: string, n: nat, y: nat)
    requires EndsInYear(t, n, y)
    ensures FindBracketed(t, 0) == 0 <==> AllSeps(t[..n]) && n <= MAX_SEPARATORS
  {
    FindsTheYear(t, n, y);
    if AllSeps(t[..n]) && n <= MAX_SEPARATORS {
      assert forall k :: 0 <= k < n ==> t[..n][k] == t[k];
      YearMatchesAt(t, n, y, 0);
    }
  }

  lemma RestKeepsWords(t: string, m: nat, n: nat)
    requires m <= n <= |t| && forall k :: m <= k < n ==> IsSep(t[k])
    ensures TitleWords(Trim(t[..m])) == TitleWords(t[..n])
  {
    assert t[..n] == t[..m] + t[m..n];
    TrimKeepsWords(t[..m]);
    FillerAfter(t[..m], t[m..n]);
  }

  lemma SplitsOffTheYear(t: string, n: nat, y: nat)
    requires EndsInYear(t, n, y) && Plausible(y) && !IsSpace(t[0])
    ensures var s := SplitTrimmed(t);
            && (s.year.Some? <==> !(AllSeps(t[..n]) && n <= MAX_SEPARATORS))
            && (s.year.Some? ==> s.year == Some(y) && TitleWords(s.title) == TitleWords(t[..n]))
  {
    FindsTheYear(t, n, y);
    TakesEverythingIff(t, n, y);
    var m := FindBracketed(t, 0);
    if m > 0 {
      RestKeepsWords(t, m, n);
    } else {
      assert t[..m] == "" && Trim("") == "";
    }
  }

  // ------------------------------------------------------ trimming the whole

  /** What precedes the year once the whole is trimmed. */
  function Stem(title: string): string {
    if TrimLeft(title) == "" then "" else TrimLeft(title) + " "
  }

  lemma StemJoins(v: string, l: string, par: string)
    ensures l == "" ==> (v + l) + (" " + par) == (v + " ") + (("" + par) + "")
    ensures l != "" ==> (v + l) + (" " + par) == v + ((l + " " + par) + "")
  {
  }

  lemma TrimmedWith(title: string, par: string)
    requires par != "" && !IsSpace(par[0]) && !IsSpace(par[|par| - 1])
    ensures Trim(title + (" " + par)) == Stem(title) + par
  {
    hide Trim, TrimLeft;
    var v := TrimLeftCuts(title);
    var l := TrimLeft(title);
    StemJoins(v, l, par);
    if l == "" { TrimFrame(v + " ", "" + par, ""); } else { TrimFrame(v, l + " " + par, ""); }
  }

  lemma SpaceAfter(u: string)
    ensures TitleWords(u + " ") == TitleWords(u)
  {
    assert AllFiller(" ");
    FillerAfter(u, " ");
  }

  lemma StemWords(title: string)
    ensures TitleWords(Stem(title)) == TitleWords(title)
  {
    var v := TrimLeftCuts(title);
    FillerBefore(v, TrimLeft(title));
    SpaceAfter(TrimLeft(title));
  }

  /** Something would remain of the title once the year and at most 32 separators
      are taken off. */
  predicate HasSubstance(title: string) {
    !AllSeps(title) || |TrimLeft(title)| >= MAX_SEPARATORS
  }

  lemma {:induction false} TrimLeftKeepsSeps(s: string)
    ensures AllSeps(s) <==> AllSeps(TrimLeft(s))
  {
    if s != "" && IsSpace(s[0]) {
      TrimLeftKeepsSeps(s[1..]);
      assert AllSeps(s) <==> AllSeps(s[1..]) by {
        assert forall i :: 1 <= i < |s| ==> s[i] == s[1..][i - 1];
      }
    }
  }

  lemma SubstanceOfStem(title: string)
    ensures HasSubstance(title) <==> !(AllSeps(Stem(title)) && |Stem(title)| <= MAX_SEPARATORS)
  {
    TrimLeftKeepsSeps(title);
    SepsWithSpace(TrimLeft(title));
  }

  lemma SepsWithSpace(u: string)
    ensures AllSeps(u + " ") <==> AllSeps(u)
  {
    assert forall i :: 0 <= i < |u| ==> (u + " ")[i] == u[i];
  }

  lemma SplitWithYear(title: string, y: nat)
    requires Plausible(y)
    ensures var s := SplitTrailingYear(WithYear(title, y));
            && (s.year.Some? <==> HasSubstance(title))
            && (s.year.Some? ==> s.year == Some(y) && TitleWords(s.title) == TitleWords(title))
  {
    var stem := Stem(title);
    var t := stem + InParentheses(y);
    TrimmedWith(title, InParentheses(y));
    SuffixEndsInYear(stem, y);
    assert t[..|stem|] == stem;
    assert !IsSpace(t[0]);
    SplitsOffTheYear(t, |stem|, y);
    StemWords(title);
    SubstanceOfStem(title);
  }

  // --------------------------------------------------- a title's own year

  lemma CutAt(t: string, j: nat)
    requires j < |t| && IsFiller(t[j])
    ensures TitleWords(t) == TitleWords(t[..j]) + TitleWords(t[j + 1..])
  {
    assert t == t[..j] + ([t[j]] + t[j + 1..]);
    TitleWordsConcat(t[..j], t[j], t[j + 1..]);
  }

  lemma TakesWordsAway(t: string, i: nat, j: nat, d: nat)
    requires i <= j < d < |t| && (forall k :: i <= k < j ==> IsSep(t[k])) && IsFiller(t[j]) && IsDigit(t[d])
    ensures TitleWords(Trim(t[..i])) != TitleWords(t)
  {
    RestKeepsWords(t, i, j);
    CutAt(t, j);
    assert t[j + 1..][d - j - 1] == t[d];
    DigitsAreWords(t[j + 1..], d - j - 1);
  }

  lemma BracketedTakesWordsAway(t: string, m: nat)
    requires m <= |t| && BracketedAt(t, m)
    ensures TitleWords(Trim(t[..m])) != TitleWords(t)
  {
    TakesWordsAway(t, m, SkipSeps(t, m), BracketedDigits(t, m));
  }

  lemma BareTakesWordsAway(t: string, m: nat)
    requires m <= |t| && BareAt(t, m)
    ensures TitleWords(Trim(t[..m])) != TitleWords(t)
  {
    TakesWordsAway(t, m, SkipSeps(t, m) - 1, SkipSeps(t, m));
  }

  lemma SplitTrimmedCases(t: string)
    ensures var s := SplitTrimmed(t);
            || (s.year.None? && s.title == t)
            || (s.year.Some? && FindBracketed(t, 0) >= 0 && s.title == Trim(t[..FindBracketed(t, 0)]))
            || (s.year.Some? && FindBare(t, 0) >= 0 && s.title == Trim(t[..FindBare(t, 0)]))
  {
  }

  /** Splitting off a year takes at least one word away; otherwise the words stay. */
  lemma SplitKeepsWordsIff(title: string)
    ensures var s := SplitTrailingYear(title);
            TitleWords(s.title) == TitleWords(title) <==> s.year.None?
  {
    var t := Trim(title);
    TrimKeepsWords(title);
    SplitTrimmedCases(t);
    if FindBracketed(t, 0) >= 0 { BracketedTakesWordsAway(t, FindBracketed(t, 0)); }
    if FindBare(t, 0) >= 0 { BareTakesWordsAway(t, FindBare(t, 0)); }
  }

  predicate SameIdentity(a: CanonicalTitle, b: CanonicalTitle) {
    a.normalizedTitle == b.normalizedTitle && a.year == b.year
  }

  lemma IdentitiesAgreeIff(s: Split, s': Split, y: nat)
    requires Plausible(y) && (s.year.Some? ==> s.year == Some(y))
    ensures SameIdentity(Canonical(s, None), Canonical(s', Some(y))) <==>
            s.year.Some? && TitleWords(s.title) == TitleWords(s'.title)
  {
    SameNormalIffSameWords(s.title, s'.title);
  }

  /** The year written behind a title and the year supplied beside it give one
      identity, for exactly the titles that have no trailing year of their own
      and of which something remains. */
  lemma YearInOrBesideTitleAgree(title: string, y: nat)
    requires Plausible(y)
    ensures SameIdentity(CanonicalizeTitle(WithYear(title, y), None), CanonicalizeTitle(title, Some(y))) <==>
            SplitTrailingYear(title).year.None? && HasSubstance(title)
  {
    SplitWithYear(title, y);
    SplitKeepsWordsIff(title);
    IdentitiesAgreeIff(SplitTrailingYear(WithYear(title, y)), SplitTrailingYear(title), y);
  }

  /** Every title with a letter or a digit has substance, so that it only needs to
      have no year of its own. */
  lemma LettersAreSubstance(title: string, i: nat, y: nat)
    requires i < |title| && Plausible(y)
    requires 'a' <= title[i] <= 'z' || 'A' <= title[i] <= 'Z' || '0' <= title[i] <= '9'
    ensures HasSubstance(title)
    ensures SameIdentity(CanonicalizeTitle(WithYear(title, y), None), CanonicalizeTitle(title, Some(y))) <==>
            SplitTrailingYear(title).year.None?
  {
    assert !IsSep(title[i]);
    YearInOrBesideTitleAgree(title, y);
  }

  // ------------------------------- which trailing numbers are taken for a year

  /** A text that is not empty, begins with no space and ends in no separator. */
  predicate Solid(s: string) {
    && s != "" && !IsSpace(s[0])
    && (var c := s[|s| - 1]; !IsSpace(c) && c != '.' && c != '_' && c != '-')
  }

  /** Up to 32 spaces, dots, underscores and dashes. */
  predicate Separates(sep: string) {
    |sep| <= 32 && forall i :: 0 <= i < |sep| ==>
      IsSpace(sep[i]) || sep[i] == '.' || sep[i] == '_' || sep[i] == '-'
  }

  predicate IsPair(open: char, close: char) { (open == '(' || open == '[') && (close == ')' || close == ']') }

  lemma {:induction false} FindsFirstBracketed(t: string, i: nat, n: nat)
    requires i <= n <= |t| && BracketedAt(t, n) && forall m :: i <= m < n ==> !BracketedAt(t, m)
    ensures FindBracketed(t, i) == n
    decreases n - i
  {
    if i < n { FindsFirstBracketed(t, i + 1, n); }
  }

  lemma {:induction false} FindsNoBracketed(t: string, i: nat)
    requires i <= |t| && forall m :: i <= m <= |t| ==> !BracketedAt(t, m)
    ensures FindBracketed(t, i) == -1
    decreases |t| - i
  {
    if i < |t| { FindsNoBracketed(t, i + 1); }
  }

  lemma {:induction false} FindsFirstBare(t: string, i: nat, n: nat)
    requires i <= n <= |t| && BareAt(t, n) && forall m :: i <= m < n ==> !BareAt(t, m)
    ensures FindBare(t, i) == n
    decreases n - i
  {
    if i < n { FindsFirstBare(t, i + 1, n); }
  }

  /** A text that ends in a digit has no bracketed year. */
  lemma DigitAtEnd(t: string)
    requires t != "" && IsDigit(t[|t| - 1])
    ensures FindBracketed(t, 0) == -1
  {
    forall m | 0 <= m <= |t| { NoBracketBeforeDigit(t, m); }
    FindsNoBracketed(t, 0);
  }

  lemma NoBracketBeforeDigit(t: string, m: nat)
    requires m <= |t| && t != "" && IsDigit(t[|t| - 1])
    ensures !BracketedAt(t, m)
  {
    var o := SkipSeps(t, m);
    if o < |t| { var d := SkipSpaces(t, o + 1); }
  }

  /** Four digits at the end, separators from `n` to `d` before them and none at `n - 1`. */
  lemma FindsBareAt(t: string, n: nat, d: nat)
    requires 0 < n < d <= n + 32 && d + 4 == |t| && FourDigits(t, d) && !IsSep(t[n - 1])
    requires forall k :: n <= k < d ==> IsSep(t[k])
    ensures FindBare(t, 0) == n && SkipSeps(t, n) == d
  {
    assert SkipSeps(t, n) == d;
    assert BareAt(t, n);
    forall m | 0 <= m < n ensures !BareAt(t, m) {
    }
    FindsFirstBare(t, 0, n);
  }

  lemma AlreadyTrimmed(t: string)
    requires t != "" && !IsSpace(t[0]) && !IsSpace(t[|t| - 1])
    ensures Trim(t) == t
  {
    TrimFrame("", t, "");
    assert "" + (t + "") == t;
  }

  lemma Joined(a: string, b: string, c: string) returns (t: string)
    ensures |t| == |a| + |b| + |c| && t == a + b + c && t[..|a|] == a && t[|a|..|a| + |b|] == b
    ensures forall k :: |a| <= k < |a| + |b| ==> t[k] == b[k - |a|]
    ensures forall k :: |a| + |b| <= k < |t| ==> t[k] == c[k - |a| - |b|]
    ensures a != "" ==> t[0] == a[0] && t[|a| - 1] == a[|a| - 1]
    ensures c != "" ==> t[|t| - 1] == c[|c| - 1]
  {
    t := a + b + c;
  }

  lemma TitleAndMore(title: string, sep: string, tail: string) returns (t: string)
    requires Solid(title) && Separates(sep) && tail != "" && !IsSpace(tail[|tail| - 1])
    ensures t == title + sep + tail && t[..|title|] == title && t[|title|..|title| + |sep|] == sep
    ensures !IsSpace(t[0]) && !IsSpace(t[|t| - 1])
    ensures !IsSep(t[|title| - 1]) && forall k :: |title| <= k < |title| + |sep| ==> IsSep(t[k])
    ensures forall k :: |title| + |sep| <= k < |t| ==> t[k] == tail[k - |title| - |sep|]
  {
    t := Joined(title, sep, tail);
  }

  lemma SplitsBare(t: string, n: nat, d: nat)
    requires 0 < n < d <= n + 32 && d + 4 == |t| && FourDigits(t, d) && !IsSep(t[n - 1])
    requires (forall k :: n <= k < d ==> IsSep(t[k])) && IsDigit(t[|t| - 1])
    ensures SplitTrimmed(t) ==
              if 1870 <= YearAt(t, d) <= 2999 && Trim(t[..n]) != "" && ReleaseStyle(t[n..d])
              then Split(Trim(t[..n]), Some(YearAt(t, d)))
              else Split(t, None)
  {
    FindsBareAt(t, n, d);
    DigitAtEnd(t);
  }

  /** A bare four-digit number behind a title is taken for a year exactly if it is one
      from 1870 to 2999 and a dot, an underscore or a dash stands among the separators;
      behind plain spaces, as in "Blade Runner 2049", it belongs to the title. */
  lemma BareYearIff(title: string, sep: string, y: nat)
    requires Solid(title) && sep != "" && Separates(sep) && 1000 <= y <= 9999
    ensures var whole := title + sep + Decimal(y);
            SplitTrailingYear(whole) ==
              if 1870 <= y <= 2999 && ('.' in sep || '_' in sep || '-' in sep) then Split(title, Some(y)) else Split(whole, None)
  {
    hide Trim, SplitTrimmed, YearAt, Decimal, ReleaseStyle;
    YearHasFourDigits(y);
    var t := TitleAndMore(title, sep, Decimal(y));
    AlreadyTrimmed(t);
    DigitsMoved(t, Decimal(y), |title| + |sep|);
    SplitsBare(t, |title|, |title| + |sep|);
    AlreadyTrimmed(title);
    StyleOf(sep);
  }

  lemma StyleOf(sep: string)
    ensures ReleaseStyle(sep) <==> '.' in sep || '_' in sep || '-' in sep
  {
  }

  lemma DigitsMoved(t: string, digits: string, d: nat)
    requires |digits| == 4 && FourDigits(digits, 0) && d + 4 <= |t|
    requires forall k :: d <= k < d + 4 ==> t[k] == digits[k - d]
    ensures FourDigits(t, d) && YearAt(t, d) == YearAt(digits, 0)
  {
    assert t[d + 0] == digits[0] && t[d + 1] == digits[1] && t[d + 2] == digits[2] && t[d + 3] == digits[3];
  }

  /** The opening bracket at `o`, the digits at `d`, the closing bracket at the end `e`. */
  ghost predicate BracketsAt(t: string, n: nat, o: nat, d: nat, e: nat) {
    && 0 < n <= o < d && o <= n + 32 && d + 4 <= e && e + 1 == |t|
    && IsOpen(t[o]) && FourDigits(t, d) && IsClose(t[e]) && !IsSep(t[n - 1])
    && (forall k :: n <= k < o ==> IsSep(t[k]))
    && (forall k :: o < k < d || d + 4 <= k < e ==> IsSpace(t[k]))
  }

  lemma FindsBracketedAt(t: string, n: nat, o: nat, d: nat, e: nat)
    requires BracketsAt(t, n, o, d, e)
    ensures FindBracketed(t, 0) == n && BracketedDigits(t, n) == d
  {
    OpensThere(t, n, o, d, e);
    hide BracketedAt;
    forall m | 0 <= m < n ensures !BracketedAt(t, m) {
      if BracketedAt(t, m) { OneOpening(t, n, o, d, e, m); }
    }
    FindsFirstBracketed(t, 0, n);
  }

  lemma OpensThere(t: string, n: nat, o: nat, d: nat, e: nat)
    requires BracketsAt(t, n, o, d, e)
    ensures BracketedAt(t, n) && BracketedDigits(t, n) == d
  {
    assert SkipSeps(t, n) == o;
    assert SkipSpaces(t, o + 1) == d;
    assert SkipSpaces(t, d + 4) == e;
  }

  lemma OneOpening(t: string, n: nat, o: nat, d: nat, e: nat, m: nat)
    requires BracketsAt(t, n, o, d, e) && m < n
    ensures !BracketedAt(t, m)
  {
    var o' := SkipSeps(t, m);
    assert o' < n by { assert !IsSep(t[n - 1]); }
  }

  lemma MarkShape(open: char, before: string, digits: string, behind: string, close: char) returns (mark: string, d: nat)
    requires |digits| == 4
    ensures mark == [open] + before + digits + behind + [close] && d == 1 + |before| && |mark| == d + 4 + |behind| + 1
    ensures mark[0] == open && mark[|mark| - 1] == close && (forall k :: 1 <= k < d ==> mark[k] == before[k - 1])
    ensures forall k :: d <= k < d + 4 ==> mark[k] == digits[k - d]
    ensures forall k :: d + 4 <= k < |mark| - 1 ==> mark[k] == behind[k - d - 4]
  {
    mark, d := [open] + before + digits + behind + [close], 1 + |before|;
  }

  lemma SplitsBracketed(t: string, n: nat, o: nat, d: nat, e: nat)
    requires BracketsAt(t, n, o, d, e)
    ensures SplitTrimmed(t) ==
              if 1870 <= YearAt(t, d) <= 2999 && Trim(t[..n]) != "" then Split(Trim(t[..n]), Some(YearAt(t, d)))
              else Split(t, None)
  {
    FindsBracketedAt(t, n, o, d, e);
  }

  /** A four-digit number in brackets behind a title, up to 32 separators apart, is
      taken for a year exactly if it is one from 1870 to 2999. */
  lemma BracketedYearIff(
      title: string, sep: string, open: char, before: string, y: nat, behind: string, close: char)
    requires Solid(title) && Separates(sep) && IsPair(open, close)
    requires Spaces(before) && Spaces(behind) && 1000 <= y <= 9999
    ensures var whole := title + sep + ([open] + before + Decimal(y) + behind + [close]);
            SplitTrailingYear(whole) == if 1870 <= y <= 2999 then Split(title, Some(y)) else Split(whole, None)
  {
    hide Trim, SplitTrimmed, YearAt, Decimal;
    YearHasFourDigits(y);
    var mark, d := MarkShape(open, before, Decimal(y), behind, close);
    var t := TitleAndMore(title, sep, mark);
    AlreadyTrimmed(t);
    DigitsMoved(t, Decimal(y), |title| + |sep| + d);
    SplitsBracketed(t, |title|, |title| + |sep|, |title| + |sep| + d, |t| - 1);
    AlreadyTrimmed(title);
  }

  /** What a year was taken from: only ever such an end of the title. */
  lemma YearsComeFromTheEnd(raw: string, y: nat) returns (head: string, sep: string, digits: string, tail: string)
    requires SplitTrailingYear(raw).year == Some(y)
    ensures Trim(raw) == head + sep + tail && SplitTrailingYear(raw).title == Trim(head) != ""
    ensures 1870 <= y <= 2999 && |digits| == 4 && FourDigits(digits, 0) && YearAt(digits, 0) == y && Separates(sep)
    ensures || (tail == digits && ('.' in sep || '_' in sep || '-' in sep))
            || IsMark(tail, digits)
  {
    hide Trim, YearAt, FindBracketed, FindBare;
    var t := Trim(raw);
    if FindBracketed(t, 0) >= 0 {
      head, sep, digits, tail := BracketedPieces(t, FindBracketed(t, 0));
    } else {
      head, sep, digits, tail := BarePieces(t, FindBare(t, 0));
      StyleOf(sep);
    }
  }

  lemma DigitsThere(t: string, d: nat)
    requires FourDigits(t, d)
    ensures |t[d..d + 4]| == 4 && FourDigits(t[d..d + 4], 0) && YearAt(t[d..d + 4], 0) == YearAt(t, d)
  {
    var digits := t[d..d + 4];
    assert digits[0] == t[d] && digits[1] == t[d + 1] && digits[2] == t[d + 2] && digits[3] == t[d + 3];
  }

  lemma Cut(t: string, i: nat, j: nat)
    requires i <= j <= |t|
    ensures t == t[..i] + t[i..j] + t[j..]
  {
  }

  lemma BarePieces(t: string, m: nat) returns (head: string, sep: string, digits: string, tail: string)
    requires m <= |t| && BareAt(t, m) && (t != "" ==> !IsSpace(t[|t| - 1]))
    ensures t == head + sep + tail && head == t[..m] && sep == t[m..SkipSeps(t, m)] && Separates(sep) && tail == digits
    ensures |digits| == 4 && FourDigits(digits, 0) && YearAt(digits, 0) == YearAt(t, SkipSeps(t, m))
  {
    var d := SkipSeps(t, m);
    head, sep, digits, tail := t[..m], t[m..d], t[d..d + 4], t[d..];
    Cut(t, m, d);
    DigitsThere(t, d);
    assert d + 4 == |t|;
  }

  lemma BracketedParts(t: string, m: nat) returns (o: nat, d: nat, e: nat)
    requires m <= |t| && BracketedAt(t, m) && (t != "" ==> !IsSpace(t[|t| - 1]))
    ensures m <= o < d && o <= m + 32 && d + 4 <= e && e + 1 == |t| && d == BracketedDigits(t, m)
    ensures IsOpen(t[o]) && FourDigits(t, d) && IsClose(t[e]) && (forall k :: m <= k < o ==> IsSep(t[k]))
    ensures forall k :: o < k < d || d + 4 <= k < e ==> IsSpace(t[k])
  {
    o := SkipSeps(t, m);
    d := SkipSpaces(t, o + 1);
    e := SkipSpaces(t, d + 4);
  }

  lemma BracketedPieces(t: string, m: nat) returns (head: string, sep: string, digits: string, tail: string)
    requires m <= |t| && BracketedAt(t, m) && (t != "" ==> !IsSpace(t[|t| - 1]))
    ensures t == head + sep + tail && head == t[..m] && Separates(sep)
    ensures |digits| == 4 && FourDigits(digits, 0) && YearAt(digits, 0) == YearAt(t, BracketedDigits(t, m))
    ensures IsMark(tail, digits)
  {
    hide YearAt, BracketedAt, BracketedDigits;
    var o, d, e := BracketedParts(t, m);
    head, sep, digits, tail := t[..m], t[m..o], t[d..d + 4], t[o..];
    Cut(t, m, o);
    DigitsThere(t, d);
    TailPieces(t, o, d, e);
  }

  /** Spaces and the digits, between brackets. */
  ghost predicate IsMark(tail: string, digits: string) {
    exists open, before, behind, close ::
      IsPair(open, close) && Spaces(before) && Spaces(behind) && tail == [open] + before + digits + behind + [close]
  }

  lemma TailPieces(t: string, o: nat, d: nat, e: nat)
    requires o < d && d + 4 <= e && e + 1 == |t|
    requires IsOpen(t[o]) && IsClose(t[e]) && (forall k :: o < k < d || d + 4 <= k < e ==> IsSpace(t[k]))
    ensures IsMark(t[o..], t[d..d + 4])
  {
    var before, behind := t[o + 1..d], t[d + 4..e];
    assert IsPair(t[o], t[e]) && Spaces(before) && Spaces(behind);
    assert t[o..] == [t[o]] + before + t[d..d + 4] + behind + [t[e]];
  }

  /** A title from which no year is taken is only trimmed. */
  /** Where no year is split off, nothing but white space around the title is lost. */
  lemma NoYearNoChange(raw: string)
    requires SplitTrailingYear(raw).year.None?
    ensures SplitTrailingYear(raw).title == Trim(raw)
  {
  }

  /** A year supplied beside the title wins if it is one from 1870 to 2999, and is
      ignored otherwise; the title is the same either way. */
  lemma KnownYearWins(raw: string, known: int)
    ensures var own := CanonicalizeTitle(raw, None);
            && own.title == SplitTrailingYear(raw).title && own.normalizedTitle == NormalizeTitleBase(own.title)
            && own.year == (match SplitTrailingYear(raw).year case Some(y) => Some(y as int) case None => None)
            && CanonicalizeTitle(raw, Some(known)) == if 1870 <= known <= 2999 then own.(year := Some(known)) else own
  {
    hide SplitTrimmed, NormalizeTitleBase, Trim;
  }
}
