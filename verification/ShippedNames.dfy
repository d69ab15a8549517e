/** The words and formats that ship with ops/scripts/ansi-to-svg.py: how many
    titles they make, and when two invented paths coincide. */
module ShippedNames {
  import opened Sequences
  import opened Text
  import opened Redaction
  import opened TitleSpace

  const FIRST: seq<string> := [
    "Northwind", "Copper", "Lantern", "Glasshouse", "Salt", "Amber", "Cinder",
    "Quarry", "Driftwood", "Marble", "Paper", "Quiet", "Tin", "Weathervane",
    "Harrow", "Ember", "Foxglove", "Halcyon", "Juniper", "Kestrel", "Larkspur",
    "Mistral", "Norwood", "Oakhaven", "Pellow", "Redmoor", "Sable", "Thistle"]

  const SECOND: seq<string> := [
    "Hollow", "Harbour", "Bay", "Winter", "Flats", "Circuit", "Lake", "Road",
    "Sound", "Alley", "Kingdom", "Meridian", "County", "Orchard", "Nights",
    "Reach", "Crossing", "Station", "Gate", "Field", "Watch", "Landing"]

  const GROUPS: seq<string> := [
    "LUMEN", "ASHEN", "VERDANT", "MERIDIAN", "HALCYON", "ROWAN", "CASTLE",
    "PELICAN", "THISTLE", "ORCHID", "SABLE", "KESTREL"]

  const QUALITY: seq<string> := ["1080p", "720p", "2160p"]

  const SOURCE: seq<string> := ["WEBRip", "BluRay", "WEB-DL", "HDTV"]

  // ------------------------------------------------- the words are different

  /** The place of a first word, read off its length and two of its letters. */
  function FirstRank(w: string): nat {
    if |w| < 3 then 28 else match w[0]
    case 'N' => if |w| == 9 then 0 else 22
    case 'C' => if w[1] == 'o' then 1 else 6
    case 'L' => if w[2] == 'n' then 2 else 20
    case 'G' => 3
    case 'S' => if w[2] == 'l' then 4 else 26
    case 'A' => 5
    case 'Q' => if w[2] == 'a' then 7 else 11
    case 'D' => 8
    case 'M' => if w[1] == 'a' then 9 else 21
    case 'P' => if w[1] == 'a' then 10 else 24
    case 'T' => if |w| == 3 then 12 else 27
    case 'W' => 13
    case 'H' => if w[2] == 'r' then 14 else 17
    case 'E' => 15
    case 'F' => 16
    case 'J' => 18
    case 'K' => 19
    case 'O' => 23
    case _ => 25
  }

  function SecondRank(w: string): nat {
    if |w| < 3 then 22 else match w[0]
    case 'H' => if w[1] == 'o' then 0 else 1
    case 'B' => 2
    case 'W' => if w[1] == 'i' then 3 else 20
    case 'F' => if w[1] == 'l' then 4 else 19
    case 'C' => if w[1] == 'i' then 5 else if w[1] == 'o' then 12 else 16
    case 'L' => if |w| == 4 then 6 else 21
    case 'R' => if w[1] == 'o' then 7 else 15
    case 'S' => if w[1] == 'o' then 8 else 17
    case 'A' => 9
    case 'K' => 10
    case 'M' => 11
    case 'O' => 13
    case 'N' => 14
    case _ => 18
  }

  /** A capitalised word: no space, and no bracket at its head. */
  predicate Capitalised(w: string) { |w| >= 3 && 'A' <= w[0] <= 'Z' && OneWord(w) }

  lemma FirstCapitalised(i: nat)
    ensures i < |FIRST| ==> Capitalised(FIRST[i])
  {
  }

  lemma FirstRanked(i: nat)
    ensures i < |FIRST| ==> FirstRank(FIRST[i]) == i
  {
  }

  lemma SecondWord(i: nat)
    ensures i < |SECOND| ==> Capitalised(SECOND[i]) && SecondRank(SECOND[i]) == i
  {
  }

  lemma WordsAreDistinct()
    ensures |FIRST| == 28 && |SECOND| == 22 && DistinctWords(FIRST) && DistinctWords(SECOND)
  {
    forall i: nat { FirstCapitalised(i); }
    forall i: nat { FirstRanked(i); }
    forall i: nat { SecondWord(i); }
  }

  // ------------------------------------------------------ the shipped formats

  /** `{n:02d}` */
  function TwoDigits(n: nat): (s: string)
    requires n < 100
    ensures |s| == 2
  {
    [DigitChar(n / 10), DigitChar(n % 10)]
  }

  function Episode(season: nat, episode: nat, quality: string, group: string): (s: string)
    requires season < 100 && episode < 100
    ensures s != "" && s[0] == 'S'
  {
    "S" + TwoDigits(season) + "E" + TwoDigits(episode) + " " + quality + " x265-" + group
  }

  function Film(year: nat, quality: string, source: string): (s: string)
    ensures s != "" && s[0] == '('
  {
    "(" + Decimal(year) + ") [" + quality + "] [" + source + "] [5.1]"
  }

  function EpisodeDetails(i: nat): (s: string)
    ensures s != "" && s[0] == 'S'
  {
    Episode(i % 6 + 1, i % 12 + 1, QUALITY[i % |QUALITY|], GROUPS[i % |GROUPS|])
  }

  function FilmDetails(i: nat): (s: string)
    ensures s != "" && s[0] == '('
  {
    Film(2019 + i % 8, QUALITY[i % |QUALITY|], SOURCE[i % |SOURCE|])
  }

  function Details(i: nat, episode: bool): string { if episode then EpisodeDetails(i) else FilmDetails(i) }

  /** `s.split(" " + c)[0]`: what precedes the first such pair of characters. */
  function CutAt(s: string, c: char): (r: string)
    ensures s != "" && s[0] != ' ' ==> r != "" && r[0] == s[0]
  {
    if |s| < 2 then s
    else if s[0] == ' ' && s[1] == c then ""
    else [s[0]] + CutAt(s[1..], c)
  }

  function Stem(title: string): string { CutAt(CutAt(title, 'S'), '(') }

  function SeasonPath(season: nat, stem: string, episode: nat): string
    requires season < 10 && episode < 100
  {
    ("Season " + Decimal(season) + "/") + stem + (" - S" + TwoDigits(season) + "E" + TwoDigits(episode) + ".mkv")
  }

  function PathOf(title: string, n: nat): string { SeasonPath(n % 5 + 1, Stem(title), n % 11 + 1) }

  // ------------------------------------------------- how many details there are

  lemma EpisodeAt(season: nat, episode: nat, quality: string, group: string)
    requires season < 100 && episode < 100
    ensures var s := Episode(season, episode, quality, group);
            |s| >= 6 && s[4] == DigitChar(episode / 10) && s[5] == DigitChar(episode % 10)
  {
  }

  lemma FilmAt(year: nat, quality: string, source: string)
    requires 1000 <= year <= 9999 && quality != ""
    ensures var s := Film(year, quality, source); |s| >= 9 && s[4] == DigitChar(year % 10) && s[8] == quality[0]
  {
    assert |Decimal(year / 100)| == 2 && |Decimal(year / 10)| == 3;
    assert Decimal(year) == Decimal(year / 10) + [DigitChar(year % 10)];
    var s := "(" + Decimal(year) + ") [" + quality;
    assert s[4] == Decimal(year)[3] && s[8] == quality[0] && s == Film(year, quality, source)[..|s|];
  }

  lemma DigitsDiffer(m: nat, n: nat)
    requires m < 100 && n < 100 && DigitChar(m / 10) == DigitChar(n / 10) && DigitChar(m % 10) == DigitChar(n % 10)
    ensures m == n
  {
  }

  lemma SameRemainder(i: nat, k: nat, d: nat, t: int)
    requires d > 0 && i == k + d * t
    ensures i % d == k % d
  {
    var n := i / d - k / d - t;
    assert d * n == k % d - i % d;
    assert n >= 1 ==> d * n >= d;
    assert n <= -1 ==> d * n + d <= 0;
  }

  lemma TurnOf(i: nat)
    ensures i % 8 == i % 24 % 8 && i % 4 == i % 24 % 4 && i % 3 == i % 24 % 3
    ensures i % 6 == i % 12 % 6 && i % 3 == i % 12 % 3
  {
    SameRemainder(i, i % 24, 8, 3 * (i / 24));
    SameRemainder(i, i % 24, 4, 6 * (i / 24));
    SameRemainder(i, i % 24, 3, 8 * (i / 24));
    SameRemainder(i, i % 12, 6, 2 * (i / 12));
    SameRemainder(i, i % 12, 3, 4 * (i / 12));
  }

  lemma TurnsDiffer(k: nat, l: nat)
    requires k < 24 && l < 24 && k % 8 == l % 8 && k % 3 == l % 3
    ensures k == l
  {
  }

  lemma SmallerTurns(i: nat, j: nat)
    ensures i % 12 == j % 12 ==> i % 6 == j % 6 && i % 3 == j % 3
    ensures i % 24 == j % 24 <==> i % 8 == j % 8 && i % 3 == j % 3
    ensures i % 24 == j % 24 ==> i % 4 == j % 4
  {
    TurnOf(i);
    TurnOf(j);
    if i % 24 != j % 24 && i % 8 == j % 8 && i % 3 == j % 3 { TurnsDiffer(i % 24, j % 24); }
  }

  lemma EpisodesRepeat(i: nat, j: nat)
    requires i % 12 == j % 12
    ensures EpisodeDetails(i) == EpisodeDetails(j)
  {
    hide Episode;
    SmallerTurns(i, j);
  }

  lemma FilmsRepeat(i: nat, j: nat)
    requires i % 24 == j % 24
    ensures FilmDetails(i) == FilmDetails(j)
  {
    hide Film;
    SmallerTurns(i, j);
  }

  lemma YearsDiffer(m: nat, n: nat)
    requires m < 8 && n < 8 && DigitChar((2019 + m) % 10) == DigitChar((2019 + n) % 10)
    ensures m == n
  {
  }

  lemma QualitiesDiffer(m: nat, n: nat)
    requires m < 3 && n < 3 && QUALITY[m][0] == QUALITY[n][0]
    ensures m == n
  {
  }

  lemma SameEpisode(i: nat, j: nat)
    requires EpisodeDetails(i) == EpisodeDetails(j)
    ensures i % 12 == j % 12
  {
    hide Episode;
    EpisodeAt(i % 6 + 1, i % 12 + 1, QUALITY[i % |QUALITY|], GROUPS[i % |GROUPS|]);
    EpisodeAt(j % 6 + 1, j % 12 + 1, QUALITY[j % |QUALITY|], GROUPS[j % |GROUPS|]);
    DigitsDiffer(i % 12 + 1, j % 12 + 1);
  }

  lemma SameFilm(i: nat, j: nat)
    requires FilmDetails(i) == FilmDetails(j)
    ensures i % 8 == j % 8 && i % 3 == j % 3
  {
    hide Film;
    FilmAt(2019 + i % 8, QUALITY[i % |QUALITY|], SOURCE[i % |SOURCE|]);
    FilmAt(2019 + j % 8, QUALITY[j % |QUALITY|], SOURCE[j % |SOURCE|]);
    YearsDiffer(i % 8, j % 8);
    QualitiesDiffer(i % 3, j % 3);
  }

  /** There are twelve different details of episodes and twenty-four of films, taken in
      turn. */
  lemma EpisodesTakeTurns(i: nat, j: nat)
    ensures Details(i, true) == Details(j, true) <==> i % 12 == j % 12
  {
    hide EpisodeDetails;
    if i % 12 == j % 12 {
      EpisodesRepeat(i, j);
    } else if EpisodeDetails(i) == EpisodeDetails(j) {
      SameEpisode(i, j);
    }
  }

  lemma FilmsTakeTurns(i: nat, j: nat)
    ensures Details(i, false) == Details(j, false) <==> i % 24 == j % 24
  {
    hide FilmDetails;
    if i % 24 == j % 24 {
      FilmsRepeat(i, j);
    } else if FilmDetails(i) == FilmDetails(j) {
      SameFilm(i, j);
      SmallerTurns(i, j);
    }
  }

  /** The first details of an episode and of a film. */
  lemma FirstEpisode()
    ensures Details(0, true) == "S01E01 1080p x265-LUMEN"
  {
    hide Episode;
    SomeEpisode(EpisodeDetails(0), QUALITY[0], GROUPS[0]);
  }

  lemma SomeEpisode(s: string, quality: string, group: string)
    requires s == Episode(1, 1, quality, group) && quality == "1080p" && group == "LUMEN"
    ensures s == "S01E01 1080p x265-LUMEN"
  {
  }

  lemma FirstFilm()
    ensures Details(0, false) == "(2019) [1080p] [WEBRip] [5.1]"
  {
    hide Film;
    SomeFilm(FilmDetails(0), QUALITY[0], SOURCE[0]);
  }

  lemma YearAsText(year: nat)
    requires year == 2019
    ensures Decimal(year) == "2019"
  {
  }

  lemma SomeFilm(s: string, quality: string, source: string)
    requires s == Film(2019, quality, source) && quality == "1080p" && source == "WEBRip"
    ensures s == "(2019) [1080p] [WEBRip] [5.1]"
  {
    YearAsText(2019);
  }

  /** The spelling of the script, for any test of what looks like an episode. */
  function Shipped(episodic: string -> bool): Spelling {
    Spelling(FAKE_SITES, FAKE_RULES, Combined(FIRST, SECOND), (b: string, i: nat, e: bool) => Pair(b, Details(i, e)),
             (t: string, n: nat) => PathOf(t, n), episodic)
  }

  /** All that matters of a spelling for titles and paths. */
  ghost predicate AsShipped(sp: Spelling) {
    && sp.bases == Combined(FIRST, SECOND) && DetailsFollow(sp, Details)
    && forall t, n :: sp.path(t, n) == PathOf(t, n)
  }

  lemma ShippedIsShipped(episodic: string -> bool)
    ensures AsShipped(Shipped(episodic))
  {
  }

  lemma UntitledIsNoWord()
    ensures "Untitled" !in FIRST
  {
    forall i: nat { FirstRanked(i); }
    var word := "Untitled";
    assert FirstRank(word) == 25;
    assert FIRST[25] == "Redmoor" != word;
  }

  lemma BuiltFromShippedWords(sp: Spelling)
    requires AsShipped(sp)
    ensures BuiltFrom(sp, FIRST, SECOND, Details) && Distinct(sp.bases) && |sp.bases| == 616
  {
    WordsAreDistinct();
    BasesDiffer(sp, FIRST, SECOND, Details);
  }

  /** Two title requests of a run get the same title exactly when 616 titles and
      paths were asked for before the earlier of them. */
  lemma ShippedTitlesEqualIff(sp: Spelling, run: seq<Request>, i: nat, j: nat)
    requires AsShipped(sp) && i < j < |run| && run[i].kind == Title && run[j].kind == Title
    ensures Answer(sp, run, i) == Answer(sp, run, j) <==> TitleRequests(run[..i]) >= 616
  {
    BuiltFromShippedWords(sp);
    UntitledIsNoWord();
    WordsAreDistinct();
    TitlesEqualIff(sp, FIRST, SECOND, Details, run, i, j);
  }

  /** 618 times the same title: the last two answers are the same. */
  lemma ShippedTitlesRepeat(sp: Spelling, run: seq<Request>)
    requires AsShipped(sp) && |run| == 618 && forall k :: 0 <= k < 618 ==> run[k] == Request("", Title)
    ensures Answer(sp, run, 616) == Answer(sp, run, 617)
  {
    AllTitles(run, 616);
    ShippedTitlesEqualIff(sp, run, 616, 617);
  }

  lemma {:induction false} AllTitles(run: seq<Request>, n: nat)
    requires n <= |run| && forall k :: 0 <= k < n ==> run[k].kind == Title
    ensures TitleRequests(run[..n]) == n
  {
    if n > 0 {
      assert run[..n][..n - 1] == run[..n - 1];
      AllTitles(run, n - 1);
    }
  }

  // ------------------------------------------ what is left of a title in a path

  lemma {:induction false} CutWord(a: string, c: char)
    requires OneWord(a)
    ensures CutAt(a, c) == a
  {
    if |a| >= 2 {
      assert a[0] != ' ';
      assert OneWord(a[1..]);
      CutWord(a[1..], c);
    }
  }

  lemma PairTail(a: string, s: string)
    requires a != ""
    ensures Pair(a, s)[1..] == Pair(a[1..], s) && Pair(a, s)[0] == a[0]
    ensures forall t :: [a[0]] + Pair(a[1..], t) == Pair(a, t)
  {
    forall t ensures [a[0]] + Pair(a[1..], t) == Pair(a, t) { assert a == [a[0]] + a[1..]; }
  }

  /** Cutting behind one word cuts there or further on. */
  lemma {:induction false} CutPair(a: string, s: string, c: char)
    requires OneWord(a) && s != ""
    ensures CutAt(Pair(a, s), c) == if s[0] == c then a else Pair(a, CutAt(s, c))
  {
    if a == "" {
      assert Pair(a, s)[1..] == s && Pair(a, s)[0] == ' ';
      assert [' '] + CutAt(s, c) == Pair(a, CutAt(s, c));
    } else {
      PairTail(a, s);
      assert a[0] != ' ' && OneWord(a[1..]);
      CutPair(a[1..], s, c);
      assert [a[0]] + a[1..] == a;
    }
  }

  /** A second word in S goes with the cut; any other stays. */
  function StemOf(x: string, y: string): string
    requires y != ""
  {
    if y[0] == 'S' then x else Pair(x, y)
  }

  lemma StemOfRelease(x: string, y: string, d: string)
    requires OneWord(x) && OneWord(y) && y != "" && y[0] != '(' && d != "" && (d[0] == 'S' || d[0] == '(')
    ensures Stem(Pair(Pair(x, y), d)) == StemOf(x, y)
  {
    TwoWordsThen(x, y, d);
    CutPair(x, Pair(y, d), 'S');
    assert Pair(y, d)[0] == y[0];
    if y[0] == 'S' {
      CutWord(x, '(');
    } else {
      CutPair(y, d, 'S');
      if d[0] == 'S' {
        CutPair(x, y, '(');
        CutWord(y, '(');
      } else {
        var d' := CutAt(d, 'S');
        CutPair(x, Pair(y, d'), '(');
        assert Pair(y, d')[0] == y[0];
        CutPair(y, d', '(');
      }
    }
  }

  lemma SeasonPathParts(season: nat, stem: string, episode: nat)
    requires season < 10 && episode < 100
    ensures var p := SeasonPath(season, stem, episode);
            && |p| == |stem| + 22 && p[9..|p| - 13] == stem && p[7] == DigitChar(season)
            && p[|p| - 6] == DigitChar(episode / 10) && p[|p| - 5] == DigitChar(episode % 10)
  {
    var head, tail := "Season " + Decimal(season) + "/", " - S" + TwoDigits(season) + "E" + TwoDigits(episode) + ".mkv";
    var p := head + stem + tail;
    assert |head| == 9 && |tail| == 13 && head[7] == DigitChar(season);
    assert tail[7] == TwoDigits(episode)[0] && tail[8] == TwoDigits(episode)[1];
    assert p[..9] == head && p[9..|p| - 13] == stem && p[|p| - 13..] == tail;
    assert p[|p| - 6] == tail[7] && p[|p| - 5] == tail[8];
  }

  /** The counters give the same season and episode, as every 55th does. */
  predicate SameNumbers(n: nat, m: nat) { n % 5 == m % 5 && n % 11 == m % 11 }

  lemma SeasonPathInjective(season: nat, stem: string, episode: nat, season': nat, stem': string, episode': nat)
    requires season < 10 && episode < 100 && season' < 10 && episode' < 100
    ensures SeasonPath(season, stem, episode) == SeasonPath(season', stem', episode') <==>
            season == season' && stem == stem' && episode == episode'
  {
    SeasonPathParts(season, stem, episode);
    SeasonPathParts(season', stem', episode');
    assert DigitChar(season) == DigitChar(season') ==> season == season';
    assert DigitChar(episode / 10) == DigitChar(episode' / 10) && DigitChar(episode % 10) == DigitChar(episode' % 10) ==>
        episode == episode';
  }

  lemma PathsEqualIff(t: string, n: nat, u: string, m: nat)
    ensures PathOf(t, n) == PathOf(u, m) <==> Stem(t) == Stem(u) && SameNumbers(n, m)
  {
    SeasonPathInjective(n % 5 + 1, Stem(t), n % 11 + 1, m % 5 + 1, Stem(u), m % 11 + 1);
  }

  /** The first path of all. */
  lemma FirstPath()
    ensures PathOf(Pair(Pair("Northwind", "Hollow"), Details(0, false)), 0) == "Season 1/Northwind Hollow - S01E01.mkv"
  {
    hide FilmDetails, Pair, CutAt, SeasonPath;
    var a, b := "Northwind", "Hollow";
    StemOfRelease(a, b, FilmDetails(0));
    FirstStem(Stem(Pair(Pair(a, b), FilmDetails(0))));
  }

  lemma FirstStem(stem: string)
    requires stem == Pair("Northwind", "Hollow")
    ensures SeasonPath(1, stem, 1) == "Season 1/Northwind Hollow - S01E01.mkv"
  {
    assert stem == "Northwind Hollow";
  }

  /** Season and episode of a path go on with the count of names, in fives and elevens;
      the stem of the title stands between them. */
  lemma PathNumbers(title: string, n: nat)
    ensures var p := PathOf(title, n);
            && |p| == |Stem(title)| + 22 && p[9..|p| - 13] == Stem(title)
            && DigitValue(p[7]) == 1 + n % 5 && 10 * DigitValue(p[|p| - 6]) + DigitValue(p[|p| - 5]) == 1 + n % 11
  {
    SeasonPathParts(n % 5 + 1, Stem(title), n % 11 + 1);
  }

  // ------------------------------------------------------ paths over a whole run

  /** The base the i-th request is served from, and the names on record by then. */
  function BaseAt(sp: Spelling, run: seq<Request>, i: nat): Option<string>
    requires i < |run|
  {
    BaseNumber(sp, TitleRequests(run[..i]))
  }

  function Recorded(sp: Spelling, run: seq<Request>, i: nat): nat
    requires i < |run|
  {
    |After(sp, run[..i]).byOriginal|
  }

  /** A title as it is built: two words and the details behind them. */
  datatype Invented = Invented(x: string, y: string, details: string) {
    predicate WellFormed() {
      Capitalised(x) && Capitalised(y) && details != "" && (details[0] == 'S' || details[0] == '(')
    }

    function Words(): string { Pair(x, y) }

    function Text(): string { Pair(Words(), details) }
  }

  /** The two words of a base. */
  lemma BaseWords(b: string) returns (x: string, y: string)
    requires b in Combined(FIRST, SECOND)
    ensures b == Pair(x, y) && Capitalised(x) && Capitalised(y) && x in FIRST
  {
    WordsAreDistinct();
    x, y := WordsOf(FIRST, SECOND, b);
    var i: nat :| i < |FIRST| && FIRST[i] == x;
    var j: nat :| j < |SECOND| && SECOND[j] == y;
    FirstCapitalised(i);
    SecondWord(j);
  }

  lemma PathAnswer(sp: Spelling, run: seq<Request>, i: nat)
    requires AsShipped(sp) && i < |run| && run[i].kind == PathName
    ensures Answer(sp, run, i) ==
            PathOf(TitleNumber(sp, TitleRequests(run[..i]), sp.episodic(run[i].original)), Recorded(sp, run, i))
  {
    BuiltFromShippedWords(sp);
    TitleOfARequest(sp, run, i);
    NextTitleKeeps(After(sp, run[..i]), sp, sp.episodic(run[i].original));
  }

  /** The text of a title made from a base. */
  lemma TitleText(sp: Spelling, t: nat, e: bool) returns (title: Invented)
    requires AsShipped(sp) && t < |sp.bases|
    ensures title.WellFormed() && title.x in FIRST && title.Words() == sp.bases[t] && title.Text() == TitleNumber(sp, t, e)
  {
    var x, y := BaseWords(sp.bases[t]);
    title := Invented(x, y, Details(t, e));
  }

  /** Different bases leave the same stem exactly when they share the first word
      and the second words both start with S. */
  lemma StemsEqualIff(x: string, y: string, x': string, y': string)
    requires Capitalised(x) && Capitalised(y) && Capitalised(x') && Capitalised(y') && (x != x' || y != y')
    ensures StemOf(x, y) == StemOf(x', y') <==> x == x' && y[0] == 'S' && y'[0] == 'S'
  {
    assert Pair(x, y)[|x|] == ' ' && Pair(x', y')[|x'|] == ' ';
    if y[0] != 'S' && y'[0] != 'S' && Pair(x, y) == Pair(x', y') { PairInjective(x, y, x', y'); }
  }

  /** How long the first word of a text is. */
  function HeadLength(s: string): (n: nat)
    ensures n <= |s|
  {
    if s == "" || s[0] == ' ' then 0 else 1 + HeadLength(s[1..])
  }

  /** The first word of a base whose second word starts with S. */
  function LoneWord(b: string): Option<string> {
    var n := HeadLength(b);
    if n + 1 < |b| && b[n + 1] == 'S' then Some(b[..n]) else None
  }

  /** The bases share their first word, and both second words start with S. */
  predicate SameStem(a: string, b: string) { LoneWord(a).Some? && LoneWord(a) == LoneWord(b) }

  lemma {:induction false} HeadOfPair(x: string, y: string)
    requires OneWord(x)
    ensures HeadLength(Pair(x, y)) == |x|
  {
    if x == "" {
      assert Pair(x, y)[0] == ' ';
    } else {
      PairTail(x, y);
      assert x[0] != ' ' && OneWord(x[1..]);
      HeadOfPair(x[1..], y);
    }
  }

  lemma LoneWordOf(x: string, y: string)
    requires OneWord(x) && y != ""
    ensures LoneWord(Pair(x, y)) == if y[0] == 'S' then Some(x) else None
  {
    HeadOfPair(x, y);
    assert Pair(x, y)[..|x|] == x && Pair(x, y)[|x| + 1] == y[0];
  }

  lemma StemsMeetIff(t: Invented, u: Invented)
    requires t.WellFormed() && u.WellFormed() && t.Words() != u.Words()
    ensures Stem(t.Text()) == Stem(u.Text()) <==> SameStem(t.Words(), u.Words())
  {
    StemOfRelease(t.x, t.y, t.details);
    StemOfRelease(u.x, u.y, u.details);
    StemsEqualIff(t.x, t.y, u.x, u.y);
    LoneWordOf(t.x, t.y);
    LoneWordOf(u.x, u.y);
  }

  /** Nothing is cut from what stands for a title when the bases are used up. */
  lemma StemOfUntitled(n: nat)
    ensures Stem(Untitled(n)) == Untitled(n) == Pair("Untitled", Pair("Release", Decimal(n)))
  {
    var a, b, d := "Untitled", "Release", Decimal(n);
    assert Untitled(n) == Pair(a, Pair(b, d));
    assert OneWord(a) && OneWord(b) && OneWord(d) && d[0] in d;
    NothingCut(a, b, d, 'S');
    NothingCut(a, b, d, '(');
  }

  lemma NothingCut(a: string, b: string, d: string, c: char)
    requires OneWord(a) && OneWord(b) && OneWord(d) && b != "" && b[0] != c && d != "" && d[0] != c
    ensures CutAt(Pair(a, Pair(b, d)), c) == Pair(a, Pair(b, d))
  {
    assert Pair(b, d)[0] == b[0];
    CutPair(a, Pair(b, d), c);
    CutPair(b, d, c);
    CutWord(d, c);
  }

  lemma UntitledHasItsOwnStem(t: Invented, n: nat)
    requires t.WellFormed() && t.x in FIRST
    ensures Stem(t.Text()) != Stem(Untitled(n))
  {
    StemOfRelease(t.x, t.y, t.details);
    StemOfUntitled(n);
    UntitledIsNoWord();
    OtherFirstWord(t.x, t.y, "Untitled", Pair("Release", Decimal(n)));
  }

  lemma OtherFirstWord(x: string, y: string, a: string, rest: string)
    requires OneWord(x) && OneWord(a) && y != "" && x != a
    ensures StemOf(x, y) != Pair(a, rest)
  {
    assert Pair(a, rest)[|a|] == ' ';
    if Pair(x, y) == Pair(a, rest) { PairInjective(x, y, a, rest); }
  }

  /** The bases leave the same stem, or there are none left for either request. */
  predicate SameStemAt(a: Option<string>, b: Option<string>) {
    if a.Some? && b.Some? then SameStem(a.value, b.value) else a == b
  }

  lemma StemsOfTitlesEqualIff(sp: Spelling, t: nat, e: bool, u: nat, f: bool)
    requires AsShipped(sp) && t < u
    ensures Stem(TitleNumber(sp, t, e)) == Stem(TitleNumber(sp, u, f)) <==> SameStemAt(BaseNumber(sp, t), BaseNumber(sp, u))
  {
    BuiltFromShippedWords(sp);
    if t < |sp.bases| {
      var title := TitleText(sp, t, e);
      if u < |sp.bases| {
        var other := TitleText(sp, u, f);
        StemsMeetIff(title, other);
      } else {
        UntitledHasItsOwnStem(title, |sp.bases|);
      }
    }
  }

  /** Two paths of a run coincide exactly when the names recorded by then give the
      same season and episode, and either both bases share a first word and have
      second words that start with S, or the bases were used up before both. */
  lemma PathsOfARunEqualIff(sp: Spelling, run: seq<Request>, i: nat, j: nat)
    requires AsShipped(sp) && i < j < |run| && run[i].kind == PathName && run[j].kind == PathName
    ensures Answer(sp, run, i) == Answer(sp, run, j) <==>
            SameStemAt(BaseAt(sp, run, i), BaseAt(sp, run, j)) && SameNumbers(Recorded(sp, run, i), Recorded(sp, run, j))
  {
    var t, u := TitleRequests(run[..i]), TitleRequests(run[..j]);
    var e, f := sp.episodic(run[i].original), sp.episodic(run[j].original);
    PathAnswer(sp, run, i);
    PathAnswer(sp, run, j);
    TitleRequestsGrow(run, i, j);
    StemsOfTitlesEqualIff(sp, t, e, u, f);
    PathsEqualIff(TitleNumber(sp, t, e), Recorded(sp, run, i), TitleNumber(sp, u, f), Recorded(sp, run, j));
  }

  // ----------------------------------------------------- two paths that coincide

  /** A registry with `n` names on record, none of them in the way of the next path
      or of a site with a name of `n` letters. */
  ghost predicate Ready(names: Names, n: nat) {
    && |names.byOriginal| == n
    && (forall k :: k in names.byOriginal ==> if k.Counted? then k.n < n else |k.original| < n)
  }

  lemma PathIsRecorded(names: Names, sp: Spelling, n: nat, original: string)
    requires Ready(names, n)
    ensures Ready(Serve(names, sp, Request(original, PathName)).0, n + 1)
  {
    NextTitleKeeps(names, sp, sp.episodic(original));
  }

  lemma NewSiteIsRecorded(names: Names, sp: Spelling, n: nat, original: string)
    requires Ready(names, n) && |original| == n > 0 && Strip(original) == original
    ensures Ready(Serve(names, sp, Request(original, Site)).0, n + 1)
  {
  }

  lemma {:induction false} FirstRow(first: seq<string>, second: seq<string>, j: nat)
    requires first != [] && j < |second|
    ensures j < |Combined(first, second)| && Combined(first, second)[j] == Pair(first[0], second[j])
  {
    if |first| > 1 { FirstRow(first[..|first| - 1], second, j); }
  }

  /** Seventeen paths, 46 new sites and one more path. */
  function CollidingRequest(k: nat): Request {
    if k < 17 || k == 63 then Request("", PathName) else Request(Repeat('x', k), Site)
  }

  ghost predicate Colliding(run: seq<Request>) {
    |run| == 64 && forall k :: 0 <= k < 64 ==> run[k] == CollidingRequest(k)
  }

  lemma {:induction false} CollidingRunIsReady(sp: Spelling, run: seq<Request>, k: nat)
    requires Colliding(run) && k <= 63
    ensures Ready(After(sp, run[..k]), k)
  {
    hide Serve;
    if k > 0 {
      CollidingRunIsReady(sp, run, k - 1);
      AfterSnoc(sp, run, k - 1);
      if k <= 17 {
        PathIsRecorded(After(sp, run[..k - 1]), sp, k - 1, "");
      } else {
        NewSiteIsRecorded(After(sp, run[..k - 1]), sp, k - 1, Repeat('x', k - 1));
      }
    }
  }

  lemma {:induction false} CollidingTitles(run: seq<Request>, k: nat)
    requires Colliding(run) && k <= 63
    ensures TitleRequests(run[..k]) == if k < 17 then k else 17
  {
    if k > 0 {
      assert run[..k][..k - 1] == run[..k - 1];
      CollidingTitles(run, k - 1);
    }
  }

  lemma NorthwindWords(a: Option<string>, b: Option<string>)
    requires a == Some(Pair(FIRST[0], SECOND[8])) && b == Some(Pair(FIRST[0], SECOND[17]))
    ensures SameStemAt(a, b)
  {
    FirstCapitalised(0);
    LoneWordOf(FIRST[0], SECOND[8]);
    LoneWordOf(FIRST[0], SECOND[17]);
  }

  lemma NorthwindBases(sp: Spelling)
    requires AsShipped(sp)
    ensures SameStemAt(BaseNumber(sp, 8), BaseNumber(sp, 17))
  {
    FirstRow(FIRST, SECOND, 8);
    FirstRow(FIRST, SECOND, 17);
    NorthwindWords(BaseNumber(sp, 8), BaseNumber(sp, 17));
  }

  lemma CollidingStems(sp: Spelling, run: seq<Request>, i: nat, j: nat)
    requires AsShipped(sp) && Colliding(run) && i == 8 && j == 63
    ensures SameStemAt(BaseAt(sp, run, i), BaseAt(sp, run, j))
  {
    CollidingTitles(run, i);
    CollidingTitles(run, j);
    NorthwindBases(sp);
  }

  lemma CollidingNumbers(sp: Spelling, run: seq<Request>, i: nat, j: nat)
    requires Colliding(run) && i == 8 && j == 63
    ensures SameNumbers(Recorded(sp, run, i), Recorded(sp, run, j))
  {
    hide After, Colliding;
    CollidingRunIsReady(sp, run, i);
    CollidingRunIsReady(sp, run, j);
  }

  /** So paths are not always different: "Northwind Sound" and "Northwind Station"
      give the same one when 55 names lie between them. */
  lemma PathsCollide(sp: Spelling, run: seq<Request>, i: nat, j: nat)
    requires AsShipped(sp) && Colliding(run) && i == 8 && j == 63
    ensures run[i].kind == run[j].kind == PathName && Answer(sp, run, i) == Answer(sp, run, j)
  {
    CollidingStems(sp, run, i, j);
    CollidingNumbers(sp, run, i, j);
    PathsOfARunEqualIff(sp, run, i, j);
  }

  // ------------------------------------------------- all of it is plain ASCII

  predicate Ascii(s: string) { forall i :: 0 <= i < |s| ==> s[i] < '\U{0080}' }

  lemma FirstAscii(i: nat)
    ensures i < |FIRST| ==> Ascii(FIRST[i])
  {
  }

  lemma SecondAscii(i: nat)
    ensures i < |SECOND| ==> Ascii(SECOND[i])
  {
  }

  lemma LabelsAscii(i: nat)
    ensures Ascii(QUALITY[i % |QUALITY|]) && Ascii(GROUPS[i % |GROUPS|]) && Ascii(SOURCE[i % |SOURCE|])
  {
  }

  lemma PoolsAreAscii(name: string)
    ensures name in FAKE_SITES || name in FAKE_RULES ==> Ascii(name)
  {
  }

  lemma {:induction false} DecimalAscii(n: nat)
    ensures Ascii(Decimal(n))
  {
    if n >= 10 { DecimalAscii(n / 10); }
  }

  lemma EpisodeAscii(i: nat)
    ensures Ascii(EpisodeDetails(i))
  {
    LabelsAscii(i);
  }

  lemma FilmAscii(i: nat)
    ensures Ascii(FilmDetails(i))
  {
    hide Film;
    LabelsAscii(i);
    FilmTextAscii(2019 + i % 8, QUALITY[i % |QUALITY|], SOURCE[i % |SOURCE|]);
  }

  lemma FilmTextAscii(year: nat, quality: string, source: string)
    requires Ascii(quality) && Ascii(source)
    ensures Ascii(Film(year, quality, source))
  {
    DecimalAscii(year);
  }

  lemma DetailsAscii(i: nat, episode: bool)
    ensures Ascii(Details(i, episode))
  {
    if episode { EpisodeAscii(i); } else { FilmAscii(i); }
  }

  lemma PairAscii(a: string, b: string)
    requires Ascii(a) && Ascii(b)
    ensures Ascii(Pair(a, b))
  {
  }

  lemma BaseAscii(k: nat)
    requires k < |Combined(FIRST, SECOND)|
    ensures Ascii(Combined(FIRST, SECOND)[k])
  {
    hide Ascii, Pair;
    var f, g := CombinedMembers(FIRST, SECOND, k);
    FirstAscii(f);
    SecondAscii(g);
    PairAscii(FIRST[f], SECOND[g]);
  }

  lemma ReleaseAscii(sp: Spelling, b: string, i: nat, episode: bool)
    requires AsShipped(sp) && b in sp.bases
    ensures Ascii(sp.release(b, i, episode))
  {
    hide Ascii, Pair, Details;
    var k :| 0 <= k < |sp.bases| && sp.bases[k] == b;
    BaseAscii(k);
    DetailsAscii(i, episode);
    PairAscii(b, Details(i, episode));
  }

  lemma TitlesAreAscii(names: Names, sp: Spelling, episode: bool)
    requires AsShipped(sp)
    ensures Ascii(NextTitle(names, sp, episode).1)
  {
    var (next, title) := NextTitle(names, sp, episode);
    TitleComesFromBase(names, sp, episode);
    match NextBase(names, sp)
    case Some(b) =>
      var i :| title == sp.release(b, i, episode);
      ReleaseAscii(sp, b, i, episode);
    case None => DecimalAscii(next.cursor);
  }

  lemma {:induction false} CutAscii(s: string, c: char)
    requires Ascii(s)
    ensures Ascii(CutAt(s, c))
  {
    if |s| >= 2 && !(s[0] == ' ' && s[1] == c) { CutAscii(s[1..], c); }
  }

  lemma PathAscii(title: string, n: nat)
    requires Ascii(title)
    ensures Ascii(PathOf(title, n))
  {
    CutAscii(title, 'S');
    CutAscii(CutAt(title, 'S'), '(');
    DecimalAscii(n % 5 + 1);
  }

  lemma OtherNamesAreAscii(names: Names, sp: Spelling, original: string, kind: Kind)
    requires AsShipped(sp) && !IsStable(kind)
    ensures Ascii(NameFor(names, sp, original, kind).1)
  {
    var (next, title) := NextTitle(names, sp, sp.episodic(original));
    TitlesAreAscii(names, sp, sp.episodic(original));
    PathAscii(title, |next.byOriginal|);
  }
}
