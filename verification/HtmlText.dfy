/** Reducing an HTML fragment to text: apps/backend/src/common/html-text.ts. */
module HtmlText {
  import opened Sequences
  import opened Text

  // ------------------------------------------------------------- fixpoints

  /** Apply `step` until it changes nothing, at most `budget` times. */
  function Settled(s: string, step: string -> string, budget: nat): string
    decreases budget
  {
    if budget == 0 || step(s) == s then s else Settled(step(s), step, budget - 1)
  }

  method ToFixpoint(input: string, step: string -> string, budget: nat) returns (current: string)
    ensures current == Settled(input, step, budget)
  {
    current := input;
    for i := 0 to budget
      invariant Settled(current, step, budget - i) == Settled(input, step, budget)
    {
      var next := step(current);
      if next == current { return; }
      current := next;
    }
  }

  // ------------------------------------------------------------------- tags

  function FirstClose(s: string): (n: nat)
    requires '>' in s
    ensures n < |s| && s[n] == '>' && '>' !in s[..n]
  {
    if s[0] == '>' then 0
    else
      var n := FirstClose(s[1..]);
      assert s[..n + 1] == [s[0]] + s[1..][..n];
      n + 1
  }

  /** What follows the first `>`. */
  function AfterTag(s: string): (r: string)
    requires '>' in s
    ensures |r| < |s|
  {
    s[FirstClose(s) + 1..]
  }

  /** One pass of `replace(/<[^>]*>/g, '')`. */
  function RemoveTags(s: string): string {
    if s == "" then ""
    else if s[0] == '<' && '>' in s then RemoveTags(AfterTag(s))
    else [s[0]] + RemoveTags(s[1..])
  }

  const BUDGET: nat := 8

  function StripTags(s: string): string { Settled(s, RemoveTags, BUDGET) }

  /** No `<` has a `>` somewhere after it. */
  ghost predicate NoTag(s: string) {
    forall i, j :: 0 <= i < j < |s| && s[i] == '<' ==> s[j] != '>'
  }

  lemma {:induction false} NoCloseNoChange(s: string)
    requires '>' !in s
    ensures RemoveTags(s) == s
  {
    if s != "" { NoCloseNoChange(s[1..]); }
  }

  lemma {:induction false} OnePassLeavesNoTag(s: string)
    ensures NoTag(RemoveTags(s))
    decreases |s|
  {
    if s != "" {
      if s[0] == '<' && '>' in s {
        OnePassLeavesNoTag(AfterTag(s));
      } else if s[0] == '<' {
        NoCloseNoChange(s);
      } else {
        OnePassLeavesNoTag(s[1..]);
      }
    }
  }

  /** The strings a pass leaves alone are those without a tag. */
  lemma {:induction false} UnchangedExactlyWithoutTag(s: string)
    ensures RemoveTags(s) == s <==> NoTag(s)
  {
    OnePassLeavesNoTag(s);
    if NoTag(s) { NoTagNoChange(s); }
  }

  lemma {:induction false} NoTagNoChange(s: string)
    requires NoTag(s)
    ensures RemoveTags(s) == s
  {
    if s != "" {
      if s[0] == '<' { assert '>' !in s; }
      NoTagNoChange(s[1..]);
    }
  }

  /** One pass is already a fixpoint, so any budget of at least one gives it: the
      loop changes the string at most once. */
  lemma StripIsOnePass(s: string, budget: nat)
    requires budget > 0
    ensures Settled(s, RemoveTags, budget) == RemoveTags(s)
    ensures RemoveTags(RemoveTags(s)) == RemoveTags(s)
  {
    OnePassLeavesNoTag(s);
    NoTagNoChange(RemoveTags(s));
  }

  /** What a pass removes: the text before the first `<` is kept, the tag goes up
      to the first `>` after it, and the pass goes on behind that. Together with
      `UnchangedExactlyWithoutTag` this determines the pass on every string. */
  lemma {:induction false} RemovesFirstTag(x: string, t: string)
    requires '<' !in x && '>' in t
    ensures RemoveTags(x + ("<" + t)) == x + RemoveTags(AfterTag(t))
  {
    var rest := RemoveTags(AfterTag(t));
    if x == "" {
      TagFirst(t);
      assert x + ("<" + t) == "<" + t && x + rest == rest;
    } else {
      Cons(x, "<" + t);
      Cons(x, rest);
      RemovesFirstTag(x[1..], t);
    }
  }

  /** A tag inside a tag goes with it, up to the first `>`; no tag is put together
      from what is left on both sides. */
  lemma NestedTagIsNotRevealed(x: string, inner: string, rest: string)
    requires '<' !in x && '>' !in inner
    ensures StripTags(x + ("<" + (inner + (">" + rest)))) == x + RemoveTags(rest)
  {
    ClosesAt(inner, rest);
    RemovesFirstTag(x, inner + (">" + rest));
    StripIsOnePass(x + ("<" + (inner + (">" + rest))), BUDGET);
  }

  /** The example of the header comment: what is left is no tag. */
  lemma QuotedTagIsNotRevealed(s: string)
    requires s == "<scr<script>ipt>"
    ensures StripTags(s) == "ipt>"
  {
    var inner, rest := QuotedPieces(s);
    NestedTagIsNotRevealed("", inner, rest);
    NoTagNoChange(rest);
    assert "" + RemoveTags(rest) == RemoveTags(rest);
  }

  lemma QuotedPieces(s: string) returns (inner: string, rest: string)
    requires s == "<scr<script>ipt>"
    ensures s == "" + ("<" + (inner + (">" + rest))) && '>' !in inner && rest == "ipt>"
  {
    inner, rest := s[1..11], s[12..];
    assert inner == "scr<script";
  }

  lemma ClosesAt(inner: string, rest: string)
    requires '>' !in inner
    ensures var t := inner + (">" + rest); '>' in t && AfterTag(t) == rest
  {
    var t := inner + (">" + rest);
    assert t[|inner|] == '>';
    assert FirstClose(t) == |inner|;
  }

  lemma Cons(x: string, a: string)
    requires x != ""
    ensures [x[0]] + (x[1..] + a) == x + a
  {
  }

  lemma TagFirst(t: string)
    requires '>' in t
    ensures RemoveTags("<" + t) == RemoveTags(AfterTag(t))
  {
    var s := "<" + t;
    assert s[1..] == t && s[|t|] == t[|t| - 1];
    assert '>' in s by { assert s[FirstClose(t) + 1] == '>'; }
    AfterTagCons(t);
  }

  lemma AfterTagCons(t: string)
    requires '>' in t && '>' in "<" + t
    ensures AfterTag("<" + t) == AfterTag(t)
  {
    assert ("<" + t)[1..] == t;
  }

  // --------------------------------------------------------------- entities

  datatype Entity = Lt | Gt | Quot | Num39 | Apos | Nbsp | Amp

  function Decoded(e: Entity): char {
    match e
    case Lt => '<'
    case Gt => '>'
    case Quot => '"'
    case Num39 => '\''
    case Apos => '\''
    case Nbsp => ' '
    case Amp => '&'
  }

  function Zeros(s: string): (n: nat)
    ensures n <= |s| && (forall i :: 0 <= i < n ==> s[i] == '0') && (n < |s| ==> s[n] != '0')
  {
    if s != "" && s[0] == '0' then 1 + Zeros(s[1..]) else 0
  }

  function Fixed(pattern: string, s: string): nat { if pattern <= s then |pattern| else 0 }

  /** How much of `s` the entity's pattern matches at its start; 0 if it does not. */
  function MatchLength(e: Entity, s: string): (n: nat)
    ensures n <= |s|
  {
    match e
    case Lt => Fixed("&lt;", s)
    case Gt => Fixed("&gt;", s)
    case Quot => Fixed("&quot;", s)
    case Num39 =>
      if !("&#" <= s) then 0
      else
        var z := Zeros(s[2..]);
        if "39;" <= s[2 + z..] then z + 5 else 0
    case Apos => Fixed("&apos;", s)
    case Nbsp => Fixed("&nbsp;", s)
    case Amp => Fixed("&amp;", s)
  }

  /** `replace` with one global pattern. */
  function Replace(e: Entity, s: string): string {
    if s == "" then ""
    else if MatchLength(e, s) > 0 then [Decoded(e)] + Replace(e, s[MatchLength(e, s)..])
    else [s[0]] + Replace(e, s[1..])
  }

  function DecodeEntities(s: string): string {
    Replace(Amp, Replace(Nbsp, Replace(Apos, Replace(Num39, Replace(Quot, Replace(Gt, Replace(Lt, s)))))))
  }

  function HtmlToText(s: string): string { StripTags(DecodeEntities(StripTags(s))) }

  /** Nothing shaped like a tag survives, whatever the input. */
  lemma TextHasNoTag(s: string)
    ensures NoTag(HtmlToText(s))
  {
    var t := DecodeEntities(StripTags(s));
    StripIsOnePass(t, BUDGET);
    OnePassLeavesNoTag(t);
  }

  // --------------------------- seven passes are one simultaneous pass

  /** The entity that starts `s`, if one does. */
  function EntityAt(s: string): Option<Entity> {
    if MatchLength(Lt, s) > 0 then Some(Lt)
    else if MatchLength(Gt, s) > 0 then Some(Gt)
    else if MatchLength(Quot, s) > 0 then Some(Quot)
    else if MatchLength(Num39, s) > 0 then Some(Num39)
    else if MatchLength(Apos, s) > 0 then Some(Apos)
    else if MatchLength(Nbsp, s) > 0 then Some(Nbsp)
    else if MatchLength(Amp, s) > 0 then Some(Amp)
    else None
  }

  lemma MatchShape(e: Entity, s: string)
    requires MatchLength(e, s) > 0
    ensures MatchLength(e, s) >= 4 && s[0] == '&'
    ensures forall i :: 0 < i < MatchLength(e, s) ==> s[i] != '&' && !IsDecoded(s[i])
  {
    if e.Num39? {
      var z := Zeros(s[2..]);
      forall i | 0 < i < z + 5 ensures s[i] != '&' && !IsDecoded(s[i]) {
        if 2 <= i < 2 + z { assert s[i] == s[2..][i - 2]; }
        if i >= 2 + z { assert s[i] == s[2 + z..][i - 2 - z]; }
      }
    }
  }

  predicate IsDecoded(c: char) { c == '<' || c == '>' || c == '"' || c == '\'' || c == ' ' }

  /** The second and third characters tell the entities apart. */
  lemma MatchHead(e: Entity, s: string)
    requires MatchLength(e, s) > 0
    ensures |s| >= 4
    ensures match e {
              case Lt => s[1] == 'l'
              case Gt => s[1] == 'g'
              case Quot => s[1] == 'q'
              case Num39 => s[1] == '#'
              case Apos => s[1] == 'a' && s[2] == 'p'
              case Nbsp => s[1] == 'n'
              case Amp => s[1] == 'a' && s[2] == 'm'
            }
  {
  }

  lemma EntityAtExact(e: Entity, s: string)
    ensures MatchLength(e, s) > 0 <==> EntityAt(s) == Some(e)
  {
    if MatchLength(e, s) > 0 { MatchHead(e, s); }
    if EntityAt(s).Some? { MatchHead(EntityAt(s).value, s); }
  }

  lemma {:induction false} ZerosPrefix(s: string, t: string, n: nat)
    requires Zeros(s) < n <= |s|
    ensures Zeros(s[..n] + t) == Zeros(s)
  {
    if s[0] == '0' {
      assert (s[..n] + t)[1..] == s[1..][..n - 1] + t;
      ZerosPrefix(s[1..], t, n - 1);
    }
  }

  /** Whether a pattern matches depends on the matched part only. */
  lemma MatchDependsOnPrefix(e: Entity, s: string, t: string)
    requires MatchLength(e, s) > 0
    ensures MatchLength(e, s[..MatchLength(e, s)] + t) == MatchLength(e, s)
  {
    var n := MatchLength(e, s);
    var r := s[..n] + t;
    if e.Num39? {
      var z := Zeros(s[2..]);
      assert r[2..] == s[2..][..n - 2] + t;
      ZerosPrefix(s[2..], t, n - 2);
      assert r[2 + z..][..3] == s[2 + z..][..3];
    }
  }

  /** Replacing a set of entities in one left-to-right pass. */
  function ReplaceSet(es: set<Entity>, s: string): string {
    if s == "" then ""
    else match EntityAt(s)
      case Some(e) =>
        if e in es then [Decoded(e)] + ReplaceSet(es, s[MatchLength(e, s)..]) else [s[0]] + ReplaceSet(es, s[1..])
      case None => [s[0]] + ReplaceSet(es, s[1..])
  }

  lemma CopiesPlainHead(es: set<Entity>, s: string)
    requires s != "" && s[0] != '&'
    ensures ReplaceSet(es, s) == [s[0]] + ReplaceSet(es, s[1..])
  {
  }

  /** Text without `&` is copied. */
  lemma {:induction false} CopiesPlainText(es: set<Entity>, s: string, n: nat)
    requires n <= |s| && '&' !in s[..n]
    ensures ReplaceSet(es, s) == s[..n] + ReplaceSet(es, s[n..])
  {
    if n == 0 {
      assert s[0..] == s && s[..0] + ReplaceSet(es, s) == ReplaceSet(es, s);
    } else {
      assert s[0] in s[..n];
      CopiesPlainHead(es, s);
      assert s[1..][..n - 1] == s[..n][1..];
      CopiesPlainText(es, s[1..], n - 1);
      Regroup(s, n, ReplaceSet(es, s[n..]));
    }
  }

  lemma CopiesUpTo(es: set<Entity>, s: string, n: nat)
    requires 1 <= n <= |s| && (forall i :: 0 < i < n ==> s[i] != '&')
    requires ReplaceSet(es, s) == [s[0]] + ReplaceSet(es, s[1..])
    ensures ReplaceSet(es, s) == s[..n] + ReplaceSet(es, s[n..])
  {
    Regroup(s, n, ReplaceSet(es, s[n..]));
    CopiesPlainText(es, s[1..], n - 1);
  }

  lemma Regroup(s: string, n: nat, rest: string)
    requires 1 <= n <= |s|
    ensures [s[0]] + (s[1..][..n - 1] + rest) == s[..n] + rest && s[1..][n - 1..] == s[n..]
  {
  }

  /** An entity outside the set is copied whole. */
  lemma CopiesOtherEntity(es: set<Entity>, e: Entity, s: string)
    requires MatchLength(e, s) > 0 && e !in es
    ensures ReplaceSet(es, s) == s[..MatchLength(e, s)] + ReplaceSet(es, s[MatchLength(e, s)..])
  {
    EntityAtExact(e, s);
    MatchShape(e, s);
    CopiesUpTo(es, s, MatchLength(e, s));
  }

  lemma UndecodedHeadWasCopied(es: set<Entity>, s: string)
    requires Amp !in es && ReplaceSet(es, s) != "" && !IsDecoded(ReplaceSet(es, s)[0])
    ensures s != "" && ReplaceSet(es, s) == [s[0]] + ReplaceSet(es, s[1..])
  {
  }

  /** Output free of decoded characters was copied from the input. */
  lemma {:induction false} UndecodedWasCopied(es: set<Entity>, s: string, m: nat)
    requires Amp !in es && m <= |ReplaceSet(es, s)|
    requires forall i :: 0 <= i < m ==> !IsDecoded(ReplaceSet(es, s)[i])
    ensures m <= |s| && forall i :: 0 <= i < m ==> s[i] == ReplaceSet(es, s)[i]
  {
    if m > 0 {
      UndecodedHeadWasCopied(es, s);
      var r, u := ReplaceSet(es, s), ReplaceSet(es, s[1..]);
      assert forall i :: 0 <= i < |u| ==> u[i] == r[i + 1];
      UndecodedWasCopied(es, s[1..], m - 1);
      forall i | 0 <= i < m ensures s[i] == r[i] { if i > 0 { assert s[1..][i - 1] == u[i - 1]; } }
    }
  }

  /** Decoding a set does not create an occurrence of another entity. */
  lemma NoNewMatch(es: set<Entity>, e: Entity, s: string)
    requires s != "" && Amp !in es && MatchLength(e, s) == 0
    ensures MatchLength(e, [s[0]] + ReplaceSet(es, s[1..])) == 0
  {
    var u := ReplaceSet(es, s[1..]);
    var r := [s[0]] + u;
    if MatchLength(e, r) > 0 {
      MatchShape(e, r);
      MatchWasCopied(es, s, MatchLength(e, r));
      MatchDependsOnPrefix(e, r, s[MatchLength(e, r)..]);
    }
  }

  lemma MatchWasCopied(es: set<Entity>, s: string, n: nat)
    requires s != "" && Amp !in es && 1 <= n <= |ReplaceSet(es, s[1..])| + 1
    requires forall i :: 0 < i < n ==> !IsDecoded(([s[0]] + ReplaceSet(es, s[1..]))[i])
    ensures n <= |s| && ([s[0]] + ReplaceSet(es, s[1..]))[..n] + s[n..] == s
  {
    var u := ReplaceSet(es, s[1..]);
    assert forall i :: 0 <= i < |u| ==> u[i] == ([s[0]] + u)[i + 1];
    UndecodedWasCopied(es, s[1..], n - 1);
    assert forall i :: 0 < i < n ==> s[i] == s[1..][i - 1];
  }

  /** One more sequential replacement adds one entity to the simultaneous pass. */
  lemma {:induction false} OneMoreEntity(es: set<Entity>, e: Entity, s: string)
    requires Amp !in es && e !in es
    ensures Replace(e, ReplaceSet(es, s)) == ReplaceSet(es + {e}, s)
    decreases |s|
  {
    if s != "" {
      EntityAtExact(e, s);
      if MatchLength(e, s) > 0 {
        var n := MatchLength(e, s);
        CopiesOtherEntity(es, e, s);
        MatchDependsOnPrefix(e, s, ReplaceSet(es, s[n..]));
        assert (s[..n] + ReplaceSet(es, s[n..]))[n..] == ReplaceSet(es, s[n..]);
        OneMoreEntity(es, e, s[n..]);
      } else if EntityAt(s).Some? && EntityAt(s).value in es {
        var f := EntityAt(s).value;
        var rest := ReplaceSet(es, s[MatchLength(f, s)..]);
        NotAnEntity(e, Decoded(f), rest);
        OneMoreEntity(es, e, s[MatchLength(f, s)..]);
      } else {
        NoNewMatch(es, e, s);
        OneMoreEntity(es, e, s[1..]);
      }
    }
  }

  lemma NotAnEntity(e: Entity, c: char, rest: string)
    requires c != '&'
    ensures MatchLength(e, [c] + rest) == 0 && ([c] + rest)[1..] == rest
  {
    if MatchLength(e, [c] + rest) > 0 { MatchShape(e, [c] + rest); }
  }

  lemma {:induction false} NothingToReplace(s: string)
    ensures ReplaceSet({}, s) == s
  {
    if s != "" { NothingToReplace(s[1..]); }
  }

  /** All entities at once, left to right, never looking at its own output. */
  function Simultaneous(s: string): string {
    if s == "" then ""
    else match EntityAt(s)
      case Some(e) => [Decoded(e)] + Simultaneous(s[MatchLength(e, s)..])
      case None => [s[0]] + Simultaneous(s[1..])
  }

  lemma {:induction false} AllEntities(s: string)
    ensures ReplaceSet({Lt, Gt, Quot, Num39, Apos, Nbsp, Amp}, s) == Simultaneous(s)
    decreases |s|
  {
    if s != "" {
      match EntityAt(s)
      case Some(e) => AllEntities(s[MatchLength(e, s)..]);
      case None => AllEntities(s[1..]);
    }
  }

  /** The seven sequential replacements equal one simultaneous pass: no output of
      one replacement is ever read by another. */
  lemma DecodeIsSimultaneous(s: string)
    ensures DecodeEntities(s) == Simultaneous(s)
  {
    NothingToReplace(s);
    OneMoreEntity({}, Lt, s);
    assert {} + {Lt} == {Lt};
    OneMoreEntity({Lt}, Gt, s);
    assert {Lt} + {Gt} == {Lt, Gt};
    OneMoreEntity({Lt, Gt}, Quot, s);
    assert {Lt, Gt} + {Quot} == {Lt, Gt, Quot};
    OneMoreEntity({Lt, Gt, Quot}, Num39, s);
    assert {Lt, Gt, Quot} + {Num39} == {Lt, Gt, Quot, Num39};
    OneMoreEntity({Lt, Gt, Quot, Num39}, Apos, s);
    assert {Lt, Gt, Quot, Num39} + {Apos} == {Lt, Gt, Quot, Num39, Apos};
    OneMoreEntity({Lt, Gt, Quot, Num39, Apos}, Nbsp, s);
    assert {Lt, Gt, Quot, Num39, Apos} + {Nbsp} == {Lt, Gt, Quot, Num39, Apos, Nbsp};
    OneMoreEntity({Lt, Gt, Quot, Num39, Apos, Nbsp}, Amp, s);
    assert {Lt, Gt, Quot, Num39, Apos, Nbsp} + {Amp} == {Lt, Gt, Quot, Num39, Apos, Nbsp, Amp};
    AllEntities(s);
  }

  // ---------------------------------------------- one layer of escaping undone

  /** One character as it may be written: as itself, or as a reference. An
      ampersand cannot stand for itself; the apostrophe has one spelling for each
      number of leading zeros. */
  datatype Token = Plain(c: char) | Reference(e: Entity, zeros: nat)

  predicate Writable(ts: seq<Token>) { forall i :: 0 <= i < |ts| ==> ts[i] != Plain('&') }

  function Spelled(t: Token): string {
    match t
    case Plain(c) => [c]
    case Reference(Lt, _) => "&lt;"
    case Reference(Gt, _) => "&gt;"
    case Reference(Quot, _) => "&quot;"
    case Reference(Num39, zeros) => "&#" + (Repeat('0', zeros) + "39;")
    case Reference(Apos, _) => "&apos;"
    case Reference(Nbsp, _) => "&nbsp;"
    case Reference(Amp, _) => "&amp;"
  }

  function Meant(t: Token): char {
    match t
    case Plain(c) => c
    case Reference(Lt, _) => '<'
    case Reference(Gt, _) => '>'
    case Reference(Quot, _) => '"'
    case Reference(Num39, _) => '\''
    case Reference(Apos, _) => '\''
    case Reference(Nbsp, _) => ' '
    case Reference(Amp, _) => '&'
  }

  function Source(ts: seq<Token>): string { if ts == [] then "" else Spelled(ts[0]) + Source(ts[1..]) }

  function Meaning(ts: seq<Token>): string { if ts == [] then "" else [Meant(ts[0])] + Meaning(ts[1..]) }

  lemma {:induction false} ZerosOf(n: nat, rest: string)
    requires rest != "" && rest[0] != '0'
    ensures Zeros(Repeat('0', n) + rest) == n
  {
    if n == 0 {
      assert Repeat('0', n) + rest == rest;
    } else {
      assert (Repeat('0', n) + rest)[1..] == Repeat('0', n - 1) + rest;
      ZerosOf(n - 1, rest);
    }
  }

  lemma NumericMatches(zeros: string, rest: string)
    requires zeros == Repeat('0', |zeros|)
    ensures MatchLength(Num39, "&#" + (zeros + "39;") + rest) == |zeros| + 5
  {
    var s, tail := "&#" + (zeros + "39;") + rest, "39;" + rest;
    ZerosOf(|zeros|, tail);
    assert s[2..] == zeros + tail;
    assert s[2 + |zeros|..] == tail;
  }

  lemma FixedMatches(p: string, rest: string)
    ensures Fixed(p, p + rest) == |p|
  {
  }

  lemma ReferenceMatches(e: Entity, zeros: nat, rest: string)
    ensures var t := Spelled(Reference(e, zeros)); MatchLength(e, t + rest) == |t| > 0
  {
    if e.Num39? {
      NumericMatches(Repeat('0', zeros), rest);
    } else {
      FixedMatches(Spelled(Reference(e, zeros)), rest);
    }
  }

  lemma TokenDecodes(t: Token, rest: string)
    requires t != Plain('&')
    ensures Simultaneous(Spelled(t) + rest) == [Meant(t)] + Simultaneous(rest)
  {
    var s := Spelled(t) + rest;
    assert s[|Spelled(t)|..] == rest;
    if t.Reference? {
      ReferenceMatches(t.e, t.zeros, rest);
      EntityAtExact(t.e, s);
    } else if EntityAt(s).Some? {
      MatchShape(EntityAt(s).value, s);
    }
  }

  /** However a text is written with the seven entities, decoding gives what was
      meant, and decodes nothing twice. */
  lemma {:induction false} DecodeReadsEverySpelling(ts: seq<Token>)
    requires Writable(ts)
    ensures DecodeEntities(Source(ts)) == Meaning(ts)
  {
    DecodeIsSimultaneous(Source(ts));
    if ts != [] {
      TokenDecodes(ts[0], Source(ts[1..]));
      DecodeReadsEverySpelling(ts[1..]);
      DecodeIsSimultaneous(Source(ts[1..]));
    }
  }

  function EscapeChar(c: char): string {
    match c
    case '&' => "&amp;"
    case '<' => "&lt;"
    case '>' => "&gt;"
    case '"' => "&quot;"
    case '\'' => "&#39;"
    case _ => [c]
  }

  /** The reference escaper. */
  function Escape(s: string): string {
    if s == "" then "" else EscapeChar(s[0]) + Escape(s[1..])
  }

  function EscapeToken(c: char): Token {
    match c
    case '&' => Reference(Amp, 0)
    case '<' => Reference(Lt, 0)
    case '>' => Reference(Gt, 0)
    case '"' => Reference(Quot, 0)
    case '\'' => Reference(Num39, 0)
    case _ => Plain(c)
  }

  lemma EscapeIsSpelling(c: char)
    ensures EscapeChar(c) == Spelled(EscapeToken(c)) && Meant(EscapeToken(c)) == c && EscapeToken(c) != Plain('&')
  {
    if c == '\'' { assert Repeat('0', 0) + "39;" == "39;"; }
  }

  lemma EscapedCharDecodes(c: char, rest: string)
    ensures Simultaneous(EscapeChar(c) + rest) == [c] + Simultaneous(rest)
  {
    EscapeIsSpelling(c);
    TokenDecodes(EscapeToken(c), rest);
  }

  /** Decoding undoes exactly one layer of escaping, of any string. */
  lemma {:induction false} DecodeUndoesEscape(s: string)
    ensures DecodeEntities(Escape(s)) == s
  {
    DecodeIsSimultaneous(Escape(s));
    if s != "" {
      EscapedCharDecodes(s[0], Escape(s[1..]));
      DecodeUndoesEscape(s[1..]);
      DecodeIsSimultaneous(Escape(s[1..]));
    }
  }

  // ------------------------------------------------- what text is extracted

  lemma {:induction false} EscapedHasNoOpen(x: string)
    ensures '<' !in Escape(x)
  {
    if x != "" { EscapedHasNoOpen(x[1..]); }
  }

  /** Text written with the reference escaper comes out as it was meant, except that
      what is shaped like a tag in it is lost: the decoding happens, and it happens
      before the second strip. */
  lemma EscapedTextComesOut(x: string)
    ensures HtmlToText(Escape(x)) == RemoveTags(x)
    ensures NoTag(x) ==> HtmlToText(Escape(x)) == x
  {
    EscapedHasNoOpen(x);
    StripIsOnePass(Escape(x), BUDGET);
    NoTagNoChange(Escape(x));
    DecodeUndoesEscape(x);
    StripIsOnePass(x, BUDGET);
    UnchangedExactlyWithoutTag(x);
  }

  lemma {:induction false} TextBeforeTagsIsKept(x: string, rest: string)
    requires '<' !in x
    ensures RemoveTags(x + rest) == x + RemoveTags(rest)
  {
    if x == "" {
      assert x + rest == rest && x + RemoveTags(rest) == RemoveTags(rest);
    } else {
      assert (x + rest)[1..] == x[1..] + rest;
      TextBeforeTagsIsKept(x[1..], rest);
      Cons(x, RemoveTags(rest));
    }
  }

  /** Whatever stands in the first tag, entities included, is gone before anything is
      decoded: the text is the same without it. */
  lemma TagsGoFirst(x: string, inner: string, rest: string)
    requires '<' !in x && '>' !in inner
    ensures HtmlToText(x + ("<" + (inner + (">" + rest)))) == HtmlToText(x + rest)
  {
    NestedTagIsNotRevealed(x, inner, rest);
    TextBeforeTagsIsKept(x, rest);
    StripIsOnePass(x + rest, BUDGET);
  }

  /** In general: tags, entities, tags, in one pass each. */
  lemma TextIsThreePasses(s: string)
    ensures HtmlToText(s) == RemoveTags(Simultaneous(RemoveTags(s)))
  {
    StripIsOnePass(s, BUDGET);
    DecodeIsSimultaneous(RemoveTags(s));
    StripIsOnePass(DecodeEntities(RemoveTags(s)), BUDGET);
  }

  /** Nothing but the spellings of an entity is ever decoded as that entity. */
  lemma OnlySpellingsMatch(e: Entity, s: string)
    ensures MatchLength(e, s) > 0 <==> exists zeros: nat :: Spelled(Reference(e, zeros)) <= s
  {
    if MatchLength(e, s) > 0 {
      var zeros := if e.Num39? then Zeros(s[2..]) else 0;
      SpellingIsThere(e, s, zeros);
      assert Spelled(Reference(e, zeros)) <= s;
    }
    if exists zeros: nat :: Spelled(Reference(e, zeros)) <= s {
      var zeros: nat :| Spelled(Reference(e, zeros)) <= s;
      var t := Spelled(Reference(e, zeros));
      assert s == t + s[|t|..];
      ReferenceMatches(e, zeros, s[|t|..]);
    }
  }

  lemma SpellingIsThere(e: Entity, s: string, zeros: nat)
    requires MatchLength(e, s) > 0 && zeros == if e.Num39? then Zeros(s[2..]) else 0
    ensures Spelled(Reference(e, zeros)) <= s
  {
    if e.Num39? {
      assert s[..2] == "&#" && s[2..][..zeros] == Repeat('0', zeros) && s[2 + zeros..][..3] == "39;";
      assert s == s[..2] + (s[2..][..zeros] + s[2 + zeros..][..3]) + s[5 + zeros..];
    }
  }
}
