/** Resolving a context into grouped, ordered actions: packages/shared/src/actions.ts. */
module ActionResolution {
  import opened Sequences

  /** Entity types are compared for equality only. */
  type EntityType = string

  datatype Group =
    | Media | Playback | Metadata | Artwork | Subtitles | Versions | Collections
    | Analytics | Maintenance | Export | Administration | Destructive

  const GROUP_ORDER: seq<Group> := [
    Media, Playback, Metadata, Artwork, Subtitles, Versions, Collections,
    Analytics, Maintenance, Export, Administration, Destructive]

  datatype Arity = NoSelection | Single | Multi | AnySelection

  datatype Unavailable = Hide | Disable

  datatype Reason = EntityCapability | MaxSelection

  datatype EntityRef = EntityRef(kind: EntityType, id: string, capabilities: Option<set<string>>)

  /** The fields resolution reads; icon, destructive and async are carried along. */
  datatype Action = Action(
    id: string, group: Group, entityTypes: seq<EntityType>, arity: Arity, operationsOnly: bool,
    requiresCapability: Option<string>, whenUnavailable: Unavailable, maxSelection: Option<int>, order: int)

  datatype Context = Context(selection: seq<EntityRef>, operationsMode: bool)

  datatype Verdict = Verdict(action: Action, enabled: bool, reason: Option<Reason>)

  datatype Section = Section(group: Group, verdicts: seq<Verdict>)

  // --------------------------------------------------------- applicability

  /** The types present, each once, in order of first appearance. */
  function SelectionTypes(selection: seq<EntityRef>): (r: seq<EntityType>)
    ensures forall t :: t in r <==> exists e :: e in selection && e.kind == t
    ensures forall i, j :: 0 <= i < j < |r| ==> r[i] != r[j]
  {
    if selection == [] then []
    else
      var front, last := selection[..|selection| - 1], selection[|selection| - 1];
      var r := SelectionTypes(front);
      assert selection == front + [last];
      if last.kind in r then r else r + [last.kind]
  }

  function ArityOf(count: nat): Arity {
    if count == 0 then NoSelection else if count == 1 then Single else Multi
  }

  predicate AppliesTo(a: Action, ctx: Context) {
    var count := |ctx.selection|;
    if a.operationsOnly && !ctx.operationsMode then false
    else if a.arity.NoSelection? then count == 0
    else if count == 0 then false
    else if !a.arity.AnySelection? && a.arity != ArityOf(count) then false
    else forall t :: t in SelectionTypes(ctx.selection) ==> t in a.entityTypes
  }

  predicate Advertises(e: EntityRef, capability: string) {
    e.capabilities.Some? && capability in e.capabilities.value
  }

  /** None when the action can run, otherwise why it cannot. */
  function Blocker(a: Action, ctx: Context): Option<Reason> {
    if a.maxSelection.Some? && |ctx.selection| > a.maxSelection.value then Some(MaxSelection)
    else if a.requiresCapability.Some? && a.requiresCapability.value != "" &&
            exists e :: e in ctx.selection && !Advertises(e, a.requiresCapability.value) then Some(EntityCapability)
    else None
  }

  /** An action over entities applies exactly when the selection has the right
      size and it accepts the type of every selected entity. */
  lemma AppliesExactly(a: Action, ctx: Context)
    ensures AppliesTo(a, ctx) <==>
            && (a.operationsOnly ==> ctx.operationsMode)
            && match a.arity {
                 case NoSelection => |ctx.selection| == 0
                 case Single => |ctx.selection| == 1 && AcceptsAll(a, ctx.selection)
                 case Multi => |ctx.selection| > 1 && AcceptsAll(a, ctx.selection)
                 case AnySelection => |ctx.selection| > 0 && AcceptsAll(a, ctx.selection)
               }
  {
    assert AcceptsAll(a, ctx.selection) <==> forall t :: t in SelectionTypes(ctx.selection) ==> t in a.entityTypes;
  }

  predicate AcceptsAll(a: Action, selection: seq<EntityRef>) {
    forall e :: e in selection ==> e.kind in a.entityTypes
  }

  /** The documentation says an entity that omits its capabilities is under no
      constraint. In the code it blocks every action that requires one. */
  lemma OmittedCapabilitiesBlock(a: Action, ctx: Context, e: EntityRef)
    requires e in ctx.selection && e.capabilities.None?
    requires a.maxSelection.Some? ==> |ctx.selection| <= a.maxSelection.value
    ensures Blocker(a, ctx) == None <==> a.requiresCapability.None? || a.requiresCapability.value == ""
  {
    assert forall c :: !Advertises(e, c);
  }

  /** Nothing stops the action: the selection is not too large, and every selected
      entity advertises what it requires. */
  predicate Runs(a: Action, ctx: Context) {
    && (a.maxSelection.None? || |ctx.selection| <= a.maxSelection.value)
    && (a.requiresCapability.None? || a.requiresCapability.value == "" ||
        forall e :: e in ctx.selection ==> e.capabilities.Some? && a.requiresCapability.value in e.capabilities.value)
  }

  /** What stops an action, the size of the selection being named first. */
  lemma BlockedExactly(a: Action, ctx: Context)
    ensures Blocker(a, ctx) ==
              if Runs(a, ctx) then None
              else if a.maxSelection.Some? && |ctx.selection| > a.maxSelection.value then Some(MaxSelection)
              else Some(EntityCapability)
  {
  }

  // ------------------------------------------------------------- resolution

  function Judge(a: Action, ctx: Context): Verdict {
    Verdict(a, Blocker(a, ctx).None?, Blocker(a, ctx))
  }

  predicate Offered(a: Action, ctx: Context) {
    AppliesTo(a, ctx) && (Blocker(a, ctx).None? || a.whenUnavailable.Disable?)
  }

  function Verdicts(actions: seq<Action>, ctx: Context): (r: seq<Verdict>)
  {
    var offered := Filter(actions, (a: Action) => Offered(a, ctx));
    seq(|offered|, i requires 0 <= i < |offered| => Judge(offered[i], ctx))
  }

  /** `a.order - b.order || a.id.localeCompare(b.id)`. */
  function Precedence(compareIds: (string, string) -> int): (Verdict, Verdict) -> int {
    (a: Verdict, b: Verdict) =>
      if a.action.order != b.action.order then a.action.order - b.action.order
      else compareIds(a.action.id, b.action.id)
  }

  function InGroup(group: Group): Verdict -> bool { (v: Verdict) => v.action.group == group }

  function SectionFor(verdicts: seq<Verdict>, group: Group, compareIds: (string, string) -> int): Section {
    Section(group, StableSort(Filter(verdicts, InGroup(group)), Precedence(compareIds)))
  }

  /** The sections of the given groups, empty ones left out. */
  function Sections(verdicts: seq<Verdict>, groups: seq<Group>, compareIds: (string, string) -> int): seq<Section> {
    if groups == [] then []
    else
      var rest := Sections(verdicts, groups[1..], compareIds);
      var s := SectionFor(verdicts, groups[0], compareIds);
      if s.verdicts == [] then rest else [s] + rest
  }

  function Resolved(actions: seq<Action>, ctx: Context, compareIds: (string, string) -> int): seq<Section> {
    Sections(Verdicts(actions, ctx), GROUP_ORDER, compareIds)
  }

  /** `resolveActions`: the loop that collects verdicts, then grouping and sorting. */
  method ResolveActions(
      actions: seq<Action>, ctx: Context, compareIds: (string, string) -> int) returns (r: seq<Section>)
    ensures r == Resolved(actions, ctx, compareIds)
  {
    var verdicts: seq<Verdict> := [];
    for i := 0 to |actions|
      invariant verdicts == Verdicts(actions[..i], ctx)
    {
      var a := actions[i];
      VerdictsAppend(actions[..i], a, ctx);
      assert actions[..i + 1] == actions[..i] + [a];
      if !AppliesTo(a, ctx) { continue; }
      var reason := Blocker(a, ctx);
      if reason.Some? && a.whenUnavailable.Hide? { continue; }
      verdicts := verdicts + [Verdict(a, reason.None?, reason)];
    }
    assert actions[..|actions|] == actions;
    r := Sections(verdicts, GROUP_ORDER, compareIds);
  }

  lemma VerdictsAppend(actions: seq<Action>, a: Action, ctx: Context)
    ensures Verdicts(actions + [a], ctx) ==
            Verdicts(actions, ctx) + (if Offered(a, ctx) then [Judge(a, ctx)] else [])
  {
    FilterAppend(actions, [a], (x: Action) => Offered(x, ctx));
  }

  // --------------------------------------- registration order does not matter

  /** `localeCompare` as a strict total order on ids. */
  ghost predicate TotalOrder(compareIds: (string, string) -> int) {
    Coherent(compareIds) && forall a, b :: compareIds(a, b) == 0 ==> a == b
  }

  ghost predicate UniqueIds(actions: seq<Action>) {
    forall a, b :: a in actions && b in actions && a.id == b.id ==> a == b
  }

  lemma PrecedenceCoherent(compareIds: (string, string) -> int)
    requires TotalOrder(compareIds)
    ensures Coherent(Precedence(compareIds))
  {
    var cmp := Precedence(compareIds);
    forall a: Verdict, b: Verdict ensures cmp(a, b) <= 0 <==> cmp(b, a) >= 0 {
      assert compareIds(a.action.id, b.action.id) <= 0 <==> compareIds(b.action.id, a.action.id) >= 0;
    }
    forall a: Verdict, b: Verdict, c: Verdict | cmp(a, b) <= 0 && cmp(b, c) <= 0 ensures cmp(a, c) <= 0 {
      if a.action.order == b.action.order == c.action.order {
        assert compareIds(a.action.id, b.action.id) <= 0 && compareIds(b.action.id, c.action.id) <= 0;
      }
    }
  }

  lemma {:induction false} VerdictCounts(actions: seq<Action>, ctx: Context, v: Verdict)
    ensures multiset(Verdicts(actions, ctx))[v] ==
            if Offered(v.action, ctx) && v == Judge(v.action, ctx) then multiset(actions)[v.action] else 0
  {
    if actions != [] {
      var front, last := actions[..|actions| - 1], actions[|actions| - 1];
      assert actions == front + [last];
      VerdictsAppend(front, last, ctx);
      VerdictCounts(front, ctx, v);
    }
  }

  lemma VerdictsPermutation(actions: seq<Action>, shuffled: seq<Action>, ctx: Context)
    requires multiset(actions) == multiset(shuffled)
    ensures multiset(Verdicts(actions, ctx)) == multiset(Verdicts(shuffled, ctx))
  {
    forall v ensures multiset(Verdicts(actions, ctx))[v] == multiset(Verdicts(shuffled, ctx))[v] {
      VerdictCounts(actions, ctx, v);
      VerdictCounts(shuffled, ctx, v);
    }
  }

  lemma VerdictsHaveNoTies(actions: seq<Action>, ctx: Context, compareIds: (string, string) -> int, group: Group)
    requires UniqueIds(actions) && TotalOrder(compareIds)
    ensures NoTies(Filter(Verdicts(actions, ctx), InGroup(group)), Precedence(compareIds))
  {
    forall a, b | a in Verdicts(actions, ctx) && b in Verdicts(actions, ctx) && a.action.id == b.action.id ensures a == b {
      VerdictCounts(actions, ctx, a);
      VerdictCounts(actions, ctx, b);
      assert a in multiset(Verdicts(actions, ctx)) && b in multiset(Verdicts(actions, ctx));
      assert a.action in multiset(actions) && b.action in multiset(actions);
    }
  }

  lemma {:induction false} SectionsPermutation(
      v: seq<Verdict>, w: seq<Verdict>, groups: seq<Group>, compareIds: (string, string) -> int)
    requires TotalOrder(compareIds) && multiset(v) == multiset(w)
    requires forall g :: g in groups ==> NoTies(Filter(v, InGroup(g)), Precedence(compareIds))
    ensures Sections(v, groups, compareIds) == Sections(w, groups, compareIds)
  {
    if groups != [] {
      var keep := InGroup(groups[0]);
      SectionsPermutation(v, w, groups[1..], compareIds);
      FilterPermutation(v, w, keep);
      PrecedenceCoherent(compareIds);
      SortPermutation(Filter(v, keep), Filter(w, keep), Precedence(compareIds));
    }
  }

  /** The toolbar does not depend on the order in which actions were registered. */
  lemma ResolutionIgnoresRegistrationOrder(
      actions: seq<Action>, shuffled: seq<Action>, ctx: Context, compareIds: (string, string) -> int)
    requires UniqueIds(actions) && TotalOrder(compareIds) && multiset(actions) == multiset(shuffled)
    ensures Resolved(actions, ctx, compareIds) == Resolved(shuffled, ctx, compareIds)
  {
    VerdictsPermutation(actions, shuffled, ctx);
    forall g | g in GROUP_ORDER { VerdictsHaveNoTies(actions, ctx, compareIds, g); }
    SectionsPermutation(Verdicts(actions, ctx), Verdicts(shuffled, ctx), GROUP_ORDER, compareIds);
  }

  /** Nor on the order in which entities were selected. */
  lemma ResolutionIgnoresSelectionOrder(
      actions: seq<Action>, ctx: Context, reselected: seq<EntityRef>, compareIds: (string, string) -> int)
    requires multiset(ctx.selection) == multiset(reselected)
    ensures Resolved(actions, ctx, compareIds) == Resolved(actions, ctx.(selection := reselected), compareIds)
  {
    var ctx' := ctx.(selection := reselected);
    assert |multiset(ctx.selection)| == |multiset(reselected)|;
    PermutationMembers(ctx.selection, reselected);
    forall a: Action ensures Offered(a, ctx) == Offered(a, ctx') && Judge(a, ctx) == Judge(a, ctx') {
      AppliesExactly(a, ctx);
      AppliesExactly(a, ctx');
      assert AcceptsAll(a, ctx.selection) == AcceptsAll(a, ctx'.selection);
      assert Blocker(a, ctx) == Blocker(a, ctx');
    }
    FilterSame(actions, (a: Action) => Offered(a, ctx), (a: Action) => Offered(a, ctx'));
    assert Verdicts(actions, ctx) == Verdicts(actions, ctx');
  }

  // --------------------------------------------- what the sections contain

  function Flatten(sections: seq<Section>): seq<Verdict> {
    if sections == [] then [] else sections[0].verdicts + Flatten(sections[1..])
  }

  function Rank(g: Group): nat {
    match g
    case Media => 0
    case Playback => 1
    case Metadata => 2
    case Artwork => 3
    case Subtitles => 4
    case Versions => 5
    case Collections => 6
    case Analytics => 7
    case Maintenance => 8
    case Export => 9
    case Administration => 10
    case Destructive => 11
  }

  lemma EveryGroupIsOrdered(g: Group)
    ensures g in GROUP_ORDER && GROUP_ORDER[Rank(g)] == g
    ensures forall i, j :: 0 <= i < j < |GROUP_ORDER| ==> Rank(GROUP_ORDER[i]) < Rank(GROUP_ORDER[j])
  {
    assert GROUP_ORDER[Rank(g)] == g;
  }

  ghost predicate Ascending(groups: seq<Group>) {
    forall i, j :: 0 <= i < j < |groups| ==> Rank(groups[i]) < Rank(groups[j])
  }

  lemma {:induction false} FlattenCounts(
      verdicts: seq<Verdict>, groups: seq<Group>, compareIds: (string, string) -> int, v: Verdict)
    requires Ascending(groups)
    ensures multiset(Flatten(Sections(verdicts, groups, compareIds)))[v] ==
            if v.action.group in groups then multiset(verdicts)[v] else 0
  {
    if groups != [] {
      FlattenCounts(verdicts, groups[1..], compareIds, v);
      FilterCounts(verdicts, InGroup(groups[0]), v);
      assert groups == [groups[0]] + groups[1..];
      var s := SectionFor(verdicts, groups[0], compareIds);
      var rest := Sections(verdicts, groups[1..], compareIds);
      if s.verdicts != [] {
        assert ([s] + rest)[1..] == rest;
        assert Flatten([s] + rest) == s.verdicts + Flatten(rest);
      }
    }
  }

  /** An action over as many entities as are selected, of the types it accepts, shown
      in this mode; one that is stopped only if it asked to be shown disabled. */
  predicate Shown(a: Action, ctx: Context) {
    && (a.operationsOnly ==> ctx.operationsMode)
    && (match a.arity {
          case NoSelection => |ctx.selection| == 0
          case Single => |ctx.selection| == 1 && AcceptsAll(a, ctx.selection)
          case Multi => |ctx.selection| > 1 && AcceptsAll(a, ctx.selection)
          case AnySelection => |ctx.selection| > 0 && AcceptsAll(a, ctx.selection)
        })
    && (Runs(a, ctx) || a.whenUnavailable == Disable)
  }

  /** Together the sections hold each action to be shown as often as the catalogue does,
      enabled exactly if nothing stops it and else with the reason, and nothing else. */
  lemma ResolutionHoldsExactlyTheOffered(
      actions: seq<Action>, ctx: Context, compareIds: (string, string) -> int, v: Verdict)
    ensures multiset(Flatten(Resolved(actions, ctx, compareIds)))[v] ==
            if Shown(v.action, ctx) && v.enabled == Runs(v.action, ctx) && v.reason == Blocker(v.action, ctx)
            then multiset(actions)[v.action] else 0
  {
    EveryGroupIsOrdered(v.action.group);
    FlattenCounts(Verdicts(actions, ctx), GROUP_ORDER, compareIds, v);
    VerdictCounts(actions, ctx, v);
    AppliesExactly(v.action, ctx);
    BlockedExactly(v.action, ctx);
  }

  /** Sections come in group order, none is empty, and each holds one group only, by
      ascending order and, where that ties, by id. */
  ghost predicate WellPresented(sections: seq<Section>, compareIds: (string, string) -> int) {
    && (forall i, j :: 0 <= i < j < |sections| ==> Rank(sections[i].group) < Rank(sections[j].group))
    && (forall s :: s in sections ==> Presentable(s, compareIds))
  }

  ghost predicate Presentable(s: Section, compareIds: (string, string) -> int) {
    && s.verdicts != [] && (forall v :: v in s.verdicts ==> v.action.group == s.group)
    && forall i, j :: 0 <= i < j < |s.verdicts| ==>
         var a, b := s.verdicts[i].action, s.verdicts[j].action;
         a.order < b.order || (a.order == b.order && compareIds(a.id, b.id) <= 0)
  }

  lemma SectionIsPresentable(verdicts: seq<Verdict>, g: Group, compareIds: (string, string) -> int)
    requires TotalOrder(compareIds)
    ensures var s := SectionFor(verdicts, g, compareIds); s.verdicts != [] ==> Presentable(s, compareIds)
  {
    PrecedenceCoherent(compareIds);
    var kept := Filter(verdicts, InGroup(g));
    SortSorted(kept, Precedence(compareIds));
    var sorted := StableSort(kept, Precedence(compareIds));
    PermutationMembers(sorted, kept);
    assert forall i, j :: 0 <= i < j < |sorted| ==> Precedence(compareIds)(sorted[i], sorted[j]) <= 0;
  }

  lemma {:induction false} SectionsHaveGroups(
      verdicts: seq<Verdict>, groups: seq<Group>, compareIds: (string, string) -> int, s: Section)
    requires s in Sections(verdicts, groups, compareIds)
    ensures s.group in groups
  {
    if groups[0] != s.group {
      SectionsHaveGroups(verdicts, groups[1..], compareIds, s);
    }
  }

  lemma LaterGroupsRankHigher(
      verdicts: seq<Verdict>, groups: seq<Group>, compareIds: (string, string) -> int, s: Section)
    requires groups != [] && Ascending(groups) && s in Sections(verdicts, groups[1..], compareIds)
    ensures Rank(groups[0]) < Rank(s.group)
  {
    SectionsHaveGroups(verdicts, groups[1..], compareIds, s);
    var k :| 0 <= k < |groups[1..]| && groups[1..][k] == s.group;
    assert groups[k + 1] == s.group;
  }

  lemma {:induction false} SectionsAreWellPresented(
      verdicts: seq<Verdict>, groups: seq<Group>, compareIds: (string, string) -> int)
    requires TotalOrder(compareIds) && Ascending(groups)
    ensures WellPresented(Sections(verdicts, groups, compareIds), compareIds)
  {
    if groups != [] {
      SectionsAreWellPresented(verdicts, groups[1..], compareIds);
      SectionIsPresentable(verdicts, groups[0], compareIds);
      var rest := Sections(verdicts, groups[1..], compareIds);
      forall j | 0 <= j < |rest| ensures Rank(groups[0]) < Rank(rest[j].group) {
        LaterGroupsRankHigher(verdicts, groups, compareIds, rest[j]);
      }
    }
  }

  lemma ResolutionIsWellPresented(actions: seq<Action>, ctx: Context, compareIds: (string, string) -> int)
    requires TotalOrder(compareIds)
    ensures WellPresented(Resolved(actions, ctx, compareIds), compareIds)
  {
    EveryGroupIsOrdered(Media);
    SectionsAreWellPresented(Verdicts(actions, ctx), GROUP_ORDER, compareIds);
  }
}
