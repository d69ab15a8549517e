# UltraTorrent: a verified model of its decision logic

UltraTorrent is a torrent and media manager: a NestJS backend, a React frontend,
a package of contracts the two share, and operational scripts. This project models
the parts of it whose correctness is decided by logic rather than by I/O, and
proves what those parts promise.

| module | models | the question it settles |
|---|---|---|
| `ApiClient` | `apps/frontend/src/lib/api.ts` | what can happen when many requests meet an expired token at once |
| `IntakeLifecycle` | `packages/shared/src/intake.ts` | what every legal intake run must have gone through, and how long it can be |
| `PathMapping` | `packages/shared/src/intake.ts` | what a path rewrite means, and when it can be undone |
| `RemediationPlan` | `packages/shared/src/media-remediation.ts` | that nothing executes without a current approval |
| `FilePlacement` | `apps/backend/src/common/file-placement.ts` | that placing a file never destroys one, and that the report is true |
| `ActionResolution` | `packages/shared/src/actions.ts` | that a toolbar is a function of the catalogue as a set |
| `CanonicalTitles` | `packages/shared/src/media-identity.ts` | when two spellings of a title are one work |
| `HtmlText` | `apps/backend/src/common/html-text.ts` | that no markup survives and the text that was meant comes out |
| `FuzzyMatch` | `apps/frontend/src/lib/fuzzy.ts` | that greedy matching is complete, and what scores mean |
| `Magnet` | `apps/backend/src/common/magnet.ts` | that the spellings of an info-hash are one identity |
| `Redaction`, `TitleSpace`, `ShippedNames`, `ScreenLayout`, `ScreenNames` | `ops/scripts/ansi-to-svg.py` | that stand-in names are consistent wherever they are put and give nothing away, and when the frame of a screen holds |

`Sequences`, `Runs` and `Text` hold what several of these share: filtering, stable
sorting, runs of a transition relation with a potential argument, trimming and
decimal numerals.

## How the model is built

Code that changes things in place is a class or a method with a loop, proved
against a function: `ApiClient.Client`, `FilePlacement.Disk`,
`Redaction.Registry`, `ScreenLayout.Screen`, and the loops of `HtmlText`,
`FuzzyMatch`, `Magnet` and `ActionResolution`. Code made of expressions is
functions. The theorems are about the functions, and hold of the methods through
their postconditions.

What a program cannot decide itself is a parameter. A run of the token protocol is
a sequence of events chosen by the network and the scheduler; between two awaits
nothing intervenes, so each event is one uninterrupted stretch of code. A file
placement takes a `World`: the disk other processes left before each system call,
and the refusals of the kernel. `localeCompare` is any total order, a redaction's
regular expressions are search functions, and what looks like an episode is any test.

## Findings

Where the code and its own comments disagree, the model follows the code.

- `packages/shared/src/actions.ts:191-193` says an entity that omits its
  capabilities is under no constraint. In the code it blocks every action that
  requires a capability (`OmittedCapabilitiesBlock`).
- `apps/backend/src/common/html-text.ts:15-17` says one pass of tag removal is not a
  fixpoint and that `<scr<script>ipt>` becomes `<script>`. It becomes `ipt>`
  (`QuotedTagIsNotRevealed`, `NestedTagIsNotRevealed` for all such inputs), and one
  pass is always a fixpoint (`StripIsOnePass`).
- `apps/frontend/src/lib/fuzzy.ts:4` says substrings beat scattered subsequences.
  That holds for queries of up to six characters and fails for every greater
  length (`SubstringsWinUpToSix`).
- `packages/shared/src/intake.ts:329`: a rule for the root `/` loses the separator,
  so `/a` is mapped to `/mnta`. `RewriteReplacesSegments` gives the exact condition,
  `RootRuleLosesTheSeparator` the failing family.
- `packages/shared/src/intake.ts:124` lists `failed` after `quarantined`, which line
  134 refuses (`RetryIsLegal`). The comment at lines 70-72 names verification and
  identification as the only ways into quarantine; it is entered from completed,
  verified and imported, and from nowhere else (`WaysIntoQuarantine`).
- The retry edges of the intake table alone do not guarantee that an import was
  identified and scored. `RetryPolicyGatesImports` says for every policy of retries
  whether it does. A policy that skips nothing always does; one that imports again
  what fails behind the import does so only then (`ImportsAgainGatesIff`); another may
  skip without harm (`HarmlessSkip`). Resuming the state that failed, as the comment
  at lines 120-121 describes, skips nothing (`ResumedImportsAreGated`).
- `apps/backend/src/common/magnet.ts:32` admits 0, 1, 8 and 9 in a 32-character
  hash. The decoder skips them and the hash comes out short
  (`Base32HashIsWholeIff`).
- `apps/backend/src/common/file-placement.ts:36-41` says only renames leave a window
  between check and call. The clone by `cp` leaves the same one: a file that appears
  in the gap loses its content, and success is reported (`CloneDestroysInTheGap`;
  `ReplacingActionKeepsOthersIff` gives the exact condition).
- `packages/shared/src/media-identity.ts:92-98`: a title made of separators only keeps
  a parenthesised year unless 32 or more of them remain, so the year in the title and
  the year beside it part ways there (`YearInOrBesideTitleAgree` gives the exact
  condition).
- `ops/scripts/ansi-to-svg.py:202-204` says a release gets the same stand-in wherever
  it is rendered, and no two releases ever share one. Titles are never looked up
  again: two title requests, for whatever originals, get the same title exactly when
  616 titles and paths were asked for before the earlier one
  (`ShippedTitlesEqualIff`, `TitlesOnAPage`, and `ShippedTitlesRepeat` for a run).
  Sites and rules are looked up again, and share names exactly when a run asks for
  more than the 16 and 6 of their pools (`StandInsOfARun`, `SharedWhenPoolIsUsedUp`;
  `SeventeenSitesShare` is a run).
- `ops/scripts/ansi-to-svg.py:239-240` says paths get a fresh name every time. Line
  262 drops a second word that starts with S, so "Northwind Sound" and "Northwind
  Station" give one path when 55 names were recorded between them
  (`PathsOfARunEqualIff` gives the exact condition, `PathsCollide` a run).
- `ops/scripts/ansi-to-svg.py:334-336` says the space goes just before the pane's right
  rail, so that the frame still closes at the same column. It goes before the last
  rail of the line. Where panes stand side by side, as in the infrastructure page, a
  shorter name in a left pane moves that pane's own right rail (`PaneRailMoves` for all
  such lines, `TwoPanes` for one). All rails of a line stay if and only if none stands
  in the span, nor, for a shorter name, between the span and the last rail
  (`RailsKeptIff`, `RailsKeptThroughoutIff` over a whole prose redaction, `RailsOnAPage`
  over columns and prose with the shipped names); the last rail alone stays under the weaker condition of
  `FrameKeptIff`.

## Model

| member | source | states |
|---|---|---|
| `ApiClient.AtMostOneRefreshOutstanding` | apps/frontend/src/lib/api.ts:288-317 | In every interleaving of any number of requests at most one refresh call is unsettled, and a waiting request waits for that one or for a settled one |
| `ApiClient.NoRefreshTokenPresentedTwice` | apps/frontend/src/lib/api.ts:288-317 | If every successful refresh returns a refresh token not held and never presented, no two refresh calls of a run present the same token, so reuse detection is never provoked |
| `ApiClient.SentAtMostTwice` | apps/frontend/src/lib/api.ts:335-364 | A request is sent once or twice; an artwork tile, with its two rate-limit retries, at most four times |
| `ApiClient.ReplayNeverCarriesRefusedToken` | apps/frontend/src/lib/api.ts:335-364 | If issued access tokens were never sent before, no replay after a refresh carries the access token that was refused |
| `ApiClient.RunsAreBounded` | apps/frontend/src/lib/api.ts:335-364 | Refreshing never recurses without end: n requests and m artwork tiles cause at most 6n + 10m events in any run |
| `ApiClient.QuietMeansDone` | apps/frontend/src/lib/api.ts:288-364 | No deadlock: when a run has nothing left to happen but new requests, every request is done, every refresh call settled and the shared promise cleared |
| `ApiClient.LoggedOutStaysLoggedOut` | apps/frontend/src/lib/api.ts:288-317 | Once the tokens are dropped, no run of requests brings them back or starts another refresh |
| `ApiClient.TokensAreTheLastBrought` | apps/frontend/src/lib/api.ts:295-313 | In every run the tokens held are those the last refresh to end brought, read off the answers alone: the body of a refresh that succeeded, none after one that failed |
| `ApiClient.CallSucceedsIffBrought` | apps/frontend/src/lib/api.ts:295-313 | A refresh counts as successful, for all who wait for it, exactly if a body with tokens came |
| `ApiClient.SendsCarryTheTokensHeld` | apps/frontend/src/lib/api.ts:335-364 | In every run each send carries the access token brought last, or none where none is held or wanted; a waiting request is sent again exactly if the refresh it waits for brought tokens, a tile when its back-off ends, and no other event sends anything |
| `ApiClient.ReplayCarriesWhatWasBrought` | apps/frontend/src/lib/api.ts:353-364 | A request that waited for a refresh and resumes before another one ends is sent again with exactly the access token that refresh brought |
| `ApiClient.AnswerDecides` | apps/frontend/src/lib/api.ts:359-364 | In every run: the first 401 to a request that may carry tokens, with a refresh token held, makes it wait for the refresh in flight, which presents that token; a 429 makes a tile back off, twice at most; anything else is the outcome |
| `ApiClient.OutcomeIsTheLastHeard` | apps/frontend/src/lib/api.ts:353-387 | What a caller gets is the last answer that was heard for its request, in every run: no refresh and no retry makes up, changes or hides one |
| `ApiClient.SingleFlightStep` | apps/frontend/src/lib/api.ts:288-317 | Invariant of every step: the unsettled calls are exactly the one the shared promise names, and it presents the refresh token still held |
| `ApiClient.RequestsOkStep` | apps/frontend/src/lib/api.ts:335-364 | Invariant of every step: sends, replays and back-offs of each request agree, and a waiting request has not been replayed |
| `ApiClient.NeverReusedStep` | apps/frontend/src/lib/api.ts:288-317 | Invariant of every step: presented refresh tokens are distinct and the held one was presented by the call in flight only |
| `ApiClient.RefusedIsGoneStep` | apps/frontend/src/lib/api.ts:353-364 | Invariant of every step: once a request's refresh succeeded, the token it was first sent with is neither held nor sent again |
| `ApiClient.FuelStep` | apps/frontend/src/lib/api.ts:335-364 | Every event other than a new request uses up fuel, and a new request adds a fixed amount |
| `ApiClient.Client.Refresh` | apps/frontend/src/lib/api.ts:288-292 | Refuses without a refresh token, joins a call in flight, otherwise starts one; refines the step function |
| `ApiClient.Client.SettleRefresh` | apps/frontend/src/lib/api.ts:299-313 | Stores or drops the tokens and clears the shared promise in one step; which tokens are held after any run is `TokensAreTheLastBrought` |
| `ApiClient.Client.OnAnswer` | apps/frontend/src/lib/api.ts:359-364 | A 401 leads to a refresh exactly for authenticated, not yet replayed requests; refines the step function |
| `ApiClient.Client.OnResume` | apps/frontend/src/lib/api.ts:359-364 | A resumed request is replayed with the tokens then held, or ends with its 401; refines the step function |
| `ApiClient.Client.OnWake` | apps/frontend/src/lib/api.ts:5285-5292 | A rate-limited artwork tile is fetched again with the tokens then held; refines the step function |
| `ApiClient.Client.Execute` | apps/frontend/src/lib/api.ts:288-364 | A client taken through any legal run of events is in the state the run theorems are about |
| `ApiClient.Session` | apps/frontend/src/lib/api.ts:216-387 | A client that starts from storage and lives through any run has at most one refresh under way and, with fresh refresh tokens, has presented none twice |
| `IntakeLifecycle.RetryIsLegal` | packages/shared/src/intake.ts:129-136 | A failed intake can move to exactly the non-terminal states, and exactly those can fail |
| `IntakeLifecycle.EveryWayInto` | packages/shared/src/intake.ts:74-136 | Every legal move, and no other, listed by the state it leads to |
| `IntakeLifecycle.WaysIntoQuarantine` | packages/shared/src/intake.ts:66-136 | Quarantine is entered from completed, verified and imported exactly, and left into verified and identified exactly |
| `IntakeLifecycle.RunLength` | packages/shared/src/intake.ts:74-136 | A legal run from queued with f entries into failed and q into quarantined has at most 13 + 14f + 7q steps |
| `IntakeLifecycle.RunLengthIsTight` | packages/shared/src/intake.ts:74-136 | For every f and q there is a legal run with exactly that many steps |
| `IntakeLifecycle.ImportIsGated` | packages/shared/src/intake.ts:74-136 | Under retries that skip nothing, every import is preceded since the latest quarantine by identified, quality_scored and ready_to_import, in that order |
| `IntakeLifecycle.GatedIff` | packages/shared/src/intake.ts:74-136 | An import is gated if and only if the three stages, counted in order and from the latest quarantine on, have all been passed |
| `IntakeLifecycle.RetryPolicyGatesImports` | packages/shared/src/intake.ts:120-136 | Every import of every run that follows a retry policy, whatever policy, is gated if and only if each state can be given a number of stages passed, three for importing, that every move of the table and every retry of the policy keeps |
| `IntakeLifecycle.SkippingIsRuledOut` | packages/shared/src/intake.ts:120-136 | A policy that keeps every import gated has no retry past a stage still to be passed into a state up to importing, nor into a later state from which it retries into importing |
| `IntakeLifecycle.ImportsAgainGatesIff` | packages/shared/src/intake.ts:120-136 | A policy that allows retrying into importing from every state behind it keeps every import gated if and only if it never retries past a stage still to be passed |
| `IntakeLifecycle.HarmlessSkip` | packages/shared/src/intake.ts:120-136 | Without that, skipping may be harmless: under the policy that retries only from queued into seeding every import of every run is gated |
| `IntakeLifecycle.SkippingIsUngated` | packages/shared/src/intake.ts:120-136 | Every retry that skips such a stage has a run that is legal from queued and ends in an import that was not gated |
| `IntakeLifecycle.ResumedImportsAreGated` | packages/shared/src/intake.ts:120-136 | Runs without failures, or whose retries resume the state that failed, have every import gated |
| `IntakeLifecycle.AdvancingIsLegal` | packages/shared/src/intake.ts:138-141 | The state a stage advances to is always a legal move that uses up potential |
| `IntakeLifecycle.AdvancesAlongTheLine` | packages/shared/src/intake.ts:74-141 | Success leads to the next state in the order of the list, from queued past the download; a failed intake starts again, a quarantined one is verified again |
| `IntakeLifecycle.AdvancingReachesTheEnd` | packages/shared/src/intake.ts:138-141 | Advancing from any state but cancelled ends in archived, and only there |
| `PathMapping.NormalForm` | packages/shared/src/intake.ts:283-286 | Normalising is the canonical rendering of a path's root flag and non-empty segments |
| `PathMapping.NormalizeKeepsMeaning` | packages/shared/src/intake.ts:283-286 | Normalising keeps segments and root flag, is idempotent, and gives `/` for exactly the non-empty paths without segments |
| `PathMapping.UnderIsSegmentPrefix` | packages/shared/src/intake.ts:288-298 | For all strings a path is under a prefix exactly when the prefix's segments begin the path's and both are absolute or both relative (the empty prefix apart) |
| `PathMapping.UnderIsPreorder` | packages/shared/src/intake.ts:288-298 | Being under a prefix is reflexive and transitive on all strings |
| `PathMapping.SiblingIsNotUnder` | packages/shared/src/intake.ts:288-298 | A sibling whose name only starts with the prefix, as `/media-backup` with `/media`, is never under it |
| `PathMapping.ChosenIsMostSpecific` | packages/shared/src/intake.ts:314-325 | The rule chosen is enabled, of the space, global or of the scope asked for, and covers the path; it beats every other such rule on scope, then priority, then length of the normalised prefix |
| `PathMapping.UnmappedIsUnchanged` | packages/shared/src/intake.ts:300-326 | A path that no enabled rule of the space and scope covers is unchanged, and so is every path in the canonical space |
| `PathMapping.OthersAreIgnored` | packages/shared/src/intake.ts:314-316 | Translating is the same with all rules left out that are disabled, of another space or of another scope |
| `PathMapping.FirstOfTiesIsChosen` | packages/shared/src/intake.ts:318-325 | Every usable rule listed before the chosen one is beaten by it outright: of rules that tie, the first is chosen |
| `PathMapping.ToSpaceIgnoresRuleOrder` | packages/shared/src/intake.ts:307-331 | If no two rules in scope share scopedness, priority and normalised prefix, every permutation of the rules translates alike |
| `PathMapping.RewriteReplacesSegments` | packages/shared/src/intake.ts:327-330 | A rewrite replaces the rule's segments and keeps the others if and only if it is not a root rule applied to a proper path with a proper target |
| `PathMapping.RewriteIsSpelled` | packages/shared/src/intake.ts:327-330 | The rewritten path to the character, by segments: under an empty target it is absolute, and a root target doubles the separator |
| `PathMapping.RoundTrip` | packages/shared/src/intake.ts:307-345 | If no rule's target lies under another's and no prefix is empty or the root, translating any mapped path into a space and back gives its normalised form, even where the prefixes mapped from are nested |
| `PathMapping.BackBySwappedRules` | packages/shared/src/intake.ts:333-345 | The way back is the way there under the same rules, each turned round |
| `PathMapping.RoundTripIff` | packages/shared/src/intake.ts:307-345 | With no prefix empty or the root, a mapped path comes back normalised if and only if the rule chosen there and the rule chosen back take the deeper of their two targets to the same place |
| `PathMapping.NestedTargetsMayNotComeBack` | packages/shared/src/intake.ts:333-345 | With rules from `/a` to `/x` and from `/b` to `/x/b`, `/a/b` becomes `/x/b` and comes back as `/b`, for any such names |
| `PathMapping.RootRuleLosesTheSeparator` | packages/shared/src/intake.ts:327-330 | A rule from `/` glues the first segment to its target, and the result does not translate back |
| `RemediationPlan.ExecutesOnlyWhileApproved` | packages/shared/src/media-remediation.ts:100-128 | In every run from proposed, executing, waiting and verifying have an approval after the latest block |
| `RemediationPlan.EveryWayInto` | packages/shared/src/media-remediation.ts:110-140 | Every legal move, and no other, listed by the status it leads to |
| `RemediationPlan.SucceedsOnlyAfterVerifying` | packages/shared/src/media-remediation.ts:110-127 | A plan succeeds only directly after verifying, under an approval still current |
| `RemediationPlan.TerminalExactlyWhenStuck` | packages/shared/src/media-remediation.ts:96-145 | The statuses no move leaves are exactly the terminal ones |
| `RemediationPlan.TerminalIsLast` | packages/shared/src/media-remediation.ts:96-98 | A terminal status can only be the last of a run |
| `RemediationPlan.RunLength` | packages/shared/src/media-remediation.ts:110-140 | A run with b entries into blocked and w into waiting has at most 5 + 6b + 2w steps |
| `RemediationPlan.RunLengthIsTight` | packages/shared/src/media-remediation.ts:110-140 | For every b and w a plan that succeeds attains the bound |
| `FilePlacement.Disk.AssertDestinationFree` | apps/backend/src/common/file-placement.ts:43-51 | Passes exactly where no file or link has the name and it can be examined; where it refuses, no placement of any kind would touch the disk, and where it passes every placement makes its call |
| `FilePlacement.Disk.PlaceFile` | apps/backend/src/common/file-placement.ts:123-181 | The check, the call and the fallback change the disk and report as the placement function says, whatever happens in the gaps |
| `FilePlacement.OccupiedDestinationIsRefused` | apps/backend/src/common/file-placement.ts:123-130 | An occupied destination is refused with no call made and the disk as it was |
| `FilePlacement.ExclusiveActionsNeverOverwrite` | apps/backend/src/common/file-placement.ts:138-174 | Whatever other processes do between check and call, no copy, hard link, symbolic link or fallback copy changes a path or a content that exists when it is made |
| `FilePlacement.ReplacingActionKeepsOthersIff` | apps/backend/src/common/file-placement.ts:36-41 | In every world a rename, move or clone keeps everything but the source exactly when the disk it finds after the gap gives it nothing to destroy: refused, name free, or the same content there already |
| `FilePlacement.CloneDestroysInTheGap` | apps/backend/src/common/file-placement.ts:156-162 | Whenever a different file appears at the destination in the gap, an unrefused clone replaces its content and reports success |
| `FilePlacement.UndisturbedPlacementKeepsOthers` | apps/backend/src/common/file-placement.ts:117-181 | When nobody intervenes no action changes another path; only rename and move consume the source, and what they moved is at the destination |
| `FilePlacement.FailedCallHasNoEffect` | apps/backend/src/common/file-placement.ts:117-121 | A system call that fails leaves names and contents as they were |
| `FilePlacement.CallDoesWhatItSays` | apps/backend/src/common/file-placement.ts:132-176 | Each successful call leaves the disk its action describes: same inode, link, new extent, or another file with the source's extent |
| `FilePlacement.HappenedIsUnambiguous` | apps/backend/src/common/file-placement.ts:111-115 | The disks left by different actions differ, so a report of the wrong action would be false |
| `FilePlacement.ReportIsTrue` | apps/backend/src/common/file-placement.ts:96-181 | fellBack holds exactly when the reported action differs from the requested one; the reported action is what the last call did; a failed placement changed nothing |
| `FilePlacement.FallsBackIff` | apps/backend/src/common/file-placement.ts:144-172 | With a free destination and in every world a second call is made if and only if the first failed and was a clone, or a hard link refused for crossing devices; if the second succeeds the result is a copy that fell back, otherwise its error |
| `FilePlacement.UndisturbedPlacementSucceedsIff` | apps/backend/src/common/file-placement.ts:123-181 | Left alone, placing at a free name does what was asked if and only if the source is there: the name for renaming, moving and linking, the file behind it for copying and cloning; a symbolic link may dangle |
| `FilePlacement.DupNamesDiffer` | apps/backend/src/common/file-placement.ts:73-80 | Different numbers give different `[dupN]` names, for every base name and extension |
| `FilePlacement.DupNameKeepsExtension` | apps/backend/src/common/file-placement.ts:73-80 | `[dupN]` goes before the last dot and what follows it, or to the end where nothing follows or there is no dot |
| `FilePlacement.LowestFreeIs` | apps/backend/src/common/file-placement.ts:79-90 | A lowest free number is the first from 2 to 999 whose name is not there, all names up to it open to examination; there is none exactly where every such name is taken or one before it cannot be examined |
| `FilePlacement.LowestIsFirstUntaken` | apps/backend/src/common/file-placement.ts:79-87 | The first name met that is not taken is the lowest free one if it is free, and otherwise there is none |
| `FilePlacement.Disk.FreeDupDestination` | apps/backend/src/common/file-placement.ts:73-91 | Returns the lowest free number from 2 to 999; reports no free name exactly when all 998 are taken |
| `FilePlacement.CopyMakesOne` | apps/backend/src/common/file-placement.ts:138-142 | One copy to the lowest free name adds one new file with the source's bytes, keeps all earlier ones and uses up exactly one usable number |
| `FilePlacement.UsableExactly` | apps/backend/src/common/file-placement.ts:79-90 | There is a lowest free name exactly while some free number lies before the first name that cannot be examined |
| `FilePlacement.Disk.CopyRepeatedly` | apps/backend/src/common/file-placement.ts:73-142 | Copying beside one destination again and again makes distinct files and keeps everything that was there; it stops early exactly when the kernel refuses, the source leads nowhere, or the usable numbers are used up |
| `ActionResolution.SelectionTypes` | packages/shared/src/actions.ts:349-351 | The types present in a selection, each once |
| `ActionResolution.AppliesExactly` | packages/shared/src/actions.ts:367-382 | An action applies exactly when mode, selection size and the type of every selected entity fit |
| `ActionResolution.OmittedCapabilitiesBlock` | packages/shared/src/actions.ts:393-410 | With an entity that omits its capabilities selected, an action is available exactly if it requires none |
| `ActionResolution.BlockedExactly` | packages/shared/src/actions.ts:393-410 | An action is blocked exactly if the selection is too large, which is the reason given first, or some selected entity does not advertise the capability it requires |
| `ActionResolution.ResolveActions` | packages/shared/src/actions.ts:420-439 | The collecting loop, grouping and sorting compute the resolution the lemmas below are about |
| `ActionResolution.ResolutionIgnoresRegistrationOrder` | packages/shared/src/actions.ts:281-285 | With unique ids and a total order on them, every permutation of the catalogue resolves alike |
| `ActionResolution.ResolutionIgnoresSelectionOrder` | packages/shared/src/actions.ts:420-439 | Every permutation of the selection resolves alike |
| `ActionResolution.ResolutionHoldsExactlyTheOffered` | packages/shared/src/actions.ts:412-439 | The sections together hold each action that fits mode, size and types, and is neither blocked nor hidden when blocked, as often as the catalogue does, with whether it can run and why not, and nothing else |
| `ActionResolution.ResolutionIsWellPresented` | packages/shared/src/actions.ts:412-439 | Sections come in group order, none is empty, each holds one group, and in it an action comes before another with a higher order, or with the same order and a later id |
| `CanonicalTitles.NormalizedIsJoinedWords` | packages/shared/src/media-identity.ts:126-135 | The chain of replacements gives the title's words, one space apart |
| `CanonicalTitles.NormalizeIsIdempotent` | packages/shared/src/media-identity.ts:126-135 | Normalising twice is normalising once |
| `CanonicalTitles.SameNormalIffSameWords` | packages/shared/src/media-identity.ts:126-135 | Two titles normalise alike if and only if they have the same words |
| `CanonicalTitles.LettersAreKept` | packages/shared/src/media-identity.ts:126-135 | Normalising a title without ampersands keeps its letters, in lower case, and its digits, in order |
| `CanonicalTitles.NothingButSpacesElse` | packages/shared/src/media-identity.ts:126-135 | All a normal form holds is lower-case letters, digits and spaces |
| `CanonicalTitles.CaseAndAmpersand` | packages/shared/src/media-identity.ts:126-135 | Titles that differ only in case normalise alike, and so do those with "&" for " and " |
| `CanonicalTitles.SplitWithYear` | packages/shared/src/media-identity.ts:77-93 | From "T (Y)" with Y plausible the year is split off exactly if something of T would remain; then it is Y and the words are those of T |
| `CanonicalTitles.BareYearIff` | packages/shared/src/media-identity.ts:96-112 | A bare four-digit number up to 32 separators behind a title is split off as its year if and only if it lies from 1870 to 2999 and a dot, an underscore or a dash is among the separators; "Blade Runner 2049" keeps its number |
| `CanonicalTitles.BracketedYearIff` | packages/shared/src/media-identity.ts:77-94 | A four-digit number in round or square brackets, spaced in any way, up to 32 separators behind a title is split off if and only if it lies from 1870 to 2999 |
| `CanonicalTitles.YearsComeFromTheEnd` | packages/shared/src/media-identity.ts:77-115 | Whatever year is split off stood at the end of the title, in brackets or behind such separators, with something before it |
| `CanonicalTitles.SplitKeepsWordsIff` | packages/shared/src/media-identity.ts:77-115 | Splitting keeps the words of a title if and only if it finds no year |
| `CanonicalTitles.YearInOrBesideTitleAgree` | packages/shared/src/media-identity.ts:137-151 | For every title and plausible year, "T (Y)" and (T, Y) have one identity if and only if T has no trailing year of its own and something of it would remain |
| `CanonicalTitles.KnownYearWins` | packages/shared/src/media-identity.ts:137-151 | A year supplied beside the title replaces the one in it if and only if it lies from 1870 to 2999; title and normal form are the same either way |
| `CanonicalTitles.LettersAreSubstance` | packages/shared/src/media-identity.ts:84-93 | Every title with a letter or digit has one identity in both spellings if and only if it has no trailing year of its own; something of it always remains |
| `HtmlText.ToFixpoint` | apps/backend/src/common/html-text.ts:25-33 | The loop applies the step until nothing changes or the budget is used up |
| `HtmlText.OnePassLeavesNoTag` | apps/backend/src/common/html-text.ts:35-40 | One pass leaves no `<` with a `>` anywhere after it |
| `HtmlText.UnchangedExactlyWithoutTag` | apps/backend/src/common/html-text.ts:35-40 | A pass leaves alone exactly the strings without a tag |
| `HtmlText.RemovesFirstTag` | apps/backend/src/common/html-text.ts:35-40 | A pass keeps the text before the first `<`, drops up to the next `>`, and goes on behind it |
| `HtmlText.StripIsOnePass` | apps/backend/src/common/html-text.ts:25-40 | With any budget from one up the loop gives the result of one pass, a true fixpoint |
| `HtmlText.NestedTagIsNotRevealed` | apps/backend/src/common/html-text.ts:35-40 | A tag inside a tag goes with it up to the first `>`; what is left on both sides is never put together |
| `HtmlText.QuotedTagIsNotRevealed` | apps/backend/src/common/html-text.ts:15-17 | `<scr<script>ipt>` becomes `ipt>` |
| `HtmlText.TextHasNoTag` | apps/backend/src/common/html-text.ts:61-69 | The text of any input has no `<` followed later by a `>` |
| `HtmlText.EscapedTextComesOut` | apps/backend/src/common/html-text.ts:61-69 | Text written with the reference escaper comes out as it was meant, less what is shaped like a tag in it, for every text |
| `HtmlText.TagsGoFirst` | apps/backend/src/common/html-text.ts:61-69 | What stands inside the first tag, entities included, makes no difference to the text |
| `HtmlText.TextIsThreePasses` | apps/backend/src/common/html-text.ts:61-69 | The text of any input is one pass over tags, one simultaneous pass over entities and one pass over tags |
| `HtmlText.OneMoreEntity` | apps/backend/src/common/html-text.ts:50-59 | Replacing one more entity after a simultaneous pass over others equals one simultaneous pass over all, as long as `&amp;` comes last |
| `HtmlText.DecodeIsSimultaneous` | apps/backend/src/common/html-text.ts:42-59 | The seven sequential replacements equal one left-to-right pass that never reads its own output |
| `HtmlText.OnlySpellingsMatch` | apps/backend/src/common/html-text.ts:50-59 | An entity is decoded exactly where one of its spellings stands |
| `HtmlText.DecodeReadsEverySpelling` | apps/backend/src/common/html-text.ts:50-59 | Whatever mixture of plain characters and the seven references, with any number of leading zeros, a text is written in, decoding gives the characters meant |
| `HtmlText.DecodeUndoesEscape` | apps/backend/src/common/html-text.ts:42-59 | Decoding undoes exactly one layer of escaping, of every string |
| `FuzzyMatch.MatchScattered` | apps/frontend/src/lib/fuzzy.ts:23-41 | The matching loop computes the score of the greedy embedding |
| `FuzzyMatch.ScoreNormalized` | apps/frontend/src/lib/fuzzy.ts:11-41 | Empty query, contiguous match and scattered match are scored as specified |
| `FuzzyMatch.FuzzyScore` | apps/frontend/src/lib/fuzzy.ts:9-42 | The score of the trimmed, lower-cased query in the lower-cased text |
| `FuzzyMatch.FuzzyBest` | apps/frontend/src/lib/fuzzy.ts:50-58 | The highest score any of the texts has; none if none has one |
| `FuzzyMatch.ScoresExactlySubsequences` | apps/frontend/src/lib/fuzzy.ts:1-42 | A text scores if and only if the query is a subsequence of it: greedy matching is complete |
| `FuzzyMatch.ContiguousScoreIs` | apps/frontend/src/lib/fuzzy.ts:14-21 | A contiguous match scores 200 at the start of the text, 170 at the start of a later word and 140 inside one, less its place up to 40 in the latter two cases, less the rest of the text up to 20; its place is the first occurrence |
| `FuzzyMatch.PrefixesWin` | apps/frontend/src/lib/fuzzy.ts:14-21 | A match at the start of one text outscores every later contiguous match in another |
| `FuzzyMatch.ScatteredScoreIs` | apps/frontend/src/lib/fuzzy.ts:23-41 | A scattered match scores a point for each character, five for each at the start of a word, five for each right after the one before, and up to 15 for a short text, at the earliest positions any embedding has |
| `FuzzyMatch.BlankQueriesScoreNothing` | apps/frontend/src/lib/fuzzy.ts:10-11 | A query of blanks matches every text with score 0 |
| `FuzzyMatch.ContiguousScoresAtLeast` | apps/frontend/src/lib/fuzzy.ts:14-21 | A contiguous match of a non-empty query scores from 80 to 200 |
| `FuzzyMatch.ScatteredScoresAtMost` | apps/frontend/src/lib/fuzzy.ts:23-41 | A scattered match of n characters scores at most 11n + 5 |
| `FuzzyMatch.ScatteredBoundIsTight` | apps/frontend/src/lib/fuzzy.ts:23-41 | For every n from 2 on a scattered match attains that score |
| `FuzzyMatch.SubstringsWinUpToSix` | apps/frontend/src/lib/fuzzy.ts:1-8 | Every contiguous match outscores every scattered one for queries of length n if and only if n is at most 6 |
| `Magnet.CollectBits` | apps/backend/src/common/magnet.ts:47-54 | The first loop collects five bits for each base32 character and skips the others |
| `Magnet.RenderHex` | apps/backend/src/common/magnet.ts:55-59 | The second loop renders each whole group of four bits |
| `Magnet.Base32ToHex` | apps/backend/src/common/magnet.ts:47-60 | The two loops in sequence compute the regrouping the lemmas below are about |
| `Magnet.Base32HexKeepsTheNumber` | apps/backend/src/common/magnet.ts:47-60 | m base32 digits give floor(5m/4) lower-case hexadecimal digits of the same number less the bits of an incomplete last group (section 6 of RFC 4648) |
| `Magnet.WholeGroupsKeepTheNumber` | apps/backend/src/common/magnet.ts:47-60 | When four divides m, the hexadecimal digits denote the same number |
| `Magnet.Base32HashIsWholeIff` | apps/backend/src/common/magnet.ts:68-76 | A 32-character hash comes out with 40 digits, denoting the same number, if and only if all its characters are base32 |
| `Magnet.SpellingsAgree` | apps/backend/src/common/magnet.ts:27-32 | The hexadecimal and the base32 spelling of the same 20 bytes, in any case, give one hash |
| `Magnet.InfoHashIgnoresCase` | apps/backend/src/common/magnet.ts:68-89 | Magnets that differ only in case have the same hash, v1 and v2 alike |
| `Magnet.V1MagnetIsRead` | apps/backend/src/common/magnet.ts:68-76 | The run after the first v1 tag is what is read, whatever stands around it and in whatever case |
| `Magnet.V1IsTheFirstRun` | apps/backend/src/common/magnet.ts:71-73 | The first pattern captures the maximal alphanumeric run behind the first tag that has one, and nothing exactly if no tag has one |
| `Magnet.V1HashComesFirst` | apps/backend/src/common/magnet.ts:62-77 | Where such a run exists it alone decides, even if it is no hash; it is one exactly with 40 hexadecimal digits or 32 characters |
| `Magnet.V2HashIsCut` | apps/backend/src/common/magnet.ts:79-88 | Without one, the first v2 hash of 64 digits is read, cut to its first 40 in lower case; without that there is no hash |
| `Magnet.AlphabetsAre` | apps/backend/src/common/magnet.ts:27-60 | By character code: which characters are base32 digits, hexadecimal digits and alphanumerics, of which value, and how hexadecimal digits are written |
| `Magnet.DigitsStandInOrder` | apps/backend/src/common/magnet.ts:48-54 | The base32 digits of a string are the places of its characters in the alphabet, in order |
| `Magnet.OthersArePassedOver` | apps/backend/src/common/magnet.ts:51-52 | A character outside the alphabet changes nothing, wherever it stands |
| `Redaction.NameIsRemembered` | ops/scripts/ansi-to-svg.py:236-258 | Names given to sites and rules never change, and asking again repeats the answer |
| `Redaction.ConsistentStep` | ops/scripts/ansi-to-svg.py:229-258 | Invariant of every request: while the pool lasts names are distinct and exactly those given out are marked used; afterwards the pool is used up |
| `Redaction.DistinctWhilePoolLasts` | ops/scripts/ansi-to-svg.py:229-234 | Distinct originals have distinct stand-ins if and only if there are no more of them than names in the pool |
| `Redaction.ShippedPoolSizes` | ops/scripts/ansi-to-svg.py:170-173 | The shipped pools hold 16 and 6 different names |
| `Redaction.RunIsConsistent` | ops/scripts/ansi-to-svg.py:199-270 | The invariant holds after every run of requests of any kinds |
| `Redaction.StandInsOfARun` | ops/scripts/ansi-to-svg.py:248-258 | In every run a site always gets the same stand-in, and two different ones get different ones if the run asks for no more of them than the pool has |
| `Redaction.KnownIsNamed` | ops/scripts/ansi-to-svg.py:248-258 | After any run the registry knows exactly the sites and rules the run asked for, stripped of blanks |
| `Redaction.StripDropsBlanks` | ops/scripts/ansi-to-svg.py:252 | Blanks around an original are dropped, and nothing else: with or without them it is the same site |
| `Redaction.NewNameOfARun` | ops/scripts/ansi-to-svg.py:229-258 | In every run a site or rule not named before gets the next name of its pool, in the order of the pool |
| `TitleSpace.SharedNameOfARun` | ops/scripts/ansi-to-svg.py:229-234 | Once the pool is used up a new one shares the name at a place computed from the number of titles, paths, sites and rules named so far, each up to its supply |
| `Redaction.NamesGiveNothingAway` | ops/scripts/ansi-to-svg.py:139-145 | Two runs for different originals that ask for the same kinds of names, tell the same sites and rules apart and have episodes in the same places get the same names: nothing else of the originals shows |
| `Redaction.SharedWhenPoolIsUsedUp` | ops/scripts/ansi-to-svg.py:229-234 | In every run that asks for more sites, or rules, than the pool has, two of them get one stand-in |
| `Redaction.SeventeenSitesShare` | ops/scripts/ansi-to-svg.py:170-234 | With the shipped names a run of 17 sites in which two share one |
| `Redaction.TitlesOfARunDiffer` | ops/scripts/ansi-to-svg.py:212-247 | In every run each title request, even for the same original, gets a title of its own while unused bases remain |
| `Redaction.TitlesRepeatWhenUsedUp` | ops/scripts/ansi-to-svg.py:212-227 | After that every title request gets one and the same title, "Untitled Release" and the number of bases |
| `TitleSpace.BasesLast` | ops/scripts/ansi-to-svg.py:212-227 | Unused bases remain after every run with fewer title and path requests than there are different bases |
| `TitleSpace.BuildTitleSpace` | ops/scripts/ansi-to-svg.py:176-183 | The nested loops list every pair of words in order, each with its own position as index |
| `TitleSpace.TitleSpaceSize` | ops/scripts/ansi-to-svg.py:176-186 | From m first and n second words, each list without repetition, come m * n different bases |
| `TitleSpace.PairsAreToldApart` | ops/scripts/ansi-to-svg.py:219-225 | The details that follow a two-word base never make the release names of two bases equal |
| `TitleSpace.RunInOrder` | ops/scripts/ansi-to-svg.py:207-227 | After any run exactly the bases before the cursor are used, and the cursor has moved once for every title and path asked for, up to the end |
| `TitleSpace.TitleOfARequest` | ops/scripts/ansi-to-svg.py:212-227 | The title a request is served with depends only on how many titles and paths were asked for before, and on the look of its original |
| `TitleSpace.TitlesEqualIff` | ops/scripts/ansi-to-svg.py:239-246 | In every run with m first and n second words two title requests get the same title if and only if m * n titles and paths were asked for before the earlier of them, "Untitled" being no first word; while m * n last they differ in any case |
| `ShippedNames.WordsAreDistinct` | ops/scripts/ansi-to-svg.py:149-155 | The shipped lists hold 28 and 22 different single words |
| `ShippedNames.ShippedTitlesEqualIff` | ops/scripts/ansi-to-svg.py:176-227 | With the shipped words and formats two title requests of a run get the same title if and only if 616 titles and paths were asked for before the earlier of them |
| `ShippedNames.ShippedTitlesRepeat` | ops/scripts/ansi-to-svg.py:212-227 | In a run of 618 title requests the last two answers are the same |
| `ShippedNames.EpisodesTakeTurns` | ops/scripts/ansi-to-svg.py:219-222 | The details behind an episode title are the same exactly for every twelfth title |
| `ShippedNames.FilmsTakeTurns` | ops/scripts/ansi-to-svg.py:223-225 | The details behind a film title are the same exactly for every twenty-fourth title |
| `ShippedNames.StemOfRelease` | ops/scripts/ansi-to-svg.py:261-262 | A path keeps both words of its title, or only the first if the second starts with S, for films and episodes alike |
| `ShippedNames.FirstPath` | ops/scripts/ansi-to-svg.py:260-265 | The first path, from the first title: "Season 1/Northwind Hollow - S01E01.mkv" |
| `ShippedNames.PathNumbers` | ops/scripts/ansi-to-svg.py:263-265 | A path is the stem of its title with a season from 1 to 5 and an episode from 1 to 11 that go on with the count of names |
| `ShippedNames.PathsEqualIff` | ops/scripts/ansi-to-svg.py:260-265 | Two paths are equal if and only if stem, season and episode are |
| `ShippedNames.PathsOfARunEqualIff` | ops/scripts/ansi-to-svg.py:236-270 | In every run two path requests get the same path if and only if season and episode agree and their bases share the first word with second words in S, or no base was left for either |
| `ShippedNames.PathsCollide` | ops/scripts/ansi-to-svg.py:236-270 | A run of 64 requests in which two paths are the same |
| `Redaction.Registry.TakeTitle` | ops/scripts/ansi-to-svg.py:212-227 | The loop over the bases computes the next title and the new registry |
| `Redaction.Registry.TakeFrom` | ops/scripts/ansi-to-svg.py:229-234 | The loop over a pool takes its first unused name, or wraps around |
| `Redaction.Registry.TakeName` | ops/scripts/ansi-to-svg.py:236-270 | The whole new registry and the name, for each kind |
| `ScreenLayout.Fit` | ops/scripts/ansi-to-svg.py:276-286 | A name never exceeds its width; a longer one is cut to it exactly and ends in an ellipsis |
| `ScreenLayout.ColumnIsNamedIff` | ops/scripts/ansi-to-svg.py:289-323 | A column specification rewrites exactly the cells from its start, or the beginning of the line, to its end, or the end of the line, if and only if the row matches and not all of them are blank |
| `ScreenLayout.MatchIsNamedIff` | ops/scripts/ansi-to-svg.py:328-370 | A pattern rewrites exactly the span its search reports, if and only if not all of it is blank |
| `ScreenLayout.ColumnKeepsLayout` | ops/scripts/ansi-to-svg.py:289-309 | A column substitution keeps the cell count, every style and every character outside the span; inside stands the fitted name, padded |
| `ScreenLayout.RedactKeepsLayout` | ops/scripts/ansi-to-svg.py:312-325 | A whole column redaction of any lines and specifications keeps every line's cell count and styles |
| `ScreenLayout.OutsideIsUntouched` | ops/scripts/ansi-to-svg.py:312-325 | A whole column redaction leaves every cell alone that lies in no column specified for its row |
| `ScreenLayout.ShiftKeepsFrame` | ops/scripts/ansi-to-svg.py:328-351 | A prose substitution keeps the cell count; the rightmost rail right of the span and all cells after it keep their columns; the text between moves left and blanks fill the gap |
| `ScreenLayout.MatchMovesText` | ops/scripts/ansi-to-svg.py:328-351 | What a prose substitution leaves, piece by piece: the fitted name at the head of the span in the style of its first cell, what followed up to the rail, blanks, and the rest as it was |
| `ScreenLayout.FrameKeptIff` | ops/scripts/ansi-to-svg.py:328-351 | A substitution by a name without a rail keeps the last rail and all cells after it if and only if there is no rail, or it ends at or before the last one, or it begins behind it where the name stands already with nothing but blanks in its style to follow |
| `ScreenLayout.RailsKeptIff` | ops/scripts/ansi-to-svg.py:328-351 | A substitution by a name without a rail keeps every rail of the line at its column if and only if none stands in the span nor, if the name is shorter, between the span and the last rail behind it |
| `ScreenLayout.PaneRailMoves` | ops/scripts/ansi-to-svg.py:334-336 | With another pane to the right, a shorter name moves its pane's own right rail to the left, while the last rail of the line and all behind it stay |
| `ScreenLayout.TwoPanes` | ops/scripts/ansi-to-svg.py:334-336 | "Nova", rail, "y", rail: with "Arc" for "Nova" the first rail moves from column 4 to column 3 |
| `ScreenLayout.EveryMatchKeepsRail` | ops/scripts/ansi-to-svg.py:354-371 | In a whole prose redaction of any lines and patterns every substitution keeps the cell count, the cells before its span, the rightmost rail to the right of it and all cells after that rail |
| `ScreenLayout.MatchAllKeeps` | ops/scripts/ansi-to-svg.py:354-371 | A whole prose redaction of any lines by any patterns keeps every line's cell count; a line on which no pattern, when its turn comes, finds a span reaching over the last rail keeps that rail and everything after it, whatever happens on the others |
| `ScreenLayout.RailsKeptThroughoutIff` | ops/scripts/ansi-to-svg.py:354-371 | A whole prose redaction by names without a rail leaves every rail of a line at its column if and only if each pattern, on the line as it finds it, disturbs no rail; no later substitution makes up for an earlier one |
| `ScreenLayout.PutIsShown` | ops/scripts/ansi-to-svg.py:298-351 | A name put in a span by either kind of substitution is read there, cut to the width of the span, on a line of the same length |
| `ScreenLayout.WriteCells` | ops/scripts/ansi-to-svg.py:307-309 | The loop over the cells of a span gives each its new character and keeps its style |
| `ScreenLayout.Screen.Redact` | ops/scripts/ansi-to-svg.py:312-325 | The nested loops over lines and specifications compute the column redaction, with the registry threaded through |
| `ScreenLayout.Screen.RedactMatches` | ops/scripts/ansi-to-svg.py:354-371 | The nested loops over patterns and lines compute the prose redaction, with the registry threaded through |
| `ScreenNames.RedactIsARun` | ops/scripts/ansi-to-svg.py:312-325 | A column redaction that starts where a run of requests led ends where the same run, gone on with the requests it made, leads; the lines are the same |
| `ScreenNames.MatchIsARun` | ops/scripts/ansi-to-svg.py:354-371 | So does a prose redaction |
| `ScreenNames.LaterSpotMeetsMore` | ops/scripts/ansi-to-svg.py:312-371 | Columns before patterns, row by row and pattern by pattern: a later place meets all requests an earlier one made |
| `ScreenNames.StandInIsAnAnswer` | ops/scripts/ansi-to-svg.py:276-371 | The name put at any place of a screen is the answer to one request of the whole run, for the text that stood there |
| `ScreenNames.AskedForWhatStands` | ops/scripts/ansi-to-svg.py:298-305 | The registry is asked for the kind of name the specification or pattern gives, for the very text that stands where the name is read |
| `ScreenNames.SitesOnAPage` | ops/scripts/ansi-to-svg.py:236-258 | On a page, after any pages before it, a site or rule has the same stand-in wherever it is named, in a column or in a sentence, and different ones have different stand-ins if no more were asked for than the pool has |
| `ScreenNames.ReadOnTheLine` | ops/scripts/ansi-to-svg.py:276-351 | What is read at a place, the stand-in cut to the width of its span, stands there in the cells of the line the substitution leaves |
| `ScreenNames.ReadOnThePage` | ops/scripts/ansi-to-svg.py:312-371 | And it stands there on the published page if no name is put in that row afterwards |
| `ScreenNames.SiteReadsAlikeIff` | ops/scripts/ansi-to-svg.py:161-171 | With the shipped names two mentions of a site read the same where they are put, until a later substitution in their row, if and only if their spans are equally wide or both at least three cells wide |
| `ScreenNames.TitlesOnAPage` | ops/scripts/ansi-to-svg.py:199-227 | Two titles on a page are the same if and only if 616 titles and paths were asked for before the first of them |
| `ScreenNames.AnswersAreAscii` | ops/scripts/ansi-to-svg.py:149-270 | Every name a run gives out with the shipped words and formats is plain ASCII |
| `ScreenNames.RailsOnAPage` | ops/scripts/ansi-to-svg.py:289-371 | With the shipped names the redaction of a page leaves every rail of a row, of whichever pane, at its column if and only if no name put there, in a column or in a sentence, has a rail in its span or, being shorter in a sentence, between its span and the last rail |
| `ScreenNames.Publish` | ops/scripts/ansi-to-svg.py:460-466 | The column and prose redactions in the order of `main` leave the screen and the registry the page theorems are about |
| `ScreenLayout.BackgroundRuns` | ops/scripts/ansi-to-svg.py:394-405 | The rectangles of a row cover exactly the cells with a background, each in its colour, without overlap and without needless seams |

## Left out

- Token refresh: login and logout between the steps, local storage, auth listeners and other browser tabs; a logout during a refresh would be overwritten by its answer. Waiting times and request bodies are not modelled.
- Intake: `selectStrategy`, a fixed order of preference over detected capabilities, and `preservesSource`, one comparison. Priorities are integers.
- PathMapping.RoundTripIff: does not cover rules with an empty prefix or the bare root, which are not segments to be replaced; what the root does is `RootRuleLosesTheSeparator`.
- File placement: directories, permissions, disk space and partially written copies; a path is a directory and a base name, so `path.join` does nothing. A clone that fails leaves nothing behind, though `cp` may have emptied a file it was to overwrite. Symbolic links name absolute targets.
- FilePlacement.Disk.CopyRepeatedly: nobody else changes the disk between finding a name and copying to it. What may happen there is the subject of `ExclusiveActionsNeverOverwrite`; the number of copies would then depend on the others.
- Action resolution: server-side permission filtering and dispatch, display fields; `order` is an integer and `localeCompare` a total order.
- Title identity: non-ASCII letters and Unicode decomposition; `sameCanonicalTitle`, which follows from the canonical form.
- HTML: nothing beyond the seven entities the code decodes.
- Fuzzy matching: case mapping and white space outside ASCII.
- Magnet: percent-decoding and the wording of rejections.
- Redaction: the test for what looks like an episode is a parameter.
- Screen layout: a pattern's first group that takes no part in a match, ANSI parsing, and the text and SVG output of `to_svg`.
- React components, Nest modules, persistence, network policy (`ssrf.ts`, `provider-url.ts`), time zones and files of constants: I/O, configuration or vocabulary.
