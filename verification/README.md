# Verified models of the citizen-app platform's hard parts

A Dafny 4.11 project that models the parts of the repository whose correctness is not visible from
reading one function, and proves what they promise. Code that changes state is modelled as classes and
methods with the source's own loops, each proved equal to a function of its inputs or its old state; the
promises are then lemmas about those functions, over every input, every interleaving or every run.
`dafny verify dfyconfig.toml` checks everything.

| modules | what they model |
|---|---|
| `DebianVersion`, `VersionTexts` | the dpkg version comparison (section 5.6.12 of the Debian Policy Manual) and the "already fixed" verdict built on it |
| `Findings`, `VerdictLaws`, `Entries`, `ReadingOrder`, `Integrity`, `Reconcile`, `Register`, `RegisterRun`, `RegisterLaws`, `RegisterMain`, `ReconcileAgain` | the vulnerability register: grouping scanner rows into sorted entries, reconciling two exports once and again, overrides, sheets, totals and the exit code |
| `Readiness`, `ReadinessByEvents` | the sandbox supervisor's readiness cache and single-flight probe, as a state machine over its locked regions |
| `CompileSignal`, `SignalByEvents` | the compile-state machine fed by the dev server's socket, with its debounce and drift alarm |
| `Redaction`, `LogRing` | the secret redactor, and the bounded log ring with its absolute cursor |
| `FlightData` | the flight-data reader: streaming dedupe and file skipping |
| `MergeTag`, `MergeScan`, `MergeForm` | the merged-cell expression, the chunked scan that runs it, and which texts they accept |
| `ChatTitle`, `ChatBatch`, `ChatNaming` | the migration that names untitled chats |
| `PlanAnswers`, `PlanCards`, `PlanLaws` | the migration that closes outstanding plan cards: the walk over stored payloads, and the pass |
| `WindowResolver` | the connector window resolver |
| `Sequences`, `TextOrder`, `JsonValues` | facts about sequences, counting, ordered sets and the order of strings, and the JSON values, that these share |

The functions that a promise would otherwise be stated through have meanings of their own, in words that do
not call them: versions by their texts (`VersionTexts`), verdicts and the register by the rows of the two
exports (`VerdictLaws`, `RegisterLaws`), the two state machines by the events of a run (`ReadinessByEvents`,
`SignalByEvents`), tags by their bytes (`MergeForm`), stored messages by what is written in them (`ChatBatch`,
`PlanLaws`).

How the concurrent parts are modelled: each region under a lock is one atomic step, any step of any
thread may come next, and time is a real number that never decreases. Socket frames, probe results,
thread-start failures, timeouts and other writers are arbitrary inputs of the steps.

## Where the code and its own words differ

The models follow the code.

- The comment at `sandbox/supervisor/app.py:1080-1085` claims that the drift alarm fires at most once per
  connect generation; the loop does not keep to it. `CompileSignal.AlarmFiresTwice` is a run in which it
  fires twice in one, and `CompileSignal.AlarmAgainIff` says exactly when it is due again. The same passage says only a real compile state or the next connect may
  clear the reason; `CompileSignal.AlarmTakenDownBy` lists everything that does, which includes a
  disconnect and a restart, while a clean frame clears it only once a read has settled it.
- A text that is not JSON neither arms nor discharges the drift alarm
  (`sandbox/supervisor/app.py:1164-1167`, `CompileSignal.NotJsonCountsForNothing`).
- An image declared never scanned that does have before rows passes the guard of
  `backend/scripts/exception_register.py:1944-1954`. Its entries read Fixed and its Summary check reads
  MISMATCH (`RegisterMain.UncoveredImageReadsFixed`, `RegisterMain.UncoveredImageHappens`,
  `RegisterMain.SummaryOkIff`).
- The output of the grouping passes the integrity check exactly when the rows' sources are distinct
  (`Integrity.GroupedPassesIff`); the check itself does not look for that.
- A redacted text can still hold a registered secret: redaction removes a secret from every text exactly
  when it neither starts nor ends with `*` and does not hold `***` (`Redaction.GoneIffMaskProof`,
  `Redaction.GoneInEveryListIffMaskProof`). Secrets without `*` are all of that kind.
- A second `reconcile` over the finished list changes a verdict exactly when an addition rule had called an
  after-only entry Fixed (`ReconcileAgain.FinishedAgainIff`); over the same two lists it never does.
- The merged-range scan is complete for tags of one byte more than its overlap
  (`MergeScan.WindowsFindAll`). In general it loses a range exactly when no tag with it lies inside one
  window (`MergeScan.LosesNothingIff`), and the boundary of a full read can hide a padded tag one byte
  longer, although the expression accepts it (`MergeScan.LongTagCanBeMissed`).
- The window bounds hold for an out-of-order stored pair until it ages out, and fail from then on
  (`WindowResolver.InBoundsIff`); the write side's ordering is needed only for that case.

## Model

| member | source | states |
|---|---|---|
| `DebianVersion.ComparePart` | backend/scripts/exception_register.py:158-188 | the two-cursor loop computes lexicographic order on the canonical key of each string, and its final break is reached only with both strings used up (asserted at the break) |
| `DebianVersion.SkipDigits` | backend/scripts/exception_register.py:178-181 | the digit-skipping loops stop at the end of the digit run |
| `DebianVersion.OrderSeparates` | backend/scripts/exception_register.py:147-155 | the collation sorts `~` below a digit or the end, letters above that and every other mark above letters, and gives two marks one weight only when they are the same |
| `DebianVersion.PadCompareMeaning` | backend/scripts/exception_register.py:158-188 | the recursive key order decides by the first place two zero-padded sequences differ: below, above and alike, each if and only if |
| `DebianVersion.AppendedMark` | backend/scripts/exception_register.py:147-155 | whatever came before, an appended `~...` sorts below and any other appended mark above |
| `DebianVersion.ZeroPaddingCollapses` | backend/scripts/exception_register.py:176-185 | writing a zero in front of a number anywhere in a version changes its key not at all |
| `VersionTexts.DecimalSplit` | backend/scripts/exception_register.py:182-185 | a run of digits is read as a decimal number |
| `VersionTexts.NumbersAsWritten` | backend/scripts/exception_register.py:182-185 | of two numbers without leading zeros the smaller is the shorter, or of two as long the one with the smaller digit where they first differ, if and only if |
| `VersionTexts.NumbersDecide` | backend/scripts/exception_register.py:176-185 | of two version parts that first differ in such a number, whatever came before and follows, the one with the smaller number sorts below |
| `VersionTexts.MarksDecide` | backend/scripts/exception_register.py:163-175 | of two that first differ in a mark, `~` sorts below the end and below a number, those below letters, letters below other marks, and within a class the code point decides |
| `DebianVersion.SplitRevision` | backend/scripts/exception_register.py:141-144 | the split is at the last dash: the parts rejoin to the text and the revision holds no dash; without a dash there is no revision |
| `DebianVersion.CompareVersions` | backend/scripts/exception_register.py:191-204 | the comparison equals the order on (epoch, upstream key, revision key) |
| `VersionTexts.PartsDecide` | backend/scripts/exception_register.py:191-204 | a version sorts below another if and only if its epoch is smaller, or these are equal and its upstream part precedes, or those are alike too and its revision does |
| `VersionTexts.EpochRead` | backend/scripts/exception_register.py:134-144 | a number and a colon in front of a trimmed version are its epoch; without them it is 0 and the whole text is split |
| `VersionTexts.PrefixDropped` | backend/scripts/exception_register.py:207-213 | a `go`, `v` or `V` in front of a number is dropped, and nothing else is |
| `VersionTexts.StripTakes` | backend/scripts/exception_register.py:207-209 | exactly the spaces at both ends are stripped |
| `VersionTexts.LineIsMajorMinor` | backend/scripts/exception_register.py:229-232 | the release line is the text up to the second dot, or all of it |
| `DebianVersion.VersionOrderIsPreorder` | backend/scripts/exception_register.py:191-204 | that order is reflexive, total, sign-antisymmetric and transitive on all strings |
| `DebianVersion.MaxFromIsGreatest` | backend/scripts/exception_register.py:252-270 | `max` under the wrapper key returns a candidate at or above every other, though the key's equality is equality of texts |
| `DebianVersion.AtOrPastFixMeaning` | backend/scripts/exception_register.py:235-253 | "already fixed" holds if and only if there are candidates, the installed text is not blank, and it is at or above every candidate on its release line, or every candidate at all when none is |
| `DebianVersion.EmptyLineIsBlank` | backend/scripts/exception_register.py:229-232 | the release line is empty exactly for blank versions |
| `DebianVersion.AtOrPastFixIsStable` | backend/scripts/exception_register.py:235-253 | the verdict survives any upgrade on the same release line |
| `Findings.FirstRuleMeaning` | backend/scripts/exception_register.py:806-815 | the first rule that matches assigns the verdict, and no rule is passed over |
| `Findings.FixedOnlyByRule` | backend/scripts/exception_register.py:776-831 | a row is claimed Fixed if and only if its first matching rule says so and neither derived verdict outranks it |
| `VerdictLaws.VerdictMeaning` | backend/scripts/exception_register.py:776-831 | case by case: past its fix a row is disputed; with nothing but pre-releases on offer it is an exception; else the first matching rule gives disposition, unit, owner and date; else a released fix makes an unowned deferral and no fix an exception |
| `VerdictLaws.PastFixIff` | backend/scripts/exception_register.py:235-253 | past its fix means at or above every offered fix on the installed release line, or every one when none is on it |
| `Findings.StrictestIsMinimal` | backend/scripts/exception_register.py:933-935 | the verdict a group gets is one of its rows' and none of its rows' is stricter |
| `Findings.StrictnessSeparates` | backend/scripts/exception_register.py:950-959 | no two dispositions are equally strict |
| `Findings.GroupFixedIffAllFixed` | backend/scripts/exception_register.py:900-945 | a grouped entry is Fixed if and only if every one of its rows is |
| `Findings.GroupVerdictIgnoresOrder` | backend/scripts/exception_register.py:933-935 | its disposition is the same for every order of its rows |
| `VerdictLaws.StrictestRowWins` | backend/scripts/exception_register.py:933-959 | a group gets the first of held, deferred, exception, rejected dispute, superseded, dispute, out of scope and Fixed that one of its rows gets |
| `Findings.MostSevereIsMinimal` | backend/scripts/exception_register.py:929-931 | the severity kept is carried by some row and no row carries a more severe one |
| `VerdictLaws.SeverestRowWins` | backend/scripts/exception_register.py:929-931 | and the first of Critical, High, Medium and Low that one of its rows has |
| `VerdictLaws.UnknownSeverityStays` | backend/scripts/exception_register.py:929-931 | with none of those the first row's label stays |
| `Entries.Entry.constructor` | backend/scripts/exception_register.py:840-858 | a new entry takes its key, severity and texts from its first row, is held and unassigned, and has no rows or paths |
| `Entries.Entry.AddRow` | backend/scripts/exception_register.py:923-931 | one row is appended, the new ones among its installation paths are added behind, and the severity is raised if the row is more severe; nothing else changes |
| `Entries.PathsMeaning` | backend/scripts/exception_register.py:924-928 | an entry's paths are exactly the non-blank ones its rows name, each once |
| `Entries.PathsInOrder` | backend/scripts/exception_register.py:924-928 | in the order they are first named |
| `Entries.Groups` | backend/scripts/exception_register.py:908-935 | one entry per distinct key in first-met order, holding exactly that key's rows in order, never none |
| `Entries.CollectAllMeaning` | backend/scripts/exception_register.py:908-931 | after the grouping loop the dict has exactly the keys met, each with exactly its rows |
| `Entries.AbsorbRow` | backend/scripts/exception_register.py:909-931 | one turn of the loop over entry objects matches the same turn on values, other entries untouched |
| `Entries.CollectRows` | backend/scripts/exception_register.py:908-931 | the dict of fresh objects mirrors the grouping of all rows, in first-met key order |
| `Entries.AssignVerdicts` | backend/scripts/exception_register.py:933-935 | every entry gets the strictest of its rows' verdicts, and nothing else changes |
| `Entries.BuildGroups` | backend/scripts/exception_register.py:908-935 | the objects built are fresh and their values are exactly those groups |
| `TextOrder.CompareTextMeaning` | backend/scripts/exception_register.py:937-945 | texts are compared by the first character they differ in, a beginning before what it begins |
| `ReadingOrder.CompareViewsMeaning` | backend/scripts/exception_register.py:937-945 | an entry is read before another by image, then severity, then package, then CVE |
| `ReadingOrder.CompareViewsChains` | backend/scripts/exception_register.py:937-945 | the order by image, severity, package and CVE is transitive, and level only where every part is |
| `ReadingOrder.SortViewsSorts` | backend/scripts/exception_register.py:937-945 | sorting permutes and sorts |
| `ReadingOrder.SortViewsIsStable` | backend/scripts/exception_register.py:937-945 | and keeps the order of entries that tie |
| `ReadingOrder.SortEntries` | backend/scripts/exception_register.py:937-945 | the entry objects come out in that order |
| `ReadingOrder.GroupedFacts` | backend/scripts/exception_register.py:900-945 | the finished grouping has one entry per distinct key with exactly that key's rows, in reading order, and is a permutation of the groups |
| `ReadingOrder.GroupedEntry` | backend/scripts/exception_register.py:908-935 | each entry has the most severe label, the paths and the strictest verdict of its key's rows, and the texts of the first |
| `ReadingOrder.BuildEntries` | backend/scripts/exception_register.py:900-945 | the objects returned are fresh and their values are exactly the finished grouping |
| `Integrity.Repeated` | backend/scripts/exception_register.py:1594-1595 | the keys a counter reports above one are exactly the repeated ones |
| `Integrity.Walk` | backend/scripts/exception_register.py:1606-1622 | the walk gathers every entry's rows and exactly the held entries |
| `Integrity.UnmappedMeaning` | backend/scripts/exception_register.py:1606-1622 | the entries reported as waiting are exactly the held ones |
| `Integrity.CheckIntegrity` | backend/scripts/exception_register.py:1586-1631 | ok exactly when no key repeats, totals agree, no source is missing and none doubled; totals and held entries reported are the true ones |
| `Integrity.PassesIffPermutation` | backend/scripts/exception_register.py:1586-1631 | with distinct row sources, ok if and only if keys are distinct and the entries' sources are a permutation of the input's (a counting argument: no check for foreign sources is needed) |
| `Integrity.PassesIffRowsPermuted` | backend/scripts/exception_register.py:1586-1631 | when a source names one row, ok if and only if keys are distinct and the entries' rows are a permutation of the input rows |
| `Integrity.GroupingIsPartition` | backend/scripts/exception_register.py:900-945 | grouping any rows loses none, repeats none and gives distinct keys |
| `Integrity.GroupedPassesIff` | backend/scripts/exception_register.py:1586-1631 | the grouping's output passes the check if and only if the row sources are distinct |
| `Reconcile.DictOf` | backend/scripts/exception_register.py:1005-1006 | the dict maps each key to the last entry with it |
| `Reconcile.DictValues` | backend/scripts/exception_register.py:1033-1034 | the dict is walked in first-met key order |
| `Reconcile.Lacking` | backend/scripts/exception_register.py:1071-1073 | the second loop visits exactly the entries whose key the first export lacks |
| `Reconcile.MarkSuperseded` | backend/scripts/exception_register.py:1018-1030 | only the replaced digest and the verdict change, and the verdict keeps the unit |
| `Reconcile.SettleBefore` | backend/scripts/exception_register.py:1033-1069 | one turn of the first loop: outcome and entry are those of the value-level case split |
| `Reconcile.SettleAfter` | backend/scripts/exception_register.py:1071-1104 | one turn of the second loop, likewise |
| `Reconcile.ReconcileExports` | backend/scripts/exception_register.py:990-1106 | the whole pass over entry objects: which entries it returns, their new values, and `cleared`, `failed_to_clear`, `unanticipated`, `after_only` and `superseded`, each exactly; keys stay distinct and all other entries unchanged |
| `Register.FixedIffGone` | backend/scripts/exception_register.py:1033-1069 | a before-entry ends Fixed if and only if the rescan lacks its key |
| `Register.AdditionFixedOnlyByRule` | backend/scripts/exception_register.py:1071-1104 | an after-only entry ends Fixed if and only if it is not superseded and the first matching addition rule says Fixed |
| `Register.FixedMeansGone` | backend/scripts/exception_register.py:990-1106 | with no addition rule saying Fixed, over all entries Fixed is exactly "came from the before-export and is gone" |
| `Register.ClearedCountsGone` | backend/scripts/exception_register.py:1053-1068 | `cleared` counts exactly the before-entries that are gone |
| `RegisterLaws.ReplacedIff` | backend/scripts/exception_register.py:1009-1016 | rows are taken for those of a manifest no longer shipped if and only if their image has a shipped digest and the first digest they name is another one |
| `RegisterLaws.OldFates` | backend/scripts/exception_register.py:1033-1069 | what becomes of an original entry, by the rows of the rescan: superseded when those with its key name another digest first; Fixed when there are none; an unowned deferral when it was claimed Fixed; else untouched |
| `RegisterLaws.AdditionRuleIs` | backend/scripts/exception_register.py:1079-1088 | the addition rule taken is the first that matches one of the key's rows |
| `RegisterLaws.NewFates` | backend/scripts/exception_register.py:1071-1104 | what becomes of an after-only entry: superseded likewise, else the verdict of that rule, else an unowned deferral |
| `Register.ReconcileTwice` | backend/scripts/exception_register.py:1033-1104 | settling one entry again changes nothing, and is no further failed fix |
| `ReconcileAgain.ReconcileExportsTwice` | backend/scripts/exception_register.py:990-1106 | two calls on the same lists of entry objects leave what one leaves: same entries, same verdicts, as many cleared, the same superseded and unanticipated, none failed |
| `ReconcileAgain.FinishedAgainIff` | backend/scripts/exception_register.py:990-1106 | running over the finished list against the same rescan changes nothing if and only if no after-only entry is Fixed |
| `ReconcileAgain.FinishedAgain` | backend/scripts/exception_register.py:990-1106 | with no addition rule saying Fixed it therefore changes nothing |
| `ReconcileAgain.ReconcileFinished` | backend/scripts/exception_register.py:990-1106 | the same on the objects: the same entries, none new, as many cleared, and with no addition rule saying Fixed none changed and none failed |
| `Register.OverridesKeepRows` | backend/scripts/exception_register.py:1196-1221 | overrides change no key and no rows, and leave an entry no override matches exactly as it was |
| `RegisterLaws.MatchesMeaning` | backend/scripts/exception_register.py:1136-1142 | an override matches its image, CVE, package and version, or every version when it names none |
| `RegisterLaws.LastGivenWins` | backend/scripts/exception_register.py:1205-1220 | disposition, reason, owner, date, vendor status and tracker each end as the last matching override that gives one says |
| `RegisterLaws.NotGivenStays` | backend/scripts/exception_register.py:1205-1220 | and stay as they were when none does |
| `Register.ApplyOverride` | backend/scripts/exception_register.py:1205-1220 | one override updates exactly the entries it matches, once for every time each is listed, and reports whether there was one; any list |
| `Register.ApplyOverrides` | backend/scripts/exception_register.py:1196-1221 | all overrides in turn, over any list; the names returned are exactly those of overrides that match nothing |
| `RegisterLaws.UnmatchedMeaning` | backend/scripts/exception_register.py:1196-1204 | the names reported are image, CVE and package of exactly the overrides that name no entry |
| `Register.SheetsPartition` | backend/scripts/exception_register.py:1543-1545 | however entries are filed, row counts over the six sheets add up to all rows, per image |
| `RegisterRun.FileEntries` | backend/scripts/exception_register.py:1543-1545 | each sheet gets exactly the entries of its dispositions, in order |
| `RegisterRun.AdditionRows` | backend/scripts/exception_register.py:1956-1958 | the counter holds, per image, the rows of the after-only entries |
| `RegisterRun.GroupedAccountsForAll` | backend/scripts/exception_register.py:900-945 | per image, a grouping accounts for exactly its export's rows |
| `RegisterRun.NewKeysAccount` | backend/scripts/exception_register.py:1071-1074 | per image, the after-only entries hold exactly the rescan rows with new keys |
| `RegisterRun.FinalKeepsRows` | backend/scripts/exception_register.py:1918-1922 | grouping, reconciliation and overrides together keep every entry's key and rows |
| `RegisterRun.RegisterAccountsForAll` | backend/scripts/exception_register.py:1918-1958 | for every image, rows accounted over the finished register equal its before rows plus its rescan rows with new keys |
| `RegisterMain.FixedMeansOnListAndGone` | backend/scripts/exception_register.py:1918-1922 | in the finished register an entry no override matches is Fixed if and only if its key was on the original list and is gone |
| `RegisterMain.FailedToClearNeedsOverride` | backend/scripts/exception_register.py:1039-1052 | an entry whose fix failed to land blocks shipping until an override matches it |
| `RegisterMain.UnanticipatedNeedsOverride` | backend/scripts/exception_register.py:1090-1103 | so does an entry nobody anticipated |
| `RegisterMain.SummaryOkIff` | backend/scripts/exception_register.py:1463-1470 | the Summary check of an image reads OK if and only if the image was not declared never scanned or has no before rows |
| `RegisterMain.ClearedIsGoneKeys` | backend/scripts/exception_register.py:1053-1068 | `cleared` is the number of original keys the rescan lacks |
| `RegisterMain.GroupBoth` | backend/scripts/exception_register.py:1868-1878 | both exports are grouped into fresh objects, and the integrity verdict is exactly "sources are distinct" |
| `RegisterMain.ReconcileGrouped` | backend/scripts/exception_register.py:1918 | the reconciliation of the two groupings, as values |
| `RegisterMain.AnsweredWhenSettled` | backend/scripts/exception_register.py:1983-2011 | nothing held and every deferral owned implies every failed or unanticipated entry was matched by an override |
| `RegisterMain.FinishRegister` | backend/scripts/exception_register.py:1920-2012 | overrides, additions, sheets and exit code of the written register, exactly |
| `RegisterMain.BuildRegister` | backend/scripts/exception_register.py:1868-2012 | the command refuses exactly on its four conditions, and otherwise writes the register described: its entries, its failed, unanticipated, new and superseded lists, its sheets and totals, and exit 0 if and only if sources are distinct, nothing is held, every deferral is owned and every override matched |
| `RegisterMain.ShipsIff` | backend/scripts/exception_register.py:1983-2012 | exit 0 if and only if sources are distinct, no entry of the written register is held or deferred without an owner or a date, and every override names an entry; else exit 1 |
| `RegisterLaws.RefusesByRows` | backend/scripts/exception_register.py:1868-1954 | the refusals by rows: an empty side, a shipped digest that none of its image's rows names although they name others, or an uncovered image not declared never scanned |
| `RegisterLaws.CountsPlaces` | backend/scripts/exception_register.py:1956-1958 | rows are counted per image |
| `RegisterMain.ListedOld` | backend/scripts/exception_register.py:1033-1069 | in the written register an original entry is listed as superseded exactly when the first digest the rescan's rows with its key name is not the shipped one, and as failed exactly when it is not, there are such rows, and it was claimed Fixed |
| `RegisterMain.ListedNew` | backend/scripts/exception_register.py:1071-1104 | an after-only entry is listed as new, as superseded likewise, and as unanticipated exactly when it is not and no addition rule matches one of its rows |
| `RegisterMain.WrittenSheetsAddUp` | backend/scripts/exception_register.py:1463-1470 | on every image the sheets' total equals the before rows plus the additions written beside it |
| `RegisterMain.OneSheetEach` | backend/scripts/exception_register.py:1543-1545 | every entry is on the sheet of its disposition and on no other |
| `RegisterMain.SheetsByDisposition` | backend/scripts/exception_register.py:1543-1545 | which sheet that is: exceptions and rejected disputes share one, superseded and out of scope another, every other disposition has its own |
| `RegisterMain.UncoveredImageReadsFixed` | backend/scripts/exception_register.py:1928-1954 | the guard lets an unscanned image through only if declared never scanned; its untouched entries then read Fixed and its Summary check fails |
| `RegisterMain.UncoveredImageHappens` | backend/scripts/exception_register.py:1928-1954 | inputs on which that happens, for any two rows on different images |
| `Readiness.Ready.ForgetReady` | sandbox/supervisor/app.py:644-667 | the locked region: a death already mourned changes nothing, anything else drops the pair, frees the slot and starts a generation |
| `Readiness.Ready.Begin` | sandbox/supervisor/app.py:722-733 | the first locked region of a poll: a fresh answer, a new probe in the slot, or the probe to wait for |
| `Readiness.Ready.SpawnFailed` | sandbox/supervisor/app.py:737-744 | the slot is handed back only by the event that holds it |
| `Readiness.Ready.FinishProbe` | sandbox/supervisor/app.py:683-691 | the publishing region: a disowned probe changes nothing; one of the current generation frees the slot and publishes an answer it got |
| `Readiness.Ready.End` | sandbox/supervisor/app.py:749-754 | the last locked region of a poll |
| `Readiness.StepKeepsInv` | sandbox/supervisor/app.py:611-754 | every step of every thread keeps the invariant: matched pair, owned slot, known events, one check per generation |
| `Readiness.RunKeepsInv` | sandbox/supervisor/app.py:611-754 | the invariant holds in every state of every interleaving |
| `Readiness.SlotCannotWedge` | sandbox/supervisor/app.py:722-746 | in every reachable state the slot is held exactly by the unfinished probe of the current generation, and every waited-for event has an owner |
| `Readiness.OwnStepsCountDown` | sandbox/supervisor/app.py:670-746 | every own step of a probe, with whatever outcome, brings its event nearer to being set; no step of any other thread touches the probe |
| `Readiness.OwnStepReady` | sandbox/supervisor/app.py:670-746 | until its event is set an own step can always be taken, with every outcome it may have |
| `Readiness.OwnStepsAreFew` | sandbox/supervisor/app.py:670-746 | over every run, with anything in between, a probe takes at most the own steps it had left, three in all |
| `Readiness.EventIsSet` | sandbox/supervisor/app.py:683-692 | after those steps the event is set and the slot free of the probe |
| `Readiness.FailedSpawnFreesSlot` | sandbox/supervisor/app.py:737-746 | a thread that will not start frees the slot at once |
| `Readiness.CheckStartsOnce` | sandbox/supervisor/app.py:688-698 | the base-path check starts at most once per generation, over every run |
| `ReadinessByEvents.TrueAnswerIsEarned` | sandbox/supervisor/app.py:701-754 | in every interleaving `ready: true` comes with the status that a probe returned less than the TTL before, and between the start of that probe and the answer there is no restart and no death but of the child mourned last |
| `ReadinessByEvents.AnswerIsHeld` | sandbox/supervisor/app.py:670-692 | what the cache holds at any time is the latest answer of a probe begun with no reset since, and it holds one only when there is such an answer |
| `ReadinessByEvents.AnsweredByEvents` | sandbox/supervisor/app.py:701-754 | by events, both ways: a poll is told `ready: true` if and only if such an answer is younger than the TTL, with that answer's status; else, at its last step, `ready: false` and no status |
| `ReadinessByEvents.ResetStep` | sandbox/supervisor/app.py:644-667 | a restart always drops the affirmative and starts a generation; a death does unless it is of the child the latest reset was for, and then it changes nothing |
| `ReadinessByEvents.PollByEvents` | sandbox/supervisor/app.py:722-733 | a poll begins a probe if and only if no answer serves and none is in flight since the latest reset; with one in flight it waits for that one |
| `ReadinessByEvents.SlotByEvents` | sandbox/supervisor/app.py:722-744 | the slot is held exactly by the probe begun since the latest reset that has neither returned nor failed to start |
| `ReadinessByEvents.CheckByEvents` | sandbox/supervisor/app.py:688-698 | the base-path check is started by exactly the first answer after each reset |
| `CompileSignal.CutErrors` | sandbox/supervisor/app.py:1042-1046 | the first five errors, each whole or its first 4000 characters |
| `CompileSignal.DerivedByVerb` | sandbox/supervisor/app.py:1018-1050 | what a frame says by its verb alone: `building`; `built` and `sync` with their errors or clean; nothing for exactly the listed verbs; unreadable for all others |
| `CompileSignal.Compile.Publish` | sandbox/supervisor/app.py:1053-1057 | the state, errors and reason are replaced and a waiting `clean` dropped |
| `CompileSignal.Compile.Note` | sandbox/supervisor/app.py:1060-1067 | good news waits, anything else is published |
| `CompileSignal.Compile.NoteStatelessFrame` | sandbox/supervisor/app.py:1086-1088 | only the placeholder written at connect is sharpened |
| `CompileSignal.Compile.Read` | sandbox/supervisor/app.py:1612-1619 | a read settles a `clean` old enough and returns what is then published |
| `CompileSignal.Compile.Forget` | sandbox/supervisor/app.py:1097-1100 | the signal drops to `unknown` with the reason |
| `CompileSignal.Compile.Connect` | sandbox/supervisor/app.py:1129-1131 | a connect counts a generation and forgets the state |
| `CompileSignal.Consumer.OnConnect` | sandbox/supervisor/app.py:1128-1149 | the object and the debt after a connect |
| `CompileSignal.Consumer.OnFrame` | sandbox/supervisor/app.py:1157-1187 | one received text, all five arms |
| `CompileSignal.Consumer.OnTimeout` | sandbox/supervisor/app.py:1158-1162 | the alarm |
| `CompileSignal.AlwaysWellFormed` | sandbox/supervisor/app.py:1053-1100 | in every state of every run `unknown` holds iff a reason is set, `failed` iff errors are non-empty, and only a clean can be waiting |
| `SignalByEvents.LatestDecides` | sandbox/supervisor/app.py:1018-1100 | what a reader is told after any run, by the latest connect, disconnect, drop, alarm, `building`, `built` or `sync`: after `building` it is building, after a completion with errors failed with those, after a clean one clean once read past the debounce and until then what was told before, after anything else unknown with its reason |
| `SignalByEvents.SilentAtFirst` | sandbox/supervisor/app.py:910-923 | before any of those, unknown and never connected |
| `SignalByEvents.GenerationCountsConnects` | sandbox/supervisor/app.py:1129-1131 | the generation told is the number of connects |
| `CompileSignal.NeverFailsOpen` | sandbox/supervisor/app.py:1018-1100 | whenever the state is `clean`, the latest event bearing on the state was a clean frame |
| `CompileSignal.CleanOnlyOnSettledRead` | sandbox/supervisor/app.py:1091-1094 | `clean` is entered only by a read, at least the debounce after the latest clean frame, with nothing bearing on the state since |
| `CompileSignal.AlarmDueIff` | sandbox/supervisor/app.py:1149-1182 | the alarm is due if and only if the canary has passed since the connect, or since the first unreadable frame after the last recognised one; later unreadable frames do not postpone it |
| `CompileSignal.AlarmOnlyWhenDue` | sandbox/supervisor/app.py:1156-1162 | `no_recognised_frame` enters the published reason only by an alarm that was due |
| `CompileSignal.StatelessFrameIsHarmless` | sandbox/supervisor/app.py:1070-1088 | a stateless verb discharges the debt and touches neither state, errors, waiting `clean` nor a raised alarm |
| `CompileSignal.AlarmTakenDownBy` | sandbox/supervisor/app.py:1053-1100 | exactly which steps take a raised alarm down |
| `CompileSignal.AlarmsApart` | sandbox/supervisor/app.py:1149-1182 | between two alarms with no connect between them an unreadable frame arrived |
| `CompileSignal.AlarmAgainIff` | sandbox/supervisor/app.py:1149-1182 | after an alarm, with no connect since, the next is due if and only if no disconnect came and an unreadable frame after the alarm has gone unanswered for the canary's length |
| `CompileSignal.NotJsonCountsForNothing` | sandbox/supervisor/app.py:1163-1167 | through any number of texts that are not JSON, what is owed stays owed since the same moment and nothing owed stays nothing owed |
| `CompileSignal.AlarmFiresTwice` | sandbox/supervisor/app.py:1080-1085 | a run in which the alarm fires twice in one connection: "at most once per connect" does not hold |
| `Redaction.Redact` | sandbox/supervisor/app.py:260-267 | the loop replaces the secrets in turn |
| `Redaction.ReplaceIsGlue` | sandbox/supervisor/app.py:265-266 | one replacement cuts the text at occurrences of the secret and changes nothing else |
| `Redaction.NothingNewAppears` | sandbox/supervisor/app.py:265-266 | text that neither starts nor ends with `*` nor holds the mask, found after a replacement, was in the text before it |
| `Redaction.ReplacedIsGone` | sandbox/supervisor/app.py:265-266 | such a secret does not occur after its own replacement |
| `Redaction.NoSecretSurvives` | sandbox/supervisor/app.py:260-267 | a registered secret that neither starts nor ends with `*` nor holds `***` occurs nowhere in the output, whatever the other secrets are, their order and overlaps |
| `Redaction.NorOneHoldingIt` | sandbox/supervisor/app.py:260-267 | nor does any text that holds such a secret |
| `Redaction.GoneIffMaskProof` | sandbox/supervisor/app.py:265-266 | one secret is removed from every text by its replacement if and only if it is of that kind |
| `Redaction.GoneInEveryListIffMaskProof` | sandbox/supervisor/app.py:260-267 | and is removed from every text by every list it is registered in if and only if it is |
| `Redaction.SurvivesUnlessMaskProof` | sandbox/supervisor/app.py:265-266 | a text in which it survives, for every secret that is not |
| `Redaction.StarFreeIsMaskProof` | sandbox/supervisor/app.py:260-267 | every secret without `*` is of that kind |
| `Redaction.CleanTextUnchanged` | sandbox/supervisor/app.py:260-267 | text holding no secret is returned unchanged |
| `Redaction.MaskCompletesAnother` | sandbox/supervisor/app.py:260-267 | one secret's mask can put together another, already looked for, that was not in the text |
| `Redaction.RegisterSecret` | sandbox/supervisor/app.py:231-238 | a value long enough is registered raw and decoded; nothing else is added and no empty secret ever |
| `LogRing.Dev.Start` | sandbox/supervisor/app.py:1483-1486 | a new life has an empty history |
| `LogRing.Dev.Pump` | sandbox/supervisor/app.py:757-762 | a line is appended to the history the ring and counter stand for |
| `LogRing.Dev.Logs` | sandbox/supervisor/app.py:1574-1587 | the ring and cursor arithmetic serve exactly the redacted window of the full history |
| `LogRing.RingWindow` | sandbox/supervisor/app.py:1576-1586 | slicing the bounded ring is slicing the unbounded history |
| `LogRing.ServedLinesAreRedacted` | sandbox/supervisor/app.py:1584-1587 | no served line holds a secret that redaction removes; lines without secrets are served as printed |
| `LogRing.HistoryIsPrinted` | sandbox/supervisor/app.py:757-762 | over every run of prints and polls the history is what was printed, and a poll's `next` is its length |
| `LogRing.ReceivedInOrderOnce` | sandbox/supervisor/app.py:1573-1587 | over every run a client feeding `next` back gets lines of the history in order, none twice |
| `LogRing.ReceivesAllIffKeepsUp` | sandbox/supervisor/app.py:1573-1587 | it has the whole history up to its cursor if and only if it never fell more than a ring's length behind |
| `FlightData.Latest.KeepLatest` | sandbox/seed/flight-data.ts:257-264 | the in-place fold over a row group is the fold on values |
| `FlightData.CurrentRecordsOnly` | sandbox/seed/flight-data.ts:248-252 | the current records of one list of rows |
| `FlightData.CurrentRecordsMeaning` | sandbox/seed/flight-data.ts:248-266 | one record per flight in first-met order, and a row is a record exactly when it is the earliest of its flight's rows with the highest stamp |
| `FlightData.HeldIsCurrent` | sandbox/seed/flight-data.ts:257-264 | what the map holds for a flight is that row |
| `FlightData.ReadFile` | sandbox/seed/flight-data.ts:355-369 | the loop over one file's row groups folds exactly the file's rows |
| `FlightData.ReadCurrentRecords` | sandbox/seed/flight-data.ts:345-372 | reading file by file and group by group gives the same records in the same order as folding everything at once |
| `FlightData.SortSorts` | sandbox/seed/flight-data.ts:324 | the size list is sorted and a permutation |
| `FlightData.NewestLargest` | sandbox/seed/flight-data.ts:327-334 | the file found is as large as any and larger than every later one |
| `FlightData.FilesToRead` | sandbox/seed/flight-data.ts:323-335 | the files read are those from the newest largest one on when it is ten times the median or more, else all |
| `FlightData.TypicalIsMiddle` | sandbox/seed/flight-data.ts:324-325 | the typical size is the middle one: at most half of the sizes are below it and more than half are not above it |
| `FlightData.SkippedMeaning` | sandbox/seed/flight-data.ts:323-335 | reading starts at the newest largest file if and only if it is ten times that size or more, and else at the first |
| `FlightData.FoldMerges` | sandbox/seed/flight-data.ts:257-264 | folding later rows after earlier ones keeps, per flight, the later fold's row when strictly newer and else the earlier one's |
| `FlightData.SkipIff` | sandbox/seed/flight-data.ts:305-322 | skipping earlier rows changes no record if and only if for every earlier flight the rest holds a newer record or the same one |
| `FlightData.CompleteCopyMakesSkipSafe` | sandbox/seed/flight-data.ts:305-322 | a complete copy, with equal stamps meaning equal rows, is such a case |
| `FlightData.SkipKeepsRecordsIff` | sandbox/seed/flight-data.ts:305-322 | reading only the later files gives the records of all files if and only if they hold every earlier flight at a newer record or the same one |
| `FlightData.CurrentFlights` | sandbox/seed/flight-data.ts:380-382 | the whole query returns each flight once, with the current records of the files read; they are the records of all files if and only if every skipped flight is held newer or identical by what is read, as when the file read first is a complete copy |
| `MergeTag.TagShape` | sandbox/scripts/read_attachment.py:147 | where the value of a match lies, and that a match holds no second `<` in its name |
| `MergeTag.TagLocal` | sandbox/scripts/read_attachment.py:147 | cutting the text keeps exactly the matches that end before the cut, unchanged |
| `MergeTag.RefsEndInOrder` | sandbox/scripts/read_attachment.py:147 | of two references in one text the one that starts first ends first |
| `MergeTag.SameEndSameValue` | sandbox/scripts/read_attachment.py:147 | matches that end together capture the same value |
| `MergeTag.TagNested` | sandbox/scripts/read_attachment.py:147 | a tag starting inside a match whose value holds no `<` ends with it |
| `MergeScan.ScanFindsAll` | sandbox/scripts/read_attachment.py:199-201 | the leftmost-first search finds every tag, by the place it ends |
| `MergeScan.WindowCatchesUp` | sandbox/scripts/read_attachment.py:198-204 | re-matching in the overlap adds nothing and the overlap loses nothing |
| `MergeScan.WindowsFindAll` | sandbox/scripts/read_attachment.py:193-204 | for every split into reads, tags of at most one byte more than the overlap whose values hold no `<` give exactly the distinct ranges of one whole scan, in order |
| `MergeScan.Looked` | sandbox/scripts/read_attachment.py:201-203 | the matches looked at: all, or up to the first that reaches a cap |
| `MergeScan.CapsHold` | sandbox/scripts/read_attachment.py:201-203 | at most 100000 matches, at most 10000 distinct ranges, and a cap cuts off only the end of the list |
| `MergeScan.Meet` | sandbox/scripts/read_attachment.py:199-203 | the walk over one window's matches, with its early return |
| `MergeScan.MergedRanges` | sandbox/scripts/read_attachment.py:161-207 | the method returns exactly the ranges so defined: none for an empty path, a missing part or a failed read, the capped list on an early return |
| `MergeScan.RangesAreTheWholePart` | sandbox/scripts/read_attachment.py:161-207 | with caps not reached and no failed read the report is the whole part's, however it was read |
| `MergeScan.RangesAreBounded` | sandbox/scripts/read_attachment.py:149-158 | in every case the report is distinct, within the cap, and a prefix of the whole part's list |
| `MergeScan.WindowMatchesIff` | sandbox/scripts/read_attachment.py:193-204 | for a part whose values hold no `<`, split in any way, the windows find a value if and only if some tag with it lies inside one window |
| `MergeScan.LosesNothingIff` | sandbox/scripts/read_attachment.py:193-204 | the scan loses no range if and only if every range has such a tag, and never reports one that is not there |
| `MergeScan.LongTagCanBeMissed` | sandbox/scripts/read_attachment.py:148-150 | a part whose only tag is one byte longer and is cut by the boundary of a full first read, and which the scan reports as having none |
| `MergeForm.TagIff` | sandbox/scripts/read_attachment.py:147 | the expression matches exactly the texts of the form: the name, a space, bytes without `>`, at a word boundary `ref`, spaces, `=`, spaces, a quote, 1 to 64 bytes without quotes, a quote; of several such references it takes the first |
| `MergeForm.OpenedIsTag` | sandbox/scripts/read_attachment.py:145-147 | `<mergeCell ref="..."` matches with any such value, whatever follows |
| `MergeForm.WrittenIsScanned` | sandbox/scripts/read_attachment.py:199-201 | one scan of a text that holds such tags between filler gives their values, in order |
| `MergeForm.WrittenRangesAreReported` | sandbox/scripts/read_attachment.py:161-207 | and the ranges reported of a part so written are its values, each once and in order, however it is read, with caps not reached and no failed read |
| `MergeForm.LookedMeaning` | sandbox/scripts/read_attachment.py:199-203 | the matches looked at are all, or end with the first that makes 10000 ranges or 100000 matches |
| `MergeForm.NothingReported` | sandbox/scripts/read_attachment.py:181-207 | nothing is reported of a path of slashes, a missing part, or one a read of which fails before that |
| `ChatTitle.TitleMeaning` | backend/alembic/versions/2026_10_01_0051_name_untitled_chats.py:56-65 | titles are trimmed, single-spaced and at most 41 code points, text has one exactly when some character is not blank, and every title is its own title |
| `ChatTitle.TitleKeepsWords` | backend/alembic/versions/2026_10_01_0051_name_untitled_chats.py:56-65 | an uncut title has exactly the words of the text; a cut one is their first 40 characters and the ellipsis |
| `ChatTitle.WordsOfJoin` | backend/alembic/versions/2026_10_01_0051_name_untitled_chats.py:57-60 | splitting what was joined gives the words back |
| `ChatTitle.CleanIsJoin` | backend/alembic/versions/2026_10_01_0051_name_untitled_chats.py:57-60 | a clean string is the join of its words |
| `ChatTitle.TypedText` | backend/alembic/versions/2026_10_01_0051_name_untitled_chats.py:73-94 | the nested walk over a stored batch collects exactly its typed texts, and raises exactly when a request's parts cannot be iterated |
| `ChatTitle.PartProse` | backend/alembic/versions/2026_10_01_0051_name_untitled_chats.py:82-93 | the walk over one part: a bare string, or a list without attachment markup |
| `ChatBatch.BatchReadBack` | backend/alembic/versions/2026_10_01_0051_name_untitled_chats.py:73-94 | a batch written down from prompts, attachments, markers and other messages is read back as what the prompts say, a line for each |
| `ChatBatch.MarkupIff` | backend/alembic/versions/2026_10_01_0051_name_untitled_chats.py:68-70 | attachment markup is exactly `<attachment ` up to `</attachment>` or `/>`, with only padding around it |
| `ChatBatch.UnwalkableIff` | backend/alembic/versions/2026_10_01_0051_name_untitled_chats.py:78-81 | the walk raises exactly at a request whose parts are null, a truth value or a number |
| `ChatBatch.BlankByCategory` | backend/alembic/versions/2026_10_01_0051_name_untitled_chats.py:52-60 | blanks are the separators and controls, and what is stripped are the separators and the blank controls |
| `ChatTitle.ProbeLosesNoTitle` | backend/alembic/versions/2026_10_01_0051_name_untitled_chats.py:43-50 | every batch that could name a chat passes the containment probe |
| `ChatNaming.PageMeaning` | backend/alembic/versions/2026_10_01_0051_name_untitled_chats.py:37-39 | a page is ascending, within the batch size, all untitled, and leaves out only later chats |
| `ChatNaming.FetchedIff` | backend/alembic/versions/2026_10_01_0051_name_untitled_chats.py:43-50 | the rows fetched are the visible ones of turns and steps with a user prompt in a request |
| `ChatNaming.NamingMeaning` | backend/alembic/versions/2026_10_01_0051_name_untitled_chats.py:37-50 | a chat gets its name from the message with the lowest number among the visible ones with words in them, whatever the probe let through, unless an earlier one makes the walk raise |
| `ChatNaming.PromptsKeepNames` | backend/alembic/versions/2026_10_01_0051_name_untitled_chats.py:43-49 | on the rows of a whole page each chat of the page comes to what its own messages come to, and no other chat to anything |
| `ChatNaming.NamesFor` | backend/alembic/versions/2026_10_01_0051_name_untitled_chats.py:105-114 | the first row with a usable title names its chat, and it raises exactly when the walk over a row it reaches does |
| `ChatNaming.Chats.Name` | backend/alembic/versions/2026_10_01_0051_name_untitled_chats.py:53 | row by row, exactly the chats that are there, still untitled and given a name take it; no title is overwritten |
| `ChatNaming.RoundKeepsProgress` | backend/alembic/versions/2026_10_01_0051_name_untitled_chats.py:101-116 | one round, with others naming chats in the middle of it, leaves every chat with the title it should have |
| `ChatNaming.RoundVisits` | backend/alembic/versions/2026_10_01_0051_name_untitled_chats.py:101-104 | a page adds only new untitled chats and misses none |
| `ChatNaming.OthersKeepProgress` | backend/alembic/versions/2026_10_01_0051_name_untitled_chats.py:52-53 | what others name between rounds changes nothing the pass relies on |
| `ChatNaming.NameUntitled` | backend/alembic/versions/2026_10_01_0051_name_untitled_chats.py:97-116 | the pass ends, with others naming chats between any two of its queries; it shows every untitled chat with a non-nil id that nobody else names exactly once, in order; each chat ends with the last name another gave it, else the title it had, else the title of its earliest usable visible message; it raises only at a page with a chat whose messages make the walk raise, all earlier chats settled |
| `PlanCards.Messages.Insert` | backend/alembic/versions/2026_08_30_0035_chat_kind.py:129-135 | an insert needs a free (conversation, seq) and adds just that row |
| `PlanCards.Gather` | backend/alembic/versions/2026_08_30_0035_chat_kind.py:95-127 | the four dictionaries say of every conversation exactly what its own rows say, in a query that mixes conversations; it raises exactly when a row's payload cannot be walked |
| `PlanCards.GatherRow` | backend/alembic/versions/2026_08_30_0035_chat_kind.py:100-127 | one row's updates, or nothing when its walk raises |
| `PlanAnswers.Answered` | backend/alembic/versions/2026_08_30_0035_chat_kind.py:112-127 | the walk over a stored payload records its tool returns in order, and raises exactly when the parts of a message cannot be iterated |
| `PlanAnswers.AnswersMeaning` | backend/alembic/versions/2026_08_30_0035_chat_kind.py:115-127 | an answer is found exactly when some part of some message has the part kind, tool name and a text for the call, and gives its content, or an empty one |
| `PlanAnswers.LastAnswerStands` | backend/alembic/versions/2026_08_30_0035_chat_kind.py:125-127 | of several answers to one call the last stands |
| `PlanAnswers.UnansweredKeeps` | backend/alembic/versions/2026_08_30_0035_chat_kind.py:125-127 | and a call without one keeps what was known |
| `PlanAnswers.UnwalkableIff` | backend/alembic/versions/2026_08_30_0035_chat_kind.py:115-118 | the walk raises exactly at a message whose parts are null, a truth value or a number |
| `PlanLaws.LastWordResolves` | backend/alembic/versions/2026_08_30_0035_chat_kind.py:104-127 | the resolution of a call is the last word of its conversation on it: of the last row that says anything, the last answer in its payload, else the choice its meta states |
| `PlanLaws.OpenByRows` | backend/alembic/versions/2026_08_30_0035_chat_kind.py:60-69 | a card is open if and only if some row offers it and the last word on it, if there is one, is a text that begins with `build_failed` |
| `PlanAnswers.ProbeLosesNoAnswer` | backend/alembic/versions/2026_08_30_0035_chat_kind.py:84-85 | leaving payloads that do not mention the tool off the wire loses no answer |
| `PlanCards.QueryMeaning` | backend/alembic/versions/2026_08_30_0035_chat_kind.py:82-93 | the query returns exactly the rows of the conversations with a pending row |
| `PlanLaws.PendingByRows` | backend/alembic/versions/2026_08_30_0035_chat_kind.py:87-89 | those are the conversations with a row of the pending kind |
| `PlanLaws.ReadableIff` | backend/alembic/versions/2026_08_30_0035_chat_kind.py:84-118 | a row makes the pass raise exactly when its text matches the probe and it holds such a message |
| `PlanCards.QueryRows` | backend/alembic/versions/2026_08_30_0035_chat_kind.py:82-93 | the query gives each conversation with a pending row all its rows in order, and no others |
| `PlanCards.UnqueriedHasNoCard` | backend/alembic/versions/2026_08_30_0035_chat_kind.py:87-89 | a conversation the query leaves out has no card |
| `PlanCards.OpenCardsMeaning` | backend/alembic/versions/2026_08_30_0035_chat_kind.py:139-141 | the cards overlaid are exactly the open ones |
| `PlanCards.CloseConversation` | backend/alembic/versions/2026_08_30_0035_chat_kind.py:136-154 | the inner loop turns one conversation into its closed form; every number it inserts at is free |
| `PlanCards.ResolveOutstanding` | backend/alembic/versions/2026_08_30_0035_chat_kind.py:72-154 | the pass turns every conversation of the table into its closed form and changes nothing else; it raises exactly when a row it fetches cannot be walked, and then has written nothing |
| `PlanCards.ClosedCards` | backend/alembic/versions/2026_08_30_0035_chat_kind.py:72-80 | after the pass the latest resolution of every card is closed |
| `PlanCards.ClosedKeepsRows` | backend/alembic/versions/2026_08_30_0035_chat_kind.py:138-154 | old rows are untouched and exactly one row is added per open card |
| `PlanCards.ClosedAddsOverlay` | backend/alembic/versions/2026_08_30_0035_chat_kind.py:138-154 | each added row is the `refine` overlay of its card, for the conversation's owner, at the next number |
| `PlanLaws.OpenCardGetsRow` | backend/alembic/versions/2026_08_30_0035_chat_kind.py:136-154 | every open card has a row after the pass that resolves it with `refine`, behind the conversation's rows, for the user of its first |
| `PlanLaws.AddedRowsRefine` | backend/alembic/versions/2026_08_30_0035_chat_kind.py:136-154 | and every row added does that for a card that was open |
| `PlanLaws.NextSeqByRows` | backend/alembic/versions/2026_08_30_0035_chat_kind.py:103 | new rows are numbered from one past the conversation's last |
| `PlanCards.PassTwice` | backend/alembic/versions/2026_08_30_0035_chat_kind.py:72-154 | a second pass inserts nothing, and a conversation with no open card gains nothing |
| `PlanCards.PassStaysReadable` | backend/alembic/versions/2026_08_30_0035_chat_kind.py:72-154 | after the pass a second one raises exactly when the first would have |
| `WindowResolver.Resolve` | backend/src/core/connectors.py:155-281 | absent without a row, an error exactly for a misshapen one; a valid row stays within the bounds and is answered case by case |
| `WindowResolver.ResolvePick` | backend/src/core/connectors.py:243-268 | a pick meeting the bounds becomes its intersection with them, one wholly in the future the one ceiling day, one aged out the same capped length ending at the ceiling; never widened, and `clamped` exactly when it was not within the bounds |
| `WindowResolver.InBoundsIff` | backend/src/core/connectors.py:190-201 | the bounds hold exactly for a preset within the cap, and for a pair in order or not yet aged out |
| `WindowResolver.ResolveTwice` | backend/src/core/connectors.py:208-281 | resolving a result again as an absolute pick is the identity |
| `WindowResolver.NeverMovesBack` | backend/src/core/connectors.py:208-281 | neither end moves back as days pass, through every change of case |
| `WindowResolver.AgedOutFollows` | backend/src/core/connectors.py:253-259 | an aged-out pick keeps its length and moves on a day for a day |

## Left out

- Entries.Entry.AddRow: a row's EPSS, exploitation, detection, status and description columns are not carried; the workbook alone shows them.
- Findings.FirstRuleMeaning: a rule is any predicate on rows; the `RULES` and `ADDITION_RULES` tables and `Rule.matches` are not part of this model, and neither are the `Fixed Version` cell's parsing and the pre-release pattern, whose results are inputs.
- DebianVersion.ComparePart: digits and letters are the ASCII ones; the program's character classes also take other Unicode digits and letters, on which `isdigit` and `int` disagree.
- RegisterMain.WrittenSheetsAddUp: the Summary's spreadsheet formulas are plain sums; workbook, CSV and JSON files, argument parsing and the `map` subcommand are I/O and not modelled.
- CompileSignal.DerivedByVerb: the errors of a frame are texts already stripped of colour and redacted; the redactor is modelled on its own.
- CompileSignal.Consumer.OnFrame: sockets, the reconnect delay, URL building and the lazy start of the consumer thread are outcomes or left out.
- ReadinessByEvents.TrueAnswerIsEarned: what a probe sends is left out; a probe returns a status or none, and a base-path check is only counted as started. It is not claimed that the status came from the server started last.
- LogRing.Dev.Start: the marker flag `_Dev.ready`, the child process and its pipe; a client's cursor is followed within one dev-server life.
- Redaction.GoneInEveryListIffMaskProof: exact over all lists that hold the secret; in one fixed list a secret that is not of the safe kind may still always be removed, for instance because it holds one that is.
- Redaction.RegisterSecret: URL decoding is a function that turns no text into nothing; reading the environment and extracting an embedded password are left out.
- FlightData.ReadCurrentRecords: column projection, downloading and decoding; stamps are comparable numbers (a missing stamp, which compares false with everything, is not modelled).
- FlightData.CurrentFlights: whether skipping changes the records is said of them as a collection; it may change the order in which flights are listed.
- MergeScan.MergedRanges: unzipping; a failed read stands for the three exceptions the code catches.
- ChatTitle.TypedText: a payload held as text is taken as already parsed.
- ChatNaming.NameUntitled: the two queries and the guarded update are functions and steps on maps; others may name chats at any time, but not add chats or messages during the pass; when the walk raises, undoing the names written so far is the surrounding transaction's.
- PlanAnswers.ProbeLosesNoAnswer: whether a payload's text matches the probe is given with the row; how the database writes that text, and a match elsewhere in it, are left out.
- PlanAnswers.Answered: a payload held as text is taken as already parsed, and a content or choice that is no text is kept as it is rather than in Python's notation, which no reader here looks into.
- PlanCards.ResolveOutstanding: the deletion of marker rows and the type changes around the pass are schema statements.
- WindowResolver.Resolve: days are numbers, so the calendar's first day and the time zone of "today" are not modelled.
- The supervisor's file, exec and configure routes, the flight reader's paging, cache and label helpers, the other migrations and the web application around them: wiring, or guards settled by reading one branch.
- Progress under a fair scheduler (that a started thread eventually runs): safety, and the number of steps left to an owner, are proved instead.
