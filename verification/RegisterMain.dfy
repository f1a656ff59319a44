/** The register command itself, and the theorems about the report it writes. */
module RegisterMain {
  import opened Sequences
  import opened Findings
  import opened Entries
  import opened ReadingOrder
  import opened Integrity
  import opened Reconcile
  import opened Register
  import opened RegisterRun
  import opened RegisterLaws

  // ----- theorems about the finished register ----------------------------------------------

  lemma GroupedKeys(fs: seq<Finding>, rules: seq<Rule>, i: nat)
    requires i < |Grouped(fs, rules)|
    ensures Grouped(fs, rules)[i].key in KeysOf(fs)
  {
    assert ViewKeys(Grouped(fs, rules))[i] in FirstSeen(KeysOf(fs));
  }

  /** With no addition rule saying Fixed, an entry no human touched reads Fixed exactly when it was on
      the original list and the rescan no longer has it. */
  lemma FixedMeansOnListAndGone(r: Inputs, i: nat)
    requires NoRuleSaysFixed(r.additionRules)
    requires i < |r.Final()| && !Matched(r.overrides, r.Final()[i].key)
    ensures r.Final()[i].verdict.disposition == Fixed <==>
              r.Final()[i].key in r.OldKeys() && r.Final()[i].key !in ToSet(KeysOf(r.after))
  {
    hide ReconciledBefore, ReconciledAfter, AfterOverrides, Grouped, InReadingOrder, IsGrouping, NewKeyViews, AdditionRule;
    FinalKeepsRows(r, i);
    var n := |r.ReconciledOld()|;
    OverridesKeepRows(r.overrides, (r.ReconciledOld() + r.ReconciledNew())[i]);
    if i < n {
      var e := Grouped(r.before, r.rules)[i];
      GroupedKeys(r.before, r.rules, i);
      FixedIffGone(e, RowsFor(RowsMap(r.after), e.key), r.shipped);
    } else {
      var e := r.NewViews()[i - n];
      AdditionFixedOnlyByRule(e, r.additionRules, r.shipped);
      AdditionRuleIsRule(e.rows, r.additionRules);
    }
  }

  /** A fix that failed to land leaves an unowned deferral, which keeps the register from shipping
      until an override matches the entry. */
  lemma FailedToClearNeedsOverride(r: Inputs, i: nat)
    requires i < |r.ReconciledOld()|
    requires BeforeOutcomes(Grouped(r.before, r.rules), RowsMap(r.after), r.shipped)[i] == FailedToClear
    requires Settled(r.Final())
    ensures Matched(r.overrides, Grouped(r.before, r.rules)[i].key)
  {
    hide Grouped, InReadingOrder, IsGrouping, NewKeyViews, AfterOverrides;
    OverridesKeepRows(r.overrides, r.ReconciledOld()[i]);
    assert r.Final()[i] == AfterOverrides(r.overrides, r.ReconciledOld()[i]);
    assert Unowned(r.ReconciledOld()[i].verdict);
    assert !Unowned(r.Final()[i].verdict);
  }

  /** The same for an entry the coverage map never anticipated. */
  lemma UnanticipatedNeedsOverride(r: Inputs, i: nat)
    requires i < |r.ReconciledNew()|
    requires AfterOutcomes(r.NewViews(), r.additionRules, r.shipped)[i] == Unanticipated
    requires Settled(r.Final())
    ensures Matched(r.overrides, r.NewViews()[i].key)
  {
    hide Grouped, InReadingOrder, IsGrouping, NewKeyViews, AfterOverrides, AdditionRule;
    var j := |r.ReconciledOld()| + i;
    OverridesKeepRows(r.overrides, r.ReconciledNew()[i]);
    assert r.Final()[j] == AfterOverrides(r.overrides, r.ReconciledNew()[i]);
    assert Unowned(r.ReconciledNew()[i].verdict);
    assert !Unowned(r.Final()[j].verdict);
  }

  /** The Summary's check of one image: the sheets must equal the additions alone for an image declared
      never scanned, and the before rows plus the additions for any other. */
  predicate SummaryRowOk(r: Inputs, image: string, total: nat) {
    var additions := CountOn(NewRows(r.after, r.OldKeys()), image);
    if image in r.never then total == additions else total == CountOn(r.before, image) + additions
  }

  /** That check reads OK exactly when the image was not declared never scanned, or really has no rows
      in the before-export. */
  lemma SummaryOkIff(r: Inputs, image: string)
    ensures SummaryRowOk(r, image, RowsOn(r.Final(), image)) <==> image !in r.never || CountOn(r.before, image) == 0
  {
    hide RowsOn, CountOn, NewRows;
    RegisterAccountsForAll(r, image);
  }

  function AbsentFrom(ks: seq<EntryKey>, present: set<EntryKey>): (r: seq<bool>)
    ensures |r| == |ks|
  {
    seq(|ks|, i requires 0 <= i < |ks| => ks[i] !in present)
  }

  lemma SetMinusSnoc(init: seq<EntryKey>, k: EntryKey, present: set<EntryKey>)
    requires k !in init
    ensures |ToSet(init + [k]) - present| == |ToSet(init) - present| + if k in present then 0 else 1
  {
    var small := ToSet(init) - present;
    assert ToSet(init + [k]) == ToSet(init) + {k};
    if k in present {
      assert ToSet(init + [k]) - present == small;
    } else {
      assert ToSet(init + [k]) - present == small + {k};
    }
  }

  lemma {:induction false} AbsentCount(ks: seq<EntryKey>, present: set<EntryKey>)
    requires NoDup(ks)
    ensures CountTrue(AbsentFrom(ks, present)) == |ToSet(ks) - present|
  {
    hide ToSet, NoDup;
    if ks != [] {
      var n := |ks| - 1;
      NoDupInit(ks);
      AbsentCount(ks[..n], present);
      SetMinusSnoc(ks[..n], ks[n], present);
      assert ks == ks[..n] + [ks[n]];
      assert AbsentFrom(ks, present)[..n] == AbsentFrom(ks[..n], present);
    }
  }

  /** `cleared` is the number of original keys the rescan no longer has. */
  lemma ClearedIsGoneKeys<T>(r: Inputs, xs: seq<T>)
    requires |xs| == |Grouped(r.before, r.rules)|
    ensures
      var os := BeforeOutcomes(Grouped(r.before, r.rules), RowsMap(r.after), r.shipped);
      |Pick(xs, os, ClearedAsPredicted)| + |Pick(xs, os, ClearedUnexpectedly)| == |r.OldKeys() - ToSet(KeysOf(r.after))|
  {
    hide Grouped, InReadingOrder, BeforeOutcome, CountTrue, Pick, FirstSeen;
    var vs := Grouped(r.before, r.rules);
    var after := RowsMap(r.after);
    ClearedCountsGone(xs, vs, after, r.shipped);
    assert Gone(vs, after) == AbsentFrom(ViewKeys(vs), ToSet(KeysOf(r.after)));
    AbsentCount(ViewKeys(vs), ToSet(KeysOf(r.after)));
    assert ToSet(ViewKeys(vs)) == r.OldKeys();
  }

  // ----- the command -----------------------------------------------------------------------

  /** Groups both exports and checks the coverage map. */
  method GroupBoth(r: Inputs) returns (before: seq<Entry>, after: seq<Entry>, integrityOk: bool)
    ensures forall i | 0 <= i < |before| :: fresh(before[i])
    ensures forall i | 0 <= i < |after| :: fresh(after[i])
    ensures integrityOk <==> NoDup(SourcesOf(r.before))
    ensures Views(before) == Grouped(r.before, r.rules) && Views(after) == Grouped(r.after, r.rules)
  {
    hide *;
    before := BuildEntries(r.before, r.rules);
    var integrity := CheckIntegrity(r.before, before);
    integrityOk := integrity.ok;
    GroupedPassesIff(r.before, r.rules);
    label grouped:
    after := BuildEntries(r.after, r.rules);
    assert Views(before) == old@grouped(Views(before));
  }

  /** `rec` is the reconciliation of the two exports, with `before` the entries of the coverage map. */
  ghost predicate Reconciled(r: Inputs, rec: Reconciliation, before: seq<Entry>)
    reads before, rec.afterOnly
  {
    var os := BeforeOutcomes(Grouped(r.before, r.rules), RowsMap(r.after), r.shipped);
    var ns := AfterOutcomes(r.NewViews(), r.additionRules, r.shipped);
    && NoDup(EntryKeys(rec.entries)) && rec.entries == before + rec.afterOnly
    && Views(before) == r.ReconciledOld() && Views(rec.afterOnly) == r.ReconciledNew()
    && rec.failedToClear == Pick(before, os, FailedToClear)
    && rec.cleared == |Pick(before, os, ClearedAsPredicted)| + |Pick(before, os, ClearedUnexpectedly)|
    && rec.unanticipated == Pick(rec.afterOnly, ns, Unanticipated)
    && rec.superseded == Pick(before, os, Replaced) + Pick(rec.afterOnly, ns, Replaced)
  }

  /** The lists are those of the outcomes `os` of the first entries and `ns` of the others. */
  ghost predicate Lists(rec: Reconciliation, os: seq<Outcome>, ns: seq<Outcome>) {
    && |rec.entries| == |os| + |ns|
    && rec.afterOnly == rec.entries[|os|..]
    && rec.failedToClear == Pick(rec.entries[..|os|], os, FailedToClear)
    && rec.unanticipated == Pick(rec.entries[|os|..], ns, Unanticipated)
    && rec.superseded == Pick(rec.entries[..|os|], os, Replaced) + Pick(rec.entries[|os|..], ns, Replaced)
  }

  /** Which entries are listed as failed, unanticipated, superseded and new: the outcomes of the two loops
      say so, entry by entry. */
  ghost predicate ListsOutcomes(r: Inputs, rec: Reconciliation) {
    Lists(rec, OldOutcomes(r), NewOutcomes(r))
  }

  function OldOutcomes(r: Inputs): (os: seq<Outcome>)
    ensures |os| == |r.ReconciledOld()| == |Grouped(r.before, r.rules)|
    ensures forall i | 0 <= i < |os| ::
              var e := Grouped(r.before, r.rules)[i];
              os[i] == BeforeOutcome(e, RowsFor(RowsMap(r.after), e.key), r.shipped)
  {
    BeforeOutcomes(Grouped(r.before, r.rules), RowsMap(r.after), r.shipped)
  }

  function NewOutcomes(r: Inputs): (ns: seq<Outcome>)
    ensures |ns| == |r.ReconciledNew()| == |r.NewViews()|
    ensures forall i | 0 <= i < |ns| :: ns[i] == AfterOutcome(r.NewViews()[i], r.additionRules, r.shipped)
  {
    AfterOutcomes(r.NewViews(), r.additionRules, r.shipped)
  }

  /** An override matches every entry. */
  ghost predicate AllMatched(ovs: seq<Override>, entries: seq<Entry>) {
    forall i | 0 <= i < |entries| :: Matched(ovs, entries[i].key)
  }

  /** Each sheet holds the entries whose dispositions it is for, in order. */
  ghost predicate Filed(sheets: map<Sheet, seq<Entry>>, entries: seq<Entry>, vs: seq<EntryView>) {
    |entries| == |vs| && forall s: Sheet :: s in sheets && sheets[s] == Pick(entries, SheetsOf(vs), s)
  }

  /** What a written register says about the two exports it was built from. */
  ghost predicate ReportsOn(f: RegisterFile, r: Inputs)
    reads f.rec.entries
  {
    && Views(f.rec.entries) == r.Final() && NoDup(EntryKeys(f.rec.entries))
    && ListsOutcomes(r, f.rec)
    && f.unmatched == UnmatchedNames(r.overrides, f.rec.entries)
    && f.rec.cleared == |r.OldKeys() - ToSet(KeysOf(r.after))|
    && Filed(f.sheets, f.rec.entries, r.Final())
    && (forall image ::
          && Count(f.beforeRows, image) == CountOn(r.before, image)
          && Count(f.additions, image) == CountOn(NewRows(r.after, r.OldKeys()), image))
    && f.exitCode <= 1
    && (f.exitCode == 0 <==> NoDup(SourcesOf(r.before)) && Settled(r.Final()) && f.unmatched == [])
    && (f.exitCode == 0 ==>
          AllMatched(r.overrides, f.rec.failedToClear) && AllMatched(r.overrides, f.rec.unanticipated))
  }

  /** Reconciles the two groupings. */
  method ReconcileGrouped(r: Inputs, before: seq<Entry>, after: seq<Entry>) returns (rec: Reconciliation)
    requires Views(before) == Grouped(r.before, r.rules) && Views(after) == Grouped(r.after, r.rules)
    modifies before, after
    ensures Reconciled(r, rec, before)
    ensures forall i | 0 <= i < |rec.afterOnly| :: rec.afterOnly[i] in after
  {
    hide Grouped, InReadingOrder, IsGrouping, DictValues, DictOf, RowsByKey, RowsMap, Lacking, NewKeyViews, Pick, FirstSeen,
      BeforeOutcomes, AfterOutcomes, ReconciledBeforeAll, ReconciledAfterAll, Views, EntryKeys, NoDup, ToSet;
    RowsByKeyOfGrouped(before, r.before, r.rules);
    RowsByKeyOfGrouped(after, r.after, r.rules);
    DistinctDictValues(before);
    DistinctDictValues(after);
    LackingViews(after, ToSet(EntryKeys(before)));
    rec := ReconcileExports(before, after, r.additionRules, r.shipped);
    assert forall e | e in rec.afterOnly :: e in after;
  }

  lemma ViewsConcat(a: seq<Entry>, b: seq<Entry>)
    ensures Views(a + b) == Views(a) + Views(b)
  {
  }

  /** Every entry whose fix failed to land, and every entry nobody anticipated, is matched by an
      override once nothing is held and every deferral is owned. */
  lemma AnsweredWhenSettled(r: Inputs, before: seq<Entry>, afterOnly: seq<Entry>)
    requires EntryKeys(before) == ViewKeys(r.ReconciledOld())
    requires EntryKeys(afterOnly) == ViewKeys(r.ReconciledNew())
    requires Settled(r.Final())
    ensures forall e | e in Pick(before, BeforeOutcomes(Grouped(r.before, r.rules), RowsMap(r.after), r.shipped), FailedToClear) ::
              Matched(r.overrides, e.key)
    ensures forall e | e in Pick(afterOnly, AfterOutcomes(r.NewViews(), r.additionRules, r.shipped), Unanticipated) ::
              Matched(r.overrides, e.key)
  {
    hide Pick, Grouped, InReadingOrder, IsGrouping, RowsMap, NewKeyViews, BeforeOutcomes, AfterOutcomes, Matched, Settled, FirstSeen,
      ReconciledBefore, ReconciledAfter;
    var os := BeforeOutcomes(Grouped(r.before, r.rules), RowsMap(r.after), r.shipped);
    forall e | e in Pick(before, os, FailedToClear) ensures Matched(r.overrides, e.key) {
      var i :| 0 <= i < |before| && before[i] == e && os[i] == FailedToClear;
      FailedToClearNeedsOverride(r, i);
      var v := Grouped(r.before, r.rules)[i];
      ReconcileKeepsRows(v, RowsFor(RowsMap(r.after), v.key), r.additionRules, r.shipped);
      assert EntryKeys(before)[i] == v.key;
    }
    var ns := AfterOutcomes(r.NewViews(), r.additionRules, r.shipped);
    forall e | e in Pick(afterOnly, ns, Unanticipated) ensures Matched(r.overrides, e.key) {
      var i :| 0 <= i < |afterOnly| && afterOnly[i] == e && ns[i] == Unanticipated;
      UnanticipatedNeedsOverride(r, i);
      ReconcileKeepsRows(r.NewViews()[i], None, r.additionRules, r.shipped);
      assert EntryKeys(afterOnly)[i] == r.NewViews()[i].key;
    }
  }

  lemma AdditionsCounted(r: Inputs, image: string)
    ensures RowsOn(r.ReconciledNew(), image) == CountOn(NewRows(r.after, r.OldKeys()), image)
  {
    hide RowsOn, CountOn, NewRows, Grouped, InReadingOrder, IsGrouping, NewKeyViews, ReconciledAfter;
    forall i | 0 <= i < |r.NewViews()|
      ensures r.ReconciledNew()[i].key == r.NewViews()[i].key && r.ReconciledNew()[i].rows == r.NewViews()[i].rows
    {
      ReconcileKeepsRows(r.NewViews()[i], None, r.additionRules, r.shipped);
    }
    RowsOnSame(r.ReconciledNew(), r.NewViews(), image);
    NewKeysAccount(r.after, r.rules, r.OldKeys(), image);
  }

  /** From two exports to a report and an exit code. */
  method BuildRegister(r: Inputs) returns (run: Run)
    ensures run.Refused? <==> r.Refuses()
    ensures run.Written? ==> ReportsOn(run.file, r)
  {
    hide Grouped, InReadingOrder, IsGrouping, RowsMap, NewKeyViews, BeforeOutcomes, AfterOutcomes, ReconciledBeforeAll, ReconciledAfterAll,
      OverriddenAll, Pick, NoDup, FirstSeen, EntryKeys, ViewKeys, Views, ToSet, KeysOf, SourcesOf, Settled,
      UnmatchedNames, SheetsOf, Count, CountOn, NewRows, Matched, RowsOn, ForeignDigest, ImagesOf;
    if r.before == [] || r.after == [] {
      RefusesOnEmpty(r);
      return Refused;
    }
    var before, after, integrityOk := GroupBoth(r);
    var foreign := ForeignDigest(r.after, r.shipped);
    var missing := ImagesOf(r.before) - ImagesOf(r.after) - r.never;
    RefusesIff(r, missing);
    if foreign {
      return Refused;
    }
    var rec := ReconcileGrouped(r, before, after);
    var file := FinishRegister(r, rec, before, integrityOk);
    run := if missing != {} then Refused else Written(file);
  }

  lemma RefusesOnEmpty(r: Inputs)
    requires r.before == [] || r.after == []
    ensures r.Refuses()
  {
  }

  lemma RefusesIff(r: Inputs, missing: set<string>)
    requires r.before != [] && r.after != []
    requires missing == ImagesOf(r.before) - ImagesOf(r.after) - r.never
    ensures r.Refuses() <==> ForeignDigest(r.after, r.shipped) || missing != {}
  {
    hide ImagesOf, ForeignDigest;
    assert forall image | image in ImagesOf(r.before) :: image in ImagesOf(r.after) + r.never || image in missing;
  }

  function RowsPerImage(fs: seq<Finding>, also: set<string>): map<string, nat> {
    map image | image in ImagesOf(fs) + also :: CountOn(fs, image)
  }

  lemma {:induction false} UnseenImageHasNoRows(fs: seq<Finding>, image: string)
    requires image !in ImagesOf(fs)
    ensures CountOn(fs, image) == 0
  {
    if fs != [] {
      var n := |fs| - 1;
      assert fs[n].image in ImagesOf(fs);
      forall i | 0 <= i < n ensures fs[..n][i].image in ImagesOf(fs) {
        assert fs[..n][i] == fs[i];
      }
      UnseenImageHasNoRows(fs[..n], image);
    }
  }

  lemma RowsPerImageCounts(fs: seq<Finding>, also: set<string>)
    ensures forall image :: Count(RowsPerImage(fs, also), image) == CountOn(fs, image)
  {
    forall image ensures Count(RowsPerImage(fs, also), image) == CountOn(fs, image) {
      if image !in ImagesOf(fs) {
        UnseenImageHasNoRows(fs, image);
      }
    }
  }

  lemma ReconciledFacts(r: Inputs, rec: Reconciliation, before: seq<Entry>)
    requires Reconciled(r, rec, before)
    ensures NoDup(EntryKeys(rec.entries)) && Views(rec.entries) == r.ReconciledOld() + r.ReconciledNew()
    ensures rec.cleared == |r.OldKeys() - ToSet(KeysOf(r.after))|
    ensures ListsOutcomes(r, rec)
    ensures forall image :: RowsOn(Views(rec.afterOnly), image) == CountOn(NewRows(r.after, r.OldKeys()), image)
    ensures Settled(r.Final()) ==> AllMatched(r.overrides, rec.failedToClear) && AllMatched(r.overrides, rec.unanticipated)
  {
    hide Grouped, InReadingOrder, IsGrouping, RowsMap, NewKeyViews, BeforeOutcomes, AfterOutcomes, ReconciledBeforeAll, ReconciledAfterAll,
      OverriddenAll, Pick, NoDup, FirstSeen, EntryKeys, ViewKeys, Views, ToSet, KeysOf, Settled,
      CountOn, NewRows, Matched, RowsOn;
    ViewsConcat(before, rec.afterOnly);
    ClearedIsGoneKeys(r, before);
    KeysOfViews(before);
    KeysOfViews(rec.afterOnly);
    forall image
      ensures RowsOn(Views(rec.afterOnly), image) == CountOn(NewRows(r.after, r.OldKeys()), image)
    {
      AdditionsCounted(r, image);
    }
    if Settled(r.Final()) {
      AnsweredWhenSettled(r, before, rec.afterOnly);
    }
  }

  /** Overrides, the additions, the sheets and the verdict on shipping. */
  method FinishRegister(r: Inputs, rec: Reconciliation, ghost before: seq<Entry>, integrityOk: bool)
    returns (f: RegisterFile)
    requires Reconciled(r, rec, before)
    requires integrityOk <==> NoDup(SourcesOf(r.before))
    modifies rec.entries
    ensures f.rec == rec && ReportsOn(f, r)
  {
    hide Reconciled, Inputs.Final, Inputs.ReconciledOld, Inputs.ReconciledNew, Inputs.NewViews, Inputs.OldKeys, Pick,
      NoDup, FirstSeen, EntryKeys, Views, ToSet, KeysOf, SourcesOf, Settled, UnmatchedNames, SheetsOf,
      Count, CountOn, NewRows, Matched, RowsPerImage, RowsOn, ListsOutcomes, AllMatched, ReportsOn;
    ReconciledFacts(r, rec, before);
    RowsPerImageCounts(r.before, r.never);
    var additions := AdditionRows(rec.afterOnly);
    ghost var was := Views(rec.entries);
    DistinctEntries(rec.entries);
    var unmatched := ApplyOverrides(rec.entries, r.overrides);
    FinalFromOverrides(r, was, Views(rec.entries));
    var sheets := FileEntries(rec.entries);
    var ready := integrityOk && Settled(Views(rec.entries)) && unmatched == [];
    f := RegisterFile(if ready then 0 else 1, rec, sheets, unmatched, RowsPerImage(r.before, r.never), additions);
    WrittenReports(f, r);
  }

  /** The parts of the report, put together. */
  lemma WrittenReports(f: RegisterFile, r: Inputs)
    requires Views(f.rec.entries) == r.Final() && NoDup(EntryKeys(f.rec.entries)) && ListsOutcomes(r, f.rec)
    requires f.unmatched == UnmatchedNames(r.overrides, f.rec.entries)
    requires f.rec.cleared == |r.OldKeys() - ToSet(KeysOf(r.after))|
    requires forall s: Sheet :: s in f.sheets && f.sheets[s] == Pick(f.rec.entries, SheetsOf(Views(f.rec.entries)), s)
    requires forall image :: Count(f.beforeRows, image) == CountOn(r.before, image)
    requires forall image :: Count(f.additions, image) == CountOn(NewRows(r.after, r.OldKeys()), image)
    requires f.exitCode ==
             if NoDup(SourcesOf(r.before)) && Settled(Views(f.rec.entries)) && f.unmatched == [] then 0 else 1
    requires Settled(r.Final()) ==>
               AllMatched(r.overrides, f.rec.failedToClear) && AllMatched(r.overrides, f.rec.unanticipated)
    ensures ReportsOn(f, r)
  {
    hide Inputs.Final, Inputs.ReconciledOld, Inputs.ReconciledNew, Inputs.NewViews, Inputs.OldKeys, Pick, NoDup, FirstSeen,
      EntryKeys, Views, ToSet, KeysOf, SourcesOf, Settled, UnmatchedNames, SheetsOf, Count, CountOn, NewRows, Matched, RowsOn,
      ListsOutcomes, AllMatched;
  }

  lemma FinalFromOverrides(r: Inputs, was: seq<EntryView>, now: seq<EntryView>)
    requires was == r.ReconciledOld() + r.ReconciledNew()
    requires |now| == |was| && forall i | 0 <= i < |was| :: now[i] == AfterOverrides(r.overrides, was[i])
    ensures now == r.Final()
  {
    hide AfterOverrides;
  }

  lemma KeysOfViews(entries: seq<Entry>)
    ensures EntryKeys(entries) == ViewKeys(Views(entries))
  {
  }

  // ----- when it may ship ------------------------------------------------------------------

  /** The entry keeps the register from shipping: it is held, or deferred without an owner or a date. */
  predicate Blocks(v: Verdict) {
    || v.disposition == Held
    || (v.disposition == Deferred
        && (v.owner == "" || v.owner == "UNASSIGNED" || v.targetDate == "" || v.targetDate == "UNSET"))
  }

  /** The command exits 0 exactly when every source was read once, no entry of the written register blocks, and
      every override names one of its entries; a register that may not ship exits 1. */
  lemma ShipsIff(f: RegisterFile, r: Inputs)
    requires ReportsOn(f, r)
    ensures f.exitCode == 0 <==>
              && NoDup(SourcesOf(r.before))
              && (forall i | 0 <= i < |f.rec.entries| :: !Blocks(f.rec.entries[i].verdict))
              && (forall j | 0 <= j < |r.overrides| :: Hits(r.overrides[j], f.rec.entries))
    ensures f.exitCode == 0 || f.exitCode == 1
  {
    hide *;
    ReportsExit(f, r);
    SettledIff(f.rec.entries);
    UnmatchedMeaning(r.overrides, f.rec.entries, "");
  }

  lemma ReportsExit(f: RegisterFile, r: Inputs)
    requires ReportsOn(f, r)
    ensures f.exitCode <= 1 && f.unmatched == UnmatchedNames(r.overrides, f.rec.entries)
    ensures f.exitCode == 0 <==> NoDup(SourcesOf(r.before)) && Settled(Views(f.rec.entries)) && f.unmatched == []
  {
    hide Settled, UnmatchedNames, NoDup, SourcesOf, Views, Filed, ListsOutcomes, AllMatched, CountOn, NewRows, Count,
      Inputs.Final, EntryKeys, ToSet, KeysOf, Inputs.OldKeys;
  }

  lemma SettledIff(entries: seq<Entry>)
    ensures Settled(Views(entries)) <==> forall i | 0 <= i < |entries| :: !Blocks(entries[i].verdict)
  {
    assert forall i | 0 <= i < |entries| :: Views(entries)[i].verdict == entries[i].verdict;
  }

  // ----- what the workbook shows -----------------------------------------------------------

  /** The `Sheets total` cell of every image equals the before-export's rows plus the rows that entered
      with the rescan. */
  lemma WrittenSheetsAddUp(f: RegisterFile, r: Inputs, image: string)
    requires ReportsOn(f, r)
    ensures SheetsSum(f.sheets[FixedSheet], f.sheets[Exceptions], f.sheets[DeferredSheet], f.sheets[Disputes],
                      f.sheets[OutOfScopeSheet], f.sheets[HeldSheet], image) ==
            Count(f.beforeRows, image) + Count(f.additions, image)
  {
    hide RowsOn, CountOn, NewRows, Pick, Settled, UnmatchedNames, Matched, FirstSeen;
    var es, tags := f.rec.entries, SheetsOf(r.Final());
    PickViews(es, tags, FixedSheet);
    PickViews(es, tags, Exceptions);
    PickViews(es, tags, DeferredSheet);
    PickViews(es, tags, Disputes);
    PickViews(es, tags, OutOfScopeSheet);
    PickViews(es, tags, HeldSheet);
    SheetsPartition(r.Final(), tags, image);
    RegisterAccountsForAll(r, image);
  }

  /** Every entry is on the sheet of its disposition and on no other. */
  lemma OneSheetEach(f: RegisterFile, r: Inputs, i: nat, s: Sheet)
    requires ReportsOn(f, r) && i < |f.rec.entries|
    ensures f.rec.entries[i] in f.sheets[s] <==> s == SheetFor(f.rec.entries[i].verdict.disposition)
  {
    hide Pick, Settled, UnmatchedNames, Matched, AllMatched, FirstSeen, CountOn, NewRows, Inputs.Final, Grouped, IsGrouping,
      NoDup, Views, EntryKeys, SheetFor, ListsOutcomes, Lists;
    ReportsLists(f, r);
    SheetOfPlace(f.rec.entries, f.sheets, r.Final(), i, s);
  }

  /** Accepted risk goes on one sheet whether or not a dispute was tried first, and what no deployment runs on
      one sheet with what was ruled out of scope; every other disposition has a sheet of its own. */
  lemma SheetsByDisposition(f: RegisterFile, r: Inputs, i: nat)
    requires ReportsOn(f, r) && i < |f.rec.entries|
    ensures
      var e, d := f.rec.entries[i], f.rec.entries[i].verdict.disposition;
      && (e in f.sheets[FixedSheet] <==> d == Fixed)
      && (e in f.sheets[Exceptions] <==> d == Exception || d == DisputeRejected)
      && (e in f.sheets[DeferredSheet] <==> d == Deferred)
      && (e in f.sheets[Disputes] <==> d == Dispute)
      && (e in f.sheets[OutOfScopeSheet] <==> d == Superseded || d == OutOfScope)
      && (e in f.sheets[HeldSheet] <==> d == Held)
  {
    hide ReportsOn;
    OneSheetEach(f, r, i, FixedSheet);
    OneSheetEach(f, r, i, Exceptions);
    OneSheetEach(f, r, i, DeferredSheet);
    OneSheetEach(f, r, i, Disputes);
    OneSheetEach(f, r, i, OutOfScopeSheet);
    OneSheetEach(f, r, i, HeldSheet);
  }

  lemma SheetOfPlace(entries: seq<Entry>, sheets: map<Sheet, seq<Entry>>, vs: seq<EntryView>, i: nat, s: Sheet)
    requires NoDup(entries) && i < |entries| && Views(entries) == vs && Filed(sheets, entries, vs)
    ensures s in sheets
    ensures entries[i] in sheets[s] <==> s == SheetFor(entries[i].verdict.disposition)
  {
    hide Pick, SheetFor;
    var tags := SheetsOf(vs);
    assert vs[i] == entries[i].View();
    if entries[i] in sheets[s] {
      var j :| 0 <= j < |entries| && entries[j] == entries[i] && tags[j] == s;
    }
  }

  lemma PickedIff<T>(xs: seq<T>, tags: seq<Outcome>, want: Outcome, i: nat)
    requires NoDup(xs) && |xs| == |tags| && i < |xs|
    ensures xs[i] in Pick(xs, tags, want) <==> tags[i] == want
  {
    hide Pick;
    if xs[i] in Pick(xs, tags, want) {
      var j :| 0 <= j < |xs| && xs[j] == xs[i] && tags[j] == want;
    }
  }

  lemma DistinctEntries(entries: seq<Entry>)
    requires NoDup(EntryKeys(entries))
    ensures NoDup(entries)
  {
    forall i, j | 0 <= i < j < |entries| ensures entries[i] != entries[j] {
      assert EntryKeys(entries)[i] != EntryKeys(entries)[j];
    }
  }

  /** How an entry of the original list is listed: as superseded exactly when the first digest the rescan's rows
      with its key name is not the shipped one, and as failed to clear exactly when it is not, the map had
      claimed the entry Fixed and the rescan still has such a row. */
  ghost predicate ListedAsOld(rec: Reconciliation, at: Entry, e: EntryView, r: Inputs) {
    var elsewhere := MeasuredElsewhere(r.after, e.key, r.shipped);
    && at.key == e.key && at !in rec.afterOnly && at !in rec.unanticipated
    && (at in rec.superseded <==> elsewhere)
    && (at in rec.failedToClear <==> e.verdict.disposition == Fixed && HasKey(r.after, e.key) && !elsewhere)
  }

  lemma ListedOld(f: RegisterFile, r: Inputs, i: nat)
    requires ReportsOn(f, r) && i < |r.ReconciledOld()|
    ensures i < |f.rec.entries| && i < |Grouped(r.before, r.rules)|
    ensures ListedAsOld(f.rec, f.rec.entries[i], Grouped(r.before, r.rules)[i], r)
  {
    hide *;
    ReportsLists(f, r);
    KeyOfPlace(f, r, i);
    PlacedOld(f.rec, OldOutcomes(r), NewOutcomes(r), i);
    OldPlaceMeans(f.rec, f.rec.entries[i], Grouped(r.before, r.rules)[i], r, OldOutcomes(r)[i]);
  }

  lemma OldPlaceMeans(rec: Reconciliation, at: Entry, e: EntryView, r: Inputs, o: Outcome)
    requires o == BeforeOutcome(e, RowsFor(RowsMap(r.after), e.key), r.shipped) && at.key == e.key
    requires (at in rec.failedToClear <==> o == FailedToClear) && (at in rec.superseded <==> o == Replaced)
    requires at !in rec.afterOnly && at !in rec.unanticipated
    ensures ListedAsOld(rec, at, e, r)
  {
    RowsMapByRows(r.after, e.key);
    ReplacedIff(r.after, e.key, r.shipped);
    assert MeasuredElsewhere(r.after, e.key, r.shipped) ==> HasKey(r.after, e.key) by {
      if MeasuredElsewhere(r.after, e.key, r.shipped) {
        var i: nat :| FirstNamed(r.after, e.key, i);
      }
    }
    hide RowsMap, RowsFor, RowsWith, ReplacingDigest, MeasuredElsewhere, HasKey;
  }

  lemma NewPlaceMeans(rec: Reconciliation, at: Entry, e: EntryView, r: Inputs, o: Outcome)
    requires o == AfterOutcome(e, r.additionRules, r.shipped) && at.key == e.key
    requires (at in rec.unanticipated <==> o == Unanticipated) && (at in rec.superseded <==> o == Replaced)
    requires at in rec.afterOnly && at !in rec.failedToClear && e.rows == RowsWith(r.after, e.key)
    ensures ListedAsNew(rec, at, e, r)
  {
    ReplacedIff(r.after, e.key, r.shipped);
    AdditionRuleIs(r.after, e.key, r.additionRules);
    hide AdditionRule, ReplacingDigest, RowsWith, MeasuredElsewhere, RuleFits;
  }

  lemma ReportsLists(f: RegisterFile, r: Inputs)
    requires ReportsOn(f, r)
    ensures Views(f.rec.entries) == r.Final() && NoDup(f.rec.entries)
    ensures Lists(f.rec, OldOutcomes(r), NewOutcomes(r))
    ensures |f.rec.entries| == |r.Final()| == |OldOutcomes(r)| + |NewOutcomes(r)|
  {
    hide Pick, Settled, UnmatchedNames, Matched, FirstSeen, CountOn, NewRows, Grouped, InReadingOrder, IsGrouping,
      RowsMap, NewKeyViews, OldOutcomes, NewOutcomes, SheetsOf, Views, Inputs.Final, NoDup, EntryKeys;
    DistinctEntries(f.rec.entries);
  }

  lemma KeyOfPlace(f: RegisterFile, r: Inputs, i: nat)
    requires Views(f.rec.entries) == r.Final() && i < |r.Final()|
    ensures |f.rec.entries| == |r.Final()| == |Grouped(r.before, r.rules)| + |r.NewViews()|
    ensures i < |Grouped(r.before, r.rules)| ==> f.rec.entries[i].key == Grouped(r.before, r.rules)[i].key
    ensures i >= |Grouped(r.before, r.rules)| ==>
              f.rec.entries[i].key == r.NewViews()[i - |Grouped(r.before, r.rules)|].key
  {
    hide *;
    FinalKeepsRows(r, i);
    assert Views(f.rec.entries)[i] == f.rec.entries[i].View();
    ViewHasKey(f.rec.entries[i]);
  }

  lemma ViewHasKey(e: Entry)
    ensures e.View().key == e.key
  {
  }

  lemma PlacedOld(rec: Reconciliation, os: seq<Outcome>, ns: seq<Outcome>, i: nat)
    requires Lists(rec, os, ns) && NoDup(rec.entries) && i < |os|
    ensures rec.entries[i] in rec.failedToClear <==> os[i] == FailedToClear
    ensures rec.entries[i] in rec.superseded <==> os[i] == Replaced
    ensures rec.entries[i] !in rec.afterOnly && rec.entries[i] !in rec.unanticipated
  {
    hide Pick;
    PickedIff(rec.entries[..|os|], os, FailedToClear, i);
    PickedIff(rec.entries[..|os|], os, Replaced, i);
    NotAmong(rec.entries, |os|, i);
  }

  lemma PlacedNew(rec: Reconciliation, os: seq<Outcome>, ns: seq<Outcome>, i: nat)
    requires Lists(rec, os, ns) && NoDup(rec.entries) && |os| <= i < |rec.entries|
    ensures rec.entries[i] in rec.unanticipated <==> ns[i - |os|] == Unanticipated
    ensures rec.entries[i] in rec.superseded <==> ns[i - |os|] == Replaced
    ensures rec.entries[i] in rec.afterOnly && rec.entries[i] !in rec.failedToClear
  {
    hide Pick;
    PickedIff(rec.entries[|os|..], ns, Unanticipated, i - |os|);
    PickedIff(rec.entries[|os|..], ns, Replaced, i - |os|);
    NotAmong(rec.entries, |os|, i);
  }

  lemma NotAmong<T>(xs: seq<T>, n: nat, i: nat)
    requires NoDup(xs) && n <= |xs| && i < |xs|
    ensures xs[i] in xs[..n] <==> i < n
    ensures xs[i] in xs[n..] <==> i >= n
  {
    if i < n {
      assert xs[..n][i] == xs[i];
    } else {
      assert xs[n..][i - n] == xs[i];
    }
  }

  /** How an entry only the rescan has is listed: as new, as superseded when measured against a manifest no
      longer shipped, and else as unanticipated exactly when no addition rule matches it. */
  ghost predicate ListedAsNew(rec: Reconciliation, at: Entry, e: EntryView, r: Inputs) {
    var elsewhere := MeasuredElsewhere(r.after, e.key, r.shipped);
    && at.key == e.key && at in rec.afterOnly && at !in rec.failedToClear
    && (at in rec.superseded <==> elsewhere)
    && (at in rec.unanticipated <==>
          !elsewhere && forall m | 0 <= m < |r.additionRules| :: !RuleFits(r.after, e.key, r.additionRules[m]))
  }

  lemma ListedNew(f: RegisterFile, r: Inputs, i: nat)
    requires ReportsOn(f, r) && |r.ReconciledOld()| <= i < |f.rec.entries|
    ensures i - |r.ReconciledOld()| < |r.NewViews()|
    ensures ListedAsNew(f.rec, f.rec.entries[i], r.NewViews()[i - |r.ReconciledOld()|], r)
  {
    hide *;
    ReportsLists(f, r);
    KeyOfPlace(f, r, i);
    PlacedNew(f.rec, OldOutcomes(r), NewOutcomes(r), i);
    var n := |OldOutcomes(r)|;
    NewViewRows(r, i - n);
    NewPlaceMeans(f.rec, f.rec.entries[i], r.NewViews()[i - n], r, NewOutcomes(r)[i - n]);
  }

  lemma {:induction false} SeenImageHasRows(fs: seq<Finding>, j: nat)
    requires j < |fs|
    ensures CountOn(fs, fs[j].image) > 0
  {
    if j < |fs| - 1 {
      SeenImageHasRows(fs[..|fs| - 1], j);
    }
  }

  lemma KeyImageSeen(fs: seq<Finding>, k: EntryKey)
    ensures k in ToSet(KeysOf(fs)) ==> k.image in ImagesOf(fs) && CountOn(fs, k.image) > 0
  {
    if k in ToSet(KeysOf(fs)) {
      var j :| 0 <= j < |fs| && KeysOf(fs)[j] == k;
      assert fs[j].image in ImagesOf(fs);
      SeenImageHasRows(fs, j);
    }
  }

  lemma FinalKeyOldOrNew(r: Inputs, i: nat)
    requires i < |r.Final()|
    ensures r.Final()[i].key in r.OldKeys() || r.Final()[i].key in ToSet(KeysOf(r.after))
  {
    hide ReconciledBefore, ReconciledAfter, AfterOverrides, Grouped, InReadingOrder, IsGrouping, NewKeyViews;
    FinalKeepsRows(r, i);
    var n := |r.ReconciledOld()|;
    if i < n {
      GroupedKeys(r.before, r.rules, i);
    } else {
      var e := r.NewViews()[i - n];
      var j :| 0 <= j < |Grouped(r.after, r.rules)| && Grouped(r.after, r.rules)[j] == e;
      GroupedKeys(r.after, r.rules, j);
    }
  }

  /** An image the rescan does not cover passes the guard only when it is declared never scanned. Then,
      with no addition rule saying Fixed, each of its entries that no human touched still reads Fixed,
      and its Summary check fails. */
  lemma UncoveredImageReadsFixed(r: Inputs, i: nat)
    requires !r.Refuses() && NoRuleSaysFixed(r.additionRules)
    requires i < |r.Final()| && !Matched(r.overrides, r.Final()[i].key)
    requires r.Final()[i].key.image !in ImagesOf(r.after)
    ensures r.Final()[i].verdict.disposition == Fixed
    ensures r.Final()[i].key.image in r.never
    ensures !SummaryRowOk(r, r.Final()[i].key.image, RowsOn(r.Final(), r.Final()[i].key.image))
  {
    hide Inputs.Final, Matched, ForeignDigest, RowsOn, CountOn;
    var k := r.Final()[i].key;
    FinalKeyOldOrNew(r, i);
    KeyImageSeen(r.after, k);
    KeyImageSeen(r.before, k);
    FixedMeansOnListAndGone(r, i);
    SummaryOkIff(r, k.image);
  }

  lemma ImagesOfOne(f: Finding)
    ensures ImagesOf([f]) == {f.image}
  {
    assert [f][0].image in ImagesOf([f]);
  }

  lemma OneKey(ks: seq<EntryKey>, k: EntryKey)
    requires NoDup(ks) && forall x :: x in ks <==> x == k
    ensures ks == [k]
  {
    NoDupCardinality(ks);
    assert ToSet(ks) == {k};
    assert ks[0] in ks;
  }

  lemma OneGroup(first: Finding, rules: seq<Rule>)
    ensures |Grouped([first], rules)| == 1 && Grouped([first], rules)[0].key == first.Key()
  {
    assert KeysOf([first]) == [first.Key()];
    hide Grouped, InReadingOrder, IsGrouping, KeysOf, RowsWith, Groups;
    OneKey(ViewKeys(Grouped([first], rules)), first.Key());
  }

  lemma OneOldEntry(r: Inputs, first: Finding)
    requires r.before == [first]
    ensures |r.Final()| > 0 && r.Final()[0].key == first.Key()
  {
    hide *;
    OneGroup(first, r.rules);
    FinalKeepsRows(r, 0);
  }

  lemma NotRefused(r: Inputs, first: Finding, other: Finding)
    requires r.before == [first] && r.after == [other] && r.shipped == map[] && r.never == {first.image}
    ensures !r.Refuses()
  {
    ImagesOfOne(first);
    ImagesOfOne(other);
    hide ImagesOf;
  }

  /** That happens: one row on an image declared never scanned, and a rescan of another image only. The
      command writes the register, its one original entry reads Fixed, and the image's check fails. */
  lemma UncoveredImageHappens(first: Finding, other: Finding) returns (r: Inputs)
    requires first.image != other.image
    ensures r.before == [first] && r.after == [other] && r.never == {first.image} && r.overrides == []
    ensures !r.Refuses() && |r.Final()| > 0 && r.Final()[0].key == first.Key()
    ensures r.Final()[0].verdict.disposition == Fixed && !SummaryRowOk(r, first.image, RowsOn(r.Final(), first.image))
  {
    hide ImagesOf, Inputs.Final, Inputs.Refuses, SummaryRowOk, RowsOn;
    r := Inputs([first], [other], [], [], map[], {first.image}, []);
    OneOldEntry(r, first);
    NotRefused(r, first, other);
    ImagesOfOne(other);
    UncoveredImageReadsFixed(r, 0);
  }
}
