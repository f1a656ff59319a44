/** Reconciling a second time: over the same two lists, whose entries the first pass has changed, and over
    the finished list against the same rescan. */
module ReconcileAgain {
  import opened Sequences
  import opened Findings
  import opened Entries
  import opened ReadingOrder
  import opened Reconcile
  import opened Register
  import opened RegisterRun
  import opened RegisterMain

  // ----- lists of entries, as values -------------------------------------------------------

  lemma BeforeKeys(vs: seq<EntryView>, after: map<EntryKey, seq<Finding>>, shipped: map<string, string>)
    ensures ViewKeys(ReconciledBeforeAll(vs, after, shipped)) == ViewKeys(vs)
    ensures Gone(ReconciledBeforeAll(vs, after, shipped), after) == Gone(vs, after)
  {
    hide ReconciledBefore;
    forall i | 0 <= i < |vs| ensures ReconciledBeforeAll(vs, after, shipped)[i].key == vs[i].key {
      ReconcileKeepsRows(vs[i], RowsFor(after, vs[i].key), [], shipped);
    }
  }

  /** The first loop changes nothing the second time over. */
  lemma BeforeAllTwice(vs: seq<EntryView>, after: map<EntryKey, seq<Finding>>, shipped: map<string, string>)
    ensures ReconciledBeforeAll(ReconciledBeforeAll(vs, after, shipped), after, shipped) == ReconciledBeforeAll(vs, after, shipped)
  {
    hide ReconciledBefore;
    BeforeKeys(vs, after, shipped);
    var once := ReconciledBeforeAll(vs, after, shipped);
    forall i | 0 <= i < |vs| ensures ReconciledBeforeAll(once, after, shipped)[i] == once[i] {
      assert ViewKeys(once)[i] == vs[i].key;
      ReconcileTwice(vs[i], vs[i], RowsFor(after, vs[i].key), [], shipped);
    }
  }

  /** Nor does the second. */
  lemma AfterAllTwice(vs: seq<EntryView>, rules: seq<Rule>, shipped: map<string, string>)
    ensures ReconciledAfterAll(ReconciledAfterAll(vs, rules, shipped), rules, shipped) == ReconciledAfterAll(vs, rules, shipped)
  {
    hide ReconciledAfter;
    var once := ReconciledAfterAll(vs, rules, shipped);
    forall i | 0 <= i < |vs| ensures ReconciledAfterAll(once, rules, shipped)[i] == once[i] {
      ReconcileTwice(vs[i], vs[i], None, rules, shipped);
    }
  }

  /** The outcomes of the second pass: nothing failed to clear, the same entries are superseded. */
  lemma BeforeOutcomesTwice(vs: seq<EntryView>, after: map<EntryKey, seq<Finding>>, shipped: map<string, string>, i: nat)
    requires i < |vs|
    ensures
      var os := BeforeOutcomes(vs, after, shipped);
      var again := BeforeOutcomes(ReconciledBeforeAll(vs, after, shipped), after, shipped);
      again[i] != FailedToClear && (again[i] == Replaced <==> os[i] == Replaced)
  {
    var v := vs[i];
    var rows := RowsFor(after, v.key);
    ReconcileKeepsRows(v, rows, [], shipped);
    ReconcileTwice(v, v, rows, [], shipped);
    assert ReconciledBeforeAll(vs, after, shipped)[i] == ReconciledBefore(v, rows, shipped);
  }

  lemma AfterOutcomesTwice(vs: seq<EntryView>, rules: seq<Rule>, shipped: map<string, string>)
    ensures AfterOutcomes(ReconciledAfterAll(vs, rules, shipped), rules, shipped) == AfterOutcomes(vs, rules, shipped)
  {
    forall i | 0 <= i < |vs|
      ensures AfterOutcomes(ReconciledAfterAll(vs, rules, shipped), rules, shipped)[i] == AfterOutcomes(vs, rules, shipped)[i]
    {
      ReconcileKeepsRows(vs[i], None, rules, shipped);
    }
  }

  lemma {:induction false} PickSame<T>(xs: seq<T>, os: seq<Outcome>, again: seq<Outcome>, want: Outcome)
    requires |xs| == |os| == |again| && forall i | 0 <= i < |xs| :: os[i] == want <==> again[i] == want
    ensures Pick(xs, os, want) == Pick(xs, again, want)
  {
    if xs != [] {
      var n := |xs| - 1;
      PickSame(xs[..n], os[..n], again[..n], want);
    }
  }

  lemma {:induction false} PickNone<T>(xs: seq<T>, os: seq<Outcome>, want: Outcome)
    requires |xs| == |os| && forall i | 0 <= i < |xs| :: os[i] != want
    ensures Pick(xs, os, want) == []
  {
    if xs != [] {
      var n := |xs| - 1;
      PickNone(xs[..n], os[..n], want);
    }
  }

  /** What a second pass reports of the original list: as many cleared, none failed, the same superseded. */
  lemma ReportsTwice<T>(xs: seq<T>, vs: seq<EntryView>, after: map<EntryKey, seq<Finding>>, shipped: map<string, string>)
    requires |xs| == |vs|
    ensures
      var os := BeforeOutcomes(vs, after, shipped);
      var again := BeforeOutcomes(ReconciledBeforeAll(vs, after, shipped), after, shipped);
      && |Pick(xs, again, ClearedAsPredicted)| + |Pick(xs, again, ClearedUnexpectedly)|
         == |Pick(xs, os, ClearedAsPredicted)| + |Pick(xs, os, ClearedUnexpectedly)|
      && Pick(xs, again, FailedToClear) == []
      && Pick(xs, again, Replaced) == Pick(xs, os, Replaced)
  {
    hide BeforeOutcomes, ReconciledBeforeAll, Pick, CountTrue, Gone;
    var os := BeforeOutcomes(vs, after, shipped);
    var once := ReconciledBeforeAll(vs, after, shipped);
    var again := BeforeOutcomes(once, after, shipped);
    ClearedCountsGone(xs, vs, after, shipped);
    ClearedCountsGone(xs, once, after, shipped);
    BeforeKeys(vs, after, shipped);
    forall i | 0 <= i < |vs| ensures again[i] != FailedToClear && (again[i] == Replaced <==> os[i] == Replaced) {
      BeforeOutcomesTwice(vs, after, shipped, i);
    }
    PickNone(xs, again, FailedToClear);
    PickSame(xs, os, again, Replaced);
  }

  // ----- the same two lists ----------------------------------------------------------------

  /** `reconcile(before, after)` called twice on the same lists of entry objects. The second call returns
      the same entries in the same order and leaves every one of them, and so every verdict, as the first
      did; it counts as many cleared, and lists the same entries as new, superseded and unanticipated, but
      none as failed. */
  method ReconcileExportsTwice(before: seq<Entry>, after: seq<Entry>, rules: seq<Rule>, shipped: map<string, string>)
    returns (first: Reconciliation, second: Reconciliation)
    modifies before, after
    ensures
      var B := DictValues(before);
      var A := Lacking(DictValues(after), ToSet(EntryKeys(before)));
      && first.entries == B + A
      && Views(B) == ReconciledBeforeAll(old(Views(B)), old(RowsByKey(after)), shipped)
      && Views(A) == ReconciledAfterAll(old(Views(A)), rules, shipped)
    ensures second.entries == first.entries && second.afterOnly == first.afterOnly
    ensures second.cleared == first.cleared && second.failedToClear == []
    ensures second.superseded == first.superseded && second.unanticipated == first.unanticipated
  {
    ghost var B := DictValues(before);
    ghost var A := Lacking(DictValues(after), ToSet(EntryKeys(before)));
    ghost var oldB: seq<EntryView>, oldA: seq<EntryView> := Views(B), Views(A);
    ghost var rows := RowsByKey(after);
    hide *;
    first := ReconcileExports(before, after, rules, shipped);
    second := ReconcileExports(before, after, rules, shipped);
    BeforeAllTwice(oldB, rows, shipped);
    AfterAllTwice(oldA, rules, shipped);
    ReportsTwice(B, oldB, rows, shipped);
    AfterOutcomesTwice(oldA, rules, shipped);
  }

  // ----- the finished list -----------------------------------------------------------------

  /** An entry only the rescan had, met again on the before side: it stays as it is unless an addition rule
      had called it Fixed. */
  lemma NewEntryAgain(e: EntryView, rules: seq<Rule>, shipped: map<string, string>)
    ensures
      var once := ReconciledAfter(e, rules, shipped);
      ReconciledBefore(once, Some(e.rows), shipped) == once <==> once.verdict.disposition != Fixed
  {
    hide DigestOf, AdditionRule;
  }

  lemma NewViewRows(r: Inputs, i: nat)
    requires i < |r.NewViews()|
    ensures RowsFor(RowsMap(r.after), r.NewViews()[i].key) == Some(r.NewViews()[i].rows)
  {
    hide Grouped, InReadingOrder, NewKeyViews, RowsWith;
    var e := r.NewViews()[i];
    var j :| 0 <= j < |Grouped(r.after, r.rules)| && Grouped(r.after, r.rules)[j] == e;
    GroupedKeys(r.after, r.rules, j);
  }

  /** The entries of both loops, as the first pass leaves them. */
  function Finished(r: Inputs): (vs: seq<EntryView>)
    ensures |vs| == |r.ReconciledOld()| + |r.ReconciledNew()|
  {
    r.ReconciledOld() + r.ReconciledNew()
  }

  lemma FinishedOldAgain(r: Inputs, i: nat)
    requires i < |r.ReconciledOld()|
    ensures ReconciledBefore(Finished(r)[i], RowsFor(RowsMap(r.after), Finished(r)[i].key), r.shipped) == Finished(r)[i]
  {
    hide Grouped, InReadingOrder, IsGrouping, RowsMap, ReconciledBefore, NewKeyViews;
    var v := Grouped(r.before, r.rules)[i];
    var rows := RowsFor(RowsMap(r.after), v.key);
    ReconcileKeepsRows(v, rows, [], r.shipped);
    ReconcileTwice(v, v, rows, [], r.shipped);
  }

  lemma FinishedNewAgain(r: Inputs, i: nat)
    requires |r.ReconciledOld()| <= i < |Finished(r)|
    ensures ReconciledBefore(Finished(r)[i], RowsFor(RowsMap(r.after), Finished(r)[i].key), r.shipped) == Finished(r)[i]
            <==> Finished(r)[i].verdict.disposition != Fixed
  {
    hide Grouped, InReadingOrder, IsGrouping, RowsMap, ReconciledBefore, ReconciledAfter, NewKeyViews;
    var j := i - |r.ReconciledOld()|;
    var e := r.NewViews()[j];
    ReconcileKeepsRows(e, None, r.additionRules, r.shipped);
    NewViewRows(r, j);
    NewEntryAgain(e, r.additionRules, r.shipped);
  }

  /** Reconciling the finished list against the same rescan changes nothing exactly when no entry that only
      the rescan has is Fixed. */
  lemma FinishedAgainIff(r: Inputs)
    ensures ReconciledBeforeAll(Finished(r), RowsMap(r.after), r.shipped) == Finished(r) <==>
            forall i | |r.ReconciledOld()| <= i < |Finished(r)| :: Finished(r)[i].verdict.disposition != Fixed
  {
    hide Finished, RowsMap, ReconciledBefore, Inputs.ReconciledOld, Inputs.ReconciledNew;
    var vs := Finished(r);
    var again := ReconciledBeforeAll(vs, RowsMap(r.after), r.shipped);
    forall i | 0 <= i < |vs| ensures again[i] == vs[i] <==> i < |r.ReconciledOld()| || vs[i].verdict.disposition != Fixed {
      if i < |r.ReconciledOld()| {
        FinishedOldAgain(r, i);
      } else {
        FinishedNewAgain(r, i);
      }
    }
    if again == vs {
      forall i | |r.ReconciledOld()| <= i < |vs| ensures vs[i].verdict.disposition != Fixed {
        assert again[i] == vs[i];
      }
    }
  }

  /** With no addition rule saying Fixed, it changes nothing. */
  lemma FinishedAgain(r: Inputs)
    requires NoRuleSaysFixed(r.additionRules)
    ensures ReconciledBeforeAll(Finished(r), RowsMap(r.after), r.shipped) == Finished(r)
  {
    FinishedAgainIff(r);
    hide Grouped, InReadingOrder, IsGrouping, RowsMap, NewKeyViews, ReconciledBefore, ReconciledAfter;
    FixedMeansGone([], r.NewViews(), RowsMap(r.after), r.additionRules, r.shipped);
  }

  lemma FinishedKeys(r: Inputs)
    ensures NoDup(ViewKeys(Finished(r)))
    ensures forall k :: k in ViewKeys(Finished(r)) <==> k in r.OldKeys() || k in ToSet(KeysOf(r.after))
  {
    hide Grouped, InReadingOrder, NewKeyViews, ReconciledAfter, ReconciledBefore, RowsMap, FirstSeen;
    var olds, news := Grouped(r.before, r.rules), r.NewViews();
    BeforeKeys(olds, RowsMap(r.after), r.shipped);
    forall i | 0 <= i < |news| ensures r.ReconciledNew()[i].key == news[i].key {
      ReconcileKeepsRows(news[i], None, r.additionRules, r.shipped);
    }
    assert ViewKeys(Finished(r)) == ViewKeys(olds) + ViewKeys(news);
    NewKeysDistinct(Grouped(r.after, r.rules), r.OldKeys());
    forall k | k in ViewKeys(Grouped(r.after, r.rules)) ensures k in ViewKeys(news) <==> k !in r.OldKeys() {
      NewKeyCovered(Grouped(r.after, r.rules), r.OldKeys(), k);
    }
    forall i, j | 0 <= i < |olds| && 0 <= j < |news| ensures ViewKeys(olds)[i] != ViewKeys(news)[j] {
      assert ViewKeys(olds)[i] in r.OldKeys() && news[j].key !in r.OldKeys();
    }
    DistinctConcat(ViewKeys(olds), ViewKeys(news));
  }

  /** As many cleared over the finished list as over the original one. */
  lemma FinishedCleared<T>(r: Inputs, xs: seq<T>)
    requires |xs| == |Finished(r)|
    ensures
      var os := BeforeOutcomes(Finished(r), RowsMap(r.after), r.shipped);
      |Pick(xs, os, ClearedAsPredicted)| + |Pick(xs, os, ClearedUnexpectedly)| == |r.OldKeys() - ToSet(KeysOf(r.after))|
  {
    FinishedKeys(r);
    var vs, present := Finished(r), ToSet(KeysOf(r.after));
    assert ToSet(ViewKeys(vs)) - present == r.OldKeys() - present;
    assert Gone(vs, RowsMap(r.after)) == AbsentFrom(ViewKeys(vs), present);
    hide *;
    ClearedCountsGone(xs, vs, RowsMap(r.after), r.shipped);
    AbsentCount(ViewKeys(vs), present);
  }

  /** None failed over the finished list. */
  lemma FinishedNoneFailed<T>(r: Inputs, xs: seq<T>)
    requires NoRuleSaysFixed(r.additionRules) && |xs| == |Finished(r)|
    ensures Pick(xs, BeforeOutcomes(Finished(r), RowsMap(r.after), r.shipped), FailedToClear) == []
  {
    FinishedAgain(r);
    hide Finished, RowsMap, Pick;
    var vs := Finished(r);
    var os := BeforeOutcomes(vs, RowsMap(r.after), r.shipped);
    forall i | 0 <= i < |vs| ensures os[i] != FailedToClear {
      assert ReconciledBeforeAll(vs, RowsMap(r.after), r.shipped)[i] == vs[i];
      StaysNotFailed(vs[i], RowsFor(RowsMap(r.after), vs[i].key), r.shipped);
    }
    PickNone(xs, os, FailedToClear);
  }

  lemma StaysNotFailed(e: EntryView, after: Option<seq<Finding>>, shipped: map<string, string>)
    requires ReconciledBefore(e, after, shipped) == e
    ensures BeforeOutcome(e, after, shipped) != FailedToClear
  {
  }

  lemma {:induction false} AllListed(entries: seq<Entry>, ks: set<EntryKey>)
    requires forall i | 0 <= i < |entries| :: entries[i].key in ks
    ensures Lacking(entries, ks) == []
  {
    if entries != [] {
      AllListed(entries[..|entries| - 1], ks);
    }
  }

  lemma NothingNew(r: Inputs, after: seq<Entry>, entries: seq<Entry>)
    requires ToSet(EntryKeys(after)) == ToSet(KeysOf(r.after)) && EntryKeys(entries) == ViewKeys(Finished(r))
    ensures Lacking(DictValues(after), ToSet(EntryKeys(entries))) == []
  {
    FinishedKeys(r);
    hide Grouped, InReadingOrder, IsGrouping, Finished, DictValues, FirstSeen, Lacking;
    var ks := ToSet(EntryKeys(entries));
    forall e | e in DictValues(after) ensures e.key in ks {
      var i :| 0 <= i < |after| && after[i] == e;
      assert EntryKeys(after)[i] == e.key;
      assert e.key in ToSet(EntryKeys(after));
    }
    AllListed(DictValues(after), ks);
  }

  /** What is known when the first pass is done. */
  ghost predicate PassedOnce(r: Inputs, rec: Reconciliation, after: seq<Entry>)
    reads rec.entries, after
  {
    && NoDup(EntryKeys(rec.entries)) && Views(rec.entries) == Finished(r)
    && rec.cleared == |r.OldKeys() - ToSet(KeysOf(r.after))|
    && RowsByKey(after) == RowsMap(r.after) && ToSet(EntryKeys(after)) == ToSet(KeysOf(r.after))
  }

  method FirstPass(r: Inputs, before: seq<Entry>, after: seq<Entry>) returns (rec: Reconciliation)
    requires Views(before) == Grouped(r.before, r.rules) && Views(after) == Grouped(r.after, r.rules)
    modifies before, after
    ensures PassedOnce(r, rec, after)
    ensures forall e | e in rec.entries :: e in before || e in after
  {
    hide Grouped, InReadingOrder, IsGrouping, DictValues, DictOf, RowsByKey, RowsMap, Lacking, NewKeyViews, Pick, FirstSeen,
      BeforeOutcomes, AfterOutcomes, ReconciledBeforeAll, ReconciledAfterAll, Views, EntryKeys, NoDup, ToSet;
    RowsByKeyOfGrouped(before, r.before, r.rules);
    RowsByKeyOfGrouped(after, r.after, r.rules);
    DistinctDictValues(before);
    DistinctDictValues(after);
    LackingViews(after, ToSet(EntryKeys(before)));
    rec := ReconcileExports(before, after, r.additionRules, r.shipped);
    ViewsConcat(before, rec.afterOnly);
    ClearedIsGoneKeys(r, before);
  }

  /** `reconcile` run over the list it returned: the same entries, none new, none changed, none failed and
      as many cleared, when no addition rule says Fixed. */
  method ReconcileFinished(r: Inputs, before: seq<Entry>, after: seq<Entry>)
    returns (first: Reconciliation, second: Reconciliation)
    requires Views(before) == Grouped(r.before, r.rules) && Views(after) == Grouped(r.after, r.rules)
    modifies before, after
    ensures second.entries == first.entries && second.afterOnly == [] && second.unanticipated == []
    ensures second.cleared == first.cleared == |r.OldKeys() - ToSet(KeysOf(r.after))|
    ensures Views(second.entries) == ReconciledBeforeAll(Finished(r), RowsMap(r.after), r.shipped)
    ensures NoRuleSaysFixed(r.additionRules) ==> Views(second.entries) == Finished(r) && second.failedToClear == []
  {
    hide *;
    first := FirstPass(r, before, after);
    assert forall i | 0 <= i < |first.entries| :: first.entries[i] in before || first.entries[i] in after;
    second := SecondPass(r, first, after);
  }

  method SecondPass(r: Inputs, first: Reconciliation, after: seq<Entry>) returns (second: Reconciliation)
    requires PassedOnce(r, first, after)
    modifies first.entries, after
    ensures second.entries == first.entries && second.afterOnly == [] && second.unanticipated == []
    ensures second.cleared == first.cleared == |r.OldKeys() - ToSet(KeysOf(r.after))|
    ensures Views(second.entries) == ReconciledBeforeAll(Finished(r), RowsMap(r.after), r.shipped)
    ensures NoRuleSaysFixed(r.additionRules) ==> Views(second.entries) == Finished(r) && second.failedToClear == []
  {
    hide Grouped, InReadingOrder, IsGrouping, Finished, DictValues, DictOf, RowsByKey, RowsMap, Lacking, Pick, FirstSeen, NoRuleSaysFixed,
      BeforeOutcomes, AfterOutcomes, ReconciledBeforeAll, ReconciledAfterAll, Views, EntryKeys, NoDup, ToSet;
    var entries := first.entries;
    KeysOfViews(entries);
    DistinctDictValues(entries);
    NothingNew(r, after, entries);
    second := ReconcileExports(entries, after, r.additionRules, r.shipped);
    NothingPicked();
    FinishedCleared(r, entries);
    if NoRuleSaysFixed(r.additionRules) {
      FinishedAgain(r);
      FinishedNoneFailed(r, entries);
    }
  }

  lemma NothingPicked()
    ensures forall tags: seq<Outcome>, want: Outcome | |tags| == 0 :: Pick<Entry, Outcome>([], tags, want) == []
  {
  }
}
