/** The register command: group both exports, reconcile, apply human overrides, split the entries over
    the content sheets, and decide whether the result may ship. */
module Register {
  import opened Sequences
  import opened Findings
  import opened Entries
  import opened Integrity
  import opened Reconcile

  // ----- laws of reconciliation ------------------------------------------------------------

  /** After reconciliation a coverage-map entry is Fixed exactly when the rescan no longer has its key. */
  lemma FixedIffGone(e: EntryView, after: Option<seq<Finding>>, shipped: map<string, string>)
    ensures ReconciledBefore(e, after, shipped).verdict.disposition == Fixed <==> after.None?
  {
  }

  /** An entry only the rescan has is Fixed exactly when an addition rule says so. */
  lemma AdditionFixedOnlyByRule(e: EntryView, rules: seq<Rule>, shipped: map<string, string>)
    ensures ReconciledAfter(e, rules, shipped).verdict.disposition == Fixed <==>
              && ReplacingDigest(e.key.image, e.rows, shipped) == ""
              && AdditionRule(e.rows, rules).Some? && AdditionRule(e.rows, rules).value.disposition == Fixed
  {
  }

  lemma {:induction false} AdditionRuleIsRule(rows: seq<Finding>, rules: seq<Rule>)
    ensures AdditionRule(rows, rules).Some? ==>
              exists i | 0 <= i < |rules| :: rules[i].disposition == AdditionRule(rows, rules).value.disposition
  {
    if rules != [] && !MatchesSome(rules[0], rows) {
      AdditionRuleIsRule(rows, rules[1..]);
      if AdditionRule(rows, rules).Some? {
        var i :| 0 <= i < |rules[1..]| && rules[1..][i].disposition == AdditionRule(rows, rules).value.disposition;
        assert rules[i + 1].disposition == rules[1..][i].disposition;
      }
    }
  }

  predicate NoRuleSaysFixed(rules: seq<Rule>) {
    forall i | 0 <= i < |rules| :: rules[i].disposition != Fixed
  }

  /** Over a whole register: with no addition rule saying Fixed, Fixed means "was on the original
      list and is gone", and nothing else. */
  lemma FixedMeansGone(B: seq<EntryView>, A: seq<EntryView>, after: map<EntryKey, seq<Finding>>,
                       rules: seq<Rule>, shipped: map<string, string>)
    requires NoRuleSaysFixed(rules)
    ensures forall i | 0 <= i < |B| ::
              ReconciledBeforeAll(B, after, shipped)[i].verdict.disposition == Fixed <==> B[i].key !in after
    ensures forall i | 0 <= i < |A| ::
              ReconciledAfterAll(A, rules, shipped)[i].verdict.disposition != Fixed
  {
    forall i | 0 <= i < |B|
      ensures ReconciledBeforeAll(B, after, shipped)[i].verdict.disposition == Fixed <==> B[i].key !in after
    {
      FixedIffGone(B[i], RowsFor(after, B[i].key), shipped);
    }
    forall i | 0 <= i < |A|
      ensures ReconciledAfterAll(A, rules, shipped)[i].verdict.disposition != Fixed
    {
      AdditionFixedOnlyByRule(A[i], rules, shipped);
      AdditionRuleIsRule(A[i].rows, rules);
    }
  }

  function CountTrue(bs: seq<bool>): nat {
    if bs == [] then 0 else CountTrue(bs[..|bs| - 1]) + if bs[|bs| - 1] then 1 else 0
  }

  /** Which entries of the original list the rescan no longer has. */
  function Gone(vs: seq<EntryView>, after: map<EntryKey, seq<Finding>>): (r: seq<bool>)
    ensures |r| == |vs|
    ensures forall i | 0 <= i < |vs| :: r[i] <==> vs[i].key !in after
  {
    seq(|vs|, i requires 0 <= i < |vs| => vs[i].key !in after)
  }

  lemma OutcomeGone(e: EntryView, after: Option<seq<Finding>>, shipped: map<string, string>)
    ensures BeforeOutcome(e, after, shipped) in {ClearedAsPredicted, ClearedUnexpectedly} <==> after.None?
  {
  }

  lemma {:induction false} PicksCountGone<T>(xs: seq<T>, os: seq<Outcome>, gone: seq<bool>)
    requires |xs| == |os| == |gone|
    requires forall i | 0 <= i < |os| :: (os[i] == ClearedAsPredicted || os[i] == ClearedUnexpectedly) <==> gone[i]
    ensures |Pick(xs, os, ClearedAsPredicted)| + |Pick(xs, os, ClearedUnexpectedly)| == CountTrue(gone)
  {
    if xs != [] {
      var n := |xs| - 1;
      PicksCountGone(xs[..n], os[..n], gone[..n]);
      PickSnoc(xs[..n], os[..n], xs[n], os[n], ClearedAsPredicted);
      PickSnoc(xs[..n], os[..n], xs[n], os[n], ClearedUnexpectedly);
      assert xs == xs[..n] + [xs[n]] && os == os[..n] + [os[n]];
    }
  }

  /** `cleared` counts exactly the entries of the original list that are gone. */
  lemma ClearedCountsGone<T>(xs: seq<T>, vs: seq<EntryView>, after: map<EntryKey, seq<Finding>>,
                             shipped: map<string, string>)
    requires |xs| == |vs|
    ensures |Pick(xs, BeforeOutcomes(vs, after, shipped), ClearedAsPredicted)|
            + |Pick(xs, BeforeOutcomes(vs, after, shipped), ClearedUnexpectedly)| == CountTrue(Gone(vs, after))
  {
    forall i | 0 <= i < |vs|
      ensures BeforeOutcomes(vs, after, shipped)[i] in {ClearedAsPredicted, ClearedUnexpectedly} <==> Gone(vs, after)[i]
    {
      OutcomeGone(vs[i], RowsFor(after, vs[i].key), shipped);
    }
    PicksCountGone(xs, BeforeOutcomes(vs, after, shipped), Gone(vs, after));
  }

  /** Reconciling a second time against the same rescan changes no verdict, and finds no fix that
      failed to land: those entries are already deferred. */
  lemma ReconcileTwice(e: EntryView, a: EntryView, after: Option<seq<Finding>>, rules: seq<Rule>,
                       shipped: map<string, string>)
    ensures ReconciledBefore(ReconciledBefore(e, after, shipped), after, shipped) == ReconciledBefore(e, after, shipped)
    ensures BeforeOutcome(ReconciledBefore(e, after, shipped), after, shipped) != FailedToClear
    ensures ReconciledAfter(ReconciledAfter(a, rules, shipped), rules, shipped) == ReconciledAfter(a, rules, shipped)
  {
  }

  // ----- human overrides -------------------------------------------------------------------

  /** An empty `version` matches every version. */
  datatype Override = Override(
    image: string, cve: string, software: string, version: string, disposition: Option<Disposition>,
    reason: string, owner: string, targetDate: string, vendorStatus: string, trackerUrl: string)
  {
    predicate Matches(k: EntryKey) {
      k.image == image && k.cve == cve && k.software == software && (version == "" || k.version == version)
    }

    function Name(): string {
      image + "/" + cve + "/" + software
    }
  }

  function Or(s: string, fallback: string): string {
    if s != "" then s else fallback
  }

  function OverrideVerdict(ov: Override, v: Verdict): Verdict {
    Verdict(if ov.disposition.Some? then ov.disposition.value else v.disposition,
            if ov.reason != "" then Stated(ov.reason) else v.reason,
            v.rule + "+override", v.unit, Or(ov.owner, v.owner), Or(ov.targetDate, v.targetDate))
  }

  function Overridden(ov: Override, v: EntryView): EntryView {
    if ov.Matches(v.key) then
      v.(vendorStatus := Or(ov.vendorStatus, v.vendorStatus), trackerUrl := Or(ov.trackerUrl, v.trackerUrl),
         verdict := OverrideVerdict(ov, v.verdict))
    else v
  }

  /** All overrides in turn: a later one sees what an earlier one wrote. */
  function AfterOverrides(ovs: seq<Override>, v: EntryView): EntryView {
    if ovs == [] then v else Overridden(ovs[|ovs| - 1], AfterOverrides(ovs[..|ovs| - 1], v))
  }

  predicate Matched(ovs: seq<Override>, k: EntryKey) {
    exists i | 0 <= i < |ovs| :: ovs[i].Matches(k)
  }

  lemma {:induction false} OverridesKeepRows(ovs: seq<Override>, v: EntryView)
    ensures AfterOverrides(ovs, v).key == v.key && AfterOverrides(ovs, v).rows == v.rows
    ensures !Matched(ovs, v.key) ==> AfterOverrides(ovs, v) == v
  {
    if ovs != [] {
      OverridesKeepRows(ovs[..|ovs| - 1], v);
      assert forall i | 0 <= i < |ovs| - 1 :: ovs[..|ovs| - 1][i] == ovs[i];
    }
  }

  function MatchesNone(ov: Override, entries: seq<Entry>): bool {
    forall i | 0 <= i < |entries| :: !ov.Matches(entries[i].key)
  }

  function UnmatchedNames(ovs: seq<Override>, entries: seq<Entry>): seq<string> {
    if ovs == [] then []
    else
      var init := UnmatchedNames(ovs[..|ovs| - 1], entries);
      if MatchesNone(ovs[|ovs| - 1], entries) then init + [ovs[|ovs| - 1].Name()] else init
  }

  /** One override applied once for every time the entry is listed. */
  function OverriddenTimes(ov: Override, v: EntryView, k: nat): EntryView {
    if k == 0 then v else Overridden(ov, OverriddenTimes(ov, v, k - 1))
  }

  /** All overrides in turn, over an entry listed `k` times. */
  function AfterOverridesTimes(ovs: seq<Override>, v: EntryView, k: nat): EntryView {
    if ovs == [] then v
    else OverriddenTimes(ovs[|ovs| - 1], AfterOverridesTimes(ovs[..|ovs| - 1], v, k), k)
  }

  lemma {:induction false} ListedOnce(ovs: seq<Override>, v: EntryView)
    ensures AfterOverridesTimes(ovs, v, 1) == AfterOverrides(ovs, v)
  {
    hide Overridden;
    if ovs != [] {
      ListedOnce(ovs[..|ovs| - 1], v);
      assert OverriddenTimes(ovs[|ovs| - 1], AfterOverrides(ovs[..|ovs| - 1], v), 0) == AfterOverrides(ovs[..|ovs| - 1], v);
    }
  }

  /** What the entries should be when the override has gone over the first `n` places of the list. */
  function Wanted(entries: seq<Entry>, before: seq<EntryView>, ov: Override, n: nat): (r: seq<EntryView>)
    requires |before| == |entries| && n <= |entries|
    ensures |r| == |entries|
  {
    seq(|entries|, i requires 0 <= i < |entries| => OverriddenTimes(ov, before[i], multiset(entries[..n])[entries[i]]))
  }

  lemma WantedAtFirst(entries: seq<Entry>, before: seq<EntryView>, ov: Override)
    requires |before| == |entries|
    ensures Wanted(entries, before, ov, 0) == before
  {
    hide Overridden;
  }

  lemma WantedNext(entries: seq<Entry>, before: seq<EntryView>, ov: Override, n: nat, i: nat)
    requires |before| == |entries| && n < |entries| && i < |entries|
    ensures Wanted(entries, before, ov, n + 1)[i] ==
            if entries[i] == entries[n] then Overridden(ov, Wanted(entries, before, ov, n)[i])
            else Wanted(entries, before, ov, n)[i]
  {
    hide Overridden;
    assert entries[..n + 1] == entries[..n] + [entries[n]];
  }

  /** The body of the loop: the three assignments to an entry the override matches. */
  method OverrideEntry(e: Entry, ov: Override) returns (hit: bool)
    modifies e
    ensures e.View() == Overridden(ov, old(e.View()))
    ensures hit == ov.Matches(e.key)
  {
    hide OverrideVerdict;
    hit := ov.Matches(e.key);
    if hit {
      e.vendorStatus := Or(ov.vendorStatus, e.vendorStatus);
      e.trackerUrl := Or(ov.trackerUrl, e.trackerUrl);
      e.verdict := OverrideVerdict(ov, e.verdict);
    }
  }

  lemma MatchesNoneNext(ov: Override, entries: seq<Entry>, n: nat)
    requires n < |entries|
    ensures MatchesNone(ov, entries[..n + 1]) <==> MatchesNone(ov, entries[..n]) && !ov.Matches(entries[n].key)
  {
    assert entries[..n + 1][n] == entries[n];
    assert forall i | 0 <= i < n :: entries[..n + 1][i] == entries[..n][i];
  }

  /** One override over all entries; reports whether it hit any. */
  method ApplyOverride(entries: seq<Entry>, ov: Override) returns (hit: bool)
    modifies entries
    ensures forall i | 0 <= i < |entries| ::
              entries[i].View() == OverriddenTimes(ov, old(entries[i].View()), multiset(entries)[entries[i]])
    ensures hit <==> !MatchesNone(ov, entries)
  {
    ghost var before := Views(entries);
    hit := OverrideEach(entries, before, ov);
    hide Overridden;
    assert entries[..|entries|] == entries;
    assert forall i | 0 <= i < |entries| ::
        entries[i].View() == Wanted(entries, before, ov, |entries|)[i];
  }

  /** The loop over the entries. */
  method OverrideEach(entries: seq<Entry>, ghost before: seq<EntryView>, ov: Override) returns (hit: bool)
    requires |before| == |entries| && forall i | 0 <= i < |entries| :: entries[i].View() == before[i]
    modifies entries
    ensures forall i | 0 <= i < |entries| :: entries[i].View() == Wanted(entries, before, ov, |entries|)[i]
    ensures hit <==> !MatchesNone(ov, entries)
  {
    hit := false;
    WantedAtFirst(entries, before, ov);
    hide Overridden, Override.Matches, Wanted, MatchesNone;
    NoneListed(ov);
    for n := 0 to |entries|
      invariant forall i | 0 <= i < |entries| :: entries[i].View() == Wanted(entries, before, ov, n)[i]
      invariant hit <==> !MatchesNone(ov, entries[..n])
    {
      ghost var next := Wanted(entries, before, ov, n + 1);
      forall i | 0 <= i < |entries|
        ensures next[i] == if entries[i] == entries[n] then Overridden(ov, entries[i].View()) else entries[i].View()
      {
        WantedNext(entries, before, ov, n, i);
      }
      MatchesNoneNext(ov, entries, n);
      var matched := OverrideEntry(entries[n], ov);
      hit := hit || matched;
    }
    assert entries[..|entries|] == entries;
  }

  lemma NoneListed(ov: Override)
    ensures MatchesNone(ov, [])
  {
  }

  /** Applies human annotations; returns the overrides that matched nothing. */
  method ApplyOverrides(entries: seq<Entry>, ovs: seq<Override>) returns (unmatched: seq<string>)
    modifies entries
    ensures forall i | 0 <= i < |entries| ::
              entries[i].View() == AfterOverridesTimes(ovs, old(entries[i].View()), multiset(entries)[entries[i]])
    ensures NoDup(entries) ==>
              forall i | 0 <= i < |entries| :: entries[i].View() == AfterOverrides(ovs, old(entries[i].View()))
    ensures unmatched == UnmatchedNames(ovs, entries)
  {
    hide Overridden, OverriddenTimes;
    unmatched := [];
    ghost var before := Views(entries);
    for m := 0 to |ovs|
      invariant forall i | 0 <= i < |entries| ::
                  entries[i].View() == AfterOverridesTimes(ovs[..m], before[i], multiset(entries)[entries[i]])
      invariant unmatched == UnmatchedNames(ovs[..m], entries)
    {
      assert ovs[..m + 1][..m] == ovs[..m];
      var hit := ApplyOverride(entries, ovs[m]);
      if !hit {
        unmatched := unmatched + [ovs[m].Name()];
      }
    }
    assert ovs[..|ovs|] == ovs;
    if NoDup(entries) {
      forall i | 0 <= i < |entries| ensures entries[i].View() == AfterOverrides(ovs, before[i]) {
        NoDupMultiset(entries, entries[i]);
        ListedOnce(ovs, before[i]);
      }
    }
  }

  // ----- the content sheets ----------------------------------------------------------------

  datatype Sheet = FixedSheet | Exceptions | DeferredSheet | Disputes | OutOfScopeSheet | HeldSheet

  function SheetFor(d: Disposition): Sheet {
    match d
    case Fixed => FixedSheet
    case Exception => Exceptions
    case DisputeRejected => Exceptions
    case Deferred => DeferredSheet
    case Dispute => Disputes
    case Superseded => OutOfScopeSheet
    case OutOfScope => OutOfScopeSheet
    case Held => HeldSheet
  }

  function SheetsOf(vs: seq<EntryView>): (r: seq<Sheet>)
    ensures |r| == |vs|
    ensures forall i | 0 <= i < |vs| :: r[i] == SheetFor(vs[i].verdict.disposition)
  {
    seq(|vs|, i requires 0 <= i < |vs| => SheetFor(vs[i].verdict.disposition))
  }

  /** `Rows Accounted` summed over the entries of one image. */
  function RowsOn(vs: seq<EntryView>, image: string): nat {
    if vs == [] then 0
    else RowsOn(vs[..|vs| - 1], image) + (if vs[|vs| - 1].key.image == image then |vs[|vs| - 1].rows| else 0)
  }

  lemma RowsOnSnoc(vs: seq<EntryView>, v: EntryView, image: string)
    ensures RowsOn(vs + [v], image) == RowsOn(vs, image) + if v.key.image == image then |v.rows| else 0
  {
    assert (vs + [v])[..|vs|] == vs;
  }

  lemma {:induction false} RowsOnConcat(vs: seq<EntryView>, ws: seq<EntryView>, image: string)
    ensures RowsOn(vs + ws, image) == RowsOn(vs, image) + RowsOn(ws, image)
  {
    if ws == [] {
      assert vs + ws == vs;
    } else {
      var n := |ws| - 1;
      assert (vs + ws)[..|vs + ws| - 1] == vs + ws[..n];
      RowsOnConcat(vs, ws[..n], image);
    }
  }

  /** The sheet total of the Summary: the sum over all content sheets. */
  function SheetsTotal(vs: seq<EntryView>, sheets: seq<Sheet>, image: string): nat
    requires |vs| == |sheets|
  {
    RowsOn(Pick(vs, sheets, FixedSheet), image) + RowsOn(Pick(vs, sheets, Exceptions), image)
    + RowsOn(Pick(vs, sheets, DeferredSheet), image) + RowsOn(Pick(vs, sheets, Disputes), image)
    + RowsOn(Pick(vs, sheets, OutOfScopeSheet), image) + RowsOn(Pick(vs, sheets, HeldSheet), image)
  }

  /** However entries are filed, the sheets together hold each entry's rows once. */
  lemma {:induction false} SheetsPartition(vs: seq<EntryView>, sheets: seq<Sheet>, image: string)
    requires |vs| == |sheets|
    ensures SheetsTotal(vs, sheets, image) == RowsOn(vs, image)
  {
    hide RowsOn, Pick;
    if vs == [] {
      EmptySheets();
    } else {
      var n := |vs| - 1;
      var ws, ts := vs[..n], sheets[..n];
      SheetsPartition(ws, ts, image);
      assert vs == ws + [vs[n]] && sheets == ts + [sheets[n]];
      RowsOnSnoc(ws, vs[n], image);
      SheetSnoc(ws, ts, vs[n], sheets[n], FixedSheet, image);
      SheetSnoc(ws, ts, vs[n], sheets[n], Exceptions, image);
      SheetSnoc(ws, ts, vs[n], sheets[n], DeferredSheet, image);
      SheetSnoc(ws, ts, vs[n], sheets[n], Disputes, image);
      SheetSnoc(ws, ts, vs[n], sheets[n], OutOfScopeSheet, image);
      SheetSnoc(ws, ts, vs[n], sheets[n], HeldSheet, image);
    }
  }

  lemma EmptySheets()
    ensures forall image :: RowsOn([], image) == 0
    ensures forall s: Sheet :: Pick<EntryView, Sheet>([], [], s) == []
  {
  }

  lemma SheetSnoc(vs: seq<EntryView>, sheets: seq<Sheet>, v: EntryView, sheet: Sheet, want: Sheet, image: string)
    requires |vs| == |sheets|
    ensures RowsOn(Pick(vs + [v], sheets + [sheet], want), image) ==
            RowsOn(Pick(vs, sheets, want), image) + if sheet == want && v.key.image == image then |v.rows| else 0
  {
    PickSnoc(vs, sheets, v, sheet, want);
    RowsOnSnoc(Pick(vs, sheets, want), v, image);
  }
}
