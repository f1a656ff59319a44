/** Measuring the after-export against the coverage map built from the before-export. */
module Reconcile {
  import opened Sequences
  import opened Findings
  import opened Entries

  datatype Outcome = Replaced | FailedToClear | ClearedAsPredicted | ClearedUnexpectedly | Kept | Anticipated | Unanticipated

  // ----- one entry, as a value -------------------------------------------------------------

  /** The digest shipped for `image`, when these rows were measured against a different one. */
  function ReplacingDigest(image: string, rows: seq<Finding>, shipped: map<string, string>): string {
    var current := if image in shipped then shipped[image] else "";
    if current == "" || DigestOf(rows) == "" || DigestOf(rows) == current then "" else current
  }

  /** `after` holds the rows of the after-export entry with the same key, when there is one. */
  function BeforeOutcome(e: EntryView, after: Option<seq<Finding>>, shipped: map<string, string>): Outcome {
    if after.Some? && ReplacingDigest(e.key.image, after.value, shipped) != "" then Replaced
    else if e.verdict.disposition == Fixed && after.Some? then FailedToClear
    else if e.verdict.disposition == Fixed then ClearedAsPredicted
    else if after.None? then ClearedUnexpectedly
    else Kept
  }

  function SupersededVerdict(measured: string, shipped: string, unit: string): Verdict {
    Verdict(Superseded, OtherManifest(measured, shipped), "reconcile:superseded-artifact", unit, "", "")
  }

  function ReconciledBefore(e: EntryView, after: Option<seq<Finding>>, shipped: map<string, string>): EntryView {
    match BeforeOutcome(e, after, shipped)
    case Replaced =>
      var replacing := ReplacingDigest(e.key.image, after.value, shipped);
      e.(replacing := replacing,
         verdict := SupersededVerdict(DigestOf(after.value), replacing, e.verdict.unit))
    case FailedToClear =>
      e.(verdict := Verdict(Deferred,
                            StillPresent(if e.verdict.unit != "" then e.verdict.unit else "this pass", e.verdict.reason),
                            "reconcile:failed-to-clear", e.verdict.unit, "UNASSIGNED", "UNSET"))
    case ClearedUnexpectedly =>
      e.(verdict := Verdict(Fixed, SideEffect(e.verdict.disposition, e.verdict.reason),
                            "reconcile:cleared-unexpectedly", e.verdict.unit, "", ""))
    case _ => e
  }

  predicate MatchesSome(rule: Rule, rows: seq<Finding>) {
    exists i | 0 <= i < |rows| :: rule.matches(rows[i])
  }

  /** The first addition rule that matches one of the rows. */
  function AdditionRule(rows: seq<Finding>, rules: seq<Rule>): Option<Rule> {
    if rules == [] then None
    else if MatchesSome(rules[0], rows) then Some(rules[0])
    else AdditionRule(rows, rules[1..])
  }

  function AfterOutcome(e: EntryView, rules: seq<Rule>, shipped: map<string, string>): Outcome {
    if ReplacingDigest(e.key.image, e.rows, shipped) != "" then Replaced
    else if AdditionRule(e.rows, rules).Some? then Anticipated
    else Unanticipated
  }

  function ReconciledAfter(e: EntryView, rules: seq<Rule>, shipped: map<string, string>): EntryView {
    match AfterOutcome(e, rules, shipped)
    case Replaced =>
      var replacing := ReplacingDigest(e.key.image, e.rows, shipped);
      e.(replacing := replacing, verdict := SupersededVerdict(DigestOf(e.rows), replacing, e.verdict.unit))
    case Anticipated =>
      var rule := AdditionRule(e.rows, rules).value;
      e.(verdict := Verdict(rule.disposition, Stated(rule.reason), "addition:" + rule.name, rule.unit, "", ""))
    case _ =>
      e.(verdict := Verdict(Deferred, NotAnticipated, "reconcile:unanticipated", "", "UNASSIGNED", "UNSET"))
  }

  // ----- all entries, as values ------------------------------------------------------------

  function RowsFor(after: map<EntryKey, seq<Finding>>, k: EntryKey): Option<seq<Finding>> {
    if k in after then Some(after[k]) else None
  }

  function BeforeOutcomes(vs: seq<EntryView>, after: map<EntryKey, seq<Finding>>, shipped: map<string, string>)
    : (r: seq<Outcome>)
    ensures |r| == |vs|
    ensures forall i | 0 <= i < |vs| :: r[i] == BeforeOutcome(vs[i], RowsFor(after, vs[i].key), shipped)
  {
    seq(|vs|, i requires 0 <= i < |vs| => BeforeOutcome(vs[i], RowsFor(after, vs[i].key), shipped))
  }

  function AfterOutcomes(vs: seq<EntryView>, rules: seq<Rule>, shipped: map<string, string>): (r: seq<Outcome>)
    ensures |r| == |vs|
    ensures forall i | 0 <= i < |vs| :: r[i] == AfterOutcome(vs[i], rules, shipped)
  {
    seq(|vs|, i requires 0 <= i < |vs| => AfterOutcome(vs[i], rules, shipped))
  }

  function ReconciledBeforeAll(vs: seq<EntryView>, after: map<EntryKey, seq<Finding>>, shipped: map<string, string>)
    : (r: seq<EntryView>)
    ensures |r| == |vs|
    ensures forall i | 0 <= i < |vs| :: r[i] == ReconciledBefore(vs[i], RowsFor(after, vs[i].key), shipped)
  {
    seq(|vs|, i requires 0 <= i < |vs| => ReconciledBefore(vs[i], RowsFor(after, vs[i].key), shipped))
  }

  function ReconciledAfterAll(vs: seq<EntryView>, rules: seq<Rule>, shipped: map<string, string>): (r: seq<EntryView>)
    ensures |r| == |vs|
    ensures forall i | 0 <= i < |vs| :: r[i] == ReconciledAfter(vs[i], rules, shipped)
  {
    seq(|vs|, i requires 0 <= i < |vs| => ReconciledAfter(vs[i], rules, shipped))
  }

  // ----- dicts of entries ------------------------------------------------------------------

  /** `{e.key: e for e in entries}`: the last entry with a key wins. */
  function DictOf(entries: seq<Entry>): (m: map<EntryKey, Entry>)
    ensures forall k | k in m :: m[k] in entries && m[k].key == k
    ensures m.Keys == ToSet(EntryKeys(entries))
  {
    if entries == [] then map[]
    else
      var n := |entries| - 1;
      assert EntryKeys(entries) == EntryKeys(entries[..n]) + [entries[n].key];
      DictOf(entries[..n])[entries[n].key := entries[n]]
  }

  /** The dict's values in the dict's order. */
  function DictValues(entries: seq<Entry>): (r: seq<Entry>)
    ensures EntryKeys(r) == FirstSeen(EntryKeys(entries))
    ensures forall e | e in r :: e in entries
  {
    var ks, m := FirstSeen(EntryKeys(entries)), DictOf(entries);
    assert forall k | k in ks :: k in m.Keys;
    seq(|ks|, i requires 0 <= i < |ks| => m[ks[i]])
  }

  function RowsByKey(entries: seq<Entry>): map<EntryKey, seq<Finding>>
    reads entries
  {
    var m := DictOf(entries);
    map k | k in m :: m[k].rows
  }

  /** The entries whose key is not in `ks`, in order. */
  function Lacking(entries: seq<Entry>, ks: set<EntryKey>): (r: seq<Entry>)
    ensures forall e | e in r :: e in entries && e.key !in ks
    ensures forall e | e in entries && e.key !in ks :: e in r
    ensures NoDup(EntryKeys(entries)) ==> NoDup(EntryKeys(r))
  {
    if entries == [] then []
    else
      var n := |entries| - 1;
      var r := Lacking(entries[..n], ks);
      assert EntryKeys(entries) == EntryKeys(entries[..n]) + [entries[n].key];
      assert entries == entries[..n] + [entries[n]];
      if entries[n].key in ks then r
      else
        assert EntryKeys(r + [entries[n]]) == EntryKeys(r) + [entries[n].key];
        r + [entries[n]]
  }

  // ----- the pass over the objects ---------------------------------------------------------

  datatype Reconciliation = Reconciliation(
    entries: seq<Entry>, cleared: nat, failedToClear: seq<Entry>, unanticipated: seq<Entry>,
    afterOnly: seq<Entry>, superseded: seq<Entry>)

  /** Marks an entry as describing a manifest that is no longer shipped. */
  method MarkSuperseded(entry: Entry, replacing: string, measured: string)
    modifies entry
    ensures entry.View() == old(entry.View()).(
              replacing := replacing, verdict := SupersededVerdict(measured, replacing, old(entry.verdict.unit)))
  {
    entry.replacing := replacing;
    entry.verdict := SupersededVerdict(measured, replacing, entry.verdict.unit);
  }

  /** One turn of the loop over the coverage map. */
  method SettleBefore(entry: Entry, after: Option<seq<Finding>>, shipped: map<string, string>) returns (o: Outcome)
    modifies entry
    ensures o == BeforeOutcome(old(entry.View()), after, shipped)
    ensures entry.View() == ReconciledBefore(old(entry.View()), after, shipped)
  {
    var replacing := if after.Some? then ReplacingDigest(entry.key.image, after.value, shipped) else "";
    var was := entry.verdict;
    if replacing != "" {
      MarkSuperseded(entry, replacing, DigestOf(after.value));
      o := Replaced;
    } else if was.disposition == Fixed && after.Some? {
      entry.verdict := Verdict(Deferred,
                               StillPresent(if was.unit != "" then was.unit else "this pass", was.reason),
                               "reconcile:failed-to-clear", was.unit, "UNASSIGNED", "UNSET");
      o := FailedToClear;
    } else if was.disposition == Fixed {
      o := ClearedAsPredicted;
    } else if after.None? {
      entry.verdict := Verdict(Fixed, SideEffect(was.disposition, was.reason),
                               "reconcile:cleared-unexpectedly", was.unit, "", "");
      o := ClearedUnexpectedly;
    } else {
      o := Kept;
    }
  }

  /** One turn of the loop over the entries only the after-export has. */
  method SettleAfter(entry: Entry, rules: seq<Rule>, shipped: map<string, string>) returns (o: Outcome)
    modifies entry
    ensures o == AfterOutcome(old(entry.View()), rules, shipped)
    ensures entry.View() == ReconciledAfter(old(entry.View()), rules, shipped)
  {
    var replacing := ReplacingDigest(entry.key.image, entry.rows, shipped);
    if replacing != "" {
      MarkSuperseded(entry, replacing, DigestOf(entry.rows));
      return Replaced;
    }
    var rule := AdditionRule(entry.rows, rules);
    if rule.Some? {
      var r := rule.value;
      entry.verdict := Verdict(r.disposition, Stated(r.reason), "addition:" + r.name, r.unit, "", "");
      o := Anticipated;
    } else {
      entry.verdict := Verdict(Deferred, NotAnticipated, "reconcile:unanticipated", "", "UNASSIGNED", "UNSET");
      o := Unanticipated;
    }
  }

  method SettleAllBefore(entries: seq<Entry>, after: map<EntryKey, seq<Finding>>, shipped: map<string, string>)
    returns (outcomes: seq<Outcome>)
    requires NoDup(EntryKeys(entries))
    modifies entries
    ensures outcomes == BeforeOutcomes(old(Views(entries)), after, shipped)
    ensures Views(entries) == ReconciledBeforeAll(old(Views(entries)), after, shipped)
  {
    hide BeforeOutcome, ReconciledBefore;
    ghost var before := Views(entries);
    outcomes := [];
    for n := 0 to |entries|
      invariant |outcomes| == n
      invariant forall i | n <= i < |entries| :: unchanged(entries[i])
      invariant forall i | 0 <= i < n ::
                  entries[i].View() == ReconciledBefore(before[i], RowsFor(after, before[i].key), shipped)
      invariant forall i | 0 <= i < n ::
                  outcomes[i] == BeforeOutcome(before[i], RowsFor(after, before[i].key), shipped)
    {
      assert forall i | 0 <= i < n :: EntryKeys(entries)[i] != EntryKeys(entries)[n];
      assert forall i | n < i < |entries| :: EntryKeys(entries)[n] != EntryKeys(entries)[i];
      var o := SettleBefore(entries[n], RowsFor(after, entries[n].key), shipped);
      outcomes := outcomes + [o];
    }
  }

  method SettleAllAfter(entries: seq<Entry>, rules: seq<Rule>, shipped: map<string, string>)
    returns (outcomes: seq<Outcome>)
    requires NoDup(EntryKeys(entries))
    modifies entries
    ensures outcomes == AfterOutcomes(old(Views(entries)), rules, shipped)
    ensures Views(entries) == ReconciledAfterAll(old(Views(entries)), rules, shipped)
  {
    hide AfterOutcome, ReconciledAfter;
    ghost var before := Views(entries);
    outcomes := [];
    for n := 0 to |entries|
      invariant |outcomes| == n
      invariant forall i | n <= i < |entries| :: unchanged(entries[i])
      invariant forall i | 0 <= i < n :: entries[i].View() == ReconciledAfter(before[i], rules, shipped)
      invariant forall i | 0 <= i < n :: outcomes[i] == AfterOutcome(before[i], rules, shipped)
    {
      assert forall i | 0 <= i < n :: EntryKeys(entries)[i] != EntryKeys(entries)[n];
      assert forall i | n < i < |entries| :: EntryKeys(entries)[n] != EntryKeys(entries)[i];
      var o := SettleAfter(entries[n], rules, shipped);
      outcomes := outcomes + [o];
    }
  }

  lemma ReconcileKeepsRows(e: EntryView, after: Option<seq<Finding>>, rules: seq<Rule>, shipped: map<string, string>)
    ensures ReconciledBefore(e, after, shipped).key == e.key && ReconciledBefore(e, after, shipped).rows == e.rows
    ensures ReconciledAfter(e, rules, shipped).key == e.key && ReconciledAfter(e, rules, shipped).rows == e.rows
  {
  }

  /** The dict of rows depends on the entries' rows alone. */
  twostate lemma RowsByKeyKept(after: seq<Entry>)
    requires forall i | 0 <= i < |after| :: after[i].rows == old(after[i].rows)
    ensures RowsByKey(after) == old(RowsByKey(after))
  {
    hide DictOf;
    forall k | k in DictOf(after) ensures DictOf(after)[k].rows == old(DictOf(after)[k].rows) {
      var i :| 0 <= i < |after| && after[i] == DictOf(after)[k];
    }
  }

  lemma RowsOfViews(entries: seq<Entry>)
    ensures forall i | 0 <= i < |entries| :: Views(entries)[i].rows == entries[i].rows
  {
  }

  /** An entry of a reconciled list has the rows it had. */
  lemma SettledRows(B: seq<Entry>, A: seq<Entry>, oldB: seq<EntryView>, oldA: seq<EntryView>, e: Entry,
                    after: map<EntryKey, seq<Finding>>, rules: seq<Rule>, shipped: map<string, string>)
    requires |oldB| == |B| && |oldA| == |A| && e in B + A
    requires Views(B) == ReconciledBeforeAll(oldB, after, shipped) && Views(A) == ReconciledAfterAll(oldA, rules, shipped)
    ensures exists j :: 0 <= j < |B + A| && (B + A)[j] == e && e.rows == (oldB + oldA)[j].rows
  {
    hide ReconciledBefore, ReconciledAfter;
    var j :| 0 <= j < |B + A| && (B + A)[j] == e;
    if j < |B| {
      assert Views(B)[j] == e.View();
      ReconcileKeepsRows(oldB[j], RowsFor(after, oldB[j].key), rules, shipped);
    } else {
      assert Views(A)[j - |B|] == e.View();
      ReconcileKeepsRows(oldA[j - |B|], None, rules, shipped);
    }
    assert e.rows == (oldB + oldA)[j].rows;
  }

  /** Measures the after-export against the coverage map, updating the entries of both. */
  method ReconcileExports(before: seq<Entry>, after: seq<Entry>, rules: seq<Rule>, shipped: map<string, string>)
    returns (r: Reconciliation)
    modifies before, after
    ensures
      var B := DictValues(before);
      var A := Lacking(DictValues(after), ToSet(EntryKeys(before)));
      var outcomes := BeforeOutcomes(old(Views(B)), old(RowsByKey(after)), shipped);
      var additions := AfterOutcomes(old(Views(A)), rules, shipped);
      && r.entries == B + A && r.afterOnly == A
      && Views(B) == ReconciledBeforeAll(old(Views(B)), old(RowsByKey(after)), shipped)
      && Views(A) == ReconciledAfterAll(old(Views(A)), rules, shipped)
      && r.cleared == |Pick(B, outcomes, ClearedAsPredicted)| + |Pick(B, outcomes, ClearedUnexpectedly)|
      && r.failedToClear == Pick(B, outcomes, FailedToClear)
      && r.unanticipated == Pick(A, additions, Unanticipated)
      && r.superseded == Pick(B, outcomes, Replaced) + Pick(A, additions, Replaced)
    ensures NoDup(EntryKeys(r.entries)) && RowsByKey(after) == old(RowsByKey(after))
    ensures forall i | 0 <= i < |before| && before[i] !in r.entries :: unchanged(before[i])
    ensures forall i | 0 <= i < |after| && after[i] !in r.entries :: unchanged(after[i])
  {
    var B := DictValues(before);
    var A := Lacking(DictValues(after), ToSet(EntryKeys(before)));
    ghost var oldB: seq<EntryView>, oldA: seq<EntryView> := Views(B), Views(A);
    RowsOfViews(B);
    RowsOfViews(A);
    hide *;
    var afterRows := RowsByKey(after);
    KeysApart(before, B, A);
    assert forall i | 0 <= i < |B| :: B[i] in before;
    assert forall i | 0 <= i < |A| :: A[i] in after by {
      assert forall i | 0 <= i < |A| :: A[i] in DictValues(after);
    }
    r := SettleBoth(B, A, afterRows, rules, shipped);
    forall i | 0 <= i < |after| ensures after[i].rows == old(after[i].rows) {
      if after[i] in B + A {
        SettledRows(B, A, oldB, oldA, after[i], afterRows, rules, shipped);
        var j :| 0 <= j < |B + A| && (B + A)[j] == after[i] && after[i].rows == (oldB + oldA)[j].rows;
        assert (oldB + oldA)[j].rows == old((B + A)[j].rows);
      }
    }
    RowsByKeyKept(after);
  }

  /** The two loops, over the entries they visit. */
  method SettleBoth(B: seq<Entry>, A: seq<Entry>, afterRows: map<EntryKey, seq<Finding>>, rules: seq<Rule>,
                    shipped: map<string, string>)
    returns (r: Reconciliation)
    requires NoDup(EntryKeys(B)) && NoDup(EntryKeys(A)) && forall b, a | b in B && a in A :: b != a
    modifies B, A
    ensures r.entries == B + A && r.afterOnly == A
    ensures Views(B) == ReconciledBeforeAll(old(Views(B)), afterRows, shipped)
    ensures Views(A) == ReconciledAfterAll(old(Views(A)), rules, shipped)
    ensures
      var outcomes := BeforeOutcomes(old(Views(B)), afterRows, shipped);
      && r.cleared == |Pick(B, outcomes, ClearedAsPredicted)| + |Pick(B, outcomes, ClearedUnexpectedly)|
      && r.failedToClear == Pick(B, outcomes, FailedToClear)
      && r.superseded == Pick(B, outcomes, Replaced) + Pick(A, AfterOutcomes(old(Views(A)), rules, shipped), Replaced)
    ensures r.unanticipated == Pick(A, AfterOutcomes(old(Views(A)), rules, shipped), Unanticipated)
  {
    hide *;
    assert forall i | 0 <= i < |A| :: A[i] !in B by {
      assert forall i | 0 <= i < |A| :: A[i] in A;
    }
    assert forall i | 0 <= i < |B| :: B[i] !in A by {
      assert forall i | 0 <= i < |B| :: B[i] in B;
    }
    var outcomes := SettleAllBefore(B, afterRows, shipped);
    label settled:
    assert Views(A) == old(Views(A)) by {
      assert forall i | 0 <= i < |A| :: unchanged(A[i]);
    }
    var additions := SettleAllAfter(A, rules, shipped);
    assert Views(B) == old@settled(Views(B)) by {
      assert forall i | 0 <= i < |B| :: unchanged@settled(B[i]);
    }
    r := Reconciliation(
      B + A,
      |Pick(B, outcomes, ClearedAsPredicted)| + |Pick(B, outcomes, ClearedUnexpectedly)|,
      Pick(B, outcomes, FailedToClear), Pick(A, additions, Unanticipated), A,
      Pick(B, outcomes, Replaced) + Pick(A, additions, Replaced));
  }

  lemma KeysApart(before: seq<Entry>, B: seq<Entry>, A: seq<Entry>)
    requires EntryKeys(B) == FirstSeen(EntryKeys(before))
    requires NoDup(EntryKeys(A)) && forall e | e in A :: e.key !in ToSet(EntryKeys(before))
    ensures NoDup(EntryKeys(B)) && NoDup(EntryKeys(B + A))
    ensures forall b, a | b in B && a in A :: b != a
  {
    hide *;
    assert EntryKeys(B + A) == EntryKeys(B) + EntryKeys(A);
    forall b | b in B ensures b.key in ToSet(EntryKeys(before)) {
      var i :| 0 <= i < |B| && B[i] == b;
      assert EntryKeys(B)[i] == b.key;
    }
    forall i, j | 0 <= i < |B| && 0 <= j < |A| ensures EntryKeys(B)[i] != EntryKeys(A)[j] {
      assert B[i] in B && A[j] in A;
    }
    DistinctConcat(EntryKeys(B), EntryKeys(A));
  }
}
