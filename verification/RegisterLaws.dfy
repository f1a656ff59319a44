/** The register said of the rows of the two exports and of the fields a human set, without the functions that
    compute it. */
module RegisterLaws {
  import opened Sequences
  import opened Findings
  import opened Entries
  import opened ReadingOrder
  import opened Reconcile
  import opened Register
  import opened RegisterRun

  // ----- keys and digests ------------------------------------------------------------------

  /** Some row of the export has the key. */
  ghost predicate HasKey(fs: seq<Finding>, k: EntryKey) {
    exists i :: 0 <= i < |fs| && fs[i].Key() == k
  }

  lemma HasKeyIff(fs: seq<Finding>, k: EntryKey)
    ensures HasKey(fs, k) <==> k in KeysOf(fs)
    ensures HasKey(fs, k) <==> k in ToSet(KeysOf(fs))
  {
    forall i | 0 <= i < |fs| ensures KeysOf(fs)[i] == fs[i].Key() && KeysOf(fs)[i] in KeysOf(fs) {
    }
  }

  /** Row `i` is the first with the key that names a digest. */
  ghost predicate FirstNamed(fs: seq<Finding>, k: EntryKey, i: nat) {
    && i < |fs| && fs[i].Key() == k && fs[i].digest != ""
    && forall j | 0 <= j < i && fs[j].Key() == k :: fs[j].digest == ""
  }

  /** The key's image has a shipped digest, and the first digest the key's rows name is another one. */
  ghost predicate MeasuredElsewhere(fs: seq<Finding>, k: EntryKey, shipped: map<string, string>) {
    && k.image in shipped && shipped[k.image] != ""
    && exists i: nat :: FirstNamed(fs, k, i) && fs[i].digest != shipped[k.image]
  }

  lemma {:induction false} DigestOfSnoc(rows: seq<Finding>, f: Finding)
    ensures DigestOf(rows + [f]) == if DigestOf(rows) != "" then DigestOf(rows) else f.digest
  {
    if rows == [] {
      assert [f][1..] == [];
    } else {
      assert (rows + [f])[1..] == rows[1..] + [f];
      DigestOfSnoc(rows[1..], f);
    }
  }

  ghost predicate NoneNamed(fs: seq<Finding>, k: EntryKey) {
    forall i | 0 <= i < |fs| && fs[i].Key() == k :: fs[i].digest == ""
  }

  lemma NamedStep(fs: seq<Finding>, k: EntryKey)
    requires fs != []
    ensures
      var n := |fs| - 1;
      var named := fs[n].Key() == k && fs[n].digest != "";
      && (NoneNamed(fs, k) <==> NoneNamed(fs[..n], k) && !named)
      && forall i: nat :: FirstNamed(fs, k, i) <==> FirstNamed(fs[..n], k, i) || (i == n && named && NoneNamed(fs[..n], k))
  {
    var n := |fs| - 1;
    assert forall j | 0 <= j < n :: fs[..n][j] == fs[j];
  }

  lemma NoneIsFirst(fs: seq<Finding>, k: EntryKey, i: nat)
    requires NoneNamed(fs, k)
    ensures !FirstNamed(fs, k, i)
  {
  }

  lemma {:induction false} DigestByRows(fs: seq<Finding>, k: EntryKey)
    ensures forall i: nat | FirstNamed(fs, k, i) :: DigestOf(RowsWith(fs, k)) == fs[i].digest
    ensures DigestOf(RowsWith(fs, k)) == "" <==> NoneNamed(fs, k)
    ensures DigestOf(RowsWith(fs, k)) != "" ==> exists i: nat :: FirstNamed(fs, k, i)
  {
    if fs != [] {
      var n := |fs| - 1;
      var init := fs[..n];
      DigestByRows(init, k);
      DigestOfSnoc(RowsWith(init, k), fs[n]);
      hide RowsWith, DigestOf, NoneNamed;
      assert fs == init + [fs[n]];
      RowsWithSnoc(init, fs[n], k);
      NamedStep(fs, k);
      forall i: nat | FirstNamed(init, k, i) ensures !NoneNamed(init, k) && init[i] == fs[i] {
        if NoneNamed(init, k) {
          NoneIsFirst(init, k, i);
        }
      }
      hide FirstNamed;
      if DigestOf(RowsWith(init, k)) != "" {
        var i: nat :| FirstNamed(init, k, i);
        assert FirstNamed(fs, k, i);
      } else if fs[n].Key() == k && fs[n].digest != "" {
        assert FirstNamed(fs, k, n);
      }
    }
  }

  /** Rows were measured against a manifest that is no longer shipped exactly when the first digest they name is
      not the shipped one. */
  lemma ReplacedIff(fs: seq<Finding>, k: EntryKey, shipped: map<string, string>)
    ensures ReplacingDigest(k.image, RowsWith(fs, k), shipped) != "" <==> MeasuredElsewhere(fs, k, shipped)
    ensures MeasuredElsewhere(fs, k, shipped) ==> ReplacingDigest(k.image, RowsWith(fs, k), shipped) == shipped[k.image]
  {
    DigestByRows(fs, k);
    hide RowsWith, DigestOf;
    if DigestOf(RowsWith(fs, k)) != "" {
      var i: nat :| FirstNamed(fs, k, i);
    }
  }

  lemma RowsMapByRows(fs: seq<Finding>, k: EntryKey)
    ensures RowsFor(RowsMap(fs), k) == if HasKey(fs, k) then Some(RowsWith(fs, k)) else None
  {
    HasKeyIff(fs, k);
    hide RowsWith, KeysOf;
  }

  // ----- what becomes of an entry ----------------------------------------------------------

  /** Superseded: the reason names the digest measured and the one shipped, and the unit stays. */
  ghost predicate AnotherManifest(e: EntryView, v: EntryView, after: seq<Finding>, shipped: map<string, string>)
    requires e.key.image in shipped
  {
    && v.verdict.disposition == Superseded && v.verdict.unit == e.verdict.unit
    && v.verdict.rule == "reconcile:superseded-artifact" && v.replacing == shipped[e.key.image]
    && forall i: nat | FirstNamed(after, e.key, i) ::
         v.verdict.reason == OtherManifest(after[i].digest, shipped[e.key.image])
  }

  ghost predicate Unclaimed(v: Verdict) {
    v.disposition == Deferred && v.owner == "UNASSIGNED" && v.targetDate == "UNSET"
  }

  /** What reconciliation makes of an entry of the original list: superseded when measured against a manifest no
      longer shipped, Fixed when its key is gone, an unowned deferral when it was claimed Fixed and is still
      there, and else what it was. */
  ghost predicate OldFate(e: EntryView, v: EntryView, after: seq<Finding>, shipped: map<string, string>) {
    if MeasuredElsewhere(after, e.key, shipped) then
      AnotherManifest(e, v, after, shipped)
    else if !HasKey(after, e.key) then
      if e.verdict.disposition == Fixed then v == e
      else
        v.verdict == Verdict(Fixed, SideEffect(e.verdict.disposition, e.verdict.reason), "reconcile:cleared-unexpectedly",
                             e.verdict.unit, "", "")
    else if e.verdict.disposition == Fixed then
      && Unclaimed(v.verdict) && v.verdict.unit == e.verdict.unit && v.verdict.rule == "reconcile:failed-to-clear"
      && v.verdict.reason == StillPresent(if e.verdict.unit == "" then "this pass" else e.verdict.unit, e.verdict.reason)
    else v == e
  }

  lemma OldFates(r: Inputs, i: nat)
    requires i < |Grouped(r.before, r.rules)|
    ensures OldFate(Grouped(r.before, r.rules)[i], r.ReconciledOld()[i], r.after, r.shipped)
  {
    hide Grouped, InReadingOrder, IsGrouping, RowsMap;
    OldFateOf(Grouped(r.before, r.rules)[i], r.after, r.shipped);
  }

  lemma OldFateOf(e: EntryView, after: seq<Finding>, shipped: map<string, string>)
    ensures OldFate(e, ReconciledBefore(e, RowsFor(RowsMap(after), e.key), shipped), after, shipped)
  {
    hide *;
    RowsMapByRows(after, e.key);
    ReplacedIff(after, e.key, shipped);
    if MeasuredElsewhere(after, e.key, shipped) {
      MeasuredHasKey(after, e.key, shipped);
      MovedFate(e, after, shipped);
    } else {
      StayingFate(e, RowsFor(RowsMap(after), e.key), after, shipped);
    }
  }

  lemma MeasuredHasKey(after: seq<Finding>, k: EntryKey, shipped: map<string, string>)
    requires MeasuredElsewhere(after, k, shipped)
    ensures HasKey(after, k)
  {
    var i: nat :| FirstNamed(after, k, i);
  }

  lemma MovedFate(e: EntryView, after: seq<Finding>, shipped: map<string, string>)
    requires MeasuredElsewhere(after, e.key, shipped)
    ensures OldFate(e, ReconciledBefore(e, Some(RowsWith(after, e.key)), shipped), after, shipped)
  {
    ReplacedIff(after, e.key, shipped);
    DigestByRows(after, e.key);
    hide RowsWith, ReplacingDigest, DigestOf, FirstNamed, NoneNamed;
  }

  lemma StayingFate(e: EntryView, rows: Option<seq<Finding>>, after: seq<Finding>, shipped: map<string, string>)
    requires !MeasuredElsewhere(after, e.key, shipped) && (rows == None <==> !HasKey(after, e.key))
    requires rows.Some? ==> ReplacingDigest(e.key.image, rows.value, shipped) == ""
    ensures OldFate(e, ReconciledBefore(e, rows, shipped), after, shipped)
  {
    hide ReplacingDigest, MeasuredElsewhere, HasKey;
  }

  /** Some row with the key matches the rule. */
  ghost predicate RuleFits(fs: seq<Finding>, k: EntryKey, rule: Rule) {
    exists i :: 0 <= i < |fs| && fs[i].Key() == k && rule.matches(fs[i])
  }

  /** The rule at `m` is the first that fits. */
  ghost predicate FirstFit(fs: seq<Finding>, k: EntryKey, rules: seq<Rule>, m: nat) {
    m < |rules| && RuleFits(fs, k, rules[m]) && forall j | 0 <= j < m :: !RuleFits(fs, k, rules[j])
  }

  lemma RuleFitsIff(fs: seq<Finding>, k: EntryKey, rule: Rule)
    ensures RuleFits(fs, k, rule) <==> MatchesSome(rule, RowsWith(fs, k))
  {
    var rows := RowsWith(fs, k);
    hide RowsWith;
    if RuleFits(fs, k, rule) {
      var i :| 0 <= i < |fs| && fs[i].Key() == k && rule.matches(fs[i]);
      assert fs[i] in rows;
      var j :| 0 <= j < |rows| && rows[j] == fs[i];
    }
    if MatchesSome(rule, rows) {
      var j :| 0 <= j < |rows| && rule.matches(rows[j]);
      assert rows[j] in fs;
      var i :| 0 <= i < |fs| && fs[i] == rows[j];
    }
  }

  lemma {:induction false} AdditionRuleIs(fs: seq<Finding>, k: EntryKey, rules: seq<Rule>)
    ensures forall m: nat | FirstFit(fs, k, rules, m) :: AdditionRule(RowsWith(fs, k), rules) == Some(rules[m])
    ensures AdditionRule(RowsWith(fs, k), rules).Some? <==> exists m :: 0 <= m < |rules| && RuleFits(fs, k, rules[m])
    decreases |rules|
  {
    hide RowsWith, MatchesSome, RuleFits;
    if rules != [] {
      RuleFitsIff(fs, k, rules[0]);
      if RuleFits(fs, k, rules[0]) {
        assert forall m: nat | FirstFit(fs, k, rules, m) :: m == 0;
      } else {
        AdditionRuleIs(fs, k, rules[1..]);
        forall m: nat | FirstFit(fs, k, rules, m) ensures m > 0 && FirstFit(fs, k, rules[1..], m - 1) {
          assert forall j | 0 <= j < m - 1 :: rules[1..][j] == rules[j + 1];
        }
        if m :| 0 <= m < |rules| && RuleFits(fs, k, rules[m]) {
          assert rules[1..][m - 1] == rules[m];
        }
        if m :| 0 <= m < |rules[1..]| && RuleFits(fs, k, rules[1..][m]) {
          assert rules[m + 1] == rules[1..][m];
        }
      }
    }
  }

  /** What it makes of an entry only the rescan has: superseded likewise, else the verdict of the first addition
      rule that fits one of its rows, else an unowned deferral. */
  ghost predicate NewFate(e: EntryView, v: EntryView, after: seq<Finding>, rules: seq<Rule>, shipped: map<string, string>) {
    if MeasuredElsewhere(after, e.key, shipped) then AnotherManifest(e, v, after, shipped)
    else
      && (forall m: nat | FirstFit(after, e.key, rules, m) ::
            v.verdict == Verdict(rules[m].disposition, Stated(rules[m].reason), "addition:" + rules[m].name, rules[m].unit,
                                 "", ""))
      && ((forall m | 0 <= m < |rules| :: !RuleFits(after, e.key, rules[m])) ==>
            Unclaimed(v.verdict) && v.verdict.reason == NotAnticipated && v.verdict.rule == "reconcile:unanticipated")
  }

  lemma NewViewRows(r: Inputs, i: nat)
    requires i < |r.NewViews()|
    ensures r.NewViews()[i].rows == RowsWith(r.after, r.NewViews()[i].key)
  {
    hide RowsWith, NewKeyViews, NoDup, ViewKeys, Grouped, InReadingOrder, KeysOf;
    var vs := Grouped(r.after, r.rules);
    assert r.NewViews()[i] in vs;
    var j :| 0 <= j < |vs| && vs[j] == r.NewViews()[i];
  }

  lemma NewFates(r: Inputs, i: nat)
    requires i < |r.NewViews()|
    ensures NewFate(r.NewViews()[i], r.ReconciledNew()[i], r.after, r.additionRules, r.shipped)
  {
    NewViewRows(r, i);
    hide Grouped, InReadingOrder, IsGrouping, NewKeyViews;
    NewFateOf(r.NewViews()[i], r.after, r.additionRules, r.shipped);
  }

  lemma NewFateOf(e: EntryView, after: seq<Finding>, rules: seq<Rule>, shipped: map<string, string>)
    requires e.rows == RowsWith(after, e.key)
    ensures NewFate(e, ReconciledAfter(e, rules, shipped), after, rules, shipped)
  {
    ReplacedIff(after, e.key, shipped);
    DigestByRows(after, e.key);
    AdditionRuleIs(after, e.key, rules);
    hide RowsWith, ReplacingDigest, DigestOf, MeasuredElsewhere, AdditionRule, RuleFits, FirstNamed;
  }

  // ----- what humans set -------------------------------------------------------------------

  lemma MatchesMeaning(o: Override, k: EntryKey)
    ensures o.Matches(k) <==>
              || k == EntryKey(o.image, o.cve, o.software, o.version)
              || (o.version == "" && k == EntryKey(o.image, o.cve, o.software, k.version))
  {
  }

  datatype Field = DispositionOf | ReasonOf | OwnerOf | DateOf | StatusOf | TrackerOf

  datatype Content = Choice(disposition: Disposition) | Words(reason: Reason) | Text(text: string)

  function Shows(v: EntryView, f: Field): Content {
    match f
    case DispositionOf => Choice(v.verdict.disposition)
    case ReasonOf => Words(v.verdict.reason)
    case OwnerOf => Text(v.verdict.owner)
    case DateOf => Text(v.verdict.targetDate)
    case StatusOf => Text(v.vendorStatus)
    case TrackerOf => Text(v.trackerUrl)
  }

  /** What the override gives for the field, when it gives anything. */
  function Given(o: Override, f: Field): Option<Content> {
    match f
    case DispositionOf => if o.disposition == None then None else Some(Choice(o.disposition.value))
    case ReasonOf => if o.reason == "" then None else Some(Words(Stated(o.reason)))
    case OwnerOf => if o.owner == "" then None else Some(Text(o.owner))
    case DateOf => if o.targetDate == "" then None else Some(Text(o.targetDate))
    case StatusOf => if o.vendorStatus == "" then None else Some(Text(o.vendorStatus))
    case TrackerOf => if o.trackerUrl == "" then None else Some(Text(o.trackerUrl))
  }

  ghost predicate GivesFor(o: Override, k: EntryKey, f: Field) {
    o.Matches(k) && Given(o, f).Some?
  }

  lemma OneOverride(o: Override, v: EntryView, f: Field)
    ensures Shows(Overridden(o, v), f) == if GivesFor(o, v.key, f) then Given(o, f).value else Shows(v, f)
  {
  }

  /** Each field ends with what the last override that matches the entry and gives one says. */
  lemma {:induction false} LastGivenWins(ovs: seq<Override>, v: EntryView, f: Field, i: nat)
    requires i < |ovs| && GivesFor(ovs[i], v.key, f)
    requires forall j | i < j < |ovs| :: !GivesFor(ovs[j], v.key, f)
    ensures Shows(AfterOverrides(ovs, v), f) == Given(ovs[i], f).value
  {
    hide Overridden, Shows, Given, GivesFor;
    var n := |ovs| - 1;
    OverridesKeepRows(ovs[..n], v);
    OneOverride(ovs[n], AfterOverrides(ovs[..n], v), f);
    if i < n {
      LastGivenWins(ovs[..n], v, f, i);
    }
  }

  /** And with what it had when none does. */
  lemma {:induction false} NotGivenStays(ovs: seq<Override>, v: EntryView, f: Field)
    requires forall j | 0 <= j < |ovs| :: !GivesFor(ovs[j], v.key, f)
    ensures Shows(AfterOverrides(ovs, v), f) == Shows(v, f)
  {
    hide Overridden, Shows, Given, GivesFor;
    if ovs != [] {
      var n := |ovs| - 1;
      OverridesKeepRows(ovs[..n], v);
      OneOverride(ovs[n], AfterOverrides(ovs[..n], v), f);
      NotGivenStays(ovs[..n], v, f);
    }
  }

  /** The override names an entry of the list. */
  ghost predicate Hits(o: Override, entries: seq<Entry>) {
    exists i :: 0 <= i < |entries| && o.Matches(entries[i].key)
  }

  /** An unmatched override is reported by image, CVE and software, and no other is. */
  lemma {:induction false} UnmatchedMeaning(ovs: seq<Override>, entries: seq<Entry>, name: string)
    ensures name in UnmatchedNames(ovs, entries) <==>
              exists j :: 0 <= j < |ovs| && !Hits(ovs[j], entries)
                && name == ovs[j].image + "/" + ovs[j].cve + "/" + ovs[j].software
    ensures UnmatchedNames(ovs, entries) == [] <==> forall j | 0 <= j < |ovs| :: Hits(ovs[j], entries)
  {
    if ovs != [] {
      var n := |ovs| - 1;
      UnmatchedMeaning(ovs[..n], entries, name);
      assert MatchesNone(ovs[n], entries) <==> !Hits(ovs[n], entries);
      assert forall j | 0 <= j < n :: ovs[..n][j] == ovs[j];
      hide Hits, MatchesNone;
    }
  }

  // ----- counting and refusing -------------------------------------------------------------

  function PlacesOn(rows: seq<Finding>, image: string): set<int> {
    set i | 0 <= i < |rows| && rows[i].image == image
  }

  /** Rows are counted per image. */
  lemma {:induction false} CountsPlaces(rows: seq<Finding>, image: string)
    ensures CountOn(rows, image) == |PlacesOn(rows, image)|
  {
    if rows != [] {
      var n := |rows| - 1;
      CountsPlaces(rows[..n], image);
      var there := if rows[n].image == image then {n} else {};
      assert PlacesOn(rows, image) == PlacesOn(rows[..n], image) + there;
    }
  }

  ghost predicate HasImage(fs: seq<Finding>, image: string) {
    exists i :: 0 <= i < |fs| && fs[i].image == image
  }

  /** For some image a shipped digest is given that none of the rescan's rows names, although they name others. */
  ghost predicate WrongDigest(after: seq<Finding>, shipped: map<string, string>) {
    exists image, i :: image in shipped && 0 <= i < |after| && after[i].image == image && after[i].digest != ""
      && forall j | 0 <= j < |after| && after[j].image == image :: after[j].digest != shipped[image]
  }

  /** The command refuses without rows on either side, with a shipped digest the rescan does not know, and with
      an image on the original list that the rescan does not cover and that is not declared never scanned. */
  lemma RefusesByRows(r: Inputs)
    ensures r.Refuses() <==>
              || r.before == [] || r.after == [] || WrongDigest(r.after, r.shipped)
              || exists i :: 0 <= i < |r.before| && r.before[i].image !in r.never && !HasImage(r.after, r.before[i].image)
  {
    assert ForeignDigest(r.after, r.shipped) <==> WrongDigest(r.after, r.shipped);
    forall image ensures image in ImagesOf(r.after) <==> HasImage(r.after, image) {
    }
    hide ForeignDigest, WrongDigest, HasImage;
    if i :| 0 <= i < |r.before| && r.before[i].image !in r.never && !HasImage(r.after, r.before[i].image) {
      assert r.before[i].image in ImagesOf(r.before);
    }
    if !(ImagesOf(r.before) <= ImagesOf(r.after) + r.never) {
      var image :| image in ImagesOf(r.before) && image !in ImagesOf(r.after) + r.never;
      var i :| 0 <= i < |r.before| && r.before[i].image == image;
    }
  }
}
