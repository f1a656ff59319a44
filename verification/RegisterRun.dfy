/** The register command from two exports to an exit code, and what its arithmetic adds up to. */
module RegisterRun {
  import opened Sequences
  import opened Findings
  import opened Entries
  import opened ReadingOrder
  import opened Integrity
  import opened Reconcile
  import opened Register

  // ----- counting rows ---------------------------------------------------------------------

  lemma {:induction false} CountOnPermute(a: seq<Finding>, b: seq<Finding>, image: string)
    requires multiset(a) == multiset(b)
    ensures CountOn(a, image) == CountOn(b, image)
    decreases |a|
  {
    if a == [] {
      assert |b| == |multiset(b)| == 0;
    } else {
      var x := a[|a| - 1];
      assert x in multiset(b);
      var j :| 0 <= j < |b| && b[j] == x;
      RemoveAt(a, b, j);
      CountOnPermute(a[..|a| - 1], b[..j] + b[j + 1..], image);
      CountOnInsert(b, j, image);
    }
  }

  lemma {:induction false} CountOnConcat(a: seq<Finding>, b: seq<Finding>, image: string)
    ensures CountOn(a + b, image) == CountOn(a, image) + CountOn(b, image)
  {
    if b == [] {
      assert a + b == a;
    } else {
      assert (a + b)[..|a + b| - 1] == a + b[..|b| - 1];
      CountOnConcat(a, b[..|b| - 1], image);
    }
  }

  lemma CountOnInsert(b: seq<Finding>, j: nat, image: string)
    requires j < |b|
    ensures CountOn(b, image) == CountOn(b[..j] + b[j + 1..], image) + if b[j].image == image then 1 else 0
  {
    var l, r := b[..j], b[j + 1..];
    assert b == (l + [b[j]]) + r;
    CountOnConcat(l + [b[j]], r, image);
    CountOnConcat(l, [b[j]], image);
    CountOnConcat(l, r, image);
    assert [b[j]][..0] == [];
  }

  lemma {:induction false} CountOnOneImage(rows: seq<Finding>, image: string)
    requires forall i | 0 <= i < |rows| :: rows[i].image == rows[0].image
    ensures CountOn(rows, image) == if rows != [] && rows[0].image == image then |rows| else 0
  {
    if |rows| > 1 {
      CountOnOneImage(rows[..|rows| - 1], image);
    }
  }

  predicate RowsAgree(vs: seq<EntryView>) {
    forall i | 0 <= i < |vs| :: forall j | 0 <= j < |vs[i].rows| :: vs[i].rows[j].image == vs[i].key.image
  }

  lemma {:induction false} RowsOnIsCount(vs: seq<EntryView>, image: string)
    requires RowsAgree(vs)
    ensures RowsOn(vs, image) == CountOn(AllRows(vs), image)
  {
    if vs != [] {
      var n := |vs| - 1;
      RowsOnIsCount(vs[..n], image);
      CountOnConcat(AllRows(vs[..n]), vs[n].rows, image);
      CountOnOneImage(vs[n].rows, image);
    }
  }

  /** The rows whose key is not among `ks`. */
  function NewRows(fs: seq<Finding>, ks: set<EntryKey>): seq<Finding> {
    if fs == [] then []
    else if fs[|fs| - 1].Key() in ks then NewRows(fs[..|fs| - 1], ks)
    else NewRows(fs[..|fs| - 1], ks) + [fs[|fs| - 1]]
  }

  lemma {:induction false} NewRowsCounts(fs: seq<Finding>, ks: set<EntryKey>, f: Finding)
    ensures multiset(NewRows(fs, ks))[f] == if f.Key() in ks then 0 else multiset(fs)[f]
  {
    if fs != [] {
      var n := |fs| - 1;
      NewRowsCounts(fs[..n], ks, f);
      assert fs == fs[..n] + [fs[n]];
    }
  }

  /** Views that hold exactly the rows of their own keys hold, per image, exactly the rows whose keys
      they cover. */
  lemma RowsOnOfKeys(fs: seq<Finding>, vs: seq<EntryView>, ks: set<EntryKey>, image: string)
    requires NoDup(ViewKeys(vs))
    requires forall i | 0 <= i < |vs| :: vs[i].rows == RowsWith(fs, vs[i].key)
    requires forall f | f in fs :: f.Key() in ViewKeys(vs) <==> f.Key() !in ks
    ensures RowsOn(vs, image) == CountOn(NewRows(fs, ks), image)
  {
    hide RowsOn, CountOn, NewRows, Gather;
    assert RowsAgree(vs) by {
      forall i, j | 0 <= i < |vs| && 0 <= j < |vs[i].rows|
        ensures vs[i].rows[j].image == vs[i].key.image
      {
        assert vs[i].rows[j] in RowsWith(fs, vs[i].key);
      }
    }
    RowsOnIsCount(vs, image);
    AllRowsIsGather(fs, vs);
    forall f ensures multiset(AllRows(vs))[f] == multiset(NewRows(fs, ks))[f] {
      GatherCounts(fs, ViewKeys(vs), f);
      NewRowsCounts(fs, ks, f);
      assert f in fs <==> f in multiset(fs);
    }
    CountOnPermute(AllRows(vs), NewRows(fs, ks), image);
  }

  lemma {:induction false} NewRowsOfNone(fs: seq<Finding>)
    ensures NewRows(fs, {}) == fs
  {
    if fs != [] {
      NewRowsOfNone(fs[..|fs| - 1]);
    }
  }

  /** A coverage map accounts, per image, for exactly the rows of its export. */
  lemma GroupedAccountsForAll(fs: seq<Finding>, rules: seq<Rule>, image: string)
    ensures RowsOn(Grouped(fs, rules), image) == CountOn(fs, image)
  {
    GroupingIsPartition(fs, rules);
    forall f | f in fs ensures f.Key() in ViewKeys(Grouped(fs, rules)) {
      var i :| 0 <= i < |fs| && fs[i] == f;
      assert KeysOf(fs)[i] == f.Key();
    }
    RowsOnOfKeys(fs, Grouped(fs, rules), {}, image);
    NewRowsOfNone(fs);
  }

  lemma {:induction false} RowsOnSame(vs: seq<EntryView>, ws: seq<EntryView>, image: string)
    requires |vs| == |ws|
    requires forall i | 0 <= i < |vs| :: vs[i].key == ws[i].key && vs[i].rows == ws[i].rows
    ensures RowsOn(vs, image) == RowsOn(ws, image)
  {
    if vs != [] {
      RowsOnSame(vs[..|vs| - 1], ws[..|ws| - 1], image);
    }
  }

  lemma {:induction false} PickViews(entries: seq<Entry>, sheets: seq<Sheet>, s: Sheet)
    requires |entries| == |sheets|
    ensures Views(Pick(entries, sheets, s)) == Pick(Views(entries), sheets, s)
  {
    if entries != [] {
      var n := |entries| - 1;
      PickViews(entries[..n], sheets[..n], s);
      assert Views(entries)[..n] == Views(entries[..n]);
      if sheets[n] == s {
        assert Views(Pick(entries[..n], sheets[..n], s) + [entries[n]])
            == Views(Pick(entries[..n], sheets[..n], s)) + [entries[n].View()];
      }
    }
  }

  // ----- the parts of the run --------------------------------------------------------------

  lemma EmptyPick(entries: seq<Entry>, tags: seq<Sheet>)
    ensures forall s: Sheet :: Pick(entries[..0], tags[..0], s) == []
  {
  }

  /** The sheet split. */
  method FileEntries(entries: seq<Entry>) returns (sheets: map<Sheet, seq<Entry>>)
    ensures forall s: Sheet :: s in sheets && sheets[s] == Pick(entries, SheetsOf(Views(entries)), s)
  {
    hide Pick;
    EmptyPick(entries, SheetsOf(Views(entries)));
    sheets := map[FixedSheet := [], Exceptions := [], DeferredSheet := [], Disputes := [],
                  OutOfScopeSheet := [], HeldSheet := []];
    forall s: Sheet
      ensures s in sheets && sheets[s] == Pick(entries[..0], SheetsOf(Views(entries))[..0], s)
    {
      match s
      case FixedSheet =>
      case Exceptions =>
      case DeferredSheet =>
      case Disputes =>
      case OutOfScopeSheet =>
      case HeldSheet =>
    }
    for n := 0 to |entries|
      invariant forall s: Sheet :: s in sheets && sheets[s] == Pick(entries[..n], SheetsOf(Views(entries))[..n], s)
    {
      var sheet := SheetFor(entries[n].verdict.disposition);
      forall s: Sheet
        ensures Pick(entries[..n + 1], SheetsOf(Views(entries))[..n + 1], s) ==
                if s == sheet then sheets[s] + [entries[n]] else sheets[s]
      {
        PickSnoc(entries[..n], SheetsOf(Views(entries))[..n], entries[n], sheet, s);
        assert entries[..n + 1] == entries[..n] + [entries[n]];
        assert SheetsOf(Views(entries))[..n + 1] == SheetsOf(Views(entries))[..n] + [sheet];
      }
      sheets := sheets[sheet := sheets[sheet] + [entries[n]]];
    }
    assert entries[..|entries|] == entries;
    assert SheetsOf(Views(entries))[..|entries|] == SheetsOf(Views(entries));
  }

  function Count(m: map<string, nat>, image: string): nat {
    if image in m then m[image] else 0
  }

  /** `addition_rows`: rows that entered with the rescan, per image. */
  method AdditionRows(afterOnly: seq<Entry>) returns (rows: map<string, nat>)
    ensures forall image :: Count(rows, image) == RowsOn(Views(afterOnly), image)
  {
    rows := map[];
    for n := 0 to |afterOnly|
      invariant forall image :: Count(rows, image) == RowsOn(Views(afterOnly[..n]), image)
    {
      var e := afterOnly[n];
      assert Views(afterOnly[..n + 1]) == Views(afterOnly[..n]) + [e.View()];
      forall image
        ensures RowsOn(Views(afterOnly[..n + 1]), image) ==
                Count(rows, image) + if e.key.image == image then |e.rows| else 0
      {
        RowsOnSnoc(Views(afterOnly[..n]), e.View(), image);
      }
      rows := rows[e.key.image := Count(rows, e.key.image) + |e.rows|];
    }
    assert afterOnly[..|afterOnly|] == afterOnly;
  }

  function ImagesOf(fs: seq<Finding>): set<string> {
    set i | 0 <= i < |fs| :: fs[i].image
  }

  /** Some shipped digest names no manifest the rescan saw, for an image whose digests it names. */
  predicate ForeignDigest(after: seq<Finding>, shipped: map<string, string>) {
    exists image | image in shipped ::
      && (exists i | 0 <= i < |after| :: after[i].image == image && after[i].digest != "")
      && !(exists i | 0 <= i < |after| :: after[i].image == image && after[i].digest == shipped[image])
  }

  predicate Unowned(v: Verdict) {
    v.disposition == Deferred && (v.owner in {"", "UNASSIGNED"} || v.targetDate in {"", "UNSET"})
  }

  /** Nothing is held and every deferral has an owner and a date. */
  predicate Settled(vs: seq<EntryView>) {
    forall i | 0 <= i < |vs| :: vs[i].verdict.disposition != Held && !Unowned(vs[i].verdict)
  }

  datatype RegisterFile = RegisterFile(
    exitCode: nat, rec: Reconciliation, sheets: map<Sheet, seq<Entry>>, unmatched: seq<string>,
    beforeRows: map<string, nat>, additions: map<string, nat>)

  datatype Run = Refused | Written(file: RegisterFile)

  /** The `Sheets total` cell of one image: the sum over the six content sheets. */
  ghost function SheetsSum(f: seq<Entry>, e: seq<Entry>, d: seq<Entry>, p: seq<Entry>, o: seq<Entry>,
                           h: seq<Entry>, image: string): nat
    reads f, e, d, p, o, h
  {
    RowsOn(Views(f), image) + RowsOn(Views(e), image) + RowsOn(Views(d), image)
    + RowsOn(Views(p), image) + RowsOn(Views(o), image) + RowsOn(Views(h), image)
  }

  /** The entries the rescan alone has, as values. */
  function NewKeyViews(vs: seq<EntryView>, ks: set<EntryKey>): (r: seq<EntryView>)
    ensures forall i | 0 <= i < |r| :: r[i] in vs && r[i].key !in ks
    ensures forall i | 0 <= i < |vs| && vs[i].key !in ks :: vs[i] in r
  {
    if vs == [] then []
    else
      var n := |vs| - 1;
      var r := NewKeyViews(vs[..n], ks);
      if vs[n].key in ks then r else r + [vs[n]]
  }

  lemma {:induction false} NewKeysDistinct(vs: seq<EntryView>, ks: set<EntryKey>)
    requires NoDup(ViewKeys(vs))
    ensures NoDup(ViewKeys(NewKeyViews(vs, ks)))
    ensures forall k | k in ViewKeys(NewKeyViews(vs, ks)) :: k in ViewKeys(vs)
  {
    if vs != [] {
      var n := |vs| - 1;
      NoDupInit(ViewKeys(vs));
      assert ViewKeys(vs)[..n] == ViewKeys(vs[..n]);
      NewKeysDistinct(vs[..n], ks);
      KeysSnoc(NewKeyViews(vs[..n], ks), vs[n]);
    }
  }

  lemma NoDupInit<T>(s: seq<T>)
    requires NoDup(s) && s != []
    ensures NoDup(s[..|s| - 1]) && s[|s| - 1] !in s[..|s| - 1]
  {
  }

  lemma KeysSnoc(vs: seq<EntryView>, v: EntryView)
    ensures ViewKeys(vs + [v]) == ViewKeys(vs) + [v.key]
  {
  }

  lemma {:induction false} LackingViews(entries: seq<Entry>, ks: set<EntryKey>)
    ensures Views(Lacking(entries, ks)) == NewKeyViews(Views(entries), ks)
  {
    if entries != [] {
      var n := |entries| - 1;
      LackingViews(entries[..n], ks);
      assert Views(entries)[..n] == Views(entries[..n]);
      var l := Lacking(entries[..n], ks);
      assert Views(l + [entries[n]]) == Views(l) + [entries[n].View()];
    }
  }

  lemma NewKeyCovered(vs: seq<EntryView>, ks: set<EntryKey>, k: EntryKey)
    requires k in ViewKeys(vs)
    ensures k in ViewKeys(NewKeyViews(vs, ks)) <==> k !in ks
  {
    hide NewKeyViews;
    var r := NewKeyViews(vs, ks);
    var j :| 0 <= j < |vs| && ViewKeys(vs)[j] == k;
    if k !in ks {
      assert vs[j] in r;
      var m :| 0 <= m < |r| && r[m] == vs[j];
      assert ViewKeys(r)[m] == k;
    }
  }

  /** Per image, the entries the rescan alone has hold exactly the rescan's rows with new keys. */
  lemma NewKeysAccount(fs: seq<Finding>, rules: seq<Rule>, ks: set<EntryKey>, image: string)
    ensures RowsOn(NewKeyViews(Grouped(fs, rules), ks), image) == CountOn(NewRows(fs, ks), image)
  {
    hide Grouped, InReadingOrder, NewKeyViews, RowsOn, CountOn, NewRows, FirstSeen, RowsWith;
    var all := Grouped(fs, rules);
    var vs := NewKeyViews(all, ks);
    GroupingIsPartition(fs, rules);
    NewKeysDistinct(all, ks);
    forall i | 0 <= i < |vs| ensures vs[i].rows == RowsWith(fs, vs[i].key) {
      var j :| 0 <= j < |all| && all[j] == vs[i];
    }
    forall f | f in fs ensures f.Key() in ViewKeys(vs) <==> f.Key() !in ks {
      var i :| 0 <= i < |fs| && fs[i] == f;
      assert KeysOf(fs)[i] == f.Key();
      NewKeyCovered(all, ks, f.Key());
    }
    RowsOnOfKeys(fs, vs, ks, image);
  }

  lemma DistinctDictValues(entries: seq<Entry>)
    requires NoDup(EntryKeys(entries))
    ensures DictValues(entries) == entries
  {
    hide DictValues, DictOf, FirstSeen, EntryKeys;
    FirstSeenOfDistinct(EntryKeys(entries));
    var r := DictValues(entries);
    forall i | 0 <= i < |entries| ensures r[i] == entries[i] {
      assert EntryKeys(r)[i] == EntryKeys(entries)[i];
      assert r[i] in r && r[i] in entries;
      var j :| 0 <= j < |entries| && entries[j] == r[i];
      assert EntryKeys(entries)[j] == EntryKeys(entries)[i];
    }
  }

  // ----- the register as a value -----------------------------------------------------------

  function RowsMap(after: seq<Finding>): map<EntryKey, seq<Finding>> {
    map k | k in ToSet(KeysOf(after)) :: RowsWith(after, k)
  }

  lemma {:induction false} DictOfDistinct(entries: seq<Entry>, i: nat)
    requires NoDup(EntryKeys(entries)) && i < |entries|
    ensures entries[i].key in DictOf(entries) && DictOf(entries)[entries[i].key] == entries[i]
  {
    var n := |entries| - 1;
    assert EntryKeys(entries) == EntryKeys(entries[..n]) + [entries[n].key];
    if i < n {
      DictOfDistinct(entries[..n], i);
      assert EntryKeys(entries)[i] != EntryKeys(entries)[n];
    }
  }

  lemma RowsByKeyOfGrouped(entries: seq<Entry>, fs: seq<Finding>, rules: seq<Rule>)
    requires Views(entries) == Grouped(fs, rules)
    ensures NoDup(EntryKeys(entries)) && ToSet(EntryKeys(entries)) == ToSet(KeysOf(fs))
    ensures RowsByKey(entries) == RowsMap(fs)
  {
    hide Grouped, InReadingOrder, DictOf, FirstSeen, RowsWith;
    var vs := Views(entries);
    assert EntryKeys(entries) == ViewKeys(vs);
    assert ToSet(EntryKeys(entries)) == ToSet(KeysOf(fs));
    forall k | k in DictOf(entries) ensures DictOf(entries)[k].rows == RowsWith(fs, k) {
      var i :| 0 <= i < |entries| && EntryKeys(entries)[i] == k;
      DictOfDistinct(entries, i);
      assert vs[i].rows == RowsWith(fs, vs[i].key);
    }
  }

  /** What every run is given. */
  datatype Inputs = Inputs(
    before: seq<Finding>, after: seq<Finding>, rules: seq<Rule>, additionRules: seq<Rule>,
    shipped: map<string, string>, never: set<string>, overrides: seq<Override>)
  {
    function OldKeys(): set<EntryKey> {
      ToSet(KeysOf(before))
    }

    function ReconciledOld(): (r: seq<EntryView>)
      ensures |r| == |Grouped(before, rules)|
    {
      ReconciledBeforeAll(Grouped(before, rules), RowsMap(after), shipped)
    }

    function NewViews(): seq<EntryView> {
      NewKeyViews(Grouped(after, rules), OldKeys())
    }

    function ReconciledNew(): (r: seq<EntryView>)
      ensures |r| == |NewViews()|
    {
      ReconciledAfterAll(NewViews(), additionRules, shipped)
    }

    /** The entries of the finished register. */
    function Final(): (r: seq<EntryView>)
      ensures |r| == |ReconciledOld()| + |ReconciledNew()|
    {
      OverriddenAll(overrides, ReconciledOld() + ReconciledNew())
    }

    /** The conditions under which the command writes nothing and exits 2. */
    predicate Refuses() {
      || before == [] || after == [] || ForeignDigest(after, shipped)
      || !(ImagesOf(before) <= ImagesOf(after) + never)
    }
  }

  function OverriddenAll(ovs: seq<Override>, vs: seq<EntryView>): (r: seq<EntryView>)
    ensures |r| == |vs|
    ensures forall i | 0 <= i < |vs| :: r[i] == AfterOverrides(ovs, vs[i])
  {
    seq(|vs|, i requires 0 <= i < |vs| => AfterOverrides(ovs, vs[i]))
  }

  /** Keys and rows survive reconciliation and overrides: only verdicts and annotations change. */
  lemma FinalKeepsRows(r: Inputs, i: nat)
    requires i < |r.Final()|
    ensures
      var source := Grouped(r.before, r.rules) + r.NewViews();
      |source| == |r.Final()| && r.Final()[i].key == source[i].key && r.Final()[i].rows == source[i].rows
  {
    hide ReconciledBefore, ReconciledAfter, AfterOverrides, Grouped, InReadingOrder, IsGrouping, NewKeyViews, NoDup, ViewKeys,
      RowsMap, RowsWith, KeysOf, Groups;
    var reconciled := r.ReconciledOld() + r.ReconciledNew();
    OverridesKeepRows(r.overrides, reconciled[i]);
    var n := |r.ReconciledOld()|;
    if i < n {
      var e := Grouped(r.before, r.rules)[i];
      ReconcileKeepsRows(e, RowsFor(RowsMap(r.after), e.key), r.additionRules, r.shipped);
    } else {
      ReconcileKeepsRows(r.NewViews()[i - n], None, r.additionRules, r.shipped);
    }
  }

  /** The partition: on every image the register accounts for exactly the before-export's rows plus
      the rescan's rows whose keys are new, whatever was reconciled or overridden. */
  lemma RegisterAccountsForAll(r: Inputs, image: string)
    ensures RowsOn(r.Final(), image) == CountOn(r.before, image) + CountOn(NewRows(r.after, r.OldKeys()), image)
  {
    hide RowsOn, CountOn, Grouped, InReadingOrder, IsGrouping, NewKeyViews, NewRows;
    var source := Grouped(r.before, r.rules) + r.NewViews();
    forall i | 0 <= i < |r.Final()|
      ensures r.Final()[i].key == source[i].key && r.Final()[i].rows == source[i].rows
    {
      FinalKeepsRows(r, i);
    }
    RowsOnSame(r.Final(), source, image);
    RowsOnConcat(Grouped(r.before, r.rules), r.NewViews(), image);
    GroupedAccountsForAll(r.before, r.rules, image);
    NewKeysAccount(r.after, r.rules, r.OldKeys(), image);
  }
}
