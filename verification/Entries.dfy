/** Entries, the reporting granularity: one per image, CVE, package and version, holding the scanner
    rows it accounts for. Entries are objects that later passes update in place. */
module Entries {
  import opened Sequences
  import opened Findings
  import DebianVersion

  const NO_VERDICT := Verdict(Held, Unassigned, "none", "", "", "")

  /** The value of an entry at one moment. */
  datatype EntryView = EntryView(
    key: EntryKey, severity: string, fixedVersion: string, packageManager: string, softwareType: string,
    paths: seq<string>, rows: seq<Finding>, verdict: Verdict,
    replacing: string, vendorStatus: string, trackerUrl: string)

  class Entry {
    const key: EntryKey
    var severity: string
    const fixedVersion: string
    const packageManager: string
    const softwareType: string
    var paths: seq<string>
    var rows: seq<Finding>
    var verdict: Verdict
    var replacing: string
    var vendorStatus: string
    var trackerUrl: string

    /** For the first row of its key; the row itself is added next. */
    constructor (f: Finding)
      ensures View() == NewEntry(f)
    {
      key, severity := f.Key(), f.severity;
      fixedVersion, packageManager, softwareType := f.fixedVersion, f.packageManager, f.softwareType;
      paths, rows, verdict := [], [], NO_VERDICT;
      replacing, vendorStatus, trackerUrl := "", "", "";
    }

    function View(): EntryView
      reads this
    {
      EntryView(key, severity, fixedVersion, packageManager, softwareType, paths, rows, verdict,
                replacing, vendorStatus, trackerUrl)
    }

    method AddRow(f: Finding)
      modifies this
      ensures View() == WithRow(old(View()), f)
    {
      rows := rows + [f];
      if f.installPath != "" {
        var parts := DebianVersion.SplitOn(f.installPath, ';');
        ghost var before := paths;
        for n := 0 to |parts|
          invariant paths == WithPaths(before, parts[..n])
          invariant View() == old(View()).(rows := old(rows) + [f], paths := paths)
        {
          assert parts[..n + 1][..n] == parts[..n];
          var p := DebianVersion.Strip(parts[n]);
          if p != "" && p !in paths {
            paths := paths + [p];
          }
        }
        assert parts[..|parts|] == parts;
      }
      if SeverityRank(f.severity) < SeverityRank(severity) {
        severity := f.severity;
      }
    }

    method Judge(v: Verdict)
      modifies this`verdict
      ensures verdict == v
    {
      verdict := v;
    }
  }

  /** The installation paths known, and the new ones among `parts` behind them. */
  function WithPaths(paths: seq<string>, parts: seq<string>): seq<string> {
    if parts == [] then paths
    else
      var known := WithPaths(paths, parts[..|parts| - 1]);
      var p := DebianVersion.Strip(parts[|parts| - 1]);
      if p != "" && p !in known then known + [p] else known
  }

  /** Appends a row with its paths and keeps the most severe label. */
  function WithRow(v: EntryView, f: Finding): EntryView {
    v.(rows := v.rows + [f],
       paths := if f.installPath == "" then v.paths else WithPaths(v.paths, DebianVersion.SplitOn(f.installPath, ';')),
       severity := if SeverityRank(f.severity) < SeverityRank(v.severity) then f.severity else v.severity)
  }

  function Judged(v: EntryView, rules: seq<Rule>): EntryView {
    if v.rows == [] then v else v.(verdict := GroupVerdict(v.rows, rules))
  }

  function Views(entries: seq<Entry>): (vs: seq<EntryView>)
    reads entries
    ensures |vs| == |entries|
    ensures forall i | 0 <= i < |entries| :: vs[i] == entries[i].View()
  {
    seq(|entries|, i requires 0 <= i < |entries| reads entries => entries[i].View())
  }

  function EntryKeys(entries: seq<Entry>): (ks: seq<EntryKey>)
    ensures |ks| == |entries|
    ensures forall i | 0 <= i < |entries| :: ks[i] == entries[i].key
  {
    seq(|entries|, i requires 0 <= i < |entries| => entries[i].key)
  }

  function ViewKeys(vs: seq<EntryView>): (ks: seq<EntryKey>)
    ensures |ks| == |vs|
    ensures forall i | 0 <= i < |vs| :: ks[i] == vs[i].key
  {
    seq(|vs|, i requires 0 <= i < |vs| => vs[i].key)
  }

  /** The manifest digest an entry was measured against: the first one its rows name. */
  function DigestOf(rows: seq<Finding>): string {
    if rows == [] then ""
    else if rows[0].digest != "" then rows[0].digest
    else DigestOf(rows[1..])
  }

  // ----- grouping --------------------------------------------------------------------------

  /** The installation paths of all rows, each once, in the order they are first named. */
  function PathsOf(rows: seq<Finding>): seq<string> {
    if rows == [] then []
    else
      var known, f := PathsOf(rows[..|rows| - 1]), rows[|rows| - 1];
      if f.installPath == "" then known else WithPaths(known, DebianVersion.SplitOn(f.installPath, ';'))
  }

  /** Some row names the path. */
  ghost predicate NamesPath(rows: seq<Finding>, p: string) {
    exists i :: 0 <= i < |rows| && PathIn(rows[i], p)
  }

  predicate PathIn(f: Finding, p: string) {
    f.installPath != "" && HasPart(DebianVersion.SplitOn(f.installPath, ';'), p)
  }

  predicate HasPart(parts: seq<string>, p: string) {
    exists i :: 0 <= i < |parts| && DebianVersion.Strip(parts[i]) == p
  }

  lemma {:induction false} WithPathsMeaning(paths: seq<string>, parts: seq<string>, p: string)
    requires NoDup(paths) && "" !in paths
    ensures NoDup(WithPaths(paths, parts)) && "" !in WithPaths(paths, parts)
    ensures p in WithPaths(paths, parts) <==> p in paths || (p != "" && HasPart(parts, p))
  {
    if parts != [] {
      var n := |parts| - 1;
      WithPathsMeaning(paths, parts[..n], p);
      assert HasPart(parts, p) <==> HasPart(parts[..n], p) || DebianVersion.Strip(parts[n]) == p by {
        assert forall i | 0 <= i < n :: parts[..n][i] == parts[i];
      }
    }
  }

  /** An entry's paths are those its rows name, each once. */
  lemma {:induction false} PathsMeaning(rows: seq<Finding>, p: string)
    ensures NoDup(PathsOf(rows)) && "" !in PathsOf(rows)
    ensures p in PathsOf(rows) <==> p != "" && NamesPath(rows, p)
  {
    hide WithPaths, HasPart;
    if rows != [] {
      var n := |rows| - 1;
      PathsMeaning(rows[..n], p);
      if rows[n].installPath != "" {
        WithPathsMeaning(PathsOf(rows[..n]), DebianVersion.SplitOn(rows[n].installPath, ';'), p);
      }
      assert NamesPath(rows, p) <==> NamesPath(rows[..n], p) || PathIn(rows[n], p) by {
        assert forall i | 0 <= i < n :: rows[..n][i] == rows[i];
      }
    }
  }

  /** The parts of an installation path cell that are not blank, trimmed. */
  function Trimmed(parts: seq<string>): seq<string> {
    if parts == [] then []
    else
      var p := DebianVersion.Strip(parts[|parts| - 1]);
      Trimmed(parts[..|parts| - 1]) + if p == "" then [] else [p]
  }

  /** All that the rows name, in order. */
  function PathsNamed(rows: seq<Finding>): seq<string> {
    if rows == [] then []
    else
      PathsNamed(rows[..|rows| - 1])
      + if rows[|rows| - 1].installPath == "" then []
        else Trimmed(DebianVersion.SplitOn(rows[|rows| - 1].installPath, ';'))
  }

  lemma {:induction false} WithPathsInOrder(named: seq<string>, parts: seq<string>)
    ensures WithPaths(FirstSeen(named), parts) == FirstSeen(named + Trimmed(parts))
  {
    if parts == [] {
      assert named + [] == named;
    } else {
      hide FirstSeen, NoDup;
      var n := |parts| - 1;
      WithPathsInOrder(named, parts[..n]);
      var p := DebianVersion.Strip(parts[n]);
      var before := named + Trimmed(parts[..n]);
      FirstSeenSnoc(before, p);
      if p == "" {
        assert Trimmed(parts) == Trimmed(parts[..n]) + [] == Trimmed(parts[..n]);
      } else {
        assert named + Trimmed(parts) == before + [p];
      }
    }
  }

  /** An entry's paths come in the order they are first named. */
  lemma {:induction false} PathsInOrder(rows: seq<Finding>)
    ensures PathsOf(rows) == FirstSeen(PathsNamed(rows))
  {
    if rows != [] {
      hide FirstSeen, NoDup, WithPaths, Trimmed;
      var n := |rows| - 1;
      PathsInOrder(rows[..n]);
      assert PathsNamed(rows[..n]) + [] == PathsNamed(rows[..n]);
      if rows[n].installPath != "" {
        WithPathsInOrder(PathsNamed(rows[..n]), DebianVersion.SplitOn(rows[n].installPath, ';'));
      }
    }
  }

  function Collected(fs: seq<Finding>, k: EntryKey): EntryView
    requires RowsWith(fs, k) != []
  {
    var rows := RowsWith(fs, k);
    var first := rows[0];
    EntryView(k, MostSevere(rows), first.fixedVersion, first.packageManager, first.softwareType,
              PathsOf(rows), rows, NO_VERDICT, "", "", "")
  }

  function GroupView(fs: seq<Finding>, k: EntryKey, rules: seq<Rule>): EntryView
    requires RowsWith(fs, k) != []
  {
    Collected(fs, k).(verdict := GroupVerdict(RowsWith(fs, k), rules))
  }

  lemma RowsWithNonempty(fs: seq<Finding>, k: EntryKey)
    requires k in KeysOf(fs)
    ensures RowsWith(fs, k) != []
  {
    var i :| 0 <= i < |fs| && KeysOf(fs)[i] == k;
    assert fs[i] in RowsWith(fs, k);
  }

  /** What the grouping means: one entry per distinct key, in the order of first rows, holding that
      key's rows in order, its most severe severity and the strictest of its rows' verdicts. */
  function Groups(fs: seq<Finding>, rules: seq<Rule>): (vs: seq<EntryView>)
    ensures ViewKeys(vs) == FirstSeen(KeysOf(fs))
    ensures forall i | 0 <= i < |vs| :: vs[i].rows == RowsWith(fs, vs[i].key) && vs[i].rows != []
  {
    var ks := FirstSeen(KeysOf(fs));
    assert forall k | k in ks :: RowsWith(fs, k) != [] by {
      forall k | k in ks ensures RowsWith(fs, k) != [] {
        RowsWithNonempty(fs, k);
      }
    }
    seq(|ks|, i requires 0 <= i < |ks| => GroupView(fs, ks[i], rules))
  }

  lemma CollectedSnoc(fs: seq<Finding>, f: Finding, k: EntryKey)
    requires RowsWith(fs, k) != []
    ensures RowsWith(fs + [f], k) != []
    ensures Collected(fs + [f], k) == if f.Key() == k then WithRow(Collected(fs, k), f) else Collected(fs, k)
  {
    RowsWithSnoc(fs, f, k);
    if f.Key() == k {
      var r := RowsWith(fs, k);
      assert (r + [f])[..|r|] == r;
    }
  }

  lemma {:induction false} RowsWithAbsent(fs: seq<Finding>, k: EntryKey)
    requires k !in KeysOf(fs)
    ensures RowsWith(fs, k) == []
  {
    if fs != [] {
      var n := |fs| - 1;
      assert fs == fs[..n] + [fs[n]];
      KeysOfSnoc(fs[..n], fs[n]);
      assert KeysOf(fs) == KeysOf(fs[..n]) + [fs[n].Key()];
      RowsWithAbsent(fs[..n], k);
    }
  }

  // ----- the dict the grouping loop fills --------------------------------------------------

  function NewEntry(f: Finding): EntryView {
    EntryView(f.Key(), f.severity, f.fixedVersion, f.packageManager, f.softwareType, [], [], NO_VERDICT, "", "", "")
  }

  function Absorb(m: map<EntryKey, EntryView>, f: Finding): map<EntryKey, EntryView> {
    var v := if f.Key() in m then m[f.Key()] else NewEntry(f);
    m[f.Key() := WithRow(v, f)]
  }

  function CollectAll(fs: seq<Finding>): map<EntryKey, EntryView> {
    if fs == [] then map[] else Absorb(CollectAll(fs[..|fs| - 1]), fs[|fs| - 1])
  }

  lemma CollectAllSnoc(fs: seq<Finding>, f: Finding)
    ensures CollectAll(fs + [f]) == Absorb(CollectAll(fs), f)
  {
    assert (fs + [f])[..|fs|] == fs;
  }

  lemma FirstRowCollected(fs: seq<Finding>, f: Finding)
    requires f.Key() !in KeysOf(fs)
    ensures RowsWith(fs + [f], f.Key()) != [] && Collected(fs + [f], f.Key()) == WithRow(NewEntry(f), f)
  {
    hide RowsWith, WithPaths, MostSevere, PathsOf, SeverityRank, KeysOf;
    RowsWithAbsent(fs, f.Key());
    RowsWithSnoc(fs, f, f.Key());
    assert RowsWith(fs + [f], f.Key()) == [f];
    OneRow(f);
  }

  lemma OneRow(f: Finding)
    ensures MostSevere([f]) == f.severity
    ensures PathsOf([f]) == if f.installPath == "" then [] else WithPaths([], DebianVersion.SplitOn(f.installPath, ';'))
  {
    hide WithPaths;
    assert [f][..0] == [];
  }

  lemma AbsorbAt(m: map<EntryKey, EntryView>, f: Finding, k: EntryKey)
    ensures k in Absorb(m, f) <==> k in m || k == f.Key()
    ensures k in m ==> Absorb(m, f)[k] == if k == f.Key() then WithRow(m[k], f) else m[k]
    ensures k == f.Key() && k !in m ==> Absorb(m, f)[k] == WithRow(NewEntry(f), f)
  {
    hide WithRow, NewEntry;
  }

  /** The dict holds, for each key met, exactly that key's rows. */
  lemma {:induction false} CollectAllMeaning(fs: seq<Finding>, k: EntryKey)
    ensures k in CollectAll(fs) <==> k in KeysOf(fs)
    ensures k in CollectAll(fs) ==> RowsWith(fs, k) != [] && CollectAll(fs)[k] == Collected(fs, k)
  {
    hide Absorb, Collected, WithRow, NewEntry, RowsWith;
    if fs != [] {
      var n := |fs| - 1;
      var init, f := fs[..n], fs[n];
      assert fs == init + [f];
      CollectAllMeaning(init, k);
      KeysOfSnoc(init, f);
      AbsorbAt(CollectAll(init), f, k);
      if k in CollectAll(init) {
        CollectedSnoc(init, f, k);
      } else if k == f.Key() {
        FirstRowCollected(init, f);
      }
    }
  }

  /** The dict of entry objects holds the values `want`. */
  ghost predicate Mirrors(grouped: map<EntryKey, Entry>, want: map<EntryKey, EntryView>)
    reads grouped.Values
  {
    && grouped.Keys == want.Keys
    && forall k | k in grouped :: grouped[k].key == k && grouped[k].View() == want[k]
  }

  /** One turn of the grouping loop. */
  method AbsorbRow(dict: map<EntryKey, Entry>, f: Finding, ghost want: map<EntryKey, EntryView>)
    returns (grouped: map<EntryKey, Entry>)
    requires Mirrors(dict, want)
    modifies dict.Values
    ensures Mirrors(grouped, Absorb(want, f))
    ensures fresh(grouped.Values - dict.Values)
  {
    grouped := dict;
    if f.Key() !in grouped {
      var created := new Entry(f);
      grouped := grouped[f.Key() := created];
    }
    var entry := grouped[f.Key()];
    entry.AddRow(f);
  }

  /** The grouping loop: a dict from key to entry, and the dict's order. */
  method CollectRows(findings: seq<Finding>) returns (grouped: map<EntryKey, Entry>, order: seq<EntryKey>)
    ensures order == FirstSeen(KeysOf(findings))
    ensures fresh(grouped.Values)
    ensures Mirrors(grouped, CollectAll(findings))
  {
    grouped, order := map[], [];
    hide FirstSeen, Absorb, NoDup;
    for n := 0 to |findings|
      invariant order == FirstSeen(KeysOf(findings[..n]))
      invariant fresh(grouped.Values)
      invariant Mirrors(grouped, CollectAll(findings[..n]))
    {
      var f := findings[n];
      assert findings[..n + 1] == findings[..n] + [f];
      DictStep(findings[..n], f);
      if f.Key() !in grouped {
        order := order + [f.Key()];
      }
      grouped := AbsorbRow(grouped, f, CollectAll(findings[..n]));
    }
    assert findings[..|findings|] == findings;
  }

  lemma DictStep(fs: seq<Finding>, f: Finding)
    ensures FirstSeen(KeysOf(fs + [f])) ==
            if f.Key() in CollectAll(fs) then FirstSeen(KeysOf(fs)) else FirstSeen(KeysOf(fs)) + [f.Key()]
    ensures CollectAll(fs + [f]) == Absorb(CollectAll(fs), f)
  {
    KeysOfSnoc(fs, f);
    FirstSeenSnoc(KeysOf(fs), f.Key());
    CollectAllSnoc(fs, f);
    CollectAllMeaning(fs, f.Key());
  }

  function JudgedAll(vs: seq<EntryView>, rules: seq<Rule>): (r: seq<EntryView>)
    ensures |r| == |vs|
    ensures forall i | 0 <= i < |vs| :: r[i] == Judged(vs[i], rules)
  {
    seq(|vs|, i requires 0 <= i < |vs| => Judged(vs[i], rules))
  }

  /** Gives every entry the strictest of its rows' verdicts. */
  method AssignVerdicts(entries: seq<Entry>, rules: seq<Rule>)
    requires NoDup(entries) && forall i | 0 <= i < |entries| :: entries[i].rows != []
    modifies entries
    ensures Views(entries) == JudgedAll(old(Views(entries)), rules)
  {
    hide GroupVerdict;
    ghost var before := Views(entries);
    for n := 0 to |entries|
      invariant forall i | n <= i < |entries| :: entries[i].verdict == before[i].verdict
      invariant forall i | 0 <= i < n :: entries[i].verdict == GroupVerdict(before[i].rows, rules)
      modifies set i | 0 <= i < |entries| :: entries[i]`verdict
    {
      entries[n].Judge(GroupVerdict(entries[n].rows, rules));
    }
  }

  /** Collapses scanner rows into entries and assigns each one a disposition. */
  method BuildGroups(findings: seq<Finding>, rules: seq<Rule>) returns (entries: seq<Entry>)
    ensures forall i | 0 <= i < |entries| :: fresh(entries[i])
    ensures Views(entries) == Groups(findings, rules)
  {
    hide RowsWith, GroupVerdict, WithRow;
    var grouped: map<EntryKey, Entry>, order := CollectRows(findings);
    OrderIsKeys(findings);
    entries := seq(|order|, i requires 0 <= i < |order| => grouped[order[i]]);
    assert forall i | 0 <= i < |order| :: entries[i] in grouped.Values && entries[i].key == order[i];
    ghost var before := Views(entries);
    forall i | 0 <= i < |order|
      ensures before[i].rows != [] && Judged(before[i], rules) == Groups(findings, rules)[i]
    {
      CollectAllMeaning(findings, order[i]);
      JudgedIsGroup(findings, rules, i);
    }
    DistinctKeysDistinct(entries);
    hide Groups, Judged, CollectAll, Mirrors;
    AssignVerdicts(entries, rules);
    assert forall i | 0 <= i < |order| :: Views(entries)[i] == Groups(findings, rules)[i];
  }

  lemma DistinctKeysDistinct(entries: seq<Entry>)
    requires NoDup(EntryKeys(entries))
    ensures NoDup(entries)
  {
    forall i, j | 0 <= i < j < |entries| ensures entries[i] != entries[j] {
      assert EntryKeys(entries)[i] != EntryKeys(entries)[j];
    }
  }

  lemma JudgedIsGroup(fs: seq<Finding>, rules: seq<Rule>, i: nat)
    requires i < |FirstSeen(KeysOf(fs))| && RowsWith(fs, FirstSeen(KeysOf(fs))[i]) != []
    ensures Groups(fs, rules)[i] == Judged(Collected(fs, FirstSeen(KeysOf(fs))[i]), rules)
  {
  }

  lemma OrderIsKeys(fs: seq<Finding>)
    ensures forall k | k in FirstSeen(KeysOf(fs)) :: k in CollectAll(fs)
  {
    forall k | k in FirstSeen(KeysOf(fs)) ensures k in CollectAll(fs) {
      CollectAllMeaning(fs, k);
    }
  }
}
