/** The register's self-check: every scanner row lands in exactly one entry. */
module Integrity {
  import opened Sequences
  import opened Findings
  import opened Entries
  import opened ReadingOrder

  datatype Integrity = Integrity(
    ok: bool, totalIn: nat, totalOut: nat, duplicates: set<EntryKey>,
    missing: set<string>, doubled: set<string>, unmapped: seq<Entry>)

  /** The rows of all entries, entry after entry. */
  function AllRows(vs: seq<EntryView>): seq<Finding> {
    if vs == [] then [] else AllRows(vs[..|vs| - 1]) + vs[|vs| - 1].rows
  }

  lemma AllRowsSnoc(vs: seq<EntryView>, v: EntryView)
    ensures AllRows(vs + [v]) == AllRows(vs) + v.rows
  {
    assert (vs + [v])[..|vs|] == vs;
  }

  /** What the check looks at: entry keys, row counts, and where each row says it was read from. */
  ghost predicate Passes(findings: seq<Finding>, vs: seq<EntryView>) {
    && NoDup(ViewKeys(vs))
    && |findings| == |AllRows(vs)|
    && (forall s | s in SourcesOf(findings) :: s in SourcesOf(AllRows(vs)))
    && NoDup(SourcesOf(AllRows(vs)))
  }

  /** The elements a `Counter` reports more than once. */
  method Repeated<T(==, !new)>(xs: seq<T>) returns (repeated: set<T>)
    ensures repeated == {} <==> NoDup(xs)
    ensures forall x :: x in repeated <==> multiset(xs)[x] > 1
  {
    var counts := CountAll(xs);
    repeated := set x | x in counts && counts[x] > 1;
    forall x ensures x in repeated <==> multiset(xs)[x] > 1 {
      assert x in xs <==> x in multiset(xs);
    }
    NoDupIffNoRepeat(xs);
    assert repeated == {} <==> forall x :: multiset(xs)[x] <= 1;
  }

  lemma NoDupIffNoRepeat<T(!new)>(xs: seq<T>)
    ensures NoDup(xs) <==> forall x :: multiset(xs)[x] <= 1
  {
    if NoDup(xs) {
      forall x ensures multiset(xs)[x] <= 1 {
        NoDupMultiset(xs, x);
      }
    }
    if forall x :: multiset(xs)[x] <= 1 {
      forall x | x in xs ensures multiset(xs)[x] == 1 {
        assert x in multiset(xs);
      }
      MultisetNoDup(xs);
    }
  }

  /** Walks the entries, gathering their rows and the entries that are still held. */
  method Walk(entries: seq<Entry>) returns (rows: seq<Finding>, held: seq<Entry>)
    ensures rows == AllRows(Views(entries)) && held == Unmapped(entries)
  {
    rows, held := [], [];
    for n := 0 to |entries|
      invariant rows == AllRows(Views(entries[..n]))
      invariant held == Unmapped(entries[..n])
    {
      assert Views(entries[..n + 1]) == Views(entries[..n]) + [entries[n].View()];
      AllRowsSnoc(Views(entries[..n]), entries[n].View());
      assert entries[..n + 1][..n] == entries[..n];
      rows := rows + entries[n].rows;
      if entries[n].verdict.disposition == Held {
        held := held + [entries[n]];
      }
    }
    assert entries[..|entries|] == entries;
  }

  lemma NothingMissing<T(!new)>(a: seq<T>, b: seq<T>)
    ensures ToSet(a) - ToSet(b) == {} <==> forall x | x in a :: x in b
  {
    assert forall x :: x in ToSet(a) - ToSet(b) <==> x in a && x !in b;
  }

  method CheckIntegrity(findings: seq<Finding>, entries: seq<Entry>) returns (r: Integrity)
    ensures r.ok <==> Passes(findings, Views(entries))
    ensures r.ok <==> r.duplicates == {} && r.totalIn == r.totalOut && r.missing == {} && r.doubled == {}
    ensures r.totalIn == |findings| && r.totalOut == |AllRows(Views(entries))|
    ensures r.unmapped == Unmapped(entries)
  {
    var duplicates := Repeated(EntryKeys(entries));
    var rows, unmapped := Walk(entries);
    var missing := ToSet(SourcesOf(findings)) - ToSet(SourcesOf(rows));
    var doubled := Repeated(SourcesOf(rows));
    assert EntryKeys(entries) == ViewKeys(Views(entries));
    NothingMissing(SourcesOf(findings), SourcesOf(rows));
    var ok := duplicates == {} && |findings| == |rows| && missing == {} && doubled == {};
    r := Integrity(ok, |findings|, |rows|, duplicates, missing, doubled, unmapped);
  }

  /** The entries still waiting for an answer. */
  function Unmapped(entries: seq<Entry>): seq<Entry>
    reads entries
  {
    if entries == [] then []
    else
      var last := entries[|entries| - 1];
      var init := Unmapped(entries[..|entries| - 1]);
      if last.verdict.disposition == Held then init + [last] else init
  }

  /** They are exactly the held ones. */
  lemma {:induction false} UnmappedMeaning(entries: seq<Entry>, e: Entry)
    ensures e in Unmapped(entries) <==> e in entries && e.verdict.disposition == Held
  {
    if entries != [] {
      var n := |entries| - 1;
      UnmappedMeaning(entries[..n], e);
      assert entries == entries[..n] + [entries[n]];
    }
  }

  // ----- what a passing check means --------------------------------------------------------

  /** With distinct row sources the check passes exactly when the entries have distinct keys and
      account for every source once: nothing lost, nothing doubled, nothing foreign. */
  lemma PassesIffPermutation(findings: seq<Finding>, vs: seq<EntryView>)
    requires NoDup(SourcesOf(findings))
    ensures Passes(findings, vs) <==>
              NoDup(ViewKeys(vs)) && multiset(SourcesOf(AllRows(vs))) == multiset(SourcesOf(findings))
  {
    var a, b := SourcesOf(findings), SourcesOf(AllRows(vs));
    if Passes(findings, vs) {
      EqualCountsPermute(a, b);
    }
    if multiset(b) == multiset(a) {
      SameMultiset(a, b);
    }
  }

  lemma SameMultiset<T>(a: seq<T>, b: seq<T>)
    requires multiset(a) == multiset(b) && NoDup(a)
    ensures |a| == |b| && NoDup(b) && forall x :: x in a <==> x in b
  {
    assert |a| == |multiset(a)| && |b| == |multiset(b)|;
    forall x ensures x in a <==> x in b {
      assert x in a <==> x in multiset(a);
      assert x in b <==> x in multiset(b);
    }
    forall x | x in b ensures multiset(b)[x] == 1 {
      NoDupMultiset(a, x);
    }
    MultisetNoDup(b);
  }

  /** When a source names one row, the check passes exactly when the entries have distinct keys and their
      rows are a permutation of the input's. */
  lemma PassesIffRowsPermuted(findings: seq<Finding>, vs: seq<EntryView>)
    requires NoDup(SourcesOf(findings))
    requires forall f, g | f in findings && g in AllRows(vs) && f.source == g.source :: f == g
    ensures Passes(findings, vs) <==> NoDup(ViewKeys(vs)) && multiset(AllRows(vs)) == multiset(findings)
  {
    if Passes(findings, vs) {
      PassesMeansRowsPermuted(findings, vs);
      PassesIffPermutation(findings, vs);
    }
    if NoDup(ViewKeys(vs)) && multiset(AllRows(vs)) == multiset(findings) {
      SourcesPermute(AllRows(vs), findings);
      PassesIffPermutation(findings, vs);
    }
  }

  lemma PassesMeansRowsPermuted(findings: seq<Finding>, vs: seq<EntryView>)
    requires NoDup(SourcesOf(findings)) && Passes(findings, vs)
    requires forall f, g | f in findings && g in AllRows(vs) && f.source == g.source :: f == g
    ensures multiset(AllRows(vs)) == multiset(findings)
  {
    var rows := AllRows(vs);
    DistinctSourcesDistinctRows(findings);
    DistinctSourcesDistinctRows(rows);
    forall f | f in findings ensures f in rows {
      var i :| 0 <= i < |findings| && findings[i] == f;
      assert SourcesOf(findings)[i] == f.source;
      assert f.source in SourcesOf(rows);
      var j :| 0 <= j < |rows| && SourcesOf(rows)[j] == f.source;
      assert rows[j] in rows && rows[j].source == f.source;
    }
    EqualCountsPermute(findings, rows);
  }

  lemma DistinctSourcesDistinctRows(rows: seq<Finding>)
    requires NoDup(SourcesOf(rows))
    ensures NoDup(rows)
  {
    forall i, j | 0 <= i < j < |rows| ensures rows[i] != rows[j] {
      assert SourcesOf(rows)[i] != SourcesOf(rows)[j];
    }
  }

  // ----- grouping is a partition -----------------------------------------------------------

  /** The rows of the keys `ks`, key after key. */
  function Gather(fs: seq<Finding>, ks: seq<EntryKey>): seq<Finding> {
    if ks == [] then [] else Gather(fs, ks[..|ks| - 1]) + RowsWith(fs, ks[|ks| - 1])
  }

  lemma {:induction false} RowsWithCounts(fs: seq<Finding>, k: EntryKey, f: Finding)
    ensures multiset(RowsWith(fs, k))[f] == if f.Key() == k then multiset(fs)[f] else 0
  {
    if fs != [] {
      var n := |fs| - 1;
      RowsWithCounts(fs[..n], k, f);
      assert fs == fs[..n] + [fs[n]];
    }
  }

  lemma {:induction false} GatherCounts(fs: seq<Finding>, ks: seq<EntryKey>, f: Finding)
    requires NoDup(ks)
    ensures multiset(Gather(fs, ks))[f] == if f.Key() in ks then multiset(fs)[f] else 0
  {
    if ks != [] {
      var n := |ks| - 1;
      GatherCounts(fs, ks[..n], f);
      RowsWithCounts(fs, ks[n], f);
      assert ks == ks[..n] + [ks[n]];
      assert multiset(Gather(fs, ks)) == multiset(Gather(fs, ks[..n])) + multiset(RowsWith(fs, ks[n]));
    }
  }

  lemma {:induction false} AllRowsIsGather(fs: seq<Finding>, vs: seq<EntryView>)
    requires forall i | 0 <= i < |vs| :: vs[i].rows == RowsWith(fs, vs[i].key)
    ensures AllRows(vs) == Gather(fs, ViewKeys(vs))
  {
    if vs != [] {
      var n := |vs| - 1;
      AllRowsIsGather(fs, vs[..n]);
      assert ViewKeys(vs)[..n] == ViewKeys(vs[..n]);
    }
  }

  /** Grouping loses no row and repeats none, whatever the rows. */
  lemma GroupingIsPartition(fs: seq<Finding>, rules: seq<Rule>)
    ensures multiset(AllRows(Grouped(fs, rules))) == multiset(fs)
    ensures NoDup(ViewKeys(Grouped(fs, rules)))
  {
    var vs := Grouped(fs, rules);
    AllRowsIsGather(fs, vs);
    forall f ensures multiset(AllRows(vs))[f] == multiset(fs)[f] {
      GatherCounts(fs, ViewKeys(vs), f);
      if f in fs {
        var i :| 0 <= i < |fs| && fs[i] == f;
        assert KeysOf(fs)[i] == f.Key();
      } else {
        assert f !in multiset(fs);
      }
    }
  }

  lemma RemoveAt<T>(a: seq<T>, b: seq<T>, j: nat)
    requires multiset(a) == multiset(b) && a != [] && j < |b| && b[j] == a[|a| - 1]
    ensures multiset(a[..|a| - 1]) == multiset(b[..j] + b[j + 1..])
  {
    var x := a[|a| - 1];
    assert a == a[..|a| - 1] + [x];
    assert b == b[..j] + [x] + b[j + 1..];
    assert multiset(a[..|a| - 1]) == multiset(a) - multiset{x};
    assert multiset(b[..j] + b[j + 1..]) == multiset(b) - multiset{x};
  }

  lemma {:induction false} SourcesPermute(a: seq<Finding>, b: seq<Finding>)
    requires multiset(a) == multiset(b)
    ensures multiset(SourcesOf(a)) == multiset(SourcesOf(b))
    decreases |a|
  {
    if a == [] {
      assert |b| == |multiset(b)| == 0;
    } else {
      var x := a[|a| - 1];
      assert x in multiset(b);
      var j :| 0 <= j < |b| && b[j] == x;
      RemoveAt(a, b, j);
      SourcesPermute(a[..|a| - 1], b[..j] + b[j + 1..]);
      SourcesOfInsert(a, |a| - 1);
      SourcesOfInsert(b, j);
      assert a[..|a| - 1] + a[|a|..] == a[..|a| - 1];
    }
  }

  lemma SourcesOfInsert(b: seq<Finding>, j: nat)
    requires j < |b|
    ensures multiset(SourcesOf(b)) == multiset(SourcesOf(b[..j] + b[j + 1..])) + multiset{b[j].source}
  {
    var l, r := b[..j], b[j + 1..];
    assert SourcesOf(b) == SourcesOf(l) + [b[j].source] + SourcesOf(r);
    assert SourcesOf(l + r) == SourcesOf(l) + SourcesOf(r);
  }

  /** The grouping's own output passes the check exactly when the rows' sources are distinct. */
  lemma GroupedPassesIff(fs: seq<Finding>, rules: seq<Rule>)
    ensures Passes(fs, Grouped(fs, rules)) <==> NoDup(SourcesOf(fs))
  {
    var vs := Grouped(fs, rules);
    GroupingIsPartition(fs, rules);
    SourcesPermute(AllRows(vs), fs);
    if NoDup(SourcesOf(fs)) {
      PassesIffPermutation(fs, vs);
    }
    if Passes(fs, vs) {
      SameMultiset(SourcesOf(AllRows(vs)), SourcesOf(fs));
    }
  }
}
