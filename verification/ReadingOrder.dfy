/** The order entries are read in, and the finished grouping: sorted by image, severity, package and CVE. */
module ReadingOrder {
  import opened Sequences
  import opened Findings
  import opened Entries
  import opened TextOrder

  /** Image, severity, package, CVE: negative, zero or positive. */
  function CompareViews(v: EntryView, w: EntryView): int {
    Then(CompareText(v.key.image, w.key.image),
         Then(SeverityRank(v.severity) - SeverityRank(w.severity),
              Then(CompareText(v.key.software, w.key.software), CompareText(v.key.cve, w.key.cve))))
  }

  /** `v` is read before `w`: by image; on one image by severity; among equals by package, then by CVE. */
  lemma CompareViewsMeaning(v: EntryView, w: EntryView)
    ensures CompareViews(v, w) < 0 <==>
              || Before(v.key.image, w.key.image)
              || (v.key.image == w.key.image && SeverityRank(v.severity) < SeverityRank(w.severity))
              || (v.key.image == w.key.image && SeverityRank(v.severity) == SeverityRank(w.severity)
                  && Before(v.key.software, w.key.software))
              || (v.key.image == w.key.image && SeverityRank(v.severity) == SeverityRank(w.severity)
                  && v.key.software == w.key.software && Before(v.key.cve, w.key.cve))
  {
    CompareTextMeaning(v.key.image, w.key.image);
    CompareTextMeaning(v.key.software, w.key.software);
    CompareTextMeaning(v.key.cve, w.key.cve);
    hide CompareText, SeverityRank, Before;
  }

  lemma CompareViewsFlips(v: EntryView, w: EntryView)
    ensures CompareViews(v, w) <= 0 <==> CompareViews(w, v) >= 0
    ensures CompareViews(v, w) == 0 <==> CompareViews(w, v) == 0
  {
    hide CompareText, SeverityRank;
    CompareTextFlips(v.key.image, w.key.image);
    CompareTextFlips(v.key.software, w.key.software);
    CompareTextFlips(v.key.cve, w.key.cve);
  }

  lemma CompareViewsChains(v: EntryView, w: EntryView, x: EntryView)
    ensures Chains(CompareViews(v, w), CompareViews(w, x), CompareViews(v, x))
  {
    TextChains(v.key.image, w.key.image, x.key.image);
    TextChains(v.key.software, w.key.software, x.key.software);
    TextChains(v.key.cve, w.key.cve, x.key.cve);
    hide CompareText, SeverityRank, Chains, Then;
    var softwareVW, softwareWX, softwareVX := CompareText(v.key.software, w.key.software),
        CompareText(w.key.software, x.key.software), CompareText(v.key.software, x.key.software);
    var cveVW, cveWX, cveVX := CompareText(v.key.cve, w.key.cve), CompareText(w.key.cve, x.key.cve),
        CompareText(v.key.cve, x.key.cve);
    ThenChains(softwareVW, softwareWX, softwareVX, cveVW, cveWX, cveVX);
    var rankVW, rankWX, rankVX := SeverityRank(v.severity) - SeverityRank(w.severity),
        SeverityRank(w.severity) - SeverityRank(x.severity), SeverityRank(v.severity) - SeverityRank(x.severity);
    RanksChain(rankVW, rankWX, rankVX);
    ThenChains(rankVW, rankWX, rankVX, Then(softwareVW, cveVW), Then(softwareWX, cveWX), Then(softwareVX, cveVX));
    ThenChains(CompareText(v.key.image, w.key.image), CompareText(w.key.image, x.key.image), CompareText(v.key.image, x.key.image),
               Then(rankVW, Then(softwareVW, cveVW)), Then(rankWX, Then(softwareWX, cveWX)),
               Then(rankVX, Then(softwareVX, cveVX)));
  }

  lemma RanksChain(ab: int, bc: int, ac: int)
    requires ac == ab + bc
    ensures Chains(ab, bc, ac)
  {
  }

  ghost predicate InReadingOrder(vs: seq<EntryView>) {
    forall i, j | 0 <= i < j < |vs| :: CompareViews(vs[i], vs[j]) <= 0
  }

  /** Puts `v` behind everything that is not to come after it. */
  function Place(vs: seq<EntryView>, v: EntryView): seq<EntryView> {
    if vs != [] && CompareViews(vs[|vs| - 1], v) > 0 then Place(vs[..|vs| - 1], v) + [vs[|vs| - 1]] else vs + [v]
  }

  /** `sorted` by reading order: views that tie keep the order they had. */
  function SortViews(vs: seq<EntryView>): seq<EntryView> {
    if vs == [] then [] else Place(SortViews(vs[..|vs| - 1]), vs[|vs| - 1])
  }

  lemma {:induction false} PlacePermutes(vs: seq<EntryView>, v: EntryView)
    ensures multiset(Place(vs, v)) == multiset(vs) + multiset{v}
  {
    hide CompareViews;
    if vs != [] && CompareViews(vs[|vs| - 1], v) > 0 {
      PlacePermutes(vs[..|vs| - 1], v);
      assert vs == vs[..|vs| - 1] + [vs[|vs| - 1]];
    }
  }

  lemma {:induction false} PlaceStaysBelow(vs: seq<EntryView>, v: EntryView, top: EntryView)
    requires CompareViews(v, top) <= 0 && forall i | 0 <= i < |vs| :: CompareViews(vs[i], top) <= 0
    ensures forall i | 0 <= i < |Place(vs, v)| :: CompareViews(Place(vs, v)[i], top) <= 0
  {
    hide CompareViews;
    if vs != [] && CompareViews(vs[|vs| - 1], v) > 0 {
      PlaceStaysBelow(vs[..|vs| - 1], v, top);
    }
  }

  lemma {:induction false} PlaceSorts(vs: seq<EntryView>, v: EntryView)
    requires InReadingOrder(vs)
    ensures InReadingOrder(Place(vs, v))
  {
    hide CompareViews, Chains;
    if vs != [] {
      var n := |vs| - 1;
      var last := vs[n];
      CompareViewsFlips(last, v);
      if CompareViews(last, v) > 0 {
        PlaceSorts(vs[..n], v);
        PlaceStaysBelow(vs[..n], v, last);
      } else {
        forall i | 0 <= i < n ensures CompareViews(vs[i], v) <= 0 {
          CompareViewsChains(vs[i], last, v);
          ChainsMeans(CompareViews(vs[i], last), CompareViews(last, v), CompareViews(vs[i], v));
        }
      }
    }
  }

  lemma ChainsMeans(ab: int, bc: int, ac: int)
    requires Chains(ab, bc, ac) && ab <= 0 && bc <= 0
    ensures ac <= 0
  {
  }

  /** The views among `vs` that tie with `w`, in order. */
  function Ties(vs: seq<EntryView>, w: EntryView): seq<EntryView> {
    if vs == [] then []
    else
      var n := |vs| - 1;
      Ties(vs[..n], w) + if CompareViews(vs[n], w) == 0 then [vs[n]] else []
  }

  lemma {:induction false} PlaceKeepsTies(vs: seq<EntryView>, v: EntryView, w: EntryView)
    ensures Ties(Place(vs, v), w) == Ties(vs, w) + if CompareViews(v, w) == 0 then [v] else []
  {
    hide CompareViews, Chains;
    if vs != [] && CompareViews(vs[|vs| - 1], v) > 0 {
      var n := |vs| - 1;
      var placed := Place(vs[..n], v);
      PlaceKeepsTies(vs[..n], v, w);
      assert (placed + [vs[n]])[..|placed|] == placed;
      NotBothTie(vs[n], v, w);
    } else {
      assert (vs + [v])[..|vs|] == vs;
    }
  }

  lemma NotBothTie(u: EntryView, v: EntryView, w: EntryView)
    requires CompareViews(u, v) > 0
    ensures !(CompareViews(u, w) == 0 && CompareViews(v, w) == 0)
  {
    hide CompareViews, Chains;
    CompareViewsFlips(v, w);
    CompareViewsChains(u, w, v);
    if CompareViews(u, w) == 0 && CompareViews(v, w) == 0 {
      ChainsMeans(CompareViews(u, w), CompareViews(w, v), CompareViews(u, v));
    }
  }

  /** Sorting permutes and sorts. */
  lemma {:induction false} SortViewsSorts(vs: seq<EntryView>)
    ensures multiset(SortViews(vs)) == multiset(vs) && |SortViews(vs)| == |vs| && InReadingOrder(SortViews(vs))
  {
    hide CompareViews, Place, InReadingOrder;
    if vs == [] {
      NothingToSort();
    } else {
      var n := |vs| - 1;
      assert vs == vs[..n] + [vs[n]];
      SortViewsSorts(vs[..n]);
      PlacePermutes(SortViews(vs[..n]), vs[n]);
      PlaceSorts(SortViews(vs[..n]), vs[n]);
    }
    assert |multiset(SortViews(vs))| == |SortViews(vs)| && |multiset(vs)| == |vs|;
  }

  lemma NothingToSort()
    ensures InReadingOrder([])
  {
  }

  /** And is stable: views that tie keep the order they had. */
  lemma {:induction false} SortViewsIsStable(vs: seq<EntryView>, w: EntryView)
    ensures Ties(SortViews(vs), w) == Ties(vs, w)
  {
    hide CompareViews, Place;
    if vs != [] {
      var n := |vs| - 1;
      assert vs == vs[..n] + [vs[n]];
      SortViewsIsStable(vs[..n], w);
      PlaceKeepsTies(SortViews(vs[..n]), vs[n], w);
      TiesSnoc(vs[..n], vs[n], w);
    }
  }

  lemma TiesSnoc(vs: seq<EntryView>, v: EntryView, w: EntryView)
    ensures Ties(vs + [v], w) == Ties(vs, w) + if CompareViews(v, w) == 0 then [v] else []
  {
    hide CompareViews;
    assert (vs + [v])[..|vs|] == vs;
  }

  // ----- the finished grouping -------------------------------------------------------------

  lemma {:induction false} PlaceKeys(vs: seq<EntryView>, v: EntryView)
    ensures multiset(ViewKeys(Place(vs, v))) == multiset(ViewKeys(vs)) + multiset{v.key}
  {
    hide CompareViews;
    if vs != [] && CompareViews(vs[|vs| - 1], v) > 0 {
      var n := |vs| - 1;
      PlaceKeys(vs[..n], v);
      assert ViewKeys(vs) == ViewKeys(vs[..n]) + [vs[n].key];
      assert ViewKeys(Place(vs, v)) == ViewKeys(Place(vs[..n], v)) + [vs[n].key];
    } else {
      assert ViewKeys(vs + [v]) == ViewKeys(vs) + [v.key];
    }
  }

  lemma {:induction false} SortKeys(vs: seq<EntryView>)
    ensures multiset(ViewKeys(SortViews(vs))) == multiset(ViewKeys(vs))
  {
    hide Place;
    if vs != [] {
      var n := |vs| - 1;
      SortKeys(vs[..n]);
      PlaceKeys(SortViews(vs[..n]), vs[n]);
      assert ViewKeys(vs) == ViewKeys(vs[..n]) + [vs[n].key];
    }
  }

  lemma SameKeys(ks: seq<EntryKey>, js: seq<EntryKey>)
    requires multiset(ks) == multiset(js) && NoDup(ks)
    ensures NoDup(js) && forall k :: k in js <==> k in ks
  {
    forall k ensures multiset(js)[k] == if k in ks then 1 else 0 {
      NoDupMultiset(ks, k);
    }
    forall k ensures k in js <==> k in ks {
      assert k in js <==> k in multiset(js);
    }
    MultisetNoDup(js);
  }

  /** One view for each distinct key of the rows, holding that key's rows in order. */
  ghost predicate IsGrouping(fs: seq<Finding>, vs: seq<EntryView>) {
    && NoDup(ViewKeys(vs)) && (forall k :: k in ViewKeys(vs) <==> k in KeysOf(fs))
    && forall i | 0 <= i < |vs| :: vs[i].rows == RowsWith(fs, vs[i].key) && vs[i].rows != []
  }

  /** The finished grouping: one entry per distinct key, holding that key's rows in order, in reading
      order. */
  function Grouped(fs: seq<Finding>, rules: seq<Rule>): (vs: seq<EntryView>)
    ensures IsGrouping(fs, vs)
  {
    GroupedFacts(fs, rules);
    SortViews(Groups(fs, rules))
  }

  lemma GroupedFacts(fs: seq<Finding>, rules: seq<Rule>)
    ensures
      var vs := SortViews(Groups(fs, rules));
      IsGrouping(fs, vs) && InReadingOrder(vs) && multiset(vs) == multiset(Groups(fs, rules))
  {
    hide Groups, SortViews, RowsWith, InReadingOrder, FirstSeen;
    var groups := Groups(fs, rules);
    var vs := SortViews(groups);
    SortKeys(groups);
    SameKeys(ViewKeys(groups), ViewKeys(vs));
    SortViewsSorts(groups);
    forall i | 0 <= i < |vs| ensures vs[i].rows == RowsWith(fs, vs[i].key) && vs[i].rows != [] {
      assert vs[i] in multiset(vs);
      assert vs[i] in groups;
    }
  }

  /** Each entry of the finished grouping is all that its key's rows come to: the most severe of their labels, their
      paths, the strictest of their verdicts, and the texts of the first. */
  lemma GroupedEntry(fs: seq<Finding>, rules: seq<Rule>, i: nat)
    requires i < |Grouped(fs, rules)|
    ensures
      var e := Grouped(fs, rules)[i];
      var rows := RowsWith(fs, e.key);
      && rows != [] && e.rows == rows && e.severity == MostSevere(rows) && e.paths == PathsOf(rows)
      && e.verdict == GroupVerdict(rows, rules) && e.replacing == "" && e.vendorStatus == "" && e.trackerUrl == ""
      && e.fixedVersion == rows[0].fixedVersion && e.packageManager == rows[0].packageManager
      && e.softwareType == rows[0].softwareType
      && forall f | f in rows ::
           f.image == e.key.image && f.cve == e.key.cve && f.software == e.key.software && f.version == e.key.version
  {
    GroupedFacts(fs, rules);
    hide SortViews, RowsWith, InReadingOrder, FirstSeen, MostSevere, PathsOf, GroupVerdict;
    var vs, groups := Grouped(fs, rules), Groups(fs, rules);
    assert vs[i] in multiset(vs);
    assert vs[i] in groups;
    var j :| 0 <= j < |groups| && groups[j] == vs[i];
  }

  /** `sorted` on the entry objects: each is put in its place among those before it. */
  method SortEntries(entries: seq<Entry>) returns (sorted: seq<Entry>)
    ensures Views(sorted) == SortViews(Views(entries))
    ensures forall e | e in sorted :: e in entries
  {
    hide CompareViews, Place;
    sorted := [];
    for n := 0 to |entries|
      invariant Views(sorted) == SortViews(Views(entries)[..n])
      invariant forall e | e in sorted :: e in entries
    {
      var e := entries[n];
      assert Views(entries)[..n + 1][..n] == Views(entries)[..n];
      sorted := PlaceEntry(sorted, e);
    }
    assert Views(entries)[..|entries|] == Views(entries);
  }

  method PlaceEntry(sorted: seq<Entry>, e: Entry) returns (r: seq<Entry>)
    ensures Views(r) == Place(Views(sorted), e.View())
    ensures forall x | x in r :: x in sorted || x == e
  {
    ghost var vs, v := Views(sorted), e.View();
    hide CompareViews, Place, Entry.View;
    var p := |sorted|;
    assert vs[..p] == vs && vs[p..] == [];
    while p > 0 && CompareViews(sorted[p - 1].View(), e.View()) > 0
      invariant 0 <= p <= |sorted|
      invariant Place(vs, v) == Place(vs[..p], v) + vs[p..]
    {
      PlaceFurther(vs, p, v);
      p := p - 1;
    }
    PlaceHere(vs, p, v);
    r := sorted[..p] + [e] + sorted[p..];
    PlacedViews(sorted, e, p);
  }

  lemma PlaceHere(vs: seq<EntryView>, p: nat, v: EntryView)
    requires p <= |vs| && (p > 0 ==> CompareViews(vs[p - 1], v) <= 0)
    ensures Place(vs[..p], v) == vs[..p] + [v]
  {
    hide CompareViews;
  }

  lemma PlacedViews(sorted: seq<Entry>, e: Entry, p: nat)
    requires p <= |sorted|
    ensures Views(sorted[..p] + [e] + sorted[p..]) == Views(sorted)[..p] + [e.View()] + Views(sorted)[p..]
  {
  }

  lemma PlaceFurther(vs: seq<EntryView>, p: nat, v: EntryView)
    requires 0 < p <= |vs| && CompareViews(vs[p - 1], v) > 0
    ensures Place(vs[..p], v) + vs[p..] == Place(vs[..p - 1], v) + vs[p - 1..]
  {
    hide CompareViews;
    assert vs[..p][..p - 1] == vs[..p - 1];
  }

  /** Collapses scanner rows into entries, assigns each one a disposition, and sorts them. */
  method BuildEntries(findings: seq<Finding>, rules: seq<Rule>) returns (entries: seq<Entry>)
    ensures forall i | 0 <= i < |entries| :: fresh(entries[i])
    ensures Views(entries) == Grouped(findings, rules)
  {
    hide Groups, SortViews;
    var groups := BuildGroups(findings, rules);
    entries := SortEntries(groups);
    GroupedIs(findings, rules);
    assert forall i | 0 <= i < |entries| :: entries[i] in groups;
  }

  lemma GroupedIs(fs: seq<Finding>, rules: seq<Rule>)
    ensures Grouped(fs, rules) == SortViews(Groups(fs, rules))
  {
  }
}
