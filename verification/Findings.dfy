/** Scanner rows and the verdict each one gets on its own. */
module Findings {
  import opened Sequences
  import DebianVersion

  datatype Disposition =
    | Fixed | Exception | Deferred | Dispute | DisputeRejected | Superseded | OutOfScope | Held

  /** One offered fix, and whether the pre-release pattern matches it. */
  datatype Fix = Fix(version: string, prerelease: bool)

  datatype EntryKey = EntryKey(image: string, cve: string, software: string, version: string)

  /** One scanner row. `fixes` is the parsed `Fixed Version` cell, `digest` the manifest digest named
      by the asset (empty when it names none), `source` the workbook cell the row was read from. */
  datatype Finding = Finding(
    image: string, cve: string, severity: string, software: string, version: string,
    fixes: seq<Fix>, fixedVersion: string, packageManager: string, softwareType: string,
    installPath: string, digest: string, source: string)
  {
    function Key(): EntryKey {
      EntryKey(image, cve, software, version)
    }

    predicate Fixable() {
      exists i | 0 <= i < |fixes| :: !fixes[i].prerelease
    }

    predicate PrereleaseOnly() {
      fixes != [] && forall i | 0 <= i < |fixes| :: fixes[i].prerelease
    }

    function Candidates(): seq<string> {
      seq(|fixes|, i requires 0 <= i < |fixes| => fixes[i].version)
    }
  }

  /** The justification of a verdict; the texts that quote facts keep the facts they quote. */
  datatype Reason =
    | Unassigned
    | Stated(text: string)
    | AlreadyFixed(version: string, fixes: seq<Fix>)
    | OnlyPrerelease(fixes: seq<Fix>)
    | FixNotTaken(fixes: seq<Fix>)
    | NoUpstreamFix
    | OtherManifest(measured: string, shipped: string)
    | StillPresent(unit: string, claim: Reason)
    | SideEffect(predicted: Disposition, was: Reason)
    | NotAnticipated

  datatype Verdict = Verdict(
    disposition: Disposition, reason: Reason, rule: string, unit: string, owner: string, targetDate: string)

  /** A structural rule: an abstract predicate on rows with the verdict it assigns. */
  datatype Rule = Rule(
    name: string, disposition: Disposition, reason: string, unit: string, owner: string,
    targetDate: string, matches: Finding -> bool)

  function FirstRule(f: Finding, rules: seq<Rule>): Option<Verdict> {
    if rules == [] then None
    else if rules[0].matches(f) then
      var r := rules[0];
      Some(Verdict(r.disposition, Stated(r.reason), r.name, r.unit, r.owner, r.targetDate))
    else FirstRule(f, rules[1..])
  }

  /** The verdict of one scanner row: derived facts first, then the first matching rule, then
      whether a released fix exists. */
  function DispositionFor(f: Finding, rules: seq<Rule>): Verdict {
    if DebianVersion.AlreadyAtOrPastFix(f.version, f.Candidates()) then
      Verdict(Dispute, AlreadyFixed(f.version, f.fixes), "derived:already-fixed", "", "", "")
    else if f.PrereleaseOnly() then
      Verdict(Exception, OnlyPrerelease(f.fixes), "derived:prerelease-only-fix", "", "", "")
    else if FirstRule(f, rules).Some? then FirstRule(f, rules).value
    else if f.Fixable() then
      Verdict(Deferred, FixNotTaken(f.fixes), "fallback:fixable", "", "UNASSIGNED", "UNSET")
    else
      Verdict(Exception, NoUpstreamFix, "fallback:no-upstream-fix", "", "", "")
  }

  lemma {:induction false} FirstRuleMeaning(f: Finding, rules: seq<Rule>)
    ensures FirstRule(f, rules).None? <==> forall i | 0 <= i < |rules| :: !rules[i].matches(f)
    ensures FirstRule(f, rules).Some? ==>
              exists i | 0 <= i < |rules| ::
                && rules[i].matches(f) && rules[i].name == FirstRule(f, rules).value.rule
                && rules[i].disposition == FirstRule(f, rules).value.disposition
                && forall j | 0 <= j < i :: !rules[j].matches(f)
  {
    if rules != [] && !rules[0].matches(f) {
      FirstRuleMeaning(f, rules[1..]);
      assert forall i | 0 <= i < |rules| - 1 :: rules[1..][i] == rules[i + 1];
      if FirstRule(f, rules).Some? {
        var i :| && 0 <= i < |rules[1..]| && rules[1..][i].matches(f)
                 && rules[1..][i].name == FirstRule(f, rules).value.rule
                 && rules[1..][i].disposition == FirstRule(f, rules).value.disposition
                 && forall j | 0 <= j < i :: !rules[1..][j].matches(f);
        assert rules[i + 1].matches(f);
        forall j | 0 <= j < i + 1 ensures !rules[j].matches(f) {
          assert j == 0 || rules[j] == rules[1..][j - 1];
        }
      }
    }
  }

  /** A row is claimed Fixed only by a rule, never against the derived facts: the installed version
      is below some deciding fix, and the fixes offered are not all pre-releases. */
  lemma FixedOnlyByRule(f: Finding, rules: seq<Rule>)
    ensures DispositionFor(f, rules).disposition == Fixed <==>
              && !DebianVersion.AlreadyAtOrPastFix(f.version, f.Candidates()) && !f.PrereleaseOnly()
              && exists i | 0 <= i < |rules| ::
                   && rules[i].matches(f) && rules[i].disposition == Fixed
                   && forall j | 0 <= j < i :: !rules[j].matches(f)
  {
    FirstRuleMeaning(f, rules);
  }

  // ----- one verdict for a group of rows ---------------------------------------------------

  /** Lower is stricter. */
  function Strictness(d: Disposition): nat {
    match d
    case Held => 0
    case Deferred => 1
    case Exception => 2
    case DisputeRejected => 3
    case Superseded => 4
    case Dispute => 5
    case OutOfScope => 6
    case Fixed => 7
  }

  function VerdictsOf(rows: seq<Finding>, rules: seq<Rule>): (vs: seq<Verdict>)
    ensures |vs| == |rows|
  {
    seq(|rows|, i requires 0 <= i < |rows| => DispositionFor(rows[i], rules))
  }

  /** `min(verdicts, key=strictness)`: the first of the strictest. */
  function Strictest(vs: seq<Verdict>): Verdict
    requires vs != []
  {
    var n := |vs| - 1;
    if n == 0 then vs[0]
    else
      var sofar := Strictest(vs[..n]);
      if Strictness(vs[n].disposition) < Strictness(sofar.disposition) then vs[n] else sofar
  }

  lemma {:induction false} StrictestIsMinimal(vs: seq<Verdict>)
    requires vs != []
    ensures Strictest(vs) in vs
    ensures forall v | v in vs :: Strictness(Strictest(vs).disposition) <= Strictness(v.disposition)
  {
    var n := |vs| - 1;
    if n > 0 {
      assert forall v | v in vs :: v == vs[n] || v in vs[..n];
      StrictestIsMinimal(vs[..n]);
    }
  }

  lemma StrictnessSeparates(d: Disposition, e: Disposition)
    requires Strictness(d) == Strictness(e)
    ensures d == e
  {
  }

  function GroupVerdict(rows: seq<Finding>, rules: seq<Rule>): Verdict
    requires rows != []
  {
    Strictest(VerdictsOf(rows, rules))
  }

  predicate AllFixed(vs: seq<Verdict>) {
    forall i | 0 <= i < |vs| :: vs[i].disposition == Fixed
  }

  /** A strictest element is Fixed exactly when all elements are. */
  lemma StrictestFixed(vs: seq<Verdict>, s: Verdict)
    requires s in vs
    requires forall v | v in vs :: Strictness(s.disposition) <= Strictness(v.disposition)
    ensures s.disposition == Fixed <==> AllFixed(vs)
  {
    if s.disposition == Fixed {
      forall i | 0 <= i < |vs| ensures vs[i].disposition == Fixed {
        assert vs[i] in vs;
        StrictnessSeparates(vs[i].disposition, Fixed);
      }
    }
  }

  lemma StrictestOfSame(vs: seq<Verdict>, ws: seq<Verdict>)
    requires vs != [] && ws != []
    requires forall v :: v in vs <==> v in ws
    ensures Strictest(vs).disposition == Strictest(ws).disposition
  {
    StrictestIsMinimal(vs);
    StrictestIsMinimal(ws);
    StrictnessSeparates(Strictest(vs).disposition, Strictest(ws).disposition);
  }

  /** A group is Fixed exactly when all of its rows are. */
  lemma GroupFixedIffAllFixed(rows: seq<Finding>, rules: seq<Rule>)
    requires rows != []
    ensures GroupVerdict(rows, rules).disposition == Fixed <==>
              forall i | 0 <= i < |rows| :: DispositionFor(rows[i], rules).disposition == Fixed
  {
    var vs := VerdictsOf(rows, rules);
    StrictestIsMinimal(vs);
    StrictestFixed(vs, Strictest(vs));
    assert forall i | 0 <= i < |rows| :: vs[i] == DispositionFor(rows[i], rules);
  }

  /** The disposition of a group does not depend on the order its rows arrive in. */
  lemma GroupVerdictIgnoresOrder(rows: seq<Finding>, other: seq<Finding>, rules: seq<Rule>)
    requires rows != [] && multiset(other) == multiset(rows)
    ensures other != [] && GroupVerdict(other, rules).disposition == GroupVerdict(rows, rules).disposition
  {
    assert rows[0] in multiset(rows);
    assert rows[0] in other;
    VerdictsOfSame(rows, other, rules);
    VerdictsOfSame(other, rows, rules);
    StrictestOfSame(VerdictsOf(rows, rules), VerdictsOf(other, rules));
  }

  lemma VerdictsOfSame(rows: seq<Finding>, other: seq<Finding>, rules: seq<Rule>)
    requires multiset(other) == multiset(rows)
    ensures forall v | v in VerdictsOf(rows, rules) :: v in VerdictsOf(other, rules)
  {
    forall i | 0 <= i < |rows| ensures VerdictsOf(rows, rules)[i] in VerdictsOf(other, rules) {
      assert rows[i] in multiset(rows);
      assert rows[i] in other;
      var j :| 0 <= j < |other| && other[j] == rows[i];
      assert VerdictsOf(other, rules)[j] == VerdictsOf(rows, rules)[i];
    }
  }

  function SeverityRank(s: string): nat {
    if s == "Critical" then 0
    else if s == "High" then 1
    else if s == "Medium" then 2
    else if s == "Low" then 3
    else 9
  }

  /** The most severe of the rows' severities, the earliest on a tie. */
  function MostSevere(rows: seq<Finding>): string
    requires rows != []
  {
    var n := |rows| - 1;
    if n == 0 then rows[0].severity
    else if SeverityRank(rows[n].severity) < SeverityRank(MostSevere(rows[..n])) then rows[n].severity
    else MostSevere(rows[..n])
  }

  lemma {:induction false} MostSevereIsMinimal(rows: seq<Finding>) returns (w: Finding)
    requires rows != []
    ensures w in rows && w.severity == MostSevere(rows)
    ensures forall f | f in rows :: SeverityRank(MostSevere(rows)) <= SeverityRank(f.severity)
  {
    var n := |rows| - 1;
    w := rows[n];
    if n > 0 {
      assert forall f | f in rows :: f == rows[n] || f in rows[..n];
      var v := MostSevereIsMinimal(rows[..n]);
      if rows[n].severity != MostSevere(rows) {
        w := v;
      }
    }
  }

  // ----- rows by key -----------------------------------------------------------------------

  function KeysOf(fs: seq<Finding>): (ks: seq<EntryKey>)
    ensures |ks| == |fs|
  {
    seq(|fs|, i requires 0 <= i < |fs| => fs[i].Key())
  }

  /** The rows with key `k`, in order. */
  function RowsWith(fs: seq<Finding>, k: EntryKey): (r: seq<Finding>)
    ensures forall f :: f in r <==> f in fs && f.Key() == k
  {
    if fs == [] then []
    else
      var n := |fs| - 1;
      assert fs == fs[..n] + [fs[n]];
      if fs[n].Key() == k then RowsWith(fs[..n], k) + [fs[n]] else RowsWith(fs[..n], k)
  }

  lemma KeysOfSnoc(fs: seq<Finding>, f: Finding)
    ensures KeysOf(fs + [f]) == KeysOf(fs) + [f.Key()]
  {
  }

  lemma RowsWithSnoc(fs: seq<Finding>, f: Finding, k: EntryKey)
    ensures RowsWith(fs + [f], k) == if f.Key() == k then RowsWith(fs, k) + [f] else RowsWith(fs, k)
  {
    assert (fs + [f])[..|fs|] == fs;
  }

  function SourcesOf(rows: seq<Finding>): (s: seq<string>)
    ensures |s| == |rows|
  {
    seq(|rows|, i requires 0 <= i < |rows| => rows[i].source)
  }

  /** The rows of one image. */
  function CountOn(rows: seq<Finding>, image: string): nat {
    if rows == [] then 0
    else (if rows[|rows| - 1].image == image then 1 else 0) + CountOn(rows[..|rows| - 1], image)
  }
}
