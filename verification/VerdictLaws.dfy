/** What verdict a scanner row and a group of rows get, case by case, and in words of their own. */
module VerdictLaws {
  import opened Sequences
  import opened Findings
  import DebianVersion

  // ----- one row ---------------------------------------------------------------------------

  /** The fix at `i` decides: it is on the installed release line, or none of the offered ones is. */
  ghost predicate FixDecides(f: Finding, i: nat)
    requires i < |f.fixes|
  {
    || DebianVersion.LineOf(f.fixes[i].version) == DebianVersion.LineOf(f.version)
    || forall j | 0 <= j < |f.fixes| ::
         DebianVersion.LineOf(f.fixes[j].version) != DebianVersion.LineOf(f.version)
  }

  /** The installed version is at or above every fix that decides. */
  ghost predicate PastFix(f: Finding) {
    && f.fixes != [] && DebianVersion.Strip(f.version) != ""
    && forall i | 0 <= i < |f.fixes| && FixDecides(f, i) ::
         DebianVersion.VersionOrder(f.version, f.fixes[i].version) >= 0
  }

  lemma PastFixIff(f: Finding)
    ensures DebianVersion.AlreadyAtOrPastFix(f.version, f.Candidates()) <==> PastFix(f)
  {
    var cs := f.Candidates();
    DebianVersion.AtOrPastFixMeaning(f.version, cs);
    hide DebianVersion.AlreadyAtOrPastFix, DebianVersion.LineOf, DebianVersion.VersionOrder, DebianVersion.Strip;
    assert forall j | 0 <= j < |cs| :: cs[j] == f.fixes[j].version && cs[j] in cs;
    forall i | 0 <= i < |cs| ensures DebianVersion.Decides(cs[i], f.version, cs) <==> FixDecides(f, i) {
      if FixDecides(f, i) && DebianVersion.LineOf(cs[i]) != DebianVersion.LineOf(f.version) {
        forall other | other in cs ensures DebianVersion.LineOf(other) != DebianVersion.LineOf(f.version) {
          var j :| 0 <= j < |cs| && cs[j] == other;
        }
      }
    }
    hide DebianVersion.Decides, FixDecides;
    forall c | c in cs ensures exists i :: 0 <= i < |cs| && cs[i] == c {
    }
  }

  ghost predicate OnlyPrereleases(f: Finding) {
    f.fixes != [] && forall i | 0 <= i < |f.fixes| :: f.fixes[i].prerelease
  }

  /** The rule at `i` is the first that matches. */
  ghost predicate FirstMatch(f: Finding, rules: seq<Rule>, i: nat) {
    i < |rules| && rules[i].matches(f) && forall j | 0 <= j < i :: !rules[j].matches(f)
  }

  lemma {:induction false} FirstRuleIs(f: Finding, rules: seq<Rule>, i: nat)
    requires FirstMatch(f, rules, i)
    ensures
      var r := rules[i];
      FirstRule(f, rules) == Some(Verdict(r.disposition, Stated(r.reason), r.name, r.unit, r.owner, r.targetDate))
    decreases i
  {
    if i > 0 {
      assert rules[1..][i - 1] == rules[i];
      FirstRuleIs(f, rules[1..], i - 1);
    }
  }

  /** A row past its fix is disputed; else one with nothing but pre-releases on offer is an exception; else the
      first matching rule's verdict holds, its owner and date with it; else a released fix makes it a deferral
      without owner and date, and no fix an exception. */
  lemma VerdictMeaning(f: Finding, rules: seq<Rule>)
    ensures
      var v := DispositionFor(f, rules);
      var derived := PastFix(f) || OnlyPrereleases(f);
      var ruled := exists i: nat :: FirstMatch(f, rules, i);
      && (PastFix(f) ==> v.disposition == Dispute && v.rule == "derived:already-fixed" && v.unit == "")
      && (OnlyPrereleases(f) && !PastFix(f) ==>
            v.disposition == Exception && v.rule == "derived:prerelease-only-fix" && v.unit == "")
      && (forall i: nat | FirstMatch(f, rules, i) && !derived ::
            && v.disposition == rules[i].disposition && v.rule == rules[i].name && v.unit == rules[i].unit
            && v.owner == rules[i].owner && v.targetDate == rules[i].targetDate)
      && (!derived && !ruled && (exists i :: 0 <= i < |f.fixes| && !f.fixes[i].prerelease) ==>
            && v.disposition == Deferred && v.rule == "fallback:fixable" && v.unit == ""
            && v.owner == "UNASSIGNED" && v.targetDate == "UNSET")
      && (!derived && !ruled && f.fixes == [] ==>
            v.disposition == Exception && v.rule == "fallback:no-upstream-fix" && v.unit == "")
  {
    PastFixIff(f);
    hide PastFix, DebianVersion.AlreadyAtOrPastFix;
    forall i: nat | FirstMatch(f, rules, i)
      ensures FirstRule(f, rules) ==
              Some(Verdict(rules[i].disposition, Stated(rules[i].reason), rules[i].name, rules[i].unit,
                           rules[i].owner, rules[i].targetDate))
    {
      FirstRuleIs(f, rules, i);
    }
    FirstRuleMeaning(f, rules);
    if FirstRule(f, rules).Some? {
      var i :| && 0 <= i < |rules| && rules[i].matches(f) && forall j | 0 <= j < i :: !rules[j].matches(f);
      assert FirstMatch(f, rules, i);
    }
    hide FirstRule;
  }

  // ----- a group of rows -------------------------------------------------------------------

  /** The strictest first. */
  const BY_STRICTNESS: seq<Disposition> :=
    [Held, Deferred, Exception, DisputeRejected, Superseded, Dispute, OutOfScope, Fixed]

  ghost predicate SomeRowIs(rows: seq<Finding>, rules: seq<Rule>, d: Disposition) {
    exists i :: 0 <= i < |rows| && DispositionFor(rows[i], rules).disposition == d
  }

  lemma StrictnessIsPlace(k: nat)
    requires k < |BY_STRICTNESS|
    ensures Strictness(BY_STRICTNESS[k]) == k
  {
  }

  /** A group gets the first disposition of that list that one of its rows gets: one held row holds it, and so
      on down to Fixed. */
  lemma StrictestRowWins(rows: seq<Finding>, rules: seq<Rule>, k: nat)
    requires rows != [] && k < |BY_STRICTNESS| && SomeRowIs(rows, rules, BY_STRICTNESS[k])
    requires forall j | 0 <= j < k :: !SomeRowIs(rows, rules, BY_STRICTNESS[j])
    ensures GroupVerdict(rows, rules).disposition == BY_STRICTNESS[k]
  {
    hide DispositionFor;
    var vs := VerdictsOf(rows, rules);
    StrictestIsMinimal(vs);
    StrictnessIsPlace(k);
    var i :| 0 <= i < |rows| && DispositionFor(rows[i], rules).disposition == BY_STRICTNESS[k];
    assert vs[i] in vs;
    var d := Strictest(vs).disposition;
    var m := Strictness(d);
    StrictnessIsPlace(m);
    StrictnessSeparates(d, BY_STRICTNESS[m]);
    var n :| 0 <= n < |vs| && vs[n] == Strictest(vs);
    assert SomeRowIs(rows, rules, d);
  }

  const BY_SEVERITY: seq<string> := ["Critical", "High", "Medium", "Low"]

  ghost predicate SomeRowHas(rows: seq<Finding>, severity: string) {
    exists i :: 0 <= i < |rows| && rows[i].severity == severity
  }

  lemma RankIsPlace(severity: string)
    ensures forall k | 0 <= k < |BY_SEVERITY| :: SeverityRank(severity) == k <==> severity == BY_SEVERITY[k]
    ensures severity !in BY_SEVERITY ==> SeverityRank(severity) > |BY_SEVERITY|
  {
    assert BY_SEVERITY[0] == "Critical" && BY_SEVERITY[1] == "High" && BY_SEVERITY[2] == "Medium" && BY_SEVERITY[3] == "Low";
  }

  /** A group keeps the first label of that list that one of its rows has. */
  lemma SeverestRowWins(rows: seq<Finding>, k: nat)
    requires rows != [] && k < |BY_SEVERITY| && SomeRowHas(rows, BY_SEVERITY[k])
    requires forall j | 0 <= j < k :: !SomeRowHas(rows, BY_SEVERITY[j])
    ensures MostSevere(rows) == BY_SEVERITY[k]
  {
    hide MostSevere, SeverityRank;
    var w := MostSevereIsMinimal(rows);
    var i :| 0 <= i < |rows| && rows[i].severity == BY_SEVERITY[k];
    RankIsPlace(BY_SEVERITY[k]);
    RankIsPlace(w.severity);
    assert SeverityRank(w.severity) <= k;
    var m := SeverityRank(w.severity);
    assert w.severity == BY_SEVERITY[m] && SomeRowHas(rows, BY_SEVERITY[m]);
  }

  /** With none of them, the first row's label stays. */
  lemma {:induction false} UnknownSeverityStays(rows: seq<Finding>)
    requires rows != [] && forall i | 0 <= i < |rows| :: rows[i].severity !in BY_SEVERITY
    ensures MostSevere(rows) == rows[0].severity
  {
    if |rows| > 1 {
      UnknownSeverityStays(rows[..|rows| - 1]);
      RankIsPlace(rows[|rows| - 1].severity);
      RankIsPlace(rows[0].severity);
      RankOfUnknown(rows[|rows| - 1].severity, rows[0].severity);
    }
  }

  lemma RankOfUnknown(s: string, t: string)
    requires s !in BY_SEVERITY && t !in BY_SEVERITY
    ensures SeverityRank(s) == SeverityRank(t)
  {
    assert BY_SEVERITY[0] == "Critical" && BY_SEVERITY[1] == "High" && BY_SEVERITY[2] == "Medium" && BY_SEVERITY[3] == "Low";
  }
}
