/** The supervisor's redactor: known secret values are replaced by `***`, one secret after another. */
module Redaction {
  import opened Sequences

  const MASK := "***"
  const MIN_SECRET_LEN := 8

  ghost predicate OccursAt(t: string, s: string, i: nat) {
    i + |s| <= |t| && t[i..i + |s|] == s
  }

  ghost predicate Contains(t: string, s: string) {
    exists i: nat :: OccursAt(t, s, i)
  }

  predicate StarFree(s: string) {
    forall i | 0 <= i < |s| :: s[i] != '*'
  }

  /** No mask can build the secret or be part of one: it neither starts nor ends with `*` and does not hold
      the mask. */
  ghost predicate MaskProof(s: string) {
    s != [] && s[0] != '*' && s[|s| - 1] != '*' && !Contains(s, MASK)
  }

  /** `text.replace(secret, "***")`: occurrences are taken from the left and do not overlap. */
  function Replace(t: string, s: string): string
    requires s != []
  {
    if |t| < |s| then t
    else if t[..|s|] == s then MASK + Replace(t[|s|..], s)
    else [t[0]] + Replace(t[1..], s)
  }

  /** The text between the occurrences. */
  function Pieces(t: string, s: string): (ps: seq<string>)
    requires s != []
    ensures |ps| >= 1
  {
    if |t| < |s| then [t]
    else if t[..|s|] == s then [""] + Pieces(t[|s|..], s)
    else
      var rest := Pieces(t[1..], s);
      [[t[0]] + rest[0]] + rest[1..]
  }

  function Glue(ps: seq<string>, glue: string): string {
    if ps == [] then "" else if |ps| == 1 then ps[0] else ps[0] + glue + Glue(ps[1..], glue)
  }

  lemma GlueHead(c: char, ps: seq<string>, glue: string)
    requires ps != []
    ensures Glue([[c] + ps[0]] + ps[1..], glue) == [c] + Glue(ps, glue)
  {
    var qs := [[c] + ps[0]] + ps[1..];
    assert qs[1..] == ps[1..];
  }

  lemma GlueOne(t: string, glue: string)
    ensures Glue([t], glue) == t
  {
  }

  lemma GlueCut(ps: seq<string>, glue: string)
    requires ps != []
    ensures Glue([""] + ps, glue) == glue + Glue(ps, glue)
  {
    assert ([""] + ps)[1..] == ps;
  }

  /** Replacing cuts the text at occurrences of the secret and changes nothing but those cuts. */
  lemma {:induction false} ReplaceIsGlue(t: string, s: string)
    requires s != []
    ensures Glue(Pieces(t, s), s) == t
    ensures Glue(Pieces(t, s), MASK) == Replace(t, s)
    decreases |t|
  {
    hide Glue;
    if |t| < |s| {
      GlueOne(t, s);
      GlueOne(t, MASK);
    } else if t[..|s|] == s {
      ReplaceIsGlue(t[|s|..], s);
      GlueCut(Pieces(t[|s|..], s), s);
      GlueCut(Pieces(t[|s|..], s), MASK);
      assert t == s + t[|s|..];
    } else {
      ReplaceIsGlue(t[1..], s);
      GlueHead(t[0], Pieces(t[1..], s), s);
      GlueHead(t[0], Pieces(t[1..], s), MASK);
    }
  }

  lemma OccursShift(t: string, s: string, k: nat, i: nat)
    requires k <= i && k <= |t|
    ensures OccursAt(t, s, i) <==> OccursAt(t[k..], s, i - k)
  {
    if i + |s| <= |t| {
      assert t[k..][i - k..i - k + |s|] == t[i..i + |s|];
    }
  }

  /** An occurrence in `MASK + u` of text that does not start with `*` lies in `u`. */
  lemma OccursBehindMask(u: string, s: string, i: nat)
    requires s != [] && s[0] != '*' && OccursAt(MASK + u, s, i)
    ensures i >= 3 && OccursAt(u, s, i - 3)
  {
    var t := MASK + u;
    assert t[i] == t[i..i + |s|][0] == s[0];
    assert i >= 3;
    OccursShift(t, s, 3, i);
    assert t[3..] == u;
  }

  /** Every occurrence of mask-proof text after a replacement was there before it, or the replacement
      would have cut through it. */
  lemma {:induction false} NothingNewAppears(t: string, s: string, u: string, i: nat) returns (j: nat)
    requires s != [] && MaskProof(u)
    requires OccursAt(Replace(t, s), u, i)
    ensures OccursAt(t, u, j)
    ensures i == 0 && (|t| < |s| || t[..|s|] != s) ==> j == 0
    decreases |t|
  {
    hide MaskProof;
    MaskProofMeans(u);
    if |t| < |s| {
      j := i;
    } else if t[..|s|] == s {
      OccursBehindMask(Replace(t[|s|..], s), u, i);
      var k := NothingNewAppears(t[|s|..], s, u, i - 3);
      j := k + |s|;
      OccursShift(t, u, |s|, j);
    } else if i > 0 {
      OccursShift(Replace(t, s), u, 1, i);
      assert Replace(t, s)[1..] == Replace(t[1..], s);
      var k := NothingNewAppears(t[1..], s, u, i - 1);
      j := k + 1;
      OccursShift(t, u, 1, j);
    } else {
      PrefixSurvives(t, s, u);
      j := 0;
    }
  }

  lemma MaskProofMeans(s: string)
    requires MaskProof(s)
    ensures s != [] && s[0] != '*' && UnmaskedEnd(s)
  {
  }

  /** The text does not hold the mask and does not end in a part of one. */
  ghost predicate UnmaskedEnd(s: string) {
    !Contains(s, MASK) && (s != [] ==> s[|s| - 1] != '*')
  }

  lemma UnmaskedTail(s: string)
    requires s != [] && UnmaskedEnd(s)
    ensures UnmaskedEnd(s[1..])
  {
    forall i: nat ensures !OccursAt(s[1..], MASK, i) {
      OccursShift(s, MASK, 1, i + 1);
    }
  }

  lemma MaskStartIsMasked(s: string, rest: string)
    requires s != [] && s <= MASK + rest
    ensures !UnmaskedEnd(s)
  {
    if |s| >= 3 {
      assert s[0..3] == (MASK + rest)[..3] == MASK;
      assert OccursAt(s, MASK, 0);
    } else {
      assert s[|s| - 1] == (MASK + rest)[|s| - 1] == '*';
    }
  }

  lemma {:induction false} PrefixSurvives(t: string, s: string, u: string)
    requires s != [] && UnmaskedEnd(u) && u <= Replace(t, s)
    ensures u <= t
    decreases |t|
  {
    hide UnmaskedEnd;
    if u != [] && |t| >= |s| {
      if t[..|s|] == s {
        MaskStartIsMasked(u, Replace(t[|s|..], s));
      } else {
        assert u[0] == Replace(t, s)[0];
        assert Replace(t, s)[1..] == Replace(t[1..], s);
        assert u[1..] <= Replace(t[1..], s);
        UnmaskedTail(u);
        PrefixSurvives(t[1..], s, u[1..]);
      }
    }
  }

  /** After its own replacement a mask-proof secret is gone. */
  lemma {:induction false} ReplacedIsGone(t: string, s: string, i: nat)
    requires MaskProof(s)
    ensures !OccursAt(Replace(t, s), s, i)
    decreases |t|
  {
    hide MaskProof;
    MaskProofMeans(s);
    if OccursAt(Replace(t, s), s, i) {
      if |t| < |s| {
      } else if t[..|s|] == s {
        OccursBehindMask(Replace(t[|s|..], s), s, i);
        ReplacedIsGone(t[|s|..], s, i - 3);
      } else if i > 0 {
        OccursShift(Replace(t, s), s, 1, i);
        assert Replace(t, s)[1..] == Replace(t[1..], s);
        ReplacedIsGone(t[1..], s, i - 1);
      } else {
        PrefixSurvives(t, s, s);
      }
    }
  }

  lemma {:induction false} ReplaceAbsent(t: string, s: string)
    requires s != [] && !Contains(t, s)
    ensures Replace(t, s) == t
    decreases |t|
  {
    if |t| >= |s| {
      assert t[0..|s|] == t[..|s|];
      assert !OccursAt(t, s, 0);
      forall i: nat ensures !OccursAt(t[1..], s, i) {
        OccursShift(t, s, 1, i + 1);
      }
      ReplaceAbsent(t[1..], s);
    }
  }

  // ----- all secrets -----------------------------------------------------------------------

  predicate Nonempty(secrets: seq<string>) {
    forall k | 0 <= k < |secrets| :: secrets[k] != []
  }

  /** The redactor's loop as a function: one replacement per secret, in order. */
  function RedactWith(t: string, secrets: seq<string>): string
    requires Nonempty(secrets)
  {
    if secrets == [] then t
    else Replace(RedactWith(t, secrets[..|secrets| - 1]), secrets[|secrets| - 1])
  }

  method Redact(text: string, secrets: seq<string>) returns (r: string)
    requires Nonempty(secrets)
    ensures r == RedactWith(text, secrets)
  {
    r := text;
    for n := 0 to |secrets|
      invariant r == RedactWith(text, secrets[..n])
    {
      assert secrets[..n + 1][..n] == secrets[..n];
      r := Replace(r, secrets[n]);
    }
    assert secrets[..|secrets|] == secrets;
  }

  /** A mask-proof secret occurs nowhere in the output, whatever the other secrets are and however they
      are ordered and overlap. */
  lemma {:induction false} NoSecretSurvives(t: string, secrets: seq<string>, k: nat)
    requires Nonempty(secrets) && k < |secrets| && MaskProof(secrets[k])
    ensures !Contains(RedactWith(t, secrets), secrets[k])
    decreases |secrets|
  {
    hide MaskProof;
    var n := |secrets| - 1;
    var before := RedactWith(t, secrets[..n]);
    if exists i: nat :: OccursAt(RedactWith(t, secrets), secrets[k], i) {
      var i: nat :| OccursAt(RedactWith(t, secrets), secrets[k], i);
      if k == n {
        ReplacedIsGone(before, secrets[n], i);
      } else {
        NoSecretSurvives(t, secrets[..n], k);
        var j := NothingNewAppears(before, secrets[n], secrets[k], i);
      }
    }
  }

  /** So is any secret that holds a mask-proof one. */
  lemma NorOneHoldingIt(t: string, secrets: seq<string>, k: nat, u: string)
    requires Nonempty(secrets) && k < |secrets| && MaskProof(secrets[k]) && Contains(u, secrets[k])
    ensures !Contains(RedactWith(t, secrets), u)
  {
    NoSecretSurvives(t, secrets, k);
    hide MaskProof, RedactWith;
    var i: nat :| OccursAt(u, secrets[k], i);
    forall j: nat ensures !OccursAt(RedactWith(t, secrets), u, j) {
      PartOccurs(RedactWith(t, secrets), u, secrets[k], j, i);
    }
  }

  /** Text that holds no secret is returned as it is. */
  lemma {:induction false} CleanTextUnchanged(t: string, secrets: seq<string>)
    requires Nonempty(secrets) && forall j | 0 <= j < |secrets| :: !Contains(t, secrets[j])
    ensures RedactWith(t, secrets) == t
    decreases |secrets|
  {
    if secrets != [] {
      CleanTextUnchanged(t, secrets[..|secrets| - 1]);
      ReplaceAbsent(t, secrets[|secrets| - 1]);
    }
  }

  // ----- the condition is exact ------------------------------------------------------------

  lemma CharacterAt(t: string, s: string, i: nat, k: nat)
    requires k < |s|
    ensures OccursAt(t, s, i) ==> i + k < |t| && t[i + k] == s[k]
  {
    if OccursAt(t, s, i) {
      assert t[i..i + |s|][k] == t[i + k];
    }
  }

  lemma PartOccurs(t: string, s: string, u: string, j: nat, i: nat)
    requires OccursAt(s, u, i)
    ensures OccursAt(t, s, j) ==> OccursAt(t, u, i + j)
  {
    if OccursAt(t, s, j) {
      forall k | 0 <= k < |u| ensures t[i + j..i + j + |u|][k] == u[k] {
        assert s[i..i + |u|][k] == s[i + k] == t[j..j + |s|][i + k];
      }
    }
  }

  /** With no earlier occurrence of the secret, replacing starts at the one given. */
  lemma {:induction false} ReplaceFirst(p: string, s: string, q: string)
    requires s != [] && forall j: nat | j < |p| :: !OccursAt(p + s + q, s, j)
    ensures Replace(p + s + q, s) == p + MASK + Replace(q, s)
    decreases |p|
  {
    var t := p + s + q;
    if p == [] {
      assert t[..|s|] == s && t[|s|..] == q;
    } else {
      assert !OccursAt(t, s, 0);
      assert t[0..|s|] == t[..|s|];
      assert t[1..] == p[1..] + s + q;
      forall j: nat | j < |p| - 1 ensures !OccursAt(t[1..], s, j) {
        OccursShift(t, s, 1, j + 1);
      }
      ReplaceFirst(p[1..], s, q);
    }
  }

  lemma ShortUnchanged(t: string, s: string)
    requires s != [] && |t| < |s|
    ensures Replace(t, s) == t
  {
  }

  /** A secret that starts with `*`: the last of a mask's stars, and the rest of the secret behind it. */
  lemma LeadingStarSurvives(s: string)
    requires s != [] && s[0] == '*'
    ensures Contains(Replace(s + s[1..], s), s)
  {
    ReplaceFirst([], s, s[1..]);
    ShortUnchanged(s[1..], s);
    assert [] + s + s[1..] == s + s[1..];
    var r := MASK + s[1..];
    assert Replace(s + s[1..], s) == r;
    assert r[2..2 + |s|] == s;
    assert OccursAt(r, s, 2);
  }

  lemma TrailingStarOccursOnce(s: string, j: nat)
    requires s != [] && s[0] != '*' && s[|s| - 1] == '*' && j < |s| - 1
    ensures !OccursAt(s[..|s| - 1] + s, s, j)
  {
    var m := |s| - 1;
    var t := s[..m] + s;
    assert t[j] == s[j] && t[j + m] == s[j];
    CharacterAt(t, s, j, 0);
    CharacterAt(t, s, j, m);
  }

  /** One that ends with `*`: the secret's start, and the first of a mask's stars behind it. */
  lemma TrailingStarSurvives(s: string)
    requires s != [] && s[0] != '*' && s[|s| - 1] == '*'
    ensures Contains(Replace(s[..|s| - 1] + s, s), s)
  {
    hide Replace;
    var p := s[..|s| - 1];
    assert p + s + [] == p + s;
    forall j: nat | j < |p| ensures !OccursAt(p + s + [], s, j) {
      TrailingStarOccursOnce(s, j);
    }
    ReplaceFirst(p, s, []);
    ShortUnchanged([], s);
    var r := p + MASK + [];
    assert r[0..|s|] == s;
    assert OccursAt(r, s, 0);
  }

  /** One that holds the mask: its own two ends around a replaced copy of it. */
  lemma HeldMaskSurvives(s: string, i: nat)
    requires OccursAt(s, MASK, i) && forall j: nat | j < i :: !OccursAt(s, MASK, j)
    ensures Contains(Replace(s[..i] + s + s[i + 3..], s), s)
  {
    hide Replace;
    var p, q := s[..i], s[i + 3..];
    var t := p + s + q;
    forall j: nat | j < i ensures !OccursAt(t, s, j) {
      assert |MASK| == 3 && t[i + j..i + j + 3] == s[j..j + 3];
      assert OccursAt(t, MASK, i + j) <==> OccursAt(s, MASK, j);
      PartOccurs(t, s, MASK, j, i);
    }
    ReplaceFirst(p, s, q);
    ShortUnchanged(q, s);
    var r := p + MASK + q;
    assert s == r;
    assert r[0..|s|] == s;
    assert OccursAt(r, s, 0);
  }

  lemma {:induction false} FirstOccurrence(t: string, s: string, i: nat) returns (k: nat)
    requires OccursAt(t, s, i)
    ensures OccursAt(t, s, k) && forall j: nat | j < k :: !OccursAt(t, s, j)
    decreases i
  {
    if j: nat :| j < i && OccursAt(t, s, j) {
      k := FirstOccurrence(t, s, j);
    } else {
      k := i;
    }
  }

  /** A text in which the secret outlives its own replacement, for every secret that is not mask-proof. */
  lemma SurvivesUnlessMaskProof(s: string) returns (t: string)
    requires s != [] && !MaskProof(s)
    ensures Contains(Replace(t, s), s)
  {
    if s[0] == '*' {
      t := s + s[1..];
      LeadingStarSurvives(s);
    } else if s[|s| - 1] == '*' {
      t := s[..|s| - 1] + s;
      TrailingStarSurvives(s);
    } else {
      var i: nat :| OccursAt(s, MASK, i);
      i := FirstOccurrence(s, MASK, i);
      t := s[..i] + s + s[i + 3..];
      HeldMaskSurvives(s, i);
    }
  }

  /** Replacing the secret in any text at all removes it. */
  ghost predicate AlwaysGone(s: string)
    requires s != []
  {
    forall t: string :: !Contains(Replace(t, s), s)
  }

  /** One secret: it is gone from every text exactly when it is mask-proof. */
  lemma GoneIffMaskProof(s: string)
    requires s != []
    ensures AlwaysGone(s) <==> MaskProof(s)
  {
    if MaskProof(s) {
      forall t: string ensures !Contains(Replace(t, s), s) {
        forall i: nat ensures !OccursAt(Replace(t, s), s, i) {
          ReplacedIsGone(t, s, i);
        }
      }
    } else {
      hide MaskProof, Contains;
      var t := SurvivesUnlessMaskProof(s);
      assert !AlwaysGone(s);
    }
  }

  /** Registering the secret, with whatever others and in whatever place, removes it from every text. */
  ghost predicate GoneInEveryList(s: string) {
    forall secrets: seq<string>, k: nat, t: string | Nonempty(secrets) && k < |secrets| && secrets[k] == s ::
      !Contains(RedactWith(t, secrets), secrets[k])
  }

  /** That holds exactly for the mask-proof secrets. */
  lemma GoneInEveryListIffMaskProof(s: string)
    requires s != []
    ensures GoneInEveryList(s) <==> MaskProof(s)
  {
    if MaskProof(s) {
      forall secrets: seq<string>, k: nat, t: string | Nonempty(secrets) && k < |secrets| && secrets[k] == s
        ensures !Contains(RedactWith(t, secrets), secrets[k])
      {
        NoSecretSurvives(t, secrets, k);
      }
    } else {
      hide MaskProof, Contains;
      var t := SurvivesUnlessMaskProof(s);
      assert [s][..0] == [] && RedactWith(t, [s]) == Replace(t, s);
      assert Nonempty([s]) && [s][0] == s;
      assert !GoneInEveryList(s);
    }
  }

  /** Text without stars never brings the mask into play by itself. */
  lemma StarFreeIsMaskProof(s: string)
    requires s != [] && StarFree(s)
    ensures MaskProof(s)
  {
    forall i: nat ensures !OccursAt(s, MASK, i) {
      CharacterAt(s, MASK, i, 0);
    }
  }

  lemma StarBeyondText(t: string, s: string)
    requires s != [] && s[0] == '*' && StarFree(t)
    ensures !Contains(t, s)
  {
    forall i: nat ensures !OccursAt(t, s, i) {
      CharacterAt(t, s, i, 0);
    }
  }

  /** One secret's mask can put another together that has already been looked for, although the text held
      no such secret. */
  lemma MaskCompletesAnother(a: string, b: string)
    requires b != [] && StarFree(b) && |a| < |b| && StarFree(a)
    ensures !Contains(b + a, MASK + a) && RedactWith(b + a, [MASK + a, b]) == MASK + a
  {
    var s := MASK + a;
    StarBeyondText(b + a, s);
    ReplaceAbsent(b + a, s);
    ReplaceFirst([], b, a);
    assert [] + b + a == b + a && [] + MASK + a == MASK + a;
    assert [s, b][..1] == [s] && [s][..0] == [];
    assert RedactWith(b + a, [s]) == Replace(RedactWith(b + a, []), s);
  }

  // ----- registering secrets ---------------------------------------------------------------

  /** Adds a value, and its URL-decoded form when that differs; short values are left out. */
  method RegisterSecret(out: seq<string>, value: Option<string>, unquote: string -> string) returns (r: seq<string>)
    requires Nonempty(out) && forall s | s != [] :: unquote(s) != []
    ensures Nonempty(r) && out <= r
    ensures forall s | s in r :: s in out || (value.Some? && |value.value| >= MIN_SECRET_LEN && s in {value.value, unquote(value.value)})
    ensures value.Some? && |value.value| >= MIN_SECRET_LEN ==> value.value in r && unquote(value.value) in r
  {
    r := out;
    if value.None? || |value.value| < MIN_SECRET_LEN {
      return;
    }
    r := r + [value.value];
    var decoded := unquote(value.value);
    if decoded != value.value {
      r := r + [decoded];
    }
  }
}
