/** The order of strings, character by character, and of tuples of them. */
module TextOrder {

  /** Negative, zero or positive, as `a` comes before, with or after `b`. */
  function CompareText(a: string, b: string): (c: int)
    ensures c == 0 <==> a == b
  {
    if a == [] then if b == [] then 0 else -1
    else if b == [] || a[0] > b[0] then 1
    else if a[0] < b[0] then -1
    else
      assert a == [a[0]] + a[1..] && b == [b[0]] + b[1..];
      CompareText(a[1..], b[1..])
  }

  /** `a` comes before `b`: it is a proper beginning of it, or has the smaller character where they first differ. */
  ghost predicate Before(a: string, b: string) {
    exists k: nat :: DiffersAt(a, b, k) && (k == |a| || a[k] < b[k])
  }

  ghost predicate DiffersAt(a: string, b: string, k: nat) {
    k <= |a| && k < |b| && a[..k] == b[..k] && (k < |a| ==> a[k] != b[k])
  }

  lemma {:induction false} CompareTextMeaning(a: string, b: string)
    ensures CompareText(a, b) < 0 <==> Before(a, b)
    ensures CompareText(a, b) > 0 <==> Before(b, a)
  {
    if a != [] && b != [] && a[0] == b[0] {
      CompareTextMeaning(a[1..], b[1..]);
      BehindFirst(a, b);
      BehindFirst(b, a);
    } else {
      assert a[..0] == b[..0] == [];
      FirstDecides(a, b);
      FirstDecides(b, a);
    }
  }

  lemma FrontAndRest(s: string, k: nat)
    requires k < |s|
    ensures s[..k + 1] == [s[0]] + s[1..][..k] && s[..k + 1][1..] == s[1..][..k]
  {
  }

  lemma BehindFirst(a: string, b: string)
    requires a != [] && b != [] && a[0] == b[0]
    ensures Before(a, b) <==> Before(a[1..], b[1..])
  {
    forall k: nat ensures DiffersAt(a, b, k + 1) <==> DiffersAt(a[1..], b[1..], k) {
      if k < |a| && k < |b| {
        FrontAndRest(a, k);
        FrontAndRest(b, k);
      }
    }
    if Before(a, b) {
      var k: nat :| DiffersAt(a, b, k) && (k == |a| || a[k] < b[k]);
      assert DiffersAt(a[1..], b[1..], k - 1);
    }
    if Before(a[1..], b[1..]) {
      var k: nat :| DiffersAt(a[1..], b[1..], k) && (k == |a[1..]| || a[1..][k] < b[1..][k]);
      assert DiffersAt(a, b, k + 1);
    }
  }

  lemma FirstDecides(a: string, b: string)
    requires a == [] || b == [] || a[0] != b[0]
    ensures Before(a, b) <==> b != [] && (a == [] || a[0] < b[0])
  {
    if b != [] {
      assert a[..0] == b[..0];
      assert DiffersAt(a, b, 0);
      forall k: nat ensures DiffersAt(a, b, k) ==> k == 0 {
        if 0 < k <= |a| && k <= |b| {
          assert a[..k][0] == a[0] && b[..k][0] == b[0];
        }
      }
    }
  }

  lemma {:induction false} CompareTextFlips(a: string, b: string)
    ensures CompareText(a, b) == -CompareText(b, a)
  {
    if a != [] && b != [] && a[0] == b[0] {
      CompareTextFlips(a[1..], b[1..]);
    }
  }

  lemma {:induction false} CompareTextChains(a: string, b: string, c: string)
    requires CompareText(a, b) <= 0 && CompareText(b, c) <= 0
    ensures CompareText(a, c) <= 0
  {
    if a != [] && b != [] && c != [] && a[0] == b[0] && b[0] == c[0] {
      CompareTextChains(a[1..], b[1..], c[1..]);
    }
  }

  /** The same at every step of a chain of tuples: it goes on at or below, and ends level only when level
      throughout. */
  predicate Chains(ab: int, bc: int, ac: int) {
    ab <= 0 && bc <= 0 ==> ac <= 0 && (ac == 0 ==> ab == 0 && bc == 0)
  }

  lemma TextChains(a: string, b: string, c: string)
    ensures Chains(CompareText(a, b), CompareText(b, c), CompareText(a, c))
  {
    CompareTextFlips(b, c);
    if CompareText(a, b) <= 0 && CompareText(b, c) <= 0 {
      CompareTextChains(a, b, c);
      CompareTextFlips(a, b);
    }
  }

  lemma ThenChains(ab: int, bc: int, ac: int, ab': int, bc': int, ac': int)
    requires Chains(ab, bc, ac) && Chains(ab', bc', ac')
    requires ab == 0 && bc == 0 ==> ac == 0
    ensures Chains(Then(ab, ab'), Then(bc, bc'), Then(ac, ac'))
  {
  }

  /** The first difference of two tuples decides. */
  function Then(first: int, second: int): int {
    if first != 0 then first else second
  }
}
