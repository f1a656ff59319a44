/** Facts about finite sequences that several models share. */
module Sequences {

  datatype Option<+T> = None | Some(value: T)

  ghost predicate NoDup<T>(s: seq<T>) {
    forall i, j | 0 <= i < j < |s| :: s[i] != s[j]
  }

  function ToSet<T>(s: seq<T>): (r: set<T>)
    ensures forall x | x in s :: x in r
    ensures forall x | x in r :: x in s
  {
    set x | x in s
  }

  /** The distinct elements of `s`, each at the place it is first met: the key order of a dict. */
  function FirstSeen<T(==, !new)>(s: seq<T>): (r: seq<T>)
    ensures forall x :: x in r <==> x in s
    ensures NoDup(r)
    ensures |r| <= |s|
  {
    if s == [] then []
    else
      var n := |s| - 1;
      var r := FirstSeen(s[..n]);
      assert s == s[..n] + [s[n]];
      if s[n] in r then r else r + [s[n]]
  }

  lemma FirstSeenSnoc<T(!new)>(s: seq<T>, x: T)
    ensures FirstSeen(s + [x]) == if x in s then FirstSeen(s) else FirstSeen(s) + [x]
  {
    assert (s + [x])[..|s|] == s;
  }

  /** Each element stands behind exactly those that are met before it is. */
  lemma {:induction false} FirstSeenAt<T(!new)>(s: seq<T>, i: nat) returns (k: nat)
    requires i < |FirstSeen(s)|
    ensures k < |s| && s[k] == FirstSeen(s)[i] && s[k] !in s[..k] && FirstSeen(s[..k]) == FirstSeen(s)[..i]
  {
    var n := |s| - 1;
    assert s == s[..n] + [s[n]];
    if i < |FirstSeen(s[..n])| {
      k := FirstSeenAt(s[..n], i);
      assert s[..n][..k] == s[..k];
    } else {
      k := n;
    }
  }

  lemma {:induction false} FirstSeenOfDistinct<T(!new)>(s: seq<T>)
    requires NoDup(s)
    ensures FirstSeen(s) == s
  {
    if s != [] {
      var n := |s| - 1;
      FirstSeenOfDistinct(s[..n]);
      assert s == s[..n] + [s[n]];
    }
  }

  lemma DistinctConcat<T>(a: seq<T>, b: seq<T>)
    requires NoDup(a) && NoDup(b)
    requires forall i, j | 0 <= i < |a| && 0 <= j < |b| :: a[i] != b[j]
    ensures NoDup(a + b)
  {
  }

  lemma {:induction false} NoDupMultiset<T>(s: seq<T>, x: T)
    requires NoDup(s)
    ensures multiset(s)[x] == if x in s then 1 else 0
  {
    if s != [] {
      var n := |s| - 1;
      NoDupMultiset(s[..n], x);
      assert s == s[..n] + [s[n]];
    }
  }

  lemma RepeatCounts<T>(s: seq<T>, i: nat, j: nat)
    requires i < j < |s| && s[i] == s[j]
    ensures multiset(s)[s[i]] >= 2
  {
    assert s == s[..j] + s[j..];
    assert s[i] == s[..j][i] && s[j] == s[j..][0];
    assert multiset(s) == multiset(s[..j]) + multiset(s[j..]);
  }

  lemma MultisetNoDup<T>(s: seq<T>)
    requires forall x | x in s :: multiset(s)[x] == 1
    ensures NoDup(s)
  {
    forall i, j | 0 <= i < j < |s| ensures s[i] != s[j] {
      if s[i] == s[j] {
        RepeatCounts(s, i, j);
      }
    }
  }

  lemma {:induction false} NoDupCardinality<T>(s: seq<T>)
    requires NoDup(s)
    ensures |ToSet(s)| == |s|
  {
    if s != [] {
      var n := |s| - 1;
      NoDupCardinality(s[..n]);
      assert s == s[..n] + [s[n]];
      assert ToSet(s) == ToSet(s[..n]) + {s[n]};
    }
  }

  lemma SubsetCardinality<T>(a: set<T>, b: set<T>)
    requires a <= b
    ensures |a| <= |b|
    ensures |a| == |b| ==> a == b
  {
    assert b == a + (b - a);
  }

  /** The counting argument: as many distinct things as there are, none missing, none foreign. */
  lemma EqualCountsPermute<T(!new)>(a: seq<T>, b: seq<T>)
    requires NoDup(a) && NoDup(b) && |a| == |b|
    requires forall x | x in a :: x in b
    ensures multiset(a) == multiset(b)
  {
    NoDupCardinality(a);
    NoDupCardinality(b);
    SubsetCardinality(ToSet(a), ToSet(b));
    forall x ensures multiset(a)[x] == multiset(b)[x] {
      NoDupMultiset(a, x);
      NoDupMultiset(b, x);
      assert x in a <==> x in ToSet(a);
      assert x in b <==> x in ToSet(b);
    }
  }

  /** `Counter(xs)`. */
  method CountAll<T(==, !new)>(xs: seq<T>) returns (counts: map<T, nat>)
    ensures forall x :: x in counts <==> x in xs
    ensures forall x | x in counts :: counts[x] == multiset(xs)[x]
  {
    counts := map[];
    for n := 0 to |xs|
      invariant forall x :: x in counts <==> x in xs[..n]
      invariant forall x | x in counts :: counts[x] == multiset(xs[..n])[x]
    {
      var x := xs[n];
      assert xs[..n + 1] == xs[..n] + [x];
      counts := counts[x := if x in counts then counts[x] + 1 else 1];
    }
    assert xs[..|xs|] == xs;
  }

  /** The elements of `xs` tagged `want`, in order. */
  function Pick<T, L(==)>(xs: seq<T>, tags: seq<L>, want: L): (r: seq<T>)
    requires |xs| == |tags|
    ensures forall x | x in r :: exists i :: 0 <= i < |xs| && xs[i] == x && tags[i] == want
    ensures forall i | 0 <= i < |xs| && tags[i] == want :: xs[i] in r
    ensures |r| <= |xs|
  {
    if xs == [] then []
    else
      var n := |xs| - 1;
      var r := Pick(xs[..n], tags[..n], want);
      assert forall i | 0 <= i < n :: xs[..n][i] == xs[i] && tags[..n][i] == tags[i];
      if tags[n] == want then r + [xs[n]] else r
  }

  lemma PickSnoc<T, L>(xs: seq<T>, tags: seq<L>, x: T, tag: L, want: L)
    requires |xs| == |tags|
    ensures Pick(xs + [x], tags + [tag], want) ==
            if tag == want then Pick(xs, tags, want) + [x] else Pick(xs, tags, want)
  {
    assert (xs + [x])[..|xs|] == xs && (tags + [tag])[..|xs|] == tags;
  }

  // ----- the elements of a set of numbers, in order ----------------------------------------

  ghost predicate IsLeast(s: set<nat>, m: nat) {
    m in s && forall x | x in s :: m <= x
  }

  lemma {:induction false} LeastExists(s: set<nat>) returns (m: nat)
    requires s != {}
    ensures IsLeast(s, m)
  {
    var y :| y in s;
    if s == {y} {
      m := y;
    } else {
      var rest := LeastExists(s - {y});
      m := if y <= rest then y else rest;
      assert forall x | x in s :: x == y || x in s - {y};
    }
  }

  function Least(s: set<nat>): (m: nat)
    requires s != {}
    ensures IsLeast(s, m)
  {
    assert exists m: nat :: IsLeast(s, m) by {
      var m := LeastExists(s);
    }
    var m: nat :| m in s && forall x | x in s :: m <= x;
    m
  }

  ghost predicate Ascending(s: seq<nat>) {
    forall i, j | 0 <= i < j < |s| :: s[i] < s[j]
  }

  function Ordered(s: set<nat>): (r: seq<nat>)
    ensures forall x :: x in r <==> x in s
    ensures Ascending(r)
  {
    if s == {} then []
    else
      var m := Least(s);
      var r := Ordered(s - {m});
      assert forall i | 0 <= i < |r| :: r[i] in r && r[i] > m;
      [m] + r
  }

  lemma OrderedStep(s: set<nat>, m: nat)
    requires IsLeast(s, m)
    ensures Ordered(s) == [m] + Ordered(s - {m})
  {
    assert Least(s) == m;
  }

  lemma {:induction false} OrderedWithLast(s: set<nat>, last: nat)
    requires forall x | x in s :: x < last
    ensures Ordered(s + {last}) == Ordered(s) + [last]
    decreases |s|
  {
    hide Ordered, IsLeast, Ascending;
    if s == {} {
      OrderedOne(last);
      assert s + {last} == {last} && [] + [last] == [last];
    } else {
      var m := Least(s);
      LeastWithLast(s, last, m);
      OrderedStep(s, m);
      OrderedStep(s + {last}, m);
      OrderedWithLast(s - {m}, last);
      ConcatAssociates([m], Ordered(s - {m}), [last]);
    }
  }

  lemma OrderedOne(m: nat)
    ensures Ordered({m}) == [m] && Ordered({}) == []
  {
    OrderedStep({m}, m);
    assert {m} - {m} == {};
  }

  lemma LeastWithLast(s: set<nat>, last: nat, m: nat)
    requires IsLeast(s, m) && forall x | x in s :: x < last
    ensures IsLeast(s + {last}, m) && m in s && s + {last} - {m} == (s - {m}) + {last}
  {
  }

  lemma ConcatAssociates<T>(a: seq<T>, b: seq<T>, c: seq<T>)
    ensures a + (b + c) == (a + b) + c
  {
  }
}
