/** The hand-written dpkg version comparison of the vulnerability register.

    The program walks two strings with two cursors. This module gives every version a key that
    does not mention the other operand, and proves that the walk compares the two keys: the order
    laws then hold because they hold of keys. Characters are classified as ASCII. */
module DebianVersion {

  predicate IsDigit(c: char) {
    '0' <= c <= '9'
  }

  predicate IsAlpha(c: char) {
    'a' <= c <= 'z' || 'A' <= c <= 'Z'
  }

  /** Whitespace as `str.strip` sees it on ASCII text. */
  predicate IsSpace(c: char) {
    c == ' ' || 9 <= c as int <= 13 || 28 <= c as int <= 31
  }

  function Order(c: char): int {
    if c == '~' then -1
    else if IsDigit(c) then 0
    else if IsAlpha(c) then c as int
    else c as int + 256
  }

  /** Two characters collate alike only when they are the same character, or both digits. */
  lemma OrderSeparates(c: char, d: char)
    ensures Order(c) == 0 <==> IsDigit(c)
    ensures !IsDigit(c) && Order(c) == Order(d) ==> c == d
    ensures IsAlpha(c) && !IsAlpha(d) && !IsDigit(d) && d != '~' ==> Order('~') < 0 < Order(c) < Order(d)
  {
  }

  // ----- numbers ---------------------------------------------------------------------------

  /** The length of the digit run `s` opens with. */
  function DigitRun(s: string): (n: nat)
    ensures n <= |s|
    ensures forall k | 0 <= k < n :: IsDigit(s[k])
    ensures n < |s| ==> !IsDigit(s[n])
  {
    if s == [] || !IsDigit(s[0]) then 0 else 1 + DigitRun(s[1..])
  }

  function DigitValue(c: char): nat
    requires IsDigit(c)
  {
    c as int - '0' as int
  }

  predicate AllDigits(s: string) {
    forall k | 0 <= k < |s| :: IsDigit(s[k])
  }

  /** `int(s or 0)` on a run of digits. */
  function NumberOf(s: string): nat
    requires AllDigits(s)
  {
    if s == [] then 0 else 10 * NumberOf(s[..|s| - 1]) + DigitValue(s[|s| - 1])
  }

  // ----- the canonical key -----------------------------------------------------------------

  /** The key of a version part: each non-digit run as collation weights ended by 0, each digit run
      as its number, in turn. Read as if followed by endless zeros, which is what makes an absent
      run, the end of the string and the number 0 alike. */
  function RunKey(s: string): seq<int>
    decreases |s|, 1
  {
    if s == [] then []
    else if IsDigit(s[0]) then [0] + NumberKey(s)
    else [Order(s[0])] + RunKey(s[1..])
  }

  function NumberKey(s: string): seq<int>
    requires s != [] && IsDigit(s[0])
    decreases |s|, 0
  {
    var n := DigitRun(s);
    [NumberOf(s[..n])] + RunKey(s[n..])
  }

  function At(x: seq<int>, k: nat): int {
    if k < |x| then x[k] else 0
  }

  function Tail(x: seq<int>): seq<int> {
    if x == [] then [] else x[1..]
  }

  /** Lexicographic comparison of two keys, each followed by endless zeros. */
  function PadCompare(x: seq<int>, y: seq<int>): int
    decreases |x| + |y|
  {
    if x == [] && y == [] then 0
    else if At(x, 0) < At(y, 0) then -1
    else if At(x, 0) > At(y, 0) then 1
    else PadCompare(Tail(x), Tail(y))
  }

  ghost predicate AgreeBelow(x: seq<int>, y: seq<int>, k: nat) {
    forall i: nat | i < k :: At(x, i) == At(y, i)
  }

  /** `x` sorts before `y`: at the first place they differ, `x` has the smaller weight. */
  ghost predicate Precedes(x: seq<int>, y: seq<int>) {
    exists k: nat :: AgreeBelow(x, y, k) && At(x, k) < At(y, k)
  }

  ghost predicate Alike(x: seq<int>, y: seq<int>) {
    forall k: nat :: At(x, k) == At(y, k)
  }

  lemma TailAt(x: seq<int>, k: nat)
    ensures At(Tail(x), k) == At(x, k + 1)
  {
  }

  lemma PrecedesTail(x: seq<int>, y: seq<int>)
    requires At(x, 0) == At(y, 0)
    ensures Precedes(x, y) <==> Precedes(Tail(x), Tail(y))
  {
    forall k: nat ensures At(Tail(x), k) == At(x, k + 1) && At(Tail(y), k) == At(y, k + 1) {
    }
    if Precedes(x, y) {
      var k: nat :| AgreeBelow(x, y, k) && At(x, k) < At(y, k);
      assert AgreeBelow(Tail(x), Tail(y), k - 1);
      assert At(Tail(x), k - 1) < At(Tail(y), k - 1);
    }
    if Precedes(Tail(x), Tail(y)) {
      var k: nat :| AgreeBelow(Tail(x), Tail(y), k) && At(Tail(x), k) < At(Tail(y), k);
      forall i: nat | i < k + 1 ensures At(x, i) == At(y, i) {
        if i > 0 {
          assert At(Tail(x), i - 1) == At(Tail(y), i - 1);
        }
      }
      assert AgreeBelow(x, y, k + 1);
    }
  }

  lemma AlikeTail(x: seq<int>, y: seq<int>)
    requires At(x, 0) == At(y, 0)
    ensures Alike(x, y) <==> Alike(Tail(x), Tail(y))
  {
    if Alike(Tail(x), Tail(y)) {
      forall k: nat ensures At(x, k) == At(y, k) {
        if k > 0 {
          TailAt(x, k - 1);
          TailAt(y, k - 1);
        }
      }
    }
    if Alike(x, y) {
      forall k: nat ensures At(Tail(x), k) == At(Tail(y), k) {
        TailAt(x, k);
        TailAt(y, k);
        assert At(x, k + 1) == At(y, k + 1);
      }
    }
  }

  /** The recursive comparison decides the first difference, for all keys. */
  lemma {:induction false} PadCompareMeaning(x: seq<int>, y: seq<int>)
    ensures PadCompare(x, y) == -1 <==> Precedes(x, y)
    ensures PadCompare(x, y) == 1 <==> Precedes(y, x)
    ensures PadCompare(x, y) == 0 <==> Alike(x, y)
    ensures -1 <= PadCompare(x, y) <= 1
    decreases |x| + |y|
  {
    if x == [] && y == [] {
    } else if At(x, 0) != At(y, 0) {
      assert AgreeBelow(x, y, 0) && AgreeBelow(y, x, 0);
      assert forall k: nat :: AgreeBelow(x, y, k) ==> k == 0;
      assert forall k: nat :: AgreeBelow(y, x, k) ==> k == 0;
    } else {
      PadCompareMeaning(Tail(x), Tail(y));
      PrecedesTail(x, y);
      PrecedesTail(y, x);
      AlikeTail(x, y);
    }
  }

  lemma PadReflexive(x: seq<int>)
    ensures PadCompare(x, x) == 0
  {
    PadCompareMeaning(x, x);
  }

  lemma PadAntisymmetric(x: seq<int>, y: seq<int>)
    ensures PadCompare(x, y) == -PadCompare(y, x)
  {
    PadCompareMeaning(x, y);
    PadCompareMeaning(y, x);
  }

  lemma PadTransitive(x: seq<int>, y: seq<int>, z: seq<int>)
    requires PadCompare(x, y) <= 0 && PadCompare(y, z) <= 0
    ensures PadCompare(x, z) <= 0
    ensures PadCompare(x, z) == 0 ==> PadCompare(x, y) == 0 && PadCompare(y, z) == 0
    decreases |x| + |y| + |z|
  {
    PadCompareMeaning(x, y);
    PadCompareMeaning(y, z);
    if x != [] || y != [] || z != [] {
      if At(x, 0) == At(y, 0) == At(z, 0) {
        PadTransitive(Tail(x), Tail(y), Tail(z));
      }
    }
  }

  // ----- the two-cursor comparison ---------------------------------------------------------

  lemma PadStep(x: seq<int>, y: seq<int>)
    ensures At(x, 0) < At(y, 0) ==> PadCompare(x, y) == -1
    ensures At(x, 0) > At(y, 0) ==> PadCompare(x, y) == 1
    ensures At(x, 0) == At(y, 0) ==> PadCompare(x, y) == PadCompare(Tail(x), Tail(y))
  {
  }

  lemma RunKeyHead(s: string, i: nat)
    requires i <= |s|
    ensures i < |s| && !IsDigit(s[i]) ==>
              At(RunKey(s[i..]), 0) == Order(s[i]) && Tail(RunKey(s[i..])) == RunKey(s[i + 1..])
    ensures i == |s| || IsDigit(s[i]) ==> At(RunKey(s[i..]), 0) == 0
  {
    if i < |s| {
      assert s[i..][0] == s[i] && s[i..][1..] == s[i + 1..];
    }
  }

  lemma DigitRunIs(s: string, n: nat)
    requires n <= |s| && AllDigits(s[..n]) && (n < |s| ==> !IsDigit(s[n]))
    ensures DigitRun(s) == n
  {
    assert forall k | 0 <= k < n :: s[k] == s[..n][k] && IsDigit(s[k]);
  }

  lemma KeyOfNumber(s: string, n: nat)
    requires 0 < n <= |s| && AllDigits(s[..n]) && (n < |s| ==> !IsDigit(s[n]))
    ensures RunKey(s) == [0, NumberOf(s[..n])] + RunKey(s[n..])
  {
    DigitRunIs(s, n);
    assert s[0] == s[..n][0];
  }

  lemma TwoTails(x: int, y: int, rest: seq<int>)
    ensures At([x, y] + rest, 0) == x && At(Tail([x, y] + rest), 0) == y
    ensures Tail(Tail([x, y] + rest)) == rest
  {
    assert Tail([x, y] + rest) == [y] + rest;
  }

  /** Reading a (possibly empty) number uses up a zero terminator and one number of the key. */
  lemma NumberStep(s: string, from: nat, to: nat)
    requires from <= to <= |s|
    requires AllDigits(s[from..to])
    requires to < |s| ==> !IsDigit(s[to])
    requires from < |s| ==> IsDigit(s[from])
    ensures At(RunKey(s[from..]), 0) == 0
    ensures At(Tail(RunKey(s[from..])), 0) == NumberOf(s[from..to])
    ensures Tail(Tail(RunKey(s[from..]))) == RunKey(s[to..])
  {
    if from < |s| {
      var t := s[from..];
      var n := to - from;
      assert t[..n] == s[from..to] && t[n..] == s[to..];
      assert t[0] == s[from];
      assert 0 < n;
      KeyOfNumber(t, n);
      TwoTails(0, NumberOf(s[from..to]), RunKey(s[to..]));
    }
  }

  /** What is left to decide with the cursors at `i` and `j`. */
  ghost function Rest(a: string, i: nat, b: string, j: nat): int
    requires i <= |a| && j <= |b|
  {
    PadCompare(RunKey(a[i..]), RunKey(b[j..]))
  }

  function WeightAt(s: string, i: nat): int
    requires i <= |s|
  {
    if i < |s| && !IsDigit(s[i]) then Order(s[i]) else 0
  }

  lemma CharacterStep(a: string, i: nat, b: string, j: nat)
    requires i <= |a| && j <= |b|
    requires (i < |a| && !IsDigit(a[i])) || (j < |b| && !IsDigit(b[j]))
    ensures WeightAt(a, i) < WeightAt(b, j) ==> Rest(a, i, b, j) == -1
    ensures WeightAt(a, i) > WeightAt(b, j) ==> Rest(a, i, b, j) == 1
    ensures WeightAt(a, i) == WeightAt(b, j) ==>
              i < |a| && j < |b| && a[i] == b[j] && Rest(a, i, b, j) == Rest(a, i + 1, b, j + 1)
  {
    RunKeyHead(a, i);
    RunKeyHead(b, j);
    PadStep(RunKey(a[i..]), RunKey(b[j..]));
  }

  lemma NumbersStep(a: string, i: nat, i': nat, b: string, j: nat, j': nat)
    requires i <= i' <= |a| && j <= j' <= |b|
    requires AllDigits(a[i..i']) && AllDigits(b[j..j'])
    requires (i' < |a| ==> !IsDigit(a[i'])) && (j' < |b| ==> !IsDigit(b[j']))
    requires (i < |a| ==> IsDigit(a[i])) && (j < |b| ==> IsDigit(b[j]))
    ensures NumberOf(a[i..i']) < NumberOf(b[j..j']) ==> Rest(a, i, b, j) == -1
    ensures NumberOf(a[i..i']) > NumberOf(b[j..j']) ==> Rest(a, i, b, j) == 1
    ensures NumberOf(a[i..i']) == NumberOf(b[j..j']) ==> Rest(a, i, b, j) == Rest(a, i', b, j')
  {
    var x, y := RunKey(a[i..]), RunKey(b[j..]);
    NumberStep(a, i, i');
    NumberStep(b, j, j');
    PadStep(x, y);
    PadStep(Tail(x), Tail(y));
  }

  /** Compares one version part (upstream or revision), -1, 0 or 1. */
  method ComparePart(a: string, b: string) returns (c: int)
    ensures c == PadCompare(RunKey(a), RunKey(b))
  {
    var i, j := 0, 0;
    assert a[0..] == a && b[0..] == b;
    ghost var answer := Rest(a, 0, b, 0);
    while i < |a| || j < |b|
      invariant i <= |a| && j <= |b|
      invariant answer == Rest(a, i, b, j)
      decreases |a| - i + |b| - j
    {
      var firstDiff := 0;
      while (i < |a| && !IsDigit(a[i])) || (j < |b| && !IsDigit(b[j]))
        invariant i <= |a| && j <= |b| && firstDiff == 0
        invariant answer == Rest(a, i, b, j)
        decreases |a| - i + |b| - j
      {
        var ac := if i < |a| && !IsDigit(a[i]) then Order(a[i]) else 0;
        var bc := if j < |b| && !IsDigit(b[j]) then Order(b[j]) else 0;
        CharacterStep(a, i, b, j);
        if ac != bc {
          firstDiff := if ac < bc then -1 else 1;
          assert firstDiff == answer;
          break;
        }
        if i < |a| && !IsDigit(a[i]) {
          i := i + 1;
        }
        if j < |b| && !IsDigit(b[j]) {
          j := j + 1;
        }
      }
      if firstDiff != 0 {
        return firstDiff;
      }
      var startI, startJ := i, j;
      i := SkipDigits(a, i);
      j := SkipDigits(b, j);
      var na := NumberOf(a[startI..i]);
      var nb := NumberOf(b[startJ..j]);
      NumbersStep(a, startI, i, b, startJ, j);
      if na != nb {
        return if na < nb then -1 else 1;
      }
      if startI == i && startJ == j {
        // Neither side advanced, which happens only when both strings are used up.
        assert i == |a| && j == |b|;
        break;
      }
    }
    return 0;
  }

  /** The two digit-skipping loops of the comparison. */
  method SkipDigits(s: string, from: nat) returns (i: nat)
    requires from <= |s|
    ensures from <= i <= |s|
    ensures AllDigits(s[from..i])
    ensures i < |s| ==> !IsDigit(s[i])
  {
    i := from;
    while i < |s| && IsDigit(s[i])
      invariant from <= i <= |s|
      invariant forall k | from <= k < i :: IsDigit(s[k])
    {
      i := i + 1;
    }
  }

  // ----- what the key means ----------------------------------------------------------------

  lemma {:induction false} KeyOfAppend(p: string, t: string)
    requires t != [] && !IsDigit(t[0])
    ensures RunKey(p + t) == RunKey(p) + RunKey(t)
    decreases |p|
  {
    if p == [] {
      assert p + t == t;
    } else if IsDigit(p[0]) {
      var n := DigitRun(p);
      NumberThenAppend(p, t, n);
      KeyOfAppend(p[n..], t);
      SequenceAssociative([0, NumberOf(p[..n])], RunKey(p[n..]), RunKey(t));
    } else {
      MarkThenAppend(p, t);
      KeyOfAppend(p[1..], t);
      SequenceAssociative([Order(p[0])], RunKey(p[1..]), RunKey(t));
    }
  }

  lemma SequenceAssociative(x: seq<int>, y: seq<int>, z: seq<int>)
    ensures x + (y + z) == (x + y) + z
  {
  }

  lemma MarkThenAppend(p: string, t: string)
    requires p != [] && !IsDigit(p[0])
    ensures RunKey(p) == [Order(p[0])] + RunKey(p[1..])
    ensures RunKey(p + t) == [Order(p[0])] + RunKey(p[1..] + t)
  {
    var w := p + t;
    assert w[0] == p[0] && w[1..] == p[1..] + t;
  }

  lemma AppendSlices(p: string, t: string, n: nat)
    requires n <= |p|
    ensures (p + t)[..n] == p[..n] && (p + t)[n..] == p[n..] + t
  {
  }

  lemma NumberThenAppend(p: string, t: string, n: nat)
    requires 0 < n <= |p| && AllDigits(p[..n])
    requires if n < |p| then !IsDigit(p[n]) else t != [] && !IsDigit(t[0])
    ensures RunKey(p) == [0, NumberOf(p[..n])] + RunKey(p[n..])
    ensures RunKey(p + t) == [0, NumberOf(p[..n])] + RunKey(p[n..] + t)
  {
    KeyOfNumber(p, n);
    AppendSlices(p, t, n);
    KeyOfNumber(p + t, n);
  }

  lemma {:induction false} PadComparePrefix(x: seq<int>, y: seq<int>, z: seq<int>)
    ensures PadCompare(x + y, x + z) == PadCompare(y, z)
  {
    if x == [] {
      assert x + y == y && x + z == z;
    } else {
      assert Tail(x + y) == x[1..] + y && Tail(x + z) == x[1..] + z;
      PadComparePrefix(x[1..], y, z);
    }
  }

  /** `~` sorts below the end of the string, any other mark above it, whatever came before. */
  lemma AppendedMark(p: string, t: string)
    requires t != [] && !IsDigit(t[0])
    ensures PadCompare(RunKey(p + t), RunKey(p)) == if t[0] == '~' then -1 else 1
  {
    KeyOfAppend(p, t);
    PadComparePrefix(RunKey(p), RunKey(t), []);
    assert RunKey(p) + [] == RunKey(p);
  }

  lemma {:induction false} LeadingZero(d: string)
    requires AllDigits(d)
    ensures AllDigits("0" + d) && NumberOf("0" + d) == NumberOf(d)
  {
    var z := "0" + d;
    if d == [] {
      assert z[..0] == [] && NumberOf(z[..0]) == 0;
    } else {
      var n := |d| - 1;
      assert z[..|z| - 1] == "0" + d[..n];
      LeadingZero(d[..n]);
    }
  }

  lemma ZeroBeforeNumber(d: string)
    requires d != [] && IsDigit(d[0])
    ensures RunKey("0" + d) == RunKey(d)
  {
    var n := DigitRun(d);
    var z := "0" + d;
    assert z[..n + 1] == "0" + d[..n] && z[n + 1..] == d[n..];
    LeadingZero(d[..n]);
    KeyOfNumber(z, n + 1);
    KeyOfNumber(d, n);
  }

  /** A zero written in front of a number changes no key. */
  lemma ZeroPaddingCollapses(p: string, d: string)
    requires d != [] && IsDigit(d[0])
    requires p == [] || !IsDigit(p[|p| - 1])
    ensures RunKey(p + ("0" + d)) == RunKey(p + d)
  {
    ZeroBeforeNumber(d);
    KeyOfFront(p, "0" + d);
    KeyOfFront(p, d);
  }

  /** The key of text that does not end in a number is the front of the key of any text it begins. */
  lemma {:induction false} KeyOfFront(p: string, t: string)
    requires p == [] || !IsDigit(p[|p| - 1])
    ensures RunKey(p + t) == RunKey(p) + RunKey(t)
    decreases |p|
  {
    if p == [] {
      assert p + t == t;
    } else if IsDigit(p[0]) {
      var n := DigitRun(p);
      assert n < |p|;
      NumberThenAppend(p, t, n);
      KeyOfFront(p[n..], t);
      SequenceAssociative([0, NumberOf(p[..n])], RunKey(p[n..]), RunKey(t));
    } else {
      MarkThenAppend(p, t);
      KeyOfFront(p[1..], t);
      SequenceAssociative([Order(p[0])], RunKey(p[1..]), RunKey(t));
    }
  }

  // ----- whole versions --------------------------------------------------------------------

  function TrimLeft(s: string): string {
    if s != [] && IsSpace(s[0]) then TrimLeft(s[1..]) else s
  }

  function TrimRight(s: string): string {
    if s != [] && IsSpace(s[|s| - 1]) then TrimRight(s[..|s| - 1]) else s
  }

  function Strip(s: string): string {
    TrimRight(TrimLeft(s))
  }

  predicate StartsNumberAfter(v: string, prefix: string) {
    prefix <= v && |prefix| < |v| && IsDigit(v[|prefix|])
  }

  function StripPrefix(version: string): string {
    var v := Strip(version);
    if StartsNumberAfter(v, "go") then v[2..]
    else if StartsNumberAfter(v, "v") || StartsNumberAfter(v, "V") then v[1..]
    else v
  }

  /** The text before and after the last `-`; with no `-`, everything and nothing. */
  function SplitRevision(v: string): (r: (string, string))
    ensures '-' in v ==> v == r.0 + "-" + r.1 && '-' !in r.1
    ensures '-' !in v ==> r == (v, "")
  {
    if v == [] then ("", "")
    else if v[|v| - 1] == '-' then (v[..|v| - 1], "")
    else
      var n := |v| - 1;
      var (upstream, revision) := SplitRevision(v[..n]);
      if '-' in v[..n] then (upstream, revision + [v[n]]) else (v, "")
  }

  datatype VersionKey = VersionKey(epoch: nat, upstream: seq<int>, revision: seq<int>)

  function SplitDebian(version: string): (nat, string, string) {
    var v := Strip(version);
    var n := DigitRun(v);
    var hasEpoch := 0 < n < |v| && v[n] == ':';
    var epoch := if hasEpoch then NumberOf(v[..n]) else 0;
    var (upstream, revision) := SplitRevision(if hasEpoch then v[n + 1..] else v);
    (epoch, upstream, revision)
  }

  function KeyOf(version: string): VersionKey {
    var (epoch, upstream, revision) := SplitDebian(StripPrefix(version));
    VersionKey(epoch, RunKey(upstream), RunKey(revision))
  }

  function KeyCompare(x: VersionKey, y: VersionKey): int {
    if x.epoch != y.epoch then (if x.epoch < y.epoch then -1 else 1)
    else if PadCompare(x.upstream, y.upstream) != 0 then PadCompare(x.upstream, y.upstream)
    else PadCompare(x.revision, y.revision)
  }

  /** The order of versions: epochs, then upstream parts, then revisions. */
  function VersionOrder(a: string, b: string): int {
    KeyCompare(KeyOf(a), KeyOf(b))
  }

  method CompareVersions(a: string, b: string) returns (c: int)
    ensures c == VersionOrder(a, b)
  {
    var (ea, ua, ra) := SplitDebian(StripPrefix(a));
    var (eb, ub, rb) := SplitDebian(StripPrefix(b));
    if ea != eb {
      return if ea < eb then -1 else 1;
    }
    c := ComparePart(ua, ub);
    if c != 0 {
      return c;
    }
    c := ComparePart(ra, rb);
  }

  /** The comparison is a total preorder on all strings: every pair compares, swapping the operands
      flips the sign, and order and equivalence both chain. */
  lemma VersionOrderIsPreorder(a: string, b: string, c: string)
    ensures VersionOrder(a, a) == 0
    ensures -1 <= VersionOrder(a, b) <= 1
    ensures VersionOrder(a, b) == -VersionOrder(b, a)
    ensures VersionOrder(a, b) <= 0 && VersionOrder(b, c) <= 0 ==> VersionOrder(a, c) <= 0
    ensures VersionOrder(a, b) <= 0 && VersionOrder(b, c) <= 0 && VersionOrder(a, c) == 0 ==>
              VersionOrder(a, b) == 0 && VersionOrder(b, c) == 0
  {
    KeyCompareIsPreorder(KeyOf(a), KeyOf(b), KeyOf(c));
  }

  lemma KeyCompareIsPreorder(x: VersionKey, y: VersionKey, z: VersionKey)
    ensures KeyCompare(x, x) == 0
    ensures -1 <= KeyCompare(x, y) <= 1
    ensures KeyCompare(x, y) == -KeyCompare(y, x)
    ensures KeyCompare(x, y) <= 0 && KeyCompare(y, z) <= 0 ==> KeyCompare(x, z) <= 0
    ensures KeyCompare(x, y) <= 0 && KeyCompare(y, z) <= 0 && KeyCompare(x, z) == 0 ==>
              KeyCompare(x, y) == 0 && KeyCompare(y, z) == 0
  {
    PadLaws(x.upstream, y.upstream, z.upstream);
    PadLaws(x.revision, y.revision, z.revision);
  }

  lemma PadLaws(x: seq<int>, y: seq<int>, z: seq<int>)
    ensures PadCompare(x, x) == 0
    ensures -1 <= PadCompare(x, y) <= 1
    ensures PadCompare(x, y) == -PadCompare(y, x)
    ensures PadCompare(x, y) <= 0 && PadCompare(y, z) <= 0 ==> PadCompare(x, z) <= 0
    ensures PadCompare(x, y) <= 0 && PadCompare(y, z) <= 0 && PadCompare(x, z) == 0 ==>
              PadCompare(x, y) == 0 && PadCompare(y, z) == 0
  {
    PadCompareMeaning(x, y);
    PadReflexive(x);
    PadAntisymmetric(x, y);
    if PadCompare(x, y) <= 0 && PadCompare(y, z) <= 0 {
      PadTransitive(x, y, z);
    }
  }

  // ----- the "already fixed" verdict -------------------------------------------------------

  function SplitOn(s: string, sep: char): (parts: seq<string>)
    ensures |parts| >= 1
  {
    if s == [] then [""]
    else
      var rest := SplitOn(s[1..], sep);
      if s[0] == sep then [""] + rest else [[s[0]] + rest[0]] + rest[1..]
  }

  function JoinWith(parts: seq<string>, sep: char): string {
    if parts == [] then ""
    else if |parts| == 1 then parts[0]
    else parts[0] + [sep] + JoinWith(parts[1..], sep)
  }

  /** The `major.minor` release line a version sits on. */
  function LineOf(version: string): string {
    var parts := SplitOn(StripPrefix(version), '.');
    if |parts| >= 2 then JoinWith(parts[..2], '.') else StripPrefix(version)
  }

  /** `>` as derived for `_VersionKey`: not smaller, and not the same text. */
  predicate KeyGreater(x: string, y: string) {
    !(VersionOrder(x, y) < 0) && x != y
  }

  /** `max` over the candidates: scan left to right, move on every greater key. */
  function MaxFrom(best: string, rest: seq<string>): string
    decreases |rest|
  {
    if rest == [] then best
    else MaxFrom(if KeyGreater(rest[0], best) then rest[0] else best, rest[1..])
  }

  function OnLine(candidates: seq<string>, line: string): (r: seq<string>)
    ensures forall c :: c in r <==> c in candidates && LineOf(c) == line
  {
    if candidates == [] then []
    else
      var rest := OnLine(candidates[1..], line);
      assert candidates == [candidates[0]] + candidates[1..];
      if LineOf(candidates[0]) == line then [candidates[0]] + rest else rest
  }

  /** The candidates that decide: those on the installed release line, or all when it has none. */
  function Pool(installed: string, candidates: seq<string>): seq<string> {
    var same := OnLine(candidates, LineOf(installed));
    if same != [] then same else candidates
  }

  /** `candidates` is the parsed `Fixed Version` cell. */
  predicate AlreadyAtOrPastFix(installed: string, candidates: seq<string>) {
    if candidates == [] || Strip(installed) == "" then false
    else
      var pool := Pool(installed, candidates);
      VersionOrder(installed, MaxFrom(pool[0], pool[1..])) >= 0
  }

  lemma {:induction false} MaxFromIsGreatest(best: string, rest: seq<string>)
    ensures MaxFrom(best, rest) == best || MaxFrom(best, rest) in rest
    ensures VersionOrder(best, MaxFrom(best, rest)) <= 0
    ensures forall c | c in rest :: VersionOrder(c, MaxFrom(best, rest)) <= 0
    decreases |rest|
  {
    if rest == [] {
      VersionOrderIsPreorder(best, best, best);
    } else {
      var head := rest[0];
      var next := if KeyGreater(head, best) then head else best;
      var top := MaxFrom(next, rest[1..]);
      MaxFromIsGreatest(next, rest[1..]);
      VersionOrderIsPreorder(best, head, best);
      VersionOrderIsPreorder(head, head, head);
      VersionOrderIsPreorder(best, next, top);
      VersionOrderIsPreorder(head, next, top);
      assert forall c | c in rest :: c == head || c in rest[1..];
    }
  }

  /** A candidate decides when it is on the installed release line, or when none is. */
  ghost predicate Decides(c: string, installed: string, candidates: seq<string>) {
    c in candidates
    && (LineOf(c) == LineOf(installed) || forall other | other in candidates :: LineOf(other) != LineOf(installed))
  }

  lemma PoolMeaning(installed: string, candidates: seq<string>)
    ensures forall c :: c in Pool(installed, candidates) <==> Decides(c, installed, candidates)
  {
    var same := OnLine(candidates, LineOf(installed));
    if same != [] {
      assert same[0] in same;
    }
  }

  /** The verdict holds exactly when the installed version is at or above every deciding candidate,
      although keys that compare equal need not be equal texts. */
  lemma AtOrPastFixMeaning(installed: string, candidates: seq<string>)
    ensures AlreadyAtOrPastFix(installed, candidates) <==>
              candidates != [] && Strip(installed) != "" &&
              forall c | Decides(c, installed, candidates) :: VersionOrder(installed, c) >= 0
  {
    PoolMeaning(installed, candidates);
    hide LineOf, VersionOrder, Decides;
    if candidates != [] && Strip(installed) != "" {
      var pool := Pool(installed, candidates);
      var top := MaxFrom(pool[0], pool[1..]);
      MaxFromIsGreatest(pool[0], pool[1..]);
      assert pool[0] in pool && top in pool;
      forall c | c in pool && VersionOrder(installed, top) >= 0
        ensures VersionOrder(installed, c) >= 0
      {
        assert c == pool[0] || c in pool[1..];
        VersionOrderIsPreorder(c, top, installed);
        VersionOrderIsPreorder(installed, top, c);
        VersionOrderIsPreorder(c, installed, c);
      }
    }
  }

  /** Blank versions sit on the empty line, and no other version does. */
  lemma EmptyLineIsBlank(version: string)
    ensures LineOf(version) == "" <==> Strip(version) == ""
  {
    var v := StripPrefix(version);
    var parts := SplitOn(v, '.');
    if |parts| >= 2 {
      assert parts[..2][1..] == [parts[1]];
      assert JoinWith(parts[..2], '.') == parts[0] + "." + parts[1];
    }
  }

  /** Upgrading within a release line never loses the verdict. */
  lemma AtOrPastFixIsStable(installed: string, later: string, candidates: seq<string>)
    requires AlreadyAtOrPastFix(installed, candidates)
    requires VersionOrder(later, installed) >= 0 && LineOf(later) == LineOf(installed)
    ensures AlreadyAtOrPastFix(later, candidates)
  {
    AtOrPastFixMeaning(installed, candidates);
    AtOrPastFixMeaning(later, candidates);
    EmptyLineIsBlank(installed);
    EmptyLineIsBlank(later);
    forall c | Decides(c, later, candidates)
      ensures VersionOrder(later, c) >= 0
    {
      VersionOrderIsPreorder(c, installed, later);
      VersionOrderIsPreorder(installed, c, later);
      VersionOrderIsPreorder(later, c, installed);
      VersionOrderIsPreorder(installed, later, c);
    }
  }
}
