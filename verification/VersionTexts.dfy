/** The version order said of the texts themselves: which numbers, marks, epochs and prefixes decide, without
    keys and weights. */
module VersionTexts {
  import opened DebianVersion

  // ----- numbers ---------------------------------------------------------------------------

  function Pow10(n: nat): nat {
    if n == 0 then 1 else 10 * Pow10(n - 1)
  }

  /** Digits are read as a decimal number. */
  lemma {:induction false} DecimalSplit(d: string, e: string)
    requires AllDigits(d) && AllDigits(e)
    ensures AllDigits(d + e) && NumberOf(d + e) == NumberOf(d) * Pow10(|e|) + NumberOf(e)
  {
    if e == [] {
      assert d + e == d;
    } else {
      var n := |e| - 1;
      DecimalSplit(d, e[..n]);
      assert (d + e)[..|d + e| - 1] == d + e[..n];
      ShiftedSum(NumberOf(d), Pow10(n), NumberOf(e[..n]), DigitValue(e[n]));
    }
  }

  lemma ShiftedSum(x: nat, p: nat, y: nat, v: nat)
    ensures 10 * (x * p + y) + v == x * (10 * p) + (10 * y + v)
  {
  }

  lemma {:induction false} NumberBounds(d: string)
    requires AllDigits(d)
    ensures NumberOf(d) < Pow10(|d|)
    ensures d != [] && d[0] != '0' ==> NumberOf(d) >= Pow10(|d| - 1)
  {
    if d != [] {
      NumberBounds(d[..|d| - 1]);
    }
  }

  lemma {:induction false} PowersGrow(m: nat, n: nat)
    requires m <= n
    ensures Pow10(m) <= Pow10(n)
  {
    if m < n {
      PowersGrow(m, n - 1);
    }
  }

  ghost predicate Plain(d: string) {
    d != [] && AllDigits(d) && (d[0] == '0' ==> d == "0")
  }

  /** The smaller of two numbers written without leading zeros: the shorter one, or of two as long the one with
      the smaller digit where they first differ. */
  ghost predicate SmallerNumber(d: string, e: string) {
    |d| < |e| || (|d| == |e| && exists k :: 0 <= k < |d| && d[..k] == e[..k] && d[k] < e[k])
  }

  lemma DigitInside(p: string, c: char, u: string)
    requires AllDigits(p) && IsDigit(c) && AllDigits(u)
    ensures AllDigits(p + ([c] + u))
    ensures NumberOf(p + ([c] + u)) == NumberOf(p) * Pow10(|u| + 1) + (DigitValue(c) * Pow10(|u|) + NumberOf(u))
  {
    DecimalSplit([c], u);
    DecimalSplit(p, [c] + u);
    assert [c][..0] == [] && NumberOf([c]) == DigitValue(c);
  }

  lemma LargerDigit(a: nat, b: nat, x: nat, y: nat, power: nat)
    requires a < b && x < power
    ensures a * power + x < b * power + y
  {
    assert (a + 1) * power <= b * power;
  }

  lemma FirstDigitDecides(p: string, c: char, u: string, c': char, u': string)
    requires AllDigits(p) && IsDigit(c) && AllDigits(u) && IsDigit(c') && AllDigits(u')
    requires |u| == |u'| && c < c'
    ensures AllDigits(p + ([c] + u)) && AllDigits(p + ([c'] + u'))
    ensures NumberOf(p + ([c] + u)) < NumberOf(p + ([c'] + u'))
  {
    DigitInside(p, c, u);
    DigitInside(p, c', u');
    NumberBounds(u);
    LargerDigit(DigitValue(c), DigitValue(c'), NumberOf(u), NumberOf(u'), Pow10(|u|));
  }

  lemma SplitAt(d: string, k: nat)
    requires k < |d| && AllDigits(d)
    ensures d == d[..k] + ([d[k]] + d[k + 1..])
    ensures AllDigits(d[..k]) && IsDigit(d[k]) && AllDigits(d[k + 1..])
  {
  }

  lemma ShorterIsSmaller(d: string, e: string)
    requires Plain(d) && Plain(e) && |d| < |e|
    ensures NumberOf(d) < NumberOf(e)
  {
    NumberBounds(d);
    NumberBounds(e);
    PowersGrow(|d|, |e| - 1);
  }

  lemma {:induction false} FirstDifference(d: string, e: string) returns (k: nat)
    requires |d| == |e| && d != e
    ensures k < |d| && d[..k] == e[..k] && d[k] != e[k]
  {
    var n := |d| - 1;
    if d[..n] == e[..n] {
      k := n;
      assert d == d[..n] + [d[n]] && e == e[..n] + [e[n]];
    } else {
      k := FirstDifference(d[..n], e[..n]);
      assert d[..k] == d[..n][..k] && e[..k] == e[..n][..k];
    }
  }

  /** Numbers without leading zeros are compared as they are written. */
  lemma NumbersAsWritten(d: string, e: string)
    requires Plain(d) && Plain(e)
    ensures NumberOf(d) < NumberOf(e) <==> SmallerNumber(d, e)
    ensures NumberOf(d) == NumberOf(e) <==> d == e
  {
    if |d| < |e| {
      ShorterIsSmaller(d, e);
    } else if |e| < |d| {
      ShorterIsSmaller(e, d);
    } else if d != e {
      var k := FirstDifference(d, e);
      SplitAt(d, k);
      SplitAt(e, k);
      if d[k] < e[k] {
        FirstDigitDecides(d[..k], d[k], d[k + 1..], e[k], e[k + 1..]);
      } else {
        FirstDigitDecides(e[..k], e[k], e[k + 1..], d[k], d[k + 1..]);
        DiffersOnce(d, e, k);
      }
    }
  }

  lemma DiffersOnce(d: string, e: string, k: nat)
    requires |d| == |e| && k < |d| && d[..k] == e[..k] && d[k] > e[k]
    ensures !SmallerNumber(d, e)
  {
    forall m | 0 <= m < |d| && m != k ensures d[..m] != e[..m] || d[m] == e[m] {
      if m < k {
        FrontsAgree(d, e, k, m);
      } else if d[..m] == e[..m] {
        FrontsAgree(d, e, m, k);
      }
    }
  }

  lemma FrontsAgree(d: string, e: string, n: nat, k: nat)
    requires k < n <= |d| && n <= |e| && d[..n] == e[..n]
    ensures d[k] == e[k]
  {
    assert d[k] == d[..n][k] && e[k] == e[..n][k];
  }

  /** Nothing, or text that does not go on with a digit. */
  predicate NumberEnds(t: string) {
    t == [] || !IsDigit(t[0])
  }

  lemma KeyOfNumberThen(d: string, u: string)
    requires d != [] && AllDigits(d) && NumberEnds(u)
    ensures RunKey(d + u) == [0, NumberOf(d)] + RunKey(u)
  {
    assert (d + u)[..|d|] == d && (d + u)[|d|..] == u;
    assert u != [] ==> (d + u)[|d|] == u[0];
    KeyOfNumber(d + u, |d|);
  }

  /** Of two version parts that first differ in a number, the one with the smaller number sorts below. */
  lemma NumbersDecide(p: string, d: string, u: string, e: string, v: string)
    requires p == [] || !IsDigit(p[|p| - 1])
    requires Plain(d) && Plain(e) && NumberEnds(u) && NumberEnds(v) && SmallerNumber(d, e)
    ensures PadCompare(RunKey(p + (d + u)), RunKey(p + (e + v))) == -1
    ensures PadCompare(RunKey(p + (e + v)), RunKey(p + (d + u))) == 1
  {
    NumbersAsWritten(d, e);
    KeyOfFront(p, d + u);
    KeyOfFront(p, e + v);
    KeyOfNumberThen(d, u);
    KeyOfNumberThen(e, v);
    var x, y := RunKey(d + u), RunKey(e + v);
    PadComparePrefix(RunKey(p), x, y);
    TwoTails(0, NumberOf(d), RunKey(u));
    TwoTails(0, NumberOf(e), RunKey(v));
    PadStep(x, y);
    PadStep(Tail(x), Tail(y));
    PadAntisymmetric(RunKey(p + (d + u)), RunKey(p + (e + v)));
  }

  // ----- marks -----------------------------------------------------------------------------

  predicate Letter(c: char) {
    'a' <= c <= 'z' || 'A' <= c <= 'Z'
  }

  predicate Digit(c: char) {
    '0' <= c <= '9'
  }

  /** The four classes that sort apart: `~`, the end or a number, letters, and everything else. */
  function Class(t: string): nat {
    if t == [] || Digit(t[0]) then 1
    else if t[0] == '~' then 0
    else if Letter(t[0]) then 2
    else 3
  }

  /** `t` goes on with a mark that sorts below what `u` goes on with. */
  predicate MarkBelow(t: string, u: string) {
    Class(t) < Class(u) || (Class(t) == Class(u) && t != [] && u != [] && !Digit(t[0]) && !Digit(u[0]) && t[0] < u[0])
  }

  /** Of two version parts that first differ in a mark, the one that goes on with the lower mark sorts below:
      `~` below the end and below numbers, those below letters, letters below other marks, and within a class
      by code point. */
  lemma MarksDecide(p: string, t: string, u: string)
    requires p == [] || !IsDigit(p[|p| - 1]) || (NumberEnds(t) && NumberEnds(u))
    requires MarkBelow(t, u)
    ensures PadCompare(RunKey(p + t), RunKey(p + u)) == -1
    ensures PadCompare(RunKey(p + u), RunKey(p + t)) == 1
  {
    KeyGoesOn(p, t);
    KeyGoesOn(p, u);
    PadComparePrefix(RunKey(p), RunKey(t), RunKey(u));
    HeadOfKey(t);
    HeadOfKey(u);
    PadStep(RunKey(t), RunKey(u));
    PadAntisymmetric(RunKey(p + t), RunKey(p + u));
  }

  lemma KeyGoesOn(p: string, t: string)
    requires p == [] || !IsDigit(p[|p| - 1]) || NumberEnds(t)
    ensures RunKey(p + t) == RunKey(p) + RunKey(t)
  {
    if p == [] || !IsDigit(p[|p| - 1]) {
      KeyOfFront(p, t);
    } else if t == [] {
      assert p + t == p && RunKey(t) == [];
    } else {
      KeyOfAppend(p, t);
    }
  }

  lemma HeadOfKey(t: string)
    ensures At(RunKey(t), 0) == if t == [] then 0 else Order(t[0])
  {
    assert t[0..] == t;
    RunKeyHead(t, 0);
    if t != [] && IsDigit(t[0]) {
      OrderSeparates(t[0], t[0]);
    }
  }

  // ----- whole versions --------------------------------------------------------------------

  const SPACES := {' ', '\t', '\n', '\U{0B}', '\U{0C}', '\r', '\U{1C}', '\U{1D}', '\U{1E}', '\U{1F}'}

  lemma SpaceIff(c: char)
    ensures IsSpace(c) <==> c in SPACES
  {
  }

  predicate Blank(s: string) {
    forall i | 0 <= i < |s| :: s[i] in SPACES
  }

  /** Text without a space at either end. */
  predicate Trimmed(s: string) {
    s != [] ==> s[0] !in SPACES && s[|s| - 1] !in SPACES
  }

  lemma {:induction false} TrimLeftOf(pre: string, s: string)
    requires Blank(pre) && (s != [] ==> s[0] !in SPACES)
    ensures TrimLeft(pre + s) == s
  {
    forall c ensures IsSpace(c) <==> c in SPACES {
      SpaceIff(c);
    }
    if pre == [] {
      assert pre + s == s;
    } else {
      assert (pre + s)[1..] == pre[1..] + s;
      TrimLeftOf(pre[1..], s);
    }
  }

  lemma {:induction false} TrimRightOf(s: string, post: string)
    requires Blank(post) && (s != [] ==> s[|s| - 1] !in SPACES)
    ensures TrimRight(s + post) == s
  {
    forall c ensures IsSpace(c) <==> c in SPACES {
      SpaceIff(c);
    }
    if post == [] {
      assert s + post == s;
    } else {
      var n := |post| - 1;
      assert (s + post)[..|s + post| - 1] == s + post[..n];
      TrimRightOf(s, post[..n]);
    }
  }

  /** Stripping takes off exactly the spaces at both ends. */
  lemma StripTakes(pre: string, s: string, post: string)
    requires Blank(pre) && Blank(post) && Trimmed(s)
    ensures Strip(pre + s + post) == s
  {
    if s == [] {
      assert pre + s + post == (pre + post) + [];
      TrimLeftOf(pre + post, []);
    } else {
      assert pre + s + post == pre + (s + post);
      TrimLeftOf(pre, s + post);
      TrimRightOf(s, post);
    }
  }

  /** A `go`, `v` or `V` in front of a number is dropped, and nothing else is. */
  lemma PrefixDropped(v: string)
    requires Trimmed(v)
    ensures StripPrefix(v) ==
            if |v| > 2 && v[0] == 'g' && v[1] == 'o' && Digit(v[2]) then v[2..]
            else if |v| > 1 && (v[0] == 'v' || v[0] == 'V') && Digit(v[1]) then v[1..]
            else v
  {
    StripTakes([], v, []);
    assert [] + v + [] == v;
    assert |v| >= 2 ==> ("go" <= v <==> v[0] == 'g' && v[1] == 'o');
    assert |v| >= 1 ==> ("v" <= v <==> v[0] == 'v') && ("V" <= v <==> v[0] == 'V');
  }

  /** A number and a colon in front are the epoch; without them it is 0 and the whole text counts. */
  lemma EpochRead(v: string, n: nat)
    requires Trimmed(v) && n <= |v| && AllDigits(v[..n]) && (n < |v| ==> !IsDigit(v[n]))
    ensures 0 < n < |v| && v[n] == ':' ==>
              SplitDebian(v) == (NumberOf(v[..n]), SplitRevision(v[n + 1..]).0, SplitRevision(v[n + 1..]).1)
    ensures !(0 < n < |v| && v[n] == ':') ==>
              SplitDebian(v) == (0, SplitRevision(v).0, SplitRevision(v).1)
  {
    StripTakes([], v, []);
    assert [] + v + [] == v;
    DigitRunIs(v, n);
    hide Strip, NumberOf, SplitRevision, DigitRun, Trimmed;
  }

  /** `a` sorts below `b`: by the epochs, where these are equal by the upstream parts, and where those are
      alike too by the revisions. */
  lemma PartsDecide(a: string, b: string)
    ensures
      var (ea, ua, ra) := SplitDebian(StripPrefix(a));
      var (eb, ub, rb) := SplitDebian(StripPrefix(b));
      VersionOrder(a, b) < 0 <==>
        || ea < eb
        || (ea == eb && Precedes(RunKey(ua), RunKey(ub)))
        || (ea == eb && Alike(RunKey(ua), RunKey(ub)) && Precedes(RunKey(ra), RunKey(rb)))
  {
    var (ea, ua, ra) := SplitDebian(StripPrefix(a));
    var (eb, ub, rb) := SplitDebian(StripPrefix(b));
    PadCompareMeaning(RunKey(ua), RunKey(ub));
    PadCompareMeaning(RunKey(ra), RunKey(rb));
    hide SplitDebian, StripPrefix, RunKey, PadCompare, Precedes, Alike;
  }

  lemma {:induction false} SplitOnNothing(s: string, sep: char)
    requires sep !in s
    ensures SplitOn(s, sep) == [s]
  {
    if s != [] {
      SplitOnNothing(s[1..], sep);
      assert [s[0]] + s[1..] == s;
    }
  }

  lemma {:induction false} SplitOnFirst(s: string, sep: char, rest: string)
    requires sep !in s
    ensures SplitOn(s + [sep] + rest, sep) == [s] + SplitOn(rest, sep)
  {
    var t := s + [sep] + rest;
    if s == [] {
      assert t[1..] == rest;
    } else {
      assert t[1..] == s[1..] + [sep] + rest;
      SplitOnFirst(s[1..], sep, rest);
      assert t[0] == s[0] && [s[0]] + s[1..] == s;
      assert ([s[1..]] + SplitOn(rest, sep))[1..] == SplitOn(rest, sep);
    }
  }

  /** The release line is the text up to the second dot, or all of it. */
  lemma LineIsMajorMinor(version: string, major: string, minor: string, rest: string)
    requires '.' !in major && '.' !in minor
    ensures StripPrefix(version) == major ==> LineOf(version) == major
    ensures StripPrefix(version) == major + "." + minor ==> LineOf(version) == major + "." + minor
    ensures StripPrefix(version) == major + "." + (minor + "." + rest) ==> LineOf(version) == major + "." + minor
  {
    assert ['.'] == ".";
    if StripPrefix(version) == major {
      SplitOnNothing(major, '.');
    }
    if StripPrefix(version) == major + "." + minor {
      LineOfParts(version, major, minor, [], minor);
    }
    if StripPrefix(version) == major + "." + (minor + "." + rest) {
      SplitOnFirst(minor, '.', rest);
      LineOfParts(version, major, minor, SplitOn(rest, '.'), minor + "." + rest);
    }
  }

  lemma LineOfParts(version: string, major: string, minor: string, more: seq<string>, rest: string)
    requires '.' !in major && '.' !in minor && StripPrefix(version) == major + ['.'] + rest
    requires SplitOn(rest, '.') == [minor] + more || (rest == minor && more == [])
    ensures LineOf(version) == major + ['.'] + minor
  {
    hide StripPrefix;
    SplitOnFirst(major, '.', rest);
    if rest == minor && more == [] {
      SplitOnNothing(minor, '.');
    }
    var parts := [major] + ([minor] + more);
    assert SplitOn(major + ['.'] + rest, '.') == parts;
    assert parts[..2] == [major, minor];
    JoinTwo(major, minor);
  }

  lemma JoinTwo(major: string, minor: string)
    ensures JoinWith([major, minor], '.') == major + ['.'] + minor
  {
    assert [major, minor][1..] == [minor];
  }
}
