/** The regular expression for a merged-cell tag, matched at one position of a byte string, and the
    facts that make it safe to run on a piece of a stream: a match depends on its own bytes alone, and
    matches that overlap end together. A byte is the character with its code. */
module MergeTag {
  import opened Sequences

  type Bytes = string
  // ----- the expression, at one position ---------------------------------------------------

  predicate Space(c: char) {
    c == ' ' || '\t' <= c <= '\r'
  }

  predicate Quote(c: char) {
    c == '"' || c == '\''
  }

  predicate Word(c: char) {
    'a' <= c <= 'z' || 'A' <= c <= 'Z' || '0' <= c <= '9' || c == '_'
  }

  function Spaces(s: Bytes): (n: nat)
    ensures n <= |s| && (n < |s| ==> !Space(s[n])) && forall i | 0 <= i < n :: Space(s[i])
  {
    if s == [] || !Space(s[0]) then 0 else 1 + Spaces(s[1..])
  }

  function Unquoted(s: Bytes): (n: nat)
    ensures n <= |s| && (n < |s| ==> Quote(s[n])) && forall i | 0 <= i < n :: !Quote(s[i])
  {
    if s == [] || Quote(s[0]) then 0 else 1 + Unquoted(s[1..])
  }

  /** A match at the front of a string: its length and the captured group. */
  datatype Hit = Hit(len: nat, value: Bytes)

  function Later(n: nat, r: Option<Hit>): Option<Hit> {
    match r
    case None => None
    case Some(h) => Some(Hit(n + h.len, h.value))
  }

  /** `["']([^"']{1,64})["']` at the front of `s`. */
  function Quoted(s: Bytes): Option<Hit> {
    if s == [] || !Quote(s[0]) then None else
    var c := 1 + Unquoted(s[1..]);
    if c == |s| || !(1 <= c - 1 <= 64) then None else Some(Hit(c + 1, s[1..c]))
  }

  /** `=\s*` and then `Quoted`. */
  function Assigned(s: Bytes): Option<Hit> {
    if s == [] || s[0] != '=' then None else
    var b := 1 + Spaces(s[1..]);
    Later(b, Quoted(s[b..]))
  }

  /** `ref\s*` and then `Assigned`. */
  function Ref(s: Bytes): Option<Hit> {
    if |s| < 3 || s[0] != 'r' || s[1] != 'e' || s[2] != 'f' then None else
    var a := 3 + Spaces(s[3..]);
    Later(a, Assigned(s[a..]))
  }

  /** `[^>]*?\b` and then `Ref`, at the front of `s`, just after the byte `prev`: the first place that fits. */
  function Body(prev: char, s: Bytes): Option<Hit>
    decreases |s|
  {
    if !Word(prev) && Ref(s).Some? then Ref(s)
    else if s == [] || s[0] == '>' then None
    else Later(1, Body(s[0], s[1..]))
  }

  /** The whole expression at the front of `s`. */
  function Tag(s: Bytes): Option<Hit> {
    if |s| >= 11 && s[..10] == "<mergeCell" && Space(s[10]) then Later(11, Body(s[10], s[11..])) else None
  }

  // ----- a match depends only on its own bytes ---------------------------------------------

  /** The bytes up to `end` close with the value `v` between quotes. */
  ghost predicate Captured(s: Bytes, end: nat, v: Bytes) {
    && |v| + 2 <= end <= |s|
    && v == s[end - 1 - |v|..end - 1]
    && Quote(s[end - 1]) && Quote(s[end - 2 - |v|])
    && forall i | end - 1 - |v| <= i < end - 1 :: !Quote(s[i])
  }

  lemma CapturedShift(s: Bytes, x: nat, end: nat, v: Bytes)
    requires x <= |s| && Captured(s[x..], end, v)
    ensures Captured(s, x + end, v)
  {
    forall i | x + end - 1 - |v| <= i < x + end - 1 ensures !Quote(s[i]) {
      assert s[i] == s[x..][i - x];
    }
  }

  lemma CapturedOnce(s: Bytes, end: nat, v: Bytes, w: Bytes)
    requires Captured(s, end, v) && Captured(s, end, w)
    ensures v == w
  {
    assert |v| == |w|;
  }

  /** No reference, quote or tag starts before `n` in `s`, its first byte aside. */
  ghost predicate Plain(s: Bytes, n: nat) {
    n <= |s| && forall i | 1 <= i < n :: s[i] != 'r' && s[i] != '<' && !Quote(s[i])
  }

  function Opening(h: Hit): int {
    h.len - 2 - |h.value|
  }

  lemma QuotedShape(s: Bytes)
    requires Quoted(s).Some?
    ensures Captured(s, Quoted(s).value.len, Quoted(s).value.value) && Opening(Quoted(s).value) == 0
  {
    var c := 1 + Unquoted(s[1..]);
    forall i | 1 <= i < c ensures !Quote(s[i]) {
      assert s[i] == s[1..][i - 1];
    }
  }

  lemma PlainSpaces(s: Bytes, a: nat)
    requires a <= |s|
    ensures forall i | a <= i < a + Spaces(s[a..]) :: Space(s[i])
  {
    forall i | a <= i < a + Spaces(s[a..]) ensures Space(s[i]) {
      assert s[i] == s[a..][i - a];
    }
  }

  lemma AssignedShape(s: Bytes)
    requires Assigned(s).Some?
    ensures Captured(s, Assigned(s).value.len, Assigned(s).value.value)
    ensures Opening(Assigned(s).value) >= 1 && s[0] == '=' && Plain(s, Opening(Assigned(s).value))
  {
    hide Quoted, Captured, Spaces;
    PlainSpaces(s, 1);
    var b := 1 + Spaces(s[1..]);
    QuotedShape(s[b..]);
    CapturedShift(s, b, Quoted(s[b..]).value.len, Quoted(s[b..]).value.value);
  }

  lemma RefShape(s: Bytes)
    requires Ref(s).Some?
    ensures Captured(s, Ref(s).value.len, Ref(s).value.value)
    ensures Opening(Ref(s).value) >= 1 && s[0] == 'r' && Plain(s, Opening(Ref(s).value))
  {
    hide Assigned, Captured, Spaces;
    PlainSpaces(s, 3);
    var a := 3 + Spaces(s[3..]);
    var t := s[a..];
    AssignedShape(t);
    CapturedShift(s, a, Assigned(t).value.len, Assigned(t).value.value);
    var n := Opening(Assigned(t).value);
    forall i | 1 <= i < a + n ensures s[i] != 'r' && s[i] != '<' && !Quote(s[i]) {
      assert i >= a ==> s[i] == t[i - a];
    }
  }

  /** No tag starts inside a reference whose value holds no `<`. */
  lemma RefHoldsNoTag(s: Bytes, y: nat)
    requires Ref(s).Some? && '<' !in Ref(s).value.value && y < Ref(s).value.len
    ensures y < |s| && s[y] != '<'
  {
    hide Ref, Space;
    RefShape(s);
    var h := Ref(s).value;
    assert y > Opening(h) && y < h.len - 1 ==> s[y] in s[h.len - 1 - |h.value|..h.len - 1];
  }

  function Within(r: Option<Hit>, m: nat): Option<Hit> {
    if r.Some? && r.value.len > m then None else r
  }

  lemma {:induction false} SpacesLocal(s: Bytes, m: nat)
    requires m <= |s|
    ensures Spaces(s[..m]) == if Spaces(s) <= m then Spaces(s) else m
  {
    if m > 0 && Space(s[0]) {
      SpacesLocal(s[1..], m - 1);
      assert s[..m][1..] == s[1..][..m - 1];
    }
  }

  lemma {:induction false} UnquotedLocal(s: Bytes, m: nat)
    requires m <= |s|
    ensures Unquoted(s[..m]) == if Unquoted(s) <= m then Unquoted(s) else m
  {
    if m > 0 && !Quote(s[0]) {
      UnquotedLocal(s[1..], m - 1);
      assert s[..m][1..] == s[1..][..m - 1];
    }
  }

  lemma QuotedLocal(s: Bytes, m: nat)
    requires m <= |s|
    ensures Quoted(s[..m]) == Within(Quoted(s), m)
  {
    if 1 <= m {
      UnquotedLocal(s[1..], m - 1);
      assert s[..m][1..] == s[1..][..m - 1];
      if Quoted(s).Some? && Quoted(s).value.len <= m {
        assert s[..m][1..Unquoted(s[1..]) + 1] == s[1..Unquoted(s[1..]) + 1];
      }
    }
  }

  lemma AssignedLocal(s: Bytes, m: nat)
    requires m <= |s|
    ensures Assigned(s[..m]) == Within(Assigned(s), m)
  {
    hide Quoted, Spaces;
    NothingQuoted();
    if 1 <= m {
      SpacesLocal(s[1..], m - 1);
      assert s[..m][1..] == s[1..][..m - 1];
      var b := 1 + Spaces(s[1..]);
      if b <= m {
        QuotedLocal(s[b..], m - b);
        assert s[..m][b..] == s[b..][..m - b];
      } else {
        assert s[..m][m..] == [];
      }
    }
  }

  lemma NothingQuoted()
    ensures Quoted([]) == None && Assigned([]) == None
  {
  }

  lemma RefLocal(s: Bytes, m: nat)
    requires m <= |s|
    ensures Ref(s[..m]) == Within(Ref(s), m)
  {
    hide Assigned, Spaces;
    var t := s[..m];
    NothingQuoted();
    if 3 <= m {
      SpacesLocal(s[3..], m - 3);
      assert t[3..] == s[3..][..m - 3];
      var a := 3 + Spaces(s[3..]);
      if a <= m {
        AssignedLocal(s[a..], m - a);
        assert t[a..] == s[a..][..m - a];
      } else {
        assert t[m..] == [];
      }
    }
  }

  /** Of two references in one string, the one that starts first ends first. */
  lemma RefsEndInOrder(s: Bytes, j: nat)
    requires 0 < j <= |s| && Ref(s).Some? && Ref(s[j..]).Some?
    ensures Ref(s).value.len < j + Ref(s[j..]).value.len
  {
    RefShape(s);
    RefShape(s[j..]);
    hide Ref, Space, Quote;
    var h, g := Ref(s).value, Ref(s[j..]).value;
    CapturedShift(s, j, g.len, g.value);
    assert s[j] == s[j..][0];
  }

  /** A match of `Body` is a match of `Ref` some way in. */
  lemma {:induction false} BodyHasRef(prev: char, s: Bytes) returns (j: nat)
    requires Body(prev, s).Some?
    ensures j <= |s| && Ref(s[j..]).Some? && Later(j, Ref(s[j..])) == Body(prev, s)
    decreases |s|
  {
    hide Ref;
    assert s[0..] == s;
    if !Word(prev) && Ref(s).Some? {
      j := 0;
    } else {
      j := BodyHasRef(s[0], s[1..]);
      assert s[1..][j..] == s[j + 1..];
      j := j + 1;
    }
  }

  lemma {:induction false} BodyLocal(prev: char, s: Bytes, m: nat)
    requires m <= |s|
    ensures Body(prev, s[..m]) == Within(Body(prev, s), m)
    decreases |s|
  {
    hide Ref, Captured, Plain;
    RefLocal(s, m);
    if s == [] {
      assert s[..m] == s;
    } else if !Word(prev) && Ref(s).Some? && Ref(s).value.len > m {
      RefShape(s);
      if m > 0 {
        BodyLocal(s[0], s[1..], m - 1);
        assert s[..m][1..] == s[1..][..m - 1];
        if Body(s[0], s[1..]).Some? {
          var j := BodyHasRef(s[0], s[1..]);
          assert s[1..][j..] == s[j + 1..];
          RefsEndInOrder(s, j + 1);
        }
      }
    } else if m > 0 {
      BodyLocal(s[0], s[1..], m - 1);
      assert s[..m][1..] == s[1..][..m - 1];
    } else if Body(prev, s).Some? {
      var j := BodyHasRef(prev, s);
      RefShape(s[j..]);
    }
  }

  /** Cutting a string keeps exactly the matches that end before the cut. */
  lemma TagLocal(s: Bytes, m: nat)
    requires m <= |s|
    ensures Tag(s[..m]) == Within(Tag(s), m)
  {
    hide Body;
    if |s| >= 11 && m >= 11 {
      BodyLocal(s[10], s[11..], m - 11);
      assert s[..m][11..] == s[11..][..m - 11];
      assert s[..m][..10] == s[..10];
    } else if |s| >= 11 && Tag(s).Some? {
      TagShape(s);
    }
  }

  /** A tag starts with the only `<` of its name, and its value sits between its last two quotes. */
  lemma TagShape(s: Bytes)
    requires Tag(s).Some?
    ensures Tag(s).value.len >= 11 && Captured(s, Tag(s).value.len, Tag(s).value.value)
    ensures s[0] == '<' && forall i | 1 <= i < 11 :: s[i] != '<'
  {
    hide Body, Ref, Captured, Plain;
    var j := BodyHasRef(s[10], s[11..]);
    assert s[11..][j..] == s[j + 11..];
    RefShape(s[j + 11..]);
    assert s[..10] == "<mergeCell";
    assert forall i | 1 <= i < 10 :: s[i] == "<mergeCell"[i];
    var g := Ref(s[j + 11..]).value;
    CapturedShift(s, j + 11, g.len, g.value);
  }

  /** Matches that end together capture the same value. */
  lemma SameEndSameValue(s: Bytes, x: nat, y: nat)
    requires x <= |s| && y <= |s|
    requires Tag(s[x..]).Some? && Tag(s[y..]).Some?
    requires x + Tag(s[x..]).value.len == y + Tag(s[y..]).value.len
    ensures Tag(s[x..]).value.value == Tag(s[y..]).value.value
  {
    hide *;
    TagShape(s[x..]);
    TagShape(s[y..]);
    var h, g := Tag(s[x..]).value, Tag(s[y..]).value;
    CapturedShift(s, x, h.len, h.value);
    CapturedShift(s, y, g.len, g.value);
    CapturedOnce(s, x + h.len, h.value, g.value);
  }

  // ----- nested matches --------------------------------------------------------------------

  /** Neither a reference nor the end of the element at `i`. */
  predicate Passed(s: Bytes, i: nat) {
    i < |s| && s[i] != '>' && (s[i] == 'r' ==> i + 1 < |s| && s[i + 1] != 'e')
  }

  lemma PassedIsNoRef(prev: char, s: Bytes)
    requires Passed(s, 0)
    ensures Body(prev, s) == Later(1, Body(s[0], s[1..]))
  {
    hide Assigned, Spaces;
  }

  /** `Body` walks over bytes at which no reference can start. */
  lemma {:induction false} BodyWalks(prev: char, s: Bytes, k: nat)
    requires 0 < k <= |s| && forall i: nat | i < k :: Passed(s, i)
    ensures Body(prev, s) == Later(k, Body(s[k - 1], s[k..]))
    decreases k
  {
    hide Ref, Body;
    assert Passed(s, k - 1);
    if k == 1 {
      PassedIsNoRef(prev, s);
    } else {
      BodyWalks(prev, s, k - 1);
      PassedIsNoRef(s[k - 2], s[k - 1..]);
      assert s[k - 1..][1..] == s[k..];
    }
  }

  lemma BodyWalksOverTag(prev: char, s: Bytes)
    requires |s| >= 11 && s[..10] == "<mergeCell" && Space(s[10])
    ensures Body(prev, s) == Tag(s)
  {
    hide Body;
    forall i: nat | i < 11 ensures Passed(s, i) {
      assert i < 10 ==> s[i] == s[..10][i];
      assert i < 9 ==> s[i + 1] == s[..10][i + 1];
    }
    BodyWalks(prev, s, 11);
  }

  /** A tag that starts inside a match whose value holds no `<` ends with it. */
  lemma {:induction false} BodyNested(prev: char, s: Bytes, y: nat)
    requires Body(prev, s).Some? && '<' !in Body(prev, s).value.value
    requires y < Body(prev, s).value.len && y <= |s| && Tag(s[y..]).Some?
    ensures y + Tag(s[y..]).value.len == Body(prev, s).value.len
    decreases |s|
  {
    TagShape(s[y..]);
    assert s[y..][0] == s[y];
    if !Word(prev) && Ref(s).Some? {
      RefHoldsNoTag(s, y);
    } else if y == 0 {
      assert s[0..] == s;
      hide Ref, Body;
      BodyWalksOverTag(prev, s);
    } else {
      hide Ref, Tag;
      BodyNested(s[0], s[1..], y - 1);
      assert s[1..][y - 1..] == s[y..];
    }
  }

  lemma TagNested(s: Bytes, y: nat)
    requires Tag(s).Some? && '<' !in Tag(s).value.value
    requires y < Tag(s).value.len && y <= |s| && Tag(s[y..]).Some?
    ensures y + Tag(s[y..]).value.len == Tag(s).value.len
  {
    hide Body;
    TagShape(s);
    TagShape(s[y..]);
    assert s[y..][0] == s[y];
    if y >= 11 {
      assert s[y..] == s[11..][y - 11..];
      BodyNested(s[10], s[11..], y - 11);
    } else {
      assert y == 0;
      assert s[0..] == s;
    }
  }
}
