/** Which texts the merged-cell expression accepts, said of the bytes alone, and that ranges written as tags are
    read back by the scan. */
module MergeForm {
  import opened Sequences
  import opened MergeTag
  import opened MergeScan

  // ----- the form of a tag -----------------------------------------------------------------

  const SPACES := {' ', '\t', '\n', '\U{0B}', '\U{0C}', '\r'}
  const QUOTES := {'"', '\''}

  predicate WordByte(c: char) {
    c == '_' || '0' <= c <= '9' || 'A' <= c <= 'Z' || 'a' <= c <= 'z'
  }

  lemma Classes(c: char)
    ensures Space(c) <==> c in SPACES
    ensures Quote(c) <==> c in QUOTES
    ensures Word(c) <==> WordByte(c)
  {
  }

  ghost predicate AllSpaces(s: Bytes, i: nat, j: nat) {
    i <= j <= |s| && forall k | i <= k < j :: s[k] in SPACES
  }

  /** At `b` stands a quote, the value `v` of 1 to 64 bytes without quotes, and a quote that ends at `e`. */
  ghost predicate QuotedAt(s: Bytes, b: nat, e: nat, v: Bytes) {
    && b + |v| + 2 == e <= |s| && 1 <= |v| <= 64
    && s[b] in QUOTES && s[e - 1] in QUOTES && s[b + 1..e - 1] == v
    && forall k | 0 <= k < |v| :: v[k] !in QUOTES
  }

  /** At `a` stands `=`, perhaps spaces, and a quoted value. */
  ghost predicate AssignedAt(s: Bytes, a: nat, e: nat, v: Bytes) {
    a < |s| && s[a] == '=' && exists b: nat :: AllSpaces(s, a + 1, b) && QuotedAt(s, b, e, v)
  }

  /** At `j` stands `ref`, perhaps spaces, and an assigned value. */
  ghost predicate RefAt(s: Bytes, j: nat, e: nat, v: Bytes) {
    && j + 3 <= |s| && s[j] == 'r' && s[j + 1] == 'e' && s[j + 2] == 'f'
    && exists a: nat :: AllSpaces(s, j + 3, a) && AssignedAt(s, a, e, v)
  }

  lemma SpacesAre(s: Bytes, i: nat, j: nat)
    requires AllSpaces(s, i, j) && (j < |s| ==> s[j] !in SPACES)
    ensures j == i + Spaces(s[i..])
  {
    var n := Spaces(s[i..]);
    forall c ensures Space(c) <==> c in SPACES {
      Classes(c);
    }
    assert forall k | 0 <= k < |s| - i :: s[i..][k] == s[i + k];
  }

  lemma SpacesFound(s: Bytes, i: nat)
    requires i <= |s|
    ensures AllSpaces(s, i, i + Spaces(s[i..]))
  {
    forall c ensures Space(c) <==> c in SPACES {
      Classes(c);
    }
    forall k | i <= k < i + Spaces(s[i..]) ensures s[k] in SPACES {
      assert s[k] == s[i..][k - i];
    }
  }

  lemma QuotedIff(s: Bytes, b: nat, e: nat, v: Bytes)
    requires b <= e
    ensures b <= |s| && Quoted(s[b..]) == Some(Hit(e - b, v)) <==> QuotedAt(s, b, e, v)
  {
    forall c ensures Quote(c) <==> c in QUOTES {
      Classes(c);
    }
    if b < |s| {
      var t := s[b..];
      var n := Unquoted(t[1..]);
      assert forall k | 0 <= k < |t| - 1 :: t[1..][k] == s[b + 1 + k];
      assert n <= |t| - 1 ==> t[1..1 + n] == s[b + 1..b + 1 + n];
      if QuotedAt(s, b, e, v) {
        assert forall k | 0 <= k < |v| :: t[1..][k] == v[k];
        assert t[1..][|v|] == s[e - 1];
      }
    }
  }

  lemma AssignedIff(s: Bytes, a: nat, e: nat, v: Bytes)
    requires a <= e
    ensures a <= |s| && Assigned(s[a..]) == Some(Hit(e - a, v)) <==> AssignedAt(s, a, e, v)
  {
    hide Quoted, QuotedAt, Spaces;
    if a < |s| && s[a] == '=' {
      assert s[a..][1..] == s[a + 1..];
      var b := a + 1 + Spaces(s[a + 1..]);
      SpacesFound(s, a + 1);
      assert s[a..][b - a..] == s[b..];
      if b <= e {
        QuotedIff(s, b, e, v);
      }
      if AssignedAt(s, a, e, v) {
        var b': nat :| AllSpaces(s, a + 1, b') && QuotedAt(s, b', e, v);
        QuoteIsNoSpace(s, b', e, v);
        SpacesAre(s, a + 1, b');
      }
    }
  }

  lemma QuoteIsNoSpace(s: Bytes, b: nat, e: nat, v: Bytes)
    requires QuotedAt(s, b, e, v)
    ensures b < e <= |s| && s[b] !in SPACES
  {
  }

  lemma RefIff(s: Bytes, j: nat, e: nat, v: Bytes)
    requires j <= e
    ensures j <= |s| && Ref(s[j..]) == Some(Hit(e - j, v)) <==> RefAt(s, j, e, v)
  {
    hide Assigned, AssignedAt, Spaces;
    if j + 3 <= |s| && s[j] == 'r' && s[j + 1] == 'e' && s[j + 2] == 'f' {
      assert s[j..][3..] == s[j + 3..];
      var a := j + 3 + Spaces(s[j + 3..]);
      SpacesFound(s, j + 3);
      assert s[j..][a - j..] == s[a..];
      if a <= e {
        AssignedIff(s, a, e, v);
      }
      if RefAt(s, j, e, v) {
        var a': nat :| AllSpaces(s, j + 3, a') && AssignedAt(s, a', e, v);
        SignIsNoSpace(s, a', e, v);
        SpacesAre(s, j + 3, a');
      }
    }
  }

  lemma SignIsNoSpace(s: Bytes, a: nat, e: nat, v: Bytes)
    requires AssignedAt(s, a, e, v)
    ensures a < e && a < |s| && s[a] !in SPACES
  {
    var b: nat :| AllSpaces(s, a + 1, b) && QuotedAt(s, b, e, v);
    QuoteIsNoSpace(s, b, e, v);
  }

  /** From `i` on, a reference stands at `j`, at a word boundary and before any `>`. */
  ghost predicate ReferenceFrom(s: Bytes, i: nat, j: nat, e: nat, v: Bytes) {
    && 0 < i <= j <= |s| && !WordByte(s[j - 1]) && (forall k | i <= k < j :: s[k] != '>')
    && RefAt(s, j, e, v)
  }

  /** It is the first one. */
  ghost predicate FirstReference(s: Bytes, i: nat, j: nat, e: nat, v: Bytes) {
    ReferenceFrom(s, i, j, e, v) && forall j': nat, e': nat, w | j' < j :: !ReferenceFrom(s, i, j', e', w)
  }

  /** The first reference from `i` on ends at `e` with the value `v`. */
  ghost predicate Refers(s: Bytes, i: nat, e: nat, v: Bytes) {
    exists j: nat :: FirstReference(s, i, j, e, v)
  }

  ghost predicate NoReference(s: Bytes, i: nat) {
    forall j: nat, e: nat, v :: !ReferenceFrom(s, i, j, e, v)
  }

  lemma RefAtEnds(s: Bytes, j: nat, e: nat, v: Bytes)
    requires RefAt(s, j, e, v)
    ensures j < e <= |s|
  {
    var a: nat :| AllSpaces(s, j + 3, a) && AssignedAt(s, a, e, v);
    var b: nat :| AllSpaces(s, a + 1, b) && QuotedAt(s, b, e, v);
  }

  lemma {:induction false} BodyFinds(s: Bytes, i: nat)
    requires 0 < i <= |s|
    ensures Body(s[i - 1], s[i..]).Some? ==>
              Refers(s, i, i + Body(s[i - 1], s[i..]).value.len, Body(s[i - 1], s[i..]).value.value)
    ensures Body(s[i - 1], s[i..]).None? ==> NoReference(s, i)
    decreases |s| - i
  {
    hide Ref, RefAt;
    Classes(s[i - 1]);
    var t := s[i..];
    if !Word(s[i - 1]) && Ref(t).Some? {
      RefIff(s, i, i + Ref(t).value.len, Ref(t).value.value);
      assert FirstReference(s, i, i, i + Ref(t).value.len, Ref(t).value.value);
    } else {
      NoneHere(s, i);
      if t != [] && t[0] != '>' {
        BodyFinds(s, i + 1);
        assert t[1..] == s[i + 1..] && t[0] == s[i];
        FromNext(s, i);
      } else {
        assert t != [] ==> s[i] == t[0];
        forall j: nat, e: nat, v ensures !ReferenceFrom(s, i, j, e, v) {
        }
      }
    }
  }

  lemma NoneHere(s: Bytes, i: nat)
    requires 0 < i <= |s| && (Word(s[i - 1]) || Ref(s[i..]).None?)
    ensures forall e: nat, v :: !ReferenceFrom(s, i, i, e, v)
  {
    hide Ref, RefAt;
    Classes(s[i - 1]);
    forall e: nat, v ensures !ReferenceFrom(s, i, i, e, v) {
      if RefAt(s, i, e, v) {
        RefAtEnds(s, i, e, v);
        RefIff(s, i, e, v);
      }
    }
  }

  lemma FromNext(s: Bytes, i: nat)
    requires 0 < i < |s| && s[i] != '>' && forall e: nat, v :: !ReferenceFrom(s, i, i, e, v)
    ensures forall j: nat, e: nat, v :: ReferenceFrom(s, i, j, e, v) <==> ReferenceFrom(s, i + 1, j, e, v)
    ensures forall e: nat, v :: Refers(s, i + 1, e, v) ==> Refers(s, i, e, v)
  {
    hide RefAt;
    forall j: nat, e: nat, v ensures ReferenceFrom(s, i, j, e, v) <==> ReferenceFrom(s, i + 1, j, e, v) {
    }
    hide ReferenceFrom;
    forall e: nat, v | Refers(s, i + 1, e, v) ensures Refers(s, i, e, v) {
      var j: nat :| FirstReference(s, i + 1, j, e, v);
      assert FirstReference(s, i, j, e, v);
    }
  }

  /** `s` opens with the name of a merged cell and a space. */
  predicate Named(s: Bytes) {
    |s| >= 11 && s[..10] == "<mergeCell" && s[10] in SPACES
  }

  lemma RefersToOne(s: Bytes, i: nat, e: nat, v: Bytes, e': nat, w: Bytes)
    requires Refers(s, i, e, v) && Refers(s, i, e', w)
    ensures e == e' && v == w
  {
    hide RefAt;
    var j: nat :| FirstReference(s, i, j, e, v);
    var j': nat :| FirstReference(s, i, j', e', w);
    assert j == j';
    RefAtEnds(s, j, e, v);
    RefAtEnds(s, j, e', w);
    RefIff(s, j, e, v);
    RefIff(s, j, e', w);
    hide Ref;
  }

  lemma RefersEnds(s: Bytes, i: nat, e: nat, v: Bytes)
    requires Refers(s, i, e, v)
    ensures i < e <= |s|
  {
    hide RefAt;
    var j: nat :| FirstReference(s, i, j, e, v);
    RefAtEnds(s, j, e, v);
  }

  lemma BodyIff(s: Bytes, i: nat, e: nat, v: Bytes)
    requires 0 < i <= e && i <= |s|
    ensures Body(s[i - 1], s[i..]) == Some(Hit(e - i, v)) <==> Refers(s, i, e, v)
  {
    hide *;
    var r := Body(s[i - 1], s[i..]);
    BodyFinds(s, i);
    if r.None? {
      NoReferenceRefers(s, i);
    } else if Refers(s, i, e, v) {
      RefersToOne(s, i, e, v, i + r.value.len, r.value.value);
    }
  }

  /** The expression matches exactly the texts that open with the element's name and go on to a reference at a
      word boundary before any `>`; of several references it takes the first, with its value. */
  lemma TagIff(s: Bytes, e: nat, v: Bytes)
    ensures Tag(s) == Some(Hit(e, v)) <==> Named(s) && Refers(s, 11, e, v)
  {
    hide Body, Refers;
    if |s| >= 11 {
      Classes(s[10]);
      if e >= 11 {
        BodyIff(s, 11, e, v);
      } else if Refers(s, 11, e, v) {
        RefersEnds(s, 11, e, v);
      }
    }
  }

  lemma NoReferenceRefers(s: Bytes, i: nat)
    requires NoReference(s, i)
    ensures forall e: nat, v :: !Refers(s, i, e, v)
  {
  }

  // ----- ranges written are read back ------------------------------------------------------

  /** A value a writer may put between quotes: 1 to 64 bytes, no quote and no `<`. */
  ghost predicate Value(v: Bytes) {
    1 <= |v| <= 64 && '<' !in v && forall k | 0 <= k < |v| :: v[k] !in QUOTES
  }

  /** `<mergeCell ref="..."` as a writer puts it down. */
  function Opened(v: Bytes): (s: Bytes)
    ensures |s| == |v| + 17
  {
    "<mergeCell ref=\"" + v + "\""
  }

  lemma OpenedBytes(v: Bytes, rest: Bytes)
    ensures
      var s := Opened(v) + rest;
      && s[..10] == "<mergeCell" && s[10] == ' ' && s[11] == 'r' && s[12] == 'e' && s[13] == 'f' && s[14] == '='
      && s[15] == '"' && s[16..16 + |v|] == v && s[16 + |v|] == '"'
  {
    var front := "<mergeCell ref=\"";
    var s := Opened(v) + rest;
    assert s == front + (v + ("\"" + rest));
    assert |front| == 16 && forall k | 0 <= k < 16 :: s[k] == front[k];
    assert s[..10] == front[..10] == "<mergeCell";
  }

  /** The expression matches it, whatever follows, up to its closing quote. */
  lemma OpenedIsTag(v: Bytes, rest: Bytes)
    requires 1 <= |v| <= 64 && forall k | 0 <= k < |v| :: v[k] !in QUOTES
    ensures Tag(Opened(v) + rest) == Some(Hit(|v| + 17, v))
  {
    var s := Opened(v) + rest;
    OpenedBytes(v, rest);
    hide Opened;
    var e := |v| + 17;
    assert QuotedAt(s, 15, e, v);
    assert AllSpaces(s, 15, 15) && AssignedAt(s, 14, e, v);
    assert AllSpaces(s, 14, 14) && RefAt(s, 11, e, v);
    hide RefAt, QuotedAt, AssignedAt, AllSpaces;
    assert ReferenceFrom(s, 11, 11, e, v);
    assert FirstReference(s, 11, 11, e, v);
    assert Refers(s, 11, e, v);
    hide Tag, Refers;
    TagIff(s, e, v);
  }

  /** An ASCII byte is reported as it is, and any other as the replacement character. */
  lemma DecodeReplaces(v: Bytes)
    ensures |Decode(v)| == |v|
    ensures forall i | 0 <= i < |v| :: Decode(v)[i] == if v[i] <= '\U{7F}' then v[i] else '\U{FFFD}'
  {
  }

  /** Filler without `<`, then one tag; a sheet is a list of them. */
  datatype Piece = Piece(fill: Bytes, value: Bytes)

  ghost predicate Writable(ps: seq<Piece>) {
    forall i | 0 <= i < |ps| :: '<' !in ps[i].fill && Value(ps[i].value)
  }

  function Written(ps: seq<Piece>, end: Bytes): Bytes {
    if ps == [] then end else ps[0].fill + (Opened(ps[0].value) + Written(ps[1..], end))
  }

  function Values(ps: seq<Piece>): seq<string> {
    if ps == [] then [] else [Decode(ps[0].value)] + Values(ps[1..])
  }

  /** One scan of what was written gives the values written, decoded, in order. */
  lemma {:induction false} WrittenIsScanned(ps: seq<Piece>, end: Bytes)
    requires Writable(ps) && '<' !in end
    ensures Scan(Written(ps, end)) == Values(ps)
    decreases |ps|
  {
    hide Tag, Opened, Decode;
    if ps == [] {
      ScanSkips(end, |end|);
      assert end[|end|..] == [];
    } else {
      var fill, v, rest := ps[0].fill, ps[0].value, Written(ps[1..], end);
      WrittenIsScanned(ps[1..], end);
      OpenedIsTag(v, rest);
      ScanSkips(fill + (Opened(v) + rest), |fill|);
      assert (fill + (Opened(v) + rest))[|fill|..] == Opened(v) + rest;
      assert (Opened(v) + rest)[|v| + 17..] == rest;
    }
  }

  lemma OpenedHoldsOne(v: Bytes, rest: Bytes, x: nat)
    requires '<' !in v && 0 < x < |v| + 17
    ensures (Opened(v) + rest)[x] != '<'
  {
    var front := "<mergeCell ref=\"";
    var s := Opened(v) + rest;
    assert s == front + (v + ("\"" + rest));
    if x < 16 {
      assert s[x] == front[x];
    } else if x < 16 + |v| {
      assert s[x] == v[x - 16] && v[x - 16] in v;
    }
  }

  lemma IsNot(t: Bytes, x: nat)
    requires '<' !in t && x < |t|
    ensures t[x] != '<'
  {
  }

  /** A tag in what was written is one of those written. */
  lemma {:induction false} WrittenTags(ps: seq<Piece>, end: Bytes, x: nat)
    requires Writable(ps) && '<' !in end && x <= |Written(ps, end)| && Tag(Written(ps, end)[x..]).Some?
    ensures
      var h := Tag(Written(ps, end)[x..]).value;
      '<' !in h.value && h.len <= OVERLAP + 1
    decreases |ps|
  {
    hide Tag, Opened;
    var s := Written(ps, end);
    NoTagWithoutStart(s[x..]);
    assert x < |s| && s[x..][0] == s[x] == '<';
    if ps == [] {
      IsNot(end, x);
    } else {
      var fill, v, rest := ps[0].fill, ps[0].value, Written(ps[1..], end);
      if x < |fill| {
        IsNot(fill, x);
      } else if x == |fill| {
        assert s[x..] == Opened(v) + rest;
        OpenedIsTag(v, rest);
      } else if x < |fill| + |v| + 17 {
        OpenedHoldsOne(v, rest, x - |fill|);
      } else {
        assert s[x..] == rest[x - |fill| - |v| - 17..];
        WrittenTags(ps[1..], end, x - |fill| - |v| - 17);
      }
    }
  }

  lemma WrittenIsTameAndShort(ps: seq<Piece>, end: Bytes)
    requires Writable(ps) && '<' !in end
    ensures Tame(Written(ps, end)) && Short(Written(ps, end))
  {
    hide Tag, Written;
    var s := Written(ps, end);
    forall x: nat | x <= |s| && Tag(s[x..]).Some?
      ensures '<' !in Tag(s[x..]).value.value && Tag(s[x..]).value.len <= OVERLAP + 1
    {
      WrittenTags(ps, end, x);
    }
  }

  /** Fewer than 10000 ranges and fewer than 100000 matches. */
  predicate Uncapped(matches: seq<string>) {
    |FirstSeen(matches)| < 10_000 && |matches| < 100_000
  }

  lemma UncappedIsNotFull(matches: seq<string>)
    ensures Uncapped(matches) <==> !Full(matches)
  {
  }

  predicate OnlySlashes(path: string) {
    forall i | 0 <= i < |path| :: path[i] == '/'
  }

  /** A path names a part unless it is slashes alone. */
  lemma {:induction false} PathIsOpened(path: string)
    ensures LeftStripped(path) == [] <==> OnlySlashes(path)
  {
    if path != [] && path[0] == '/' {
      PathIsOpened(path[1..]);
      assert forall i | 1 <= i < |path| :: path[i] == path[1..][i - 1];
    }
  }

  /** The ranges a writer put into a part are those reported of it, each once and in order, however the part is
      read, while no cap is reached and no read fails. */
  lemma WrittenRangesAreReported(path: string, part: Part, ps: seq<Piece>, end: Bytes)
    requires !OnlySlashes(path) && part.Part? && !part.fails && Uncapped(WindowMatches(part.chunks))
    requires Writable(ps) && '<' !in end && Concat(part.chunks) == Written(ps, end)
    ensures Ranges(path, part) == FirstSeen(Values(ps))
  {
    hide *;
    PathIsOpened(path);
    UncappedIsNotFull(WindowMatches(part.chunks));
    WrittenIsTameAndShort(ps, end);
    WrittenIsScanned(ps, end);
    RangesAreTheWholePart(path, part);
  }

  /** Nothing is reported of a path of slashes, of a part that is not there, and of one a read of which fails
      before a cap is reached. */
  lemma NothingReported(path: string, part: Part)
    requires OnlySlashes(path) || part.Missing? || (part.fails && Uncapped(WindowMatches(part.chunks)))
    ensures Ranges(path, part) == []
  {
    PathIsOpened(path);
    hide WindowMatches, LeftStripped, FirstSeen, OnlySlashes;
    if part.Part? {
      var matches := WindowMatches(part.chunks);
      CapsHold(matches);
      UncappedIsNotFull(matches);
    }
  }

  /** The matches looked at end with the first that reaches a cap. */
  lemma LookedMeaning(matches: seq<string>)
    ensures
      var k := Looked(matches);
      && (forall j | 0 <= j < k :: Uncapped(matches[..j]))
      && (Uncapped(matches[..k]) ==> k == |matches|)
  {
    hide Full, FirstSeen, Looked, Uncapped;
    var k := Looked(matches);
    forall j | 0 <= j <= k ensures Uncapped(matches[..j]) <==> !Full(matches[..j]) {
      UncappedIsNotFull(matches[..j]);
    }
  }
}
