/** The merged-range scan of a worksheet part: the tag expression run over a byte stream one chunk at a
    time, carrying a short tail so a tag cut by a chunk boundary is still seen, under two caps. */
module MergeScan {
  import opened Sequences
  import opened MergeTag

  /** What a read returns before the end of the part. */
  type Chunk = c: Bytes | |c| > 0 witness "x"

  const READ := 0x10_0000
  const OVERLAP := 256
  const LIMIT := 10_000
  const MATCHES := 100_000

  /** `decode("ascii", "replace")`. */
  function Decode(v: Bytes): string {
    seq(|v|, i requires 0 <= i < |v| => if v[i] < 128 as char then v[i] else '\U{FFFD}')
  }

  /** `finditer`: the leftmost match, then on from its end. */
  function Scan(s: Bytes): seq<string>
    decreases |s|
  {
    if s == [] then []
    else match Tag(s)
      case None => Scan(s[1..])
      case Some(h) =>
        TagShape(s);
        [Decode(h.value)] + Scan(s[h.len..])
  }

  // ----- the same matches, listed by where they end ----------------------------------------

  ghost predicate StartsLast(s: Bytes, x: nat) {
    x <= |s| && Tag(s[x..]).Some? && x + Tag(s[x..]).value.len == |s|
  }

  /** The value of the tag that ends where `s` does, if one does. */
  ghost function Ending(s: Bytes): (r: seq<string>)
    ensures forall x: nat | StartsLast(s, x) :: r == [Decode(Tag(s[x..]).value.value)]
    ensures r != [] ==> exists x: nat :: StartsLast(s, x)
  {
    if exists x: nat :: StartsLast(s, x) then
      var x: nat :| StartsLast(s, x);
      assert forall y: nat | StartsLast(s, y) :: Tag(s[y..]).value.value == Tag(s[x..]).value.value by {
        forall y: nat | StartsLast(s, y) ensures Tag(s[y..]).value.value == Tag(s[x..]).value.value {
          SameEndSameValue(s, x, y);
        }
      }
      [Decode(Tag(s[x..]).value.value)]
    else []
  }

  /** The value of every tag in `s`, by the place it ends. */
  ghost function Found(s: Bytes): seq<string> {
    if s == [] then [] else Found(s[..|s| - 1]) + Ending(s)
  }

  /** An attribute value holds no `<` (section 3.1 of XML 1.0). */
  ghost predicate Tame(s: Bytes) {
    forall x: nat | x <= |s| && Tag(s[x..]).Some? :: '<' !in Tag(s[x..]).value.value
  }

  lemma TamePart(s: Bytes, a: nat, b: nat)
    requires a <= b <= |s| && Tame(s)
    ensures Tame(s[a..b])
  {
    hide Tag, Captured;
    forall x: nat | x <= b - a && Tag(s[a..b][x..]).Some?
      ensures '<' !in Tag(s[a..b][x..]).value.value
    {
      assert s[a..b][x..] == s[a + x..][..b - a - x];
      TagLocal(s[a + x..], b - a - x);
    }
  }

  /** A tag that starts in a match starts it or ends with it. */
  lemma NoOtherEnd(s: Bytes, x: nat)
    requires Tag(s).Some? && '<' !in Tag(s).value.value
    requires StartsLast(s, x) && x < Tag(s).value.len
    ensures |s| == Tag(s).value.len
  {
    hide Tag;
    TagNested(s, x);
  }

  /** Nothing ends strictly inside a match. */
  lemma {:induction false} FoundInside(s: Bytes, m: nat)
    requires Tag(s).Some? && '<' !in Tag(s).value.value && m < Tag(s).value.len && m <= |s|
    ensures Found(s[..m]) == []
  {
    hide Tag;
    if m > 0 {
      FoundInside(s, m - 1);
      var t := s[..m];
      assert t[..m - 1] == s[..m - 1];
      forall x: nat ensures !StartsLast(t, x) {
        if StartsLast(t, x) {
          assert t[x..] == s[x..][..m - x];
          TagLocal(s[x..], m - x);
          TagNested(s, x);
        }
      }
    }
  }

  lemma EndingOfRest(s: Bytes, k: nat)
    requires k <= |s| && forall x: nat | x < k :: !StartsLast(s, x)
    ensures Ending(s) == Ending(s[k..])
  {
    hide Tag;
    forall x: nat | StartsLast(s, x) ensures StartsLast(s[k..], x - k) {
      assert s[k..][x - k..] == s[x..];
    }
    forall x: nat | StartsLast(s[k..], x) ensures StartsLast(s, x + k) {
      assert s[k..][x..] == s[x + k..];
    }
    if x: nat :| StartsLast(s, x) {
      assert s[k..][x - k..] == s[x..];
    }
  }

  lemma {:induction false} FoundWithoutHead(s: Bytes)
    requires s != [] && Tag(s) == None
    ensures Found(s) == Found(s[1..])
    decreases |s|
  {
    hide Tag;
    var n := |s| - 1;
    assert s[0..] == s;
    EndingOfRest(s, 1);
    if n > 0 {
      TagLocal(s, n);
      FoundWithoutHead(s[..n]);
      assert s[..n][1..] == s[1..][..n - 1];
    } else {
      assert s[1..] == [] && s[..0] == [];
      NothingEnds();
    }
  }

  lemma NothingEnds()
    ensures Ending([]) == []
  {
    forall x: nat ensures !StartsLast([], x) {
      if StartsLast([], x) {
        TagShape([][x..]);
      }
    }
  }

  lemma FoundAlone(s: Bytes)
    requires Tag(s).Some? && '<' !in Tag(s).value.value && Tag(s).value.len == |s|
    ensures Found(s) == [Decode(Tag(s).value.value)] + Found(s[|s|..])
  {
    hide Tag, Decode;
    TagShape(s);
    FoundInside(s, |s| - 1);
    assert s[0..] == s;
    assert StartsLast(s, 0);
    assert s[|s|..] == [];
  }

  lemma {:induction false} FoundAfterHead(s: Bytes)
    requires Tag(s).Some? && '<' !in Tag(s).value.value && Tag(s).value.len <= |s|
    ensures Found(s) == [Decode(Tag(s).value.value)] + Found(s[Tag(s).value.len..])
    decreases |s|
  {
    hide Tag, Decode, StartsLast;
    TagShape(s);
    var n, len := |s| - 1, Tag(s).value.len;
    if n < len {
      FoundAlone(s);
    } else {
      TagLocal(s, n);
      FoundAfterHead(s[..n]);
      assert s[..n][len..] == s[len..][..n - len];
      forall x: nat | x < len ensures !StartsLast(s, x) {
        if StartsLast(s, x) {
          NoOtherEnd(s, x);
        }
      }
      EndingOfRest(s, len);
    }
  }

  /** The left-to-right search finds every tag, by the place it ends. */
  lemma {:induction false} ScanFindsAll(s: Bytes)
    requires Tame(s)
    ensures Scan(s) == Found(s)
    decreases |s|
  {
    hide Tag, Decode;
    if s != [] {
      assert s[0..] == s;
      match Tag(s)
      case None =>
        TamePart(s, 1, |s|);
        assert s[1..|s|] == s[1..];
        ScanFindsAll(s[1..]);
        FoundWithoutHead(s);
      case Some(h) =>
        TagShape(s);
        TamePart(s, h.len, |s|);
        assert s[h.len..|s|] == s[h.len..];
        ScanFindsAll(s[h.len..]);
        FoundAfterHead(s);
    }
  }

  // ----- chunks ----------------------------------------------------------------------------

  function Tail(s: Bytes): Bytes {
    if |s| <= OVERLAP then s else s[|s| - OVERLAP..]
  }

  function Concat(chunks: seq<Chunk>): Bytes {
    if chunks == [] then [] else Concat(chunks[..|chunks| - 1]) + chunks[|chunks| - 1]
  }

  /** The matches of every window, in the order they are met. */
  function WindowMatches(chunks: seq<Chunk>): seq<string> {
    if chunks == [] then []
    else
      var n := |chunks| - 1;
      WindowMatches(chunks[..n]) + Scan(Tail(Concat(chunks[..n])) + chunks[n])
  }

  lemma TailOfTail(s: Bytes, c: Bytes)
    ensures Tail(Tail(s) + c) == Tail(s + c)
  {
  }

  /** No tag is longer than the tail and one byte more. */
  ghost predicate Short(s: Bytes) {
    forall x: nat | x <= |s| && Tag(s[x..]).Some? :: Tag(s[x..]).value.len <= OVERLAP + 1
  }

  lemma ShortPrefix(s: Bytes, b: nat)
    requires b <= |s| && Short(s)
    ensures Short(s[..b])
  {
    hide Tag;
    forall x: nat | x <= b && Tag(s[..b][x..]).Some? ensures Tag(s[..b][x..]).value.len <= OVERLAP + 1 {
      assert s[..b][x..] == s[x..][..b - x];
      TagLocal(s[x..], b - x);
    }
  }

  lemma EndingOfPart(s: Bytes, a: nat)
    requires a <= |s| && Ending(s[a..]) != []
    ensures Ending(s) == Ending(s[a..])
  {
    hide Tag, Decode;
    var x: nat :| StartsLast(s[a..], x);
    assert s[a..][x..] == s[a + x..];
    assert StartsLast(s, a + x);
  }

  /** A part of a string holds no tag the whole does not. */
  lemma {:induction false} FoundInPart(s: Bytes, a: nat)
    requires a <= |s|
    ensures forall v | v in Found(s[a..]) :: v in Found(s)
    decreases |s|
  {
    hide Tag, Ending;
    if a < |s| {
      var n := |s| - 1;
      FoundInPart(s[..n], a);
      assert s[..n][a..] == s[a..][..n - a];
      if Ending(s[a..]) != [] {
        EndingOfPart(s, a);
      }
    }
  }

  /** Re-matching in the overlap adds nothing, and the overlap loses nothing. */
  lemma {:induction false} WindowCatchesUp(s: Bytes, b: nat)
    requires b <= |s| && Short(s)
    ensures FirstSeen(Found(s[..b]) + Found(s[b - |Tail(s[..b])|..])) == FirstSeen(Found(s))
    decreases |s|
  {
    hide Tag, Ending, FirstSeen, Decode, Short, Found;
    var a := b - |Tail(s[..b])|;
    if b == |s| {
      assert s[..b] == s;
      FoundInPart(s, a);
      FirstSeenAbsorbs(Found(s), Found(s[a..]));
    } else {
      var n := |s| - 1;
      ShortPrefix(s, n);
      assert s[..n][..b] == s[..b] && s[..n][a..] == s[a..][..n - a];
      WindowCatchesUp(s[..n], b);
      LastFound(s);
      LastFound(s[a..]);
      EndingInWindow(s, a);
      FirstSeenCongruent(Found(s[..b]) + Found(s[a..n]), Found(s[..n]), Ending(s));
      assert Found(s[..b]) + Found(s[a..n]) + Ending(s) == Found(s[..b]) + Found(s[a..]);
    }
  }

  lemma LastFound(s: Bytes)
    requires s != []
    ensures Found(s) == Found(s[..|s| - 1]) + Ending(s)
  {
  }

  /** A tag that ends past a boundary starts in the window that follows it. */
  lemma EndingInWindow(s: Bytes, a: nat)
    requires Short(s) && a <= |s| && (a > 0 ==> a + OVERLAP + 1 <= |s|)
    ensures Ending(s) == Ending(s[a..])
  {
    hide Tag, Decode;
    EndingOfRest(s, a);
  }

  lemma {:induction false} FirstSeenAbsorbs(xs: seq<string>, ys: seq<string>)
    requires forall y | y in ys :: y in xs
    ensures FirstSeen(xs + ys) == FirstSeen(xs)
  {
    hide FirstSeen, NoDup;
    if ys == [] {
      assert xs + ys == xs;
    } else {
      var n := |ys| - 1;
      FirstSeenAbsorbs(xs, ys[..n]);
      assert xs + ys == (xs + ys[..n]) + [ys[n]];
      FirstSeenSnoc(xs + ys[..n], ys[n]);
    }
  }

  lemma {:induction false} FirstSeenCongruent(xs: seq<string>, ys: seq<string>, more: seq<string>)
    requires FirstSeen(xs) == FirstSeen(ys)
    ensures FirstSeen(xs + more) == FirstSeen(ys + more)
  {
    hide FirstSeen, NoDup;
    if more == [] {
      assert xs + more == xs && ys + more == ys;
    } else {
      var n := |more| - 1;
      FirstSeenCongruent(xs, ys, more[..n]);
      assert xs + more == (xs + more[..n]) + [more[n]] && ys + more == (ys + more[..n]) + [more[n]];
      FirstSeenSnoc(xs + more[..n], more[n]);
      FirstSeenSnoc(ys + more[..n], more[n]);
      assert more[n] in xs + more[..n] <==> more[n] in FirstSeen(xs + more[..n]);
      assert more[n] in ys + more[..n] <==> more[n] in FirstSeen(ys + more[..n]);
    }
  }

  lemma WindowIsSuffix(before: Bytes, c: Bytes)
    ensures |Tail(before)| <= |before| && (before + c)[..|before|] == before
    ensures (before + c)[|before| - |Tail(before)|..] == Tail(before) + c
    ensures (before + c)[|before| - |Tail(before)|..|before + c|] == Tail(before) + c
  {
  }

  lemma WindowStep(before: Bytes, c: Bytes, met: seq<string>)
    requires Tame(before + c) && Short(before + c) && FirstSeen(met) == FirstSeen(Found(before))
    ensures FirstSeen(met + Scan(Tail(before) + c)) == FirstSeen(Found(before + c))
  {
    hide *;
    var s := before + c;
    var a := |before| - |Tail(before)|;
    WindowIsSuffix(before, c);
    TamePart(s, a, |s|);
    ScanFindsAll(s[a..]);
    FirstSeenCongruent(met, Found(before), Found(s[a..]));
    WindowCatchesUp(s, |before|);
  }

  lemma TameShortPrefix(before: Bytes, c: Bytes)
    requires Tame(before + c) && Short(before + c)
    ensures Tame(before) && Short(before)
  {
    hide *;
    var s := before + c;
    assert s[..|before|] == before && s[0..|before|] == before;
    TamePart(s, 0, |before|);
    ShortPrefix(s, |before|);
  }

  /** However the reads split the part, the windows find exactly the ranges of one scan of the whole,
      in the same order. */
  lemma {:induction false} WindowsFindAll(chunks: seq<Chunk>)
    requires Tame(Concat(chunks)) && Short(Concat(chunks))
    ensures FirstSeen(WindowMatches(chunks)) == FirstSeen(Scan(Concat(chunks)))
  {
    if chunks != [] {
      hide Tag, FirstSeen, Short, Found, Tame, Scan, Tail;
      var n := |chunks| - 1;
      var before := Concat(chunks[..n]);
      TameShortPrefix(before, chunks[n]);
      WindowsFindAll(chunks[..n]);
      ScanFindsAll(before);
      WindowStep(before, chunks[n], WindowMatches(chunks[..n]));
      ScanFindsAll(Concat(chunks));
    }
  }

  // ----- exactly which tags are found ------------------------------------------------------

  /** A tag with the value `v` starts at `x`. */
  ghost predicate TagAt(s: Bytes, x: nat, v: string) {
    x <= |s| && Tag(s[x..]).Some? && Decode(Tag(s[x..]).value.value) == v
  }

  function TagEnd(s: Bytes, x: nat): nat {
    if x <= |s| && Tag(s[x..]).Some? then x + Tag(s[x..]).value.len else x
  }

  lemma TagInPrefix(s: Bytes, m: nat, x: nat, v: string)
    requires m <= |s|
    ensures TagAt(s[..m], x, v) <==> TagAt(s, x, v) && TagEnd(s, x) <= m
    ensures TagAt(s[..m], x, v) ==> TagEnd(s[..m], x) == TagEnd(s, x)
  {
    if x <= m {
      assert s[..m][x..] == s[x..][..m - x];
      TagLocal(s[x..], m - x);
    } else if x <= |s| && Tag(s[x..]).Some? {
      TagShape(s[x..]);
    }
    hide Tag, Decode;
  }

  lemma EndingIff(s: Bytes, v: string)
    ensures v in Ending(s) <==> exists x: nat :: TagAt(s, x, v) && TagEnd(s, x) == |s|
  {
    hide Tag, Decode;
    if v in Ending(s) {
      var x: nat :| StartsLast(s, x);
      assert TagAt(s, x, v);
    }
    if x: nat :| TagAt(s, x, v) && TagEnd(s, x) == |s| {
      assert StartsLast(s, x);
    }
  }

  lemma TagEndsInside(s: Bytes, x: nat, v: string)
    requires TagAt(s, x, v)
    ensures TagEnd(s, x) <= |s|
  {
    TagShape(s[x..]);
  }

  /** Some tag has the value `v`. */
  ghost predicate HasTag(s: Bytes, v: string) {
    exists x: nat :: TagAt(s, x, v)
  }

  /** The list by ends holds exactly the values of the tags. */
  lemma {:induction false} FoundIff(s: Bytes, v: string)
    ensures v in Found(s) <==> HasTag(s, v)
    decreases |s|
  {
    hide TagAt, TagEnd, Ending;
    EndingIff(s, v);
    forall x: nat | TagAt(s, x, v) ensures TagEnd(s, x) <= |s| {
      TagEndsInside(s, x, v);
    }
    if s == [] {
      NothingEnds();
      assert forall x: nat | TagAt(s, x, v) :: TagEnd(s, x) == |s|;
    } else {
      var n := |s| - 1;
      FoundIff(s[..n], v);
      forall x: nat
        ensures TagAt(s[..n], x, v) ==> TagAt(s, x, v)
        ensures TagAt(s, x, v) ==> TagEnd(s, x) == |s| || TagAt(s[..n], x, v)
      {
        TagInPrefix(s, n, x, v);
      }
    }
  }

  function WindowStart(chunks: seq<Chunk>, n: nat): nat
    requires n < |chunks|
  {
    var before := Concat(chunks[..n]);
    |before| - |Tail(before)|
  }

  /** A tag with the value `v` lies inside the `n`-th window. */
  ghost predicate InWindow(chunks: seq<Chunk>, n: nat, x: nat, v: string) {
    && n < |chunks| && WindowStart(chunks, n) <= x
    && TagAt(Concat(chunks), x, v) && TagEnd(Concat(chunks), x) <= |Concat(chunks[..n + 1])|
  }

  lemma {:induction false} ConcatGrows(chunks: seq<Chunk>, n: nat)
    requires n <= |chunks|
    ensures |Concat(chunks[..n])| <= |Concat(chunks)| && Concat(chunks)[..|Concat(chunks[..n])|] == Concat(chunks[..n])
  {
    if n < |chunks| {
      ConcatGrows(chunks[..|chunks| - 1], n);
      assert chunks[..|chunks| - 1][..n] == chunks[..n];
    } else {
      assert chunks[..n] == chunks;
    }
  }

  /** A window of the reads so far holds what it will hold when more is read. */
  lemma EarlierWindow(chunks: seq<Chunk>, n: nat, x: nat, v: string)
    requires chunks != [] && n < |chunks| - 1
    ensures InWindow(chunks[..|chunks| - 1], n, x, v) <==> InWindow(chunks, n, x, v)
  {
    var init := chunks[..|chunks| - 1];
    assert init[..n] == chunks[..n] && init[..n + 1] == chunks[..n + 1];
    ConcatGrows(init, n + 1);
    ConcatGrows(chunks, |init|);
    hide Concat, Tail, TagAt, TagEnd;
    TagInPrefix(Concat(chunks), |Concat(init)|, x, v);
  }

  lemma LastWindow(chunks: seq<Chunk>, x: nat, v: string)
    requires chunks != []
    ensures
      var n := |chunks| - 1;
      var window := Tail(Concat(chunks[..n])) + chunks[n];
      && (TagAt(window, x, v) ==> InWindow(chunks, n, WindowStart(chunks, n) + x, v))
      && (InWindow(chunks, n, x, v) ==> TagAt(window, x - WindowStart(chunks, n), v))
  {
    var n := |chunks| - 1;
    var a := WindowStart(chunks, n);
    var s := Concat(chunks);
    assert chunks[..n + 1] == chunks;
    assert s[a..] == Tail(Concat(chunks[..n])) + chunks[n];
    hide Concat, Tail, Decode, Tag;
    if x <= |s| - a {
      assert s[a..][x..] == s[a + x..];
      if Tag(s[a + x..]).Some? {
        TagShape(s[a + x..]);
      }
    }
    if a <= x <= |s| {
      assert s[a..][x - a..] == s[x..];
    }
  }

  /** Some tag with the value `v` lies inside the `n`-th window. */
  ghost predicate Seen(chunks: seq<Chunk>, n: nat, v: string) {
    exists x: nat :: InWindow(chunks, n, x, v)
  }

  lemma EarlierSeen(chunks: seq<Chunk>, n: nat, v: string)
    requires chunks != [] && n < |chunks| - 1
    ensures Seen(chunks[..|chunks| - 1], n, v) <==> Seen(chunks, n, v)
  {
    hide InWindow;
    var init := chunks[..|chunks| - 1];
    if x: nat :| InWindow(init, n, x, v) {
      EarlierWindow(chunks, n, x, v);
    }
    if x: nat :| InWindow(chunks, n, x, v) {
      EarlierWindow(chunks, n, x, v);
    }
  }

  lemma LastSeen(chunks: seq<Chunk>, v: string)
    requires chunks != [] && Tame(Concat(chunks))
    ensures
      var n := |chunks| - 1;
      v in Scan(Tail(Concat(chunks[..n])) + chunks[n]) <==> Seen(chunks, n, v)
  {
    var n := |chunks| - 1;
    var window := Tail(Concat(chunks[..n])) + chunks[n];
    WindowStartsBefore(chunks, n, v);
    hide InWindow, TagAt, Tame, Scan, Found, Concat, Tail, WindowStart;
    TameWindow(chunks);
    ScanFindsAll(window);
    FoundIff(window, v);
    if x: nat :| TagAt(window, x, v) {
      LastWindow(chunks, x, v);
    }
    if x: nat :| InWindow(chunks, n, x, v) {
      LastWindow(chunks, x, v);
    }
  }

  lemma WindowStartsBefore(chunks: seq<Chunk>, n: nat, v: string)
    ensures forall x: nat | InWindow(chunks, n, x, v) :: n < |chunks| && WindowStart(chunks, n) <= x
  {
  }

  lemma TameWindow(chunks: seq<Chunk>)
    requires chunks != [] && Tame(Concat(chunks))
    ensures
      var before := Concat(chunks[..|chunks| - 1]);
      Tame(before) && Tame(Tail(before) + chunks[|chunks| - 1])
  {
    hide Tame;
    var before, c := Concat(chunks[..|chunks| - 1]), chunks[|chunks| - 1];
    assert Concat(chunks) == before + c;
    hide Concat;
    TameParts(before, c);
  }

  lemma TameParts(before: Bytes, c: Bytes)
    requires Tame(before + c)
    ensures Tame(before) && Tame(Tail(before) + c)
  {
    hide Tame;
    var s := before + c;
    var a := |before| - |Tail(before)|;
    assert s[0..|before|] == before && s[a..|s|] == Tail(before) + c;
    TamePart(s, 0, |before|);
    TamePart(s, a, |s|);
  }

  /** Some tag with the value `v` lies inside some window. */
  ghost predicate SeenSomewhere(chunks: seq<Chunk>, v: string) {
    exists n: nat :: n < |chunks| && Seen(chunks, n, v)
  }

  /** For a tame part, split in any way at all: the windows find a value exactly when some tag with it lies
      inside one window. */
  lemma {:induction false} WindowMatchesIff(chunks: seq<Chunk>, v: string)
    requires Tame(Concat(chunks))
    ensures v in WindowMatches(chunks) <==> SeenSomewhere(chunks, v)
  {
    hide Seen, Tame, Scan, Concat, Tail;
    if chunks != [] {
      var n := |chunks| - 1;
      TameWindow(chunks);
      WindowMatchesIff(chunks[..n], v);
      LastSeen(chunks, v);
      forall m: nat | m < n ensures Seen(chunks[..n], m, v) <==> Seen(chunks, m, v) {
        EarlierSeen(chunks, m, v);
      }
    }
  }

  /** The scan in windows loses no range of a tame part exactly when every range has a tag that lies inside
      one window; it never reports a range that is not there. */
  lemma LosesNothingIff(chunks: seq<Chunk>)
    requires Tame(Concat(chunks))
    ensures forall v | v in WindowMatches(chunks) :: v in Scan(Concat(chunks))
    ensures (forall v | v in Scan(Concat(chunks)) :: v in WindowMatches(chunks)) <==>
            forall v | HasTag(Concat(chunks), v) :: SeenSomewhere(chunks, v)
  {
    hide Tame, Scan, HasTag, Concat, WindowMatches, Found, SeenSomewhere;
    ScanFindsAll(Concat(chunks));
    forall v
      ensures v in Scan(Concat(chunks)) <==> HasTag(Concat(chunks), v)
      ensures v in WindowMatches(chunks) <==> SeenSomewhere(chunks, v)
      ensures SeenSomewhere(chunks, v) ==> HasTag(Concat(chunks), v)
    {
      FoundIff(Concat(chunks), v);
      WindowMatchesIff(chunks, v);
      SeenIsThere(chunks, v);
    }
  }

  lemma SeenIsThere(chunks: seq<Chunk>, v: string)
    ensures SeenSomewhere(chunks, v) ==> HasTag(Concat(chunks), v)
  {
    hide TagAt, Concat;
  }

  // ----- the caps --------------------------------------------------------------------------

  predicate Full(matches: seq<string>) {
    |FirstSeen(matches)| >= LIMIT || |matches| >= MATCHES
  }

  /** No cap is reached by fewer than `k` matches. */
  ghost predicate Below(matches: seq<string>, k: nat)
    requires k <= |matches| + 1
  {
    forall j | 0 <= j < k :: !Full(matches[..j])
  }

  lemma BelowAt(matches: seq<string>, k: nat, j: nat)
    requires j < k <= |matches| + 1 && Below(matches, k)
    ensures !Full(matches[..j])
  {
    hide Full;
  }

  lemma BelowInPrefix(all: seq<string>, met: seq<string>, k: nat)
    requires met <= all && k <= |met| + 1
    ensures Below(met, k) <==> Below(all, k)
  {
    hide Full;
    assert forall j | 0 <= j < k :: met[..j] == all[..j];
  }

  lemma BelowOneMore(matches: seq<string>, k: nat)
    requires k <= |matches| && Below(matches, k) && !Full(matches[..k])
    ensures Below(matches, k + 1)
  {
    hide Full;
  }

  /** How many matches are looked at: all, or up to the first that reaches a cap. */
  function Looked(matches: seq<string>): (k: nat)
    ensures k <= |matches|
    ensures Below(matches, k) && (k < |matches| ==> Full(matches[..k]))
  {
    hide Full, Below;
    if matches == [] then
      assert Below([], 0) by { BelowNothing(); }
      0
    else
      var n := |matches| - 1;
      var k := Looked(matches[..n]);
      assert Below(matches, k) by { BelowInPrefix(matches, matches[..n], k); }
      assert matches[..n][..k] == matches[..k];
      if Full(matches[..k]) then k
      else
        assert Below(matches, n + 1) by { BelowOneMore(matches, n); }
        n + 1
  }

  lemma BelowNothing()
    ensures Below([], 0)
  {
  }

  lemma {:induction false} FirstSeenGrows(xs: seq<string>, k: nat)
    requires k <= |xs|
    ensures FirstSeen(xs[..k]) <= FirstSeen(xs)
  {
    hide NoDup;
    if k < |xs| {
      var n := |xs| - 1;
      FirstSeenGrows(xs[..n], k);
      assert xs[..n][..k] == xs[..k];
    } else {
      assert xs[..k] == xs;
    }
  }

  /** Both caps hold whatever the part holds, and what a cap cuts off is only the end of the list. */
  lemma CapsHold(matches: seq<string>)
    ensures Looked(matches) <= MATCHES
    ensures |FirstSeen(matches[..Looked(matches)])| <= LIMIT
    ensures FirstSeen(matches[..Looked(matches)]) <= FirstSeen(matches)
    ensures !Full(matches) ==> matches[..Looked(matches)] == matches
  {
    hide *;
    var k := Looked(matches);
    FirstSeenGrows(matches, k);
    if k > 0 {
      BelowAt(matches, k, k - 1);
      assert matches[..k] == matches[..k - 1] + [matches[k - 1]];
      FullMeans(matches[..k - 1]);
      FirstSeenSnoc(matches[..k - 1], matches[k - 1]);
    } else {
      NothingFull();
      assert matches[..0] == [];
    }
    if k < |matches| {
      FullStays(matches, k);
    }
  }

  lemma NothingFull()
    ensures !Full([]) && FirstSeen<string>([]) == [] && 0 < LIMIT && 0 < MATCHES
  {
  }

  lemma FullMeans(matches: seq<string>)
    ensures Full(matches) <==> |FirstSeen(matches)| >= LIMIT || |matches| >= MATCHES
  {
  }

  lemma FullStays(matches: seq<string>, k: nat)
    requires k <= |matches| && Full(matches[..k])
    ensures Full(matches)
  {
    FirstSeenGrows(matches, k);
    hide FirstSeen;
  }

  // ----- the scan --------------------------------------------------------------------------

  /** What opening the part and reading it comes to: the chunks read, and whether a read then failed. */
  datatype Part = Missing | Part(chunks: seq<Chunk>, fails: bool)

  function LeftStripped(path: string): string {
    if path != [] && path[0] == '/' then LeftStripped(path[1..]) else path
  }

  /** The merged ranges reported for a sheet. */
  ghost function Ranges(path: string, part: Part): seq<string> {
    if LeftStripped(path) == [] || part.Missing? then []
    else
      var matches := WindowMatches(part.chunks);
      var looked := matches[..Looked(matches)];
      if part.fails && !Full(looked) then [] else FirstSeen(looked)
  }

  /** No cap was reached on the way to `matches`, nor at its end. */
  ghost predicate Open(matches: seq<string>) {
    Below(matches, |matches| + 1)
  }

  lemma AllLooked(matches: seq<string>)
    requires Open(matches)
    ensures matches[..Looked(matches)] == matches && !Full(matches)
  {
    hide Full, Below, Looked;
    assert matches[..|matches|] == matches;
    BelowAt(matches, |matches| + 1, |matches|);
    BelowAt(matches, |matches| + 1, Looked(matches));
  }

  lemma StaysOpen(matches: seq<string>, m: string)
    requires Open(matches) && !Full(matches + [m])
    ensures Open(matches + [m])
  {
    hide Full, Below;
    var one := matches + [m];
    BelowInPrefix(one, matches, |matches| + 1);
    assert one[..|one|] == one;
    BelowOneMore(one, |one|);
  }

  lemma {:induction false} WindowsGrow(chunks: seq<Chunk>, n: nat)
    requires n <= |chunks|
    ensures WindowMatches(chunks[..n]) <= WindowMatches(chunks)
  {
    hide Scan, Tail;
    if n < |chunks| {
      WindowsGrow(chunks[..|chunks| - 1], n);
      assert chunks[..|chunks| - 1][..n] == chunks[..n];
    } else {
      assert chunks[..n] == chunks;
    }
  }

  /** The matches looked at are settled as soon as a cap is reached. */
  lemma StoppedHere(all: seq<string>, met: seq<string>)
    requires met <= all && Full(met)
    ensures all[..Looked(all)] == met[..Looked(met)] && Full(all[..Looked(all)])
  {
    hide Full, Below, Looked;
    var k, l := Looked(all), Looked(met);
    assert met[..|met|] == met && met[..l] == all[..l] && Full(met[..l]);
    if k > l {
      BelowAt(all, k, l);
    }
    assert all[..k] == met[..k];
    if k < l {
      BelowAt(met, l, k);
    }
  }

  lemma WindowMatchesSnoc(chunks: seq<Chunk>, n: nat)
    requires n < |chunks|
    ensures WindowMatches(chunks[..n + 1]) == WindowMatches(chunks[..n]) + Scan(Tail(Concat(chunks[..n])) + chunks[n])
    ensures Concat(chunks[..n + 1]) == Concat(chunks[..n]) + chunks[n]
  {
    hide Scan, Tail;
    assert chunks[..n + 1][..n] == chunks[..n];
  }

  /** The walk over one window's matches: `met` are those of the windows before. */
  method Meet(matches: seq<string>, ghost met: seq<string>, ranges: seq<string>, seen: nat)
    returns (ranges': seq<string>, seen': nat, stopped: bool)
    requires ranges == FirstSeen(met) && seen == |met| && Open(met)
    ensures ranges' == FirstSeen((met + matches)[..Looked(met + matches)])
    ensures stopped ==> Full(met + matches)
    ensures !stopped ==> Open(met + matches) && seen' == |met + matches|
  {
    hide *;
    ranges', seen' := ranges, seen;
    assert met + matches[..0] == met;
    for i := 0 to |matches|
      invariant ranges' == FirstSeen(met + matches[..i]) && seen' == |met + matches[..i]|
      invariant Open(met + matches[..i])
    {
      ghost var now := met + matches[..i];
      FirstSeenSnoc(now, matches[i]);
      assert met + matches[..i + 1] == now + [matches[i]];
      if matches[i] !in ranges' {
        ranges' := ranges' + [matches[i]];
      }
      seen' := seen' + 1;
      FullMeans(now + [matches[i]]);
      if |ranges'| >= LIMIT || seen' >= MATCHES {
        StopsAt(now, matches[i]);
        assert now + [matches[i]] <= met + matches;
        StoppedHere(met + matches, now + [matches[i]]);
        FullStays(met + matches, |now| + 1);
        return ranges', seen', true;
      }
      StaysOpen(now, matches[i]);
    }
    assert matches[..|matches|] == matches;
    AllLooked(met + matches);
    stopped := false;
  }

  lemma StopsAt(met: seq<string>, m: string)
    requires Open(met) && Full(met + [m])
    ensures (met + [m])[..Looked(met + [m])] == met + [m]
  {
    hide Full, Below, Looked;
    var one := met + [m];
    var k := Looked(one);
    assert one[..|one|] == one;
    if k <= |met| {
      assert one[..k] == met[..k];
      BelowAt(met, |met| + 1, k);
    }
  }

  method MergedRanges(path: string, part: Part) returns (ranges: seq<string>)
    ensures ranges == Ranges(path, part)
  {
    if LeftStripped(path) == [] || part.Missing? {
      return [];
    }
    var chunks := part.chunks;
    assert FirstSeen<string>([]) == [] && Tail([]) == [] && Open([]);
    assert WindowMatches(chunks[..0]) == [] && Concat(chunks[..0]) == [];
    hide LeftStripped, Scan, Tail, Full, FirstSeen, NoDup, Looked, Open, WindowMatches, Concat;
    var seen := 0;
    ranges := [];
    var tail := [];
    for n := 0 to |chunks|
      invariant tail == Tail(Concat(chunks[..n]))
      invariant ranges == FirstSeen(WindowMatches(chunks[..n])) && seen == |WindowMatches(chunks[..n])|
      invariant Open(WindowMatches(chunks[..n]))
    {
      var window := tail + chunks[n];
      var stopped;
      WindowMatchesSnoc(chunks, n);
      ranges, seen, stopped := Meet(Scan(window), WindowMatches(chunks[..n]), ranges, seen);
      if stopped {
        WindowsGrow(chunks, n + 1);
        StoppedHere(WindowMatches(chunks), WindowMatches(chunks[..n + 1]));
        return;
      }
      AllLooked(WindowMatches(chunks[..n + 1]));
      TailOfTail(Concat(chunks[..n]), chunks[n]);
      tail := Tail(window);
    }
    assert chunks[..|chunks|] == chunks;
    AllLooked(WindowMatches(chunks));
    if part.fails {
      ranges := [];
    }
  }

  /** With the caps not reached and the reads sound, the report is the whole part's, however it was read. */
  lemma RangesAreTheWholePart(path: string, part: Part)
    requires LeftStripped(path) != [] && part.Part? && !part.fails
    requires Tame(Concat(part.chunks)) && Short(Concat(part.chunks)) && !Full(WindowMatches(part.chunks))
    ensures Ranges(path, part) == FirstSeen(Scan(Concat(part.chunks)))
  {
    hide Tag, Scan, FirstSeen, Tame, Short, Looked;
    CapsHold(WindowMatches(part.chunks));
    WindowsFindAll(part.chunks);
  }

  /** In every case the report is distinct, within the cap and no more than the first ranges of the part. */
  lemma RangesAreBounded(path: string, part: Part)
    ensures NoDup(Ranges(path, part)) && |Ranges(path, part)| <= LIMIT
    ensures part.Part? && Tame(Concat(part.chunks)) && Short(Concat(part.chunks)) ==>
              Ranges(path, part) <= FirstSeen(Scan(Concat(part.chunks)))
  {
    hide Tag, Scan, Tame, Short, Looked, WindowMatches, LeftStripped, Full;
    if part.Part? {
      CapsHold(WindowMatches(part.chunks));
      if Tame(Concat(part.chunks)) && Short(Concat(part.chunks)) {
        WindowsFindAll(part.chunks);
      }
    }
  }

  // ----- the bound on a tag's length is tight ----------------------------------------------

  const REF_A := ['r', 'e', 'f', '=', '"', 'A', '"']

  /** A tag of `n + 17` bytes, its name followed by `n` spaces. */
  function Padded(n: nat): Bytes {
    "<mergeCell" + seq(n, _ => ' ') + REF_A
  }

  lemma RefA()
    ensures Ref(REF_A) == Some(Hit(7, "A"))
  {
    assert Spaces(REF_A[3..]) == 0;
    assert REF_A[3..] == ['=', '"', 'A', '"'];
    assert Spaces(['"', 'A', '"']) == 0;
    assert ['=', '"', 'A', '"'][1..] == ['"', 'A', '"'];
    assert ['"', 'A', '"'][1..] == ['A', '"'] && ['A', '"'][1..] == ['"'];
    assert Unquoted(['"']) == 0;
    assert Unquoted(['A', '"']) == 1;
    assert ['"', 'A', '"'][1..2] == "A";
    assert Quoted(['"', 'A', '"']) == Some(Hit(3, "A"));
    assert Assigned(['=', '"', 'A', '"']) == Some(Hit(4, "A"));
  }

  lemma PaddedIsTag(n: nat)
    requires n >= 1
    ensures |Padded(n)| == n + 17 && Tag(Padded(n)) == Some(Hit(n + 17, "A"))
  {
    hide Ref, Spaces, Unquoted;
    var s := Padded(n);
    assert s[..10] == "<mergeCell";
    RefA();
    assert s[n + 10..] == REF_A;
    assert Body(' ', REF_A) == Some(Hit(7, "A"));
    hide Body;
    assert s[10] == ' ';
    if n > 1 {
      forall i: nat | i < n - 1 ensures Passed(s[11..], i) {
        assert s[11..][i] == s[i + 11] == ' ';
      }
      BodyWalks(s[10], s[11..], n - 1);
      assert s[11..][n - 1..] == s[n + 10..];
      assert s[11..][n - 2] == s[n + 9] == ' ';
    }
  }

  /** Only the front of a padded tag starts a tag. */
  lemma PaddedTags(n: nat, x: nat)
    requires n >= 1 && 0 < x <= n + 17
    ensures |Padded(n)| == n + 17 && Tag(Padded(n)[x..]) == None
  {
    hide Body;
    var s := Padded(n);
    if x < |s| {
      assert s[x..][0] == s[x] != '<';
      if Tag(s[x..]).Some? {
        TagShape(s[x..]);
      }
    }
  }

  lemma OneTagOneMatch(s: Bytes)
    requires Tag(s) == Some(Hit(|s|, "A"))
    ensures Scan(s) == ["A"]
  {
    TagShape(s);
    hide Tag;
    assert s[|s|..] == [] && Decode("A") == "A";
  }

  // ----- at the boundaries the program makes -----------------------------------------------

  /** How reads of `READ` bytes split a part: only the last is short. */
  ghost predicate AsRead(chunks: seq<Chunk>) {
    forall i | 0 <= i < |chunks| :: |chunks[i]| <= READ && (i < |chunks| - 1 ==> |chunks[i]| == READ)
  }

  /** Filler that holds no `<`, up to `OVERLAP + 1` bytes before the first boundary. */
  function Filler(): Bytes {
    seq(READ - OVERLAP - 1, _ => ' ')
  }

  lemma {:induction false} ScanSkips(s: Bytes, k: nat)
    requires k <= |s| && forall i | 0 <= i < k :: s[i] != '<'
    ensures Scan(s) == Scan(s[k..])
    decreases k
  {
    if k > 0 {
      assert Tag(s) == None by {
        NoTagWithoutStart(s);
      }
      hide Tag;
      ScanSkips(s[1..], k - 1);
      assert s[1..][k - 1..] == s[k..];
    } else {
      assert s[0..] == s;
    }
  }

  lemma NoTagWithoutStart(s: Bytes)
    ensures s == [] || s[0] != '<' ==> Tag(s) == None
  {
    if Tag(s).Some? {
      TagShape(s);
    }
  }

  /** After filler, a padded tag is the only tag. */
  lemma OnlyTag(fill: Bytes, n: nat, x: nat)
    requires n >= 1 && (forall i | 0 <= i < |fill| :: fill[i] != '<') && x <= |fill + Padded(n)|
    ensures Tag((fill + Padded(n))[x..]) == if x == |fill| then Some(Hit(n + 17, "A")) else None
  {
    var s := fill + Padded(n);
    PaddedIsTag(n);
    hide Padded;
    assert s[|fill|..] == Padded(n);
    if x < |fill| {
      NoTagWithoutStart(s[x..]);
    } else if x > |fill| {
      assert s[x..] == Padded(n)[x - |fill|..];
      PaddedTags(n, x - |fill|);
    }
  }

  /** A tag longer than `Short` allows lies in no window when it starts just too early for the tail. */
  lemma CutTagIsMissed(fill: Bytes, n: nat, left: Chunk, right: Chunk)
    requires n >= 1 && (forall i | 0 <= i < |fill| :: fill[i] != '<') && left + right == fill + Padded(n)
    requires |fill| + OVERLAP + 1 == |left| < |fill| + n + 17
    ensures Tame(left + right) && WindowMatches([left, right]) == []
  {
    var s := fill + Padded(n);
    PaddedIsTag(n);
    hide Tag, Padded;
    forall x: nat | x <= |s|
      ensures Tag(s[x..]) == if x == |fill| then Some(Hit(n + 17, "A")) else None
    {
      OnlyTag(fill, n, x);
    }
    assert Tame(s);
    TwoReads(left, right);
    hide Scan, WindowMatches, Concat, Tame, Decode;
    var chunks: seq<Chunk> := [left, right];
    forall v ensures !SeenSomewhere(chunks, v) {
      forall k: nat, x: nat ensures !InWindow(chunks, k, x, v) {
      }
    }
    if WindowMatches(chunks) != [] {
      WindowMatchesIff(chunks, WindowMatches(chunks)[0]);
    }
  }

  lemma TwoReads(left: Chunk, right: Chunk)
    requires |left| > OVERLAP
    ensures
      var chunks: seq<Chunk> := [left, right];
      && Concat(chunks) == left + right && Concat(chunks[..2]) == left + right && Concat(chunks[..1]) == left
      && Concat(chunks[..0]) == [] && WindowStart(chunks, 0) == 0 && WindowStart(chunks, 1) == |left| - OVERLAP
  {
    var chunks: seq<Chunk> := [left, right];
    assert chunks[..2] == chunks && chunks[..1] == [left] && [left][..0] == [] && chunks[..0] == [];
    assert Concat([left]) == [] + left;
  }

  /** One byte longer than `Short` allows, and the program's own first boundary can hide the only tag of a
      part from both windows. */
  lemma LongTagCanBeMissed(s: Bytes)
    requires s == Filler() + Padded(OVERLAP - 15)
    ensures |Padded(OVERLAP - 15)| == OVERLAP + 2 && Tame(s) && Scan(s) == ["A"]
    ensures |s| == READ + 1 && AsRead([s[..READ], s[READ..]]) && WindowMatches([s[..READ], s[READ..]]) == []
  {
    hide Filler, Padded, Scan, Tag, WindowMatches, Tame, Concat, Tail;
    PaddedIsTag(OVERLAP - 15);
    FillerHoldsNoTag();
    OneTagBehindFiller(Filler(), OVERLAP - 15);
    assert s[..READ] + s[READ..] == s;
    CutTagIsMissed(Filler(), OVERLAP - 15, s[..READ], s[READ..]);
  }

  lemma OneTagBehindFiller(fill: Bytes, n: nat)
    requires n >= 1 && forall i | 0 <= i < |fill| :: fill[i] != '<'
    ensures Scan(fill + Padded(n)) == ["A"]
  {
    hide Padded, Scan, Tag;
    PaddedIsTag(n);
    ScanSkips(fill + Padded(n), |fill|);
    assert (fill + Padded(n))[|fill|..] == Padded(n);
    OneTagOneMatch(Padded(n));
  }

  lemma FillerHoldsNoTag()
    ensures |Filler()| == READ - OVERLAP - 1 && forall i | 0 <= i < |Filler()| :: Filler()[i] != '<'
  {
  }
}
