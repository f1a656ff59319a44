/** The pass that closes every outstanding plan card: the message table is read once in (conversation,
    seq) order, and an overlay row is added past the end of each conversation for each card still open.
    A payload that cannot be walked makes it raise before anything is written. */
module PlanCards {
  import opened Sequences
  import opened JsonValues
  import opened PlanAnswers

  const PENDING := "plan_options_pending"
  const RESOLVED := "plan_options_resolved"
  const REFINE := "refine"
  const BUILD_FAILED := "build_failed"

  /** `probed` tells whether the text of the payload matches the query's probe. */
  datatype Row = Row(user: nat, meta: Json, payload: Json, probed: bool)

  predicate IsKind(meta: Json, kind: string) {
    Get(meta, "kind") == Some(Str(kind))
  }

  /** The call a row's `meta` names, when it is a string. */
  function CallId(meta: Json): Option<string> {
    var id := Get(meta, "toolCallId");
    if id.Some? && id.value.Str? then Some(id.value.text) else None
  }

  function ToldBy(row: Row): seq<Answer> {
    Answers(Fetched(row.payload, row.probed))
  }

  /** The walk over what is fetched of a row does not raise. */
  predicate Readable(row: Row) {
    Walkable(Fetched(row.payload, row.probed))
  }

  type Thread = map<nat, Row>

  /** Conversation, then sequence number: the pair is unique by construction of the map. */
  type Table = map<nat, Thread>

  datatype Item = Item(conversation: nat, seqNo: nat, row: Row)

  predicate IsOpen(resolution: Option<Json>) {
    resolution == None || (resolution.value.Str? && BUILD_FAILED <= resolution.value.text)
  }

  // ----- the query -------------------------------------------------------------------------

  function Items(c: nat, thread: Thread, seqs: seq<nat>): seq<Item>
    requires forall s | s in seqs :: s in thread
  {
    seq(|seqs|, i requires 0 <= i < |seqs| => Item(c, seqs[i], thread[seqs[i]]))
  }

  /** The rows of a conversation, in order. */
  function ThreadItems(c: nat, thread: Thread): seq<Item> {
    Items(c, thread, Ordered(thread.Keys))
  }

  predicate HasPending(thread: Thread) {
    exists s :: s in thread && IsKind(thread[s].meta, PENDING)
  }

  function Candidates(table: Table): set<nat> {
    set c | c in table && HasPending(table[c])
  }

  function AllItems(table: Table, cs: seq<nat>): seq<Item>
    requires forall c | c in cs :: c in table
  {
    if cs == [] then [] else AllItems(table, cs[..|cs| - 1]) + ThreadItems(cs[|cs| - 1], table[cs[|cs| - 1]])
  }

  function Query(table: Table): seq<Item> {
    AllItems(table, Ordered(Candidates(table)))
  }

  // ----- what the rows of one conversation say ---------------------------------------------

  function Of(items: seq<Item>, c: nat): seq<Item> {
    if items == [] then []
    else
      var n := |items| - 1;
      if items[n].conversation == c then Of(items[..n], c) + [items[n]] else Of(items[..n], c)
  }

  function CardOf(row: Row): seq<string> {
    if IsKind(row.meta, PENDING) && CallId(row.meta).Some? then [CallId(row.meta).value] else []
  }

  function Cards(items: seq<Item>): seq<string> {
    if items == [] then [] else Cards(items[..|items| - 1]) + CardOf(items[|items| - 1].row)
  }

  function AfterMeta(known: Resolved, meta: Json): Resolved {
    if IsKind(meta, RESOLVED) && CallId(meta).Some? then
      var choice := Get(meta, "choice");
      known[CallId(meta).value := if choice.Some? then choice.value else Str(REFINE)]
    else known
  }

  /** The latest resolution of every card. */
  function Resolutions(items: seq<Item>): Resolved {
    if items == [] then map[]
    else
      var row := items[|items| - 1].row;
      AfterAnswers(AfterMeta(Resolutions(items[..|items| - 1]), row.meta), ToldBy(row))
  }

  function Resolution(known: Resolved, call: string): Option<Json> {
    if call in known then Some(known[call]) else None
  }

  function OpenCards(cards: seq<string>, known: Resolved): seq<string> {
    if cards == [] then []
    else
      var n := |cards| - 1;
      OpenCards(cards[..n], known) + if IsOpen(Resolution(known, cards[n])) then [cards[n]] else []
  }

  function HeadSeq(items: seq<Item>): int
    ensures HeadSeq(items) >= -1
  {
    if items == [] then -1
    else
      var before, at := HeadSeq(items[..|items| - 1]), items[|items| - 1].seqNo;
      if at > before then at else before
  }

  function Overlay(user: nat, call: string): Row {
    Row(user, Obj(map["kind" := Str(RESOLVED), "toolCallId" := Str(call), "choice" := Str(REFINE)]), Arr([]), false)
  }

  function WithOverlays(thread: Thread, base: nat, user: nat, calls: seq<string>): Thread {
    if calls == [] then thread
    else
      var n := |calls| - 1;
      WithOverlays(thread, base, user, calls[..n])[base + n := Overlay(user, calls[n])]
  }

  /** The open cards of a conversation, in order. */
  function OpenIn(c: nat, thread: Thread): seq<string> {
    OpenCards(Cards(ThreadItems(c, thread)), Resolutions(ThreadItems(c, thread)))
  }

  /** The number after a conversation's last row. */
  function NextSeq(c: nat, thread: Thread): nat {
    HeadSeq(ThreadItems(c, thread)) + 1
  }

  /** The user of a conversation's first row. */
  function Owner(c: nat, thread: Thread): nat {
    var items := ThreadItems(c, thread);
    if items == [] then 0 else items[0].row.user
  }

  /** A conversation after the pass. */
  function Closed(c: nat, thread: Thread): Thread {
    WithOverlays(thread, NextSeq(c, thread), Owner(c, thread), OpenIn(c, thread))
  }

  function Pass(table: Table): Table {
    map c | c in table :: Closed(c, table[c])
  }

  // ----- what the pass leaves --------------------------------------------------------------

  function OverlayItems(c: nat, base: nat, user: nat, calls: seq<string>): seq<Item> {
    seq(|calls|, i requires 0 <= i < |calls| => Item(c, base + i, Overlay(user, calls[i])))
  }

  lemma ThreadItemsSnoc(c: nat, thread: Thread, s: nat, row: Row)
    requires forall t | t in thread :: t < s
    ensures ThreadItems(c, thread[s := row]) == ThreadItems(c, thread) + [Item(c, s, row)]
  {
    hide Ordered, Ascending;
    assert thread[s := row].Keys == thread.Keys + {s};
    OrderedWithLast(thread.Keys, s);
  }

  /** The overlays follow the rows there were, which stay as they were. */
  lemma {:induction false} OverlaysFollow(c: nat, thread: Thread, base: nat, user: nat, calls: seq<string>)
    requires forall t | t in thread :: t < base
    ensures
      var after := WithOverlays(thread, base, user, calls);
      && (forall s :: s in after <==> s in thread || base <= s < base + |calls|)
      && (forall s | s in thread :: after[s] == thread[s])
      && ThreadItems(c, after) == ThreadItems(c, thread) + OverlayItems(c, base, user, calls)
  {
    hide Ordered, ThreadItems;
    if calls != [] {
      var n := |calls| - 1;
      OverlaysFollow(c, thread, base, user, calls[..n]);
      ThreadItemsSnoc(c, WithOverlays(thread, base, user, calls[..n]), base + n, Overlay(user, calls[n]));
      assert OverlayItems(c, base, user, calls) ==
             OverlayItems(c, base, user, calls[..n]) + [Item(c, base + n, Overlay(user, calls[n]))];
    }
  }

  /** One overlay more: no card, and its own card resolved. */
  lemma OneOverlayMore(items: seq<Item>, c: nat, s: nat, user: nat, call: string)
    ensures
      var after := items + [Item(c, s, Overlay(user, call))];
      Cards(after) == Cards(items) && Resolutions(after) == Resolutions(items)[call := Str(REFINE)]
  {
    assert (items + [Item(c, s, Overlay(user, call))])[..|items|] == items;
    assert RESOLVED[13] != PENDING[13];
  }

  lemma {:induction false} OverlaysResolve(items: seq<Item>, c: nat, base: nat, user: nat, calls: seq<string>, call: string)
    ensures
      var after := items + OverlayItems(c, base, user, calls);
      && Cards(after) == Cards(items)
      && Resolution(Resolutions(after), call) ==
         if call in calls then Some(Str(REFINE)) else Resolution(Resolutions(items), call)
  {
    hide Cards, Resolutions, Overlay;
    if calls == [] {
      assert items + OverlayItems(c, base, user, calls) == items;
    } else {
      var n := |calls| - 1;
      OverlaysResolve(items, c, base, user, calls[..n], call);
      assert items + OverlayItems(c, base, user, calls) ==
             items + OverlayItems(c, base, user, calls[..n]) + [Item(c, base + n, Overlay(user, calls[n]))];
      OneOverlayMore(items + OverlayItems(c, base, user, calls[..n]), c, base + n, user, calls[n]);
      assert calls == calls[..n] + [calls[n]];
    }
  }

  lemma {:induction false} OpenCardsMeaning(cards: seq<string>, known: Resolved, call: string)
    ensures call in OpenCards(cards, known) <==> call in cards && IsOpen(Resolution(known, call))
  {
    hide IsOpen;
    if cards != [] {
      var n := |cards| - 1;
      OpenCardsMeaning(cards[..n], known, call);
      assert cards == cards[..n] + [cards[n]];
    }
  }

  lemma {:induction false} HeadIsLast(items: seq<Item>, i: nat)
    requires i < |items|
    ensures items[i].seqNo <= HeadSeq(items)
  {
    if i < |items| - 1 {
      HeadIsLast(items[..|items| - 1], i);
    }
  }

  lemma PastTheEnd(c: nat, thread: Thread)
    ensures forall s | s in thread :: s < NextSeq(c, thread)
  {
    hide HeadSeq;
    forall s | s in thread ensures s < NextSeq(c, thread) {
      assert s in Ordered(thread.Keys);
      var i :| 0 <= i < |Ordered(thread.Keys)| && Ordered(thread.Keys)[i] == s;
      assert ThreadItems(c, thread)[i].seqNo == s;
      HeadIsLast(ThreadItems(c, thread), i);
    }
  }

  ghost predicate NoOpenCard(c: nat, thread: Thread) {
    var items := ThreadItems(c, thread);
    forall call | call in Cards(items) :: !IsOpen(Resolution(Resolutions(items), call))
  }

  lemma OpenInMeaning(c: nat, thread: Thread)
    ensures
      var items := ThreadItems(c, thread);
      forall call :: call in OpenIn(c, thread) <==> call in Cards(items) && IsOpen(Resolution(Resolutions(items), call))
    ensures OpenIn(c, thread) == [] <==> NoOpenCard(c, thread)
  {
    var items := ThreadItems(c, thread);
    var known := Resolutions(items);
    var open := OpenIn(c, thread);
    forall call ensures call in open <==> call in Cards(items) && IsOpen(Resolution(known, call)) {
      OpenCardsMeaning(Cards(items), known, call);
    }
    hide IsOpen, Resolutions, Resolution, OpenCards, ThreadItems;
    if open != [] {
      assert open[0] in open;
    }
  }

  /** After the pass no card of a conversation is open. */
  lemma ClosedCards(c: nat, thread: Thread)
    ensures NoOpenCard(c, Closed(c, thread))
  {
    hide OpenCards, Cards, Resolutions, HeadSeq, ThreadItems, WithOverlays, OverlayItems, OpenIn, NextSeq, Owner;
    OpenInMeaning(c, thread);
    PastTheEnd(c, thread);
    var items, open, base, user := ThreadItems(c, thread), OpenIn(c, thread), NextSeq(c, thread), Owner(c, thread);
    OverlaysFollow(c, thread, base, user, open);
    var after := items + OverlayItems(c, base, user, open);
    OverlaysResolve(items, c, base, user, open, "");
    forall call | call in Cards(items) ensures !IsOpen(Resolution(Resolutions(after), call)) {
      OverlaysResolve(items, c, base, user, open, call);
    }
  }

  /** A conversation's own rows are as they were, and there is one row more for each open card. */
  lemma ClosedKeepsRows(c: nat, thread: Thread)
    ensures forall s | s in thread :: s in Closed(c, thread) && Closed(c, thread)[s] == thread[s]
    ensures |Closed(c, thread)| == |thread| + |OpenIn(c, thread)|
  {
    hide OpenIn, NextSeq, Owner, WithOverlays, ThreadItems, OverlayItems;
    PastTheEnd(c, thread);
    OverlaysFollow(c, thread, NextSeq(c, thread), Owner(c, thread), OpenIn(c, thread));
    OverlaysCount(thread, NextSeq(c, thread), Owner(c, thread), OpenIn(c, thread));
  }

  /** The row added for the `k`-th open card is its `refine` overlay, for the conversation's owner, at the
      `k`-th number past the last row. */
  lemma ClosedAddsOverlay(c: nat, thread: Thread, k: nat)
    requires k < |OpenIn(c, thread)|
    ensures AddedAt(c, thread, k) == Some(Overlay(Owner(c, thread), OpenIn(c, thread)[k]))
  {
    hide OpenIn, NextSeq, Owner, WithOverlays, Overlay;
    OverlayAt(thread, NextSeq(c, thread), Owner(c, thread), OpenIn(c, thread), k);
  }

  /** The row the pass leaves at the `k`-th number past a conversation's last row. */
  function AddedAt(c: nat, thread: Thread, k: nat): Option<Row> {
    var s := NextSeq(c, thread) + k;
    if s in Closed(c, thread) then Some(Closed(c, thread)[s]) else None
  }

  lemma {:induction false} OverlayAt(thread: Thread, base: nat, user: nat, calls: seq<string>, k: nat)
    requires k < |calls|
    ensures
      var after := WithOverlays(thread, base, user, calls);
      base + k in after && after[base + k] == Overlay(user, calls[k])
  {
    if k < |calls| - 1 {
      OverlayAt(thread, base, user, calls[..|calls| - 1], k);
    }
  }

  lemma {:induction false} OverlaysCount(thread: Thread, base: nat, user: nat, calls: seq<string>)
    requires forall t | t in thread :: t < base
    ensures |WithOverlays(thread, base, user, calls)| == |thread| + |calls|
    ensures forall t | t in WithOverlays(thread, base, user, calls) :: t < base + |calls|
  {
    if calls != [] {
      var n := |calls| - 1;
      OverlaysCount(thread, base, user, calls[..n]);
      hide Overlay;
      AddOne(WithOverlays(thread, base, user, calls[..n]), base + n, Overlay(user, calls[n]));
    }
  }

  lemma AddOne(thread: Thread, s: nat, row: Row)
    requires s !in thread
    ensures |thread[s := row]| == |thread| + 1
  {
    assert thread[s := row].Keys == thread.Keys + {s};
  }

  lemma NoneOpenNoneAdded(c: nat, thread: Thread)
    requires NoOpenCard(c, thread)
    ensures Closed(c, thread) == thread
  {
    OpenInMeaning(c, thread);
  }

  /** A second pass inserts nothing, and a conversation with no open card gains nothing. */
  lemma PassTwice(table: Table)
    ensures Pass(Pass(table)) == Pass(table)
    ensures forall c | c in table && NoOpenCard(c, table[c]) :: Pass(table)[c] == table[c]
  {
    hide NoOpenCard, Closed;
    forall c | c in table
      ensures Closed(c, Closed(c, table[c])) == Closed(c, table[c])
      ensures NoOpenCard(c, table[c]) ==> Closed(c, table[c]) == table[c]
    {
      if NoOpenCard(c, table[c]) {
        NoneOpenNoneAdded(c, table[c]);
      }
      ClosedCards(c, table[c]);
      NoneOpenNoneAdded(c, Closed(c, table[c]));
    }
  }

  // ----- the pass itself -------------------------------------------------------------------

  function WithRow(table: Table, c: nat, s: nat, row: Row): Table
    requires c in table
  {
    var thread: Thread := table[c][s := row];
    table[c := thread]
  }

  class Messages {
    var table: Table

    /** The unique constraint on (conversation, seq) is the precondition. */
    method Insert(c: nat, s: nat, row: Row)
      requires c in table && s !in table[c]
      modifies this
      ensures table == WithRow(old(table), c, s, row)
    {
      table := WithRow(table, c, s, row);
    }
  }

  /** The four dictionaries filled from the query's rows; `order` is the order of `pendings`. */
  datatype Gathered = Gathered(
    order: seq<nat>,
    pendings: map<nat, seq<string>>,
    resolutions: map<nat, Resolved>,
    owners: map<nat, nat>,
    headSeq: map<nat, int>)

  function PendingsOf(g: Gathered, c: nat): seq<string> {
    if c in g.pendings then g.pendings[c] else []
  }

  function ResolutionsOf(g: Gathered, c: nat): Resolved {
    if c in g.resolutions then g.resolutions[c] else map[]
  }

  function HeadOf(g: Gathered, c: nat): int {
    if c in g.headSeq then g.headSeq[c] else -1
  }

  /** The dictionaries say of each conversation what its rows say. */
  ghost predicate Says(g: Gathered, items: seq<Item>, c: nat) {
    var own := Of(items, c);
    && PendingsOf(g, c) == Cards(own)
    && ResolutionsOf(g, c) == Resolutions(own)
    && HeadOf(g, c) == HeadSeq(own)
    && (c in g.owners <==> own != []) && (own != [] ==> c in g.headSeq && g.owners[c] == own[0].row.user)
    && (c in g.order <==> Cards(own) != [])
  }

  lemma OfSnoc(items: seq<Item>, n: nat, c: nat)
    requires n < |items|
    ensures Of(items[..n + 1], c) ==
            if items[n].conversation == c then Of(items[..n], c) + [items[n]] else Of(items[..n], c)
  {
    assert items[..n + 1][..n] == items[..n];
  }

  lemma SaysOneMore(own: seq<Item>, item: Item)
    ensures Cards(own + [item]) == Cards(own) + CardOf(item.row)
    ensures Resolutions(own + [item]) == AfterAnswers(AfterMeta(Resolutions(own), item.row.meta), ToldBy(item.row))
    ensures HeadSeq(own + [item]) == if item.seqNo > HeadSeq(own) then item.seqNo else HeadSeq(own)
  {
    assert (own + [item])[..|own|] == own;
  }

  /** What one row changes in the dictionaries, seen from conversation `d`. */
  ghost predicate RowTaken(g: Gathered, next: Gathered, item: Item, d: nat) {
    if item.conversation != d then
      && PendingsOf(next, d) == PendingsOf(g, d) && ResolutionsOf(next, d) == ResolutionsOf(g, d)
      && HeadOf(next, d) == HeadOf(g, d) && (d in next.headSeq <==> d in g.headSeq)
      && (d in next.owners <==> d in g.owners) && (d in g.owners ==> next.owners[d] == g.owners[d])
      && (d in next.order <==> d in g.order)
    else
      && PendingsOf(next, d) == PendingsOf(g, d) + CardOf(item.row)
      && ResolutionsOf(next, d) == AfterAnswers(AfterMeta(ResolutionsOf(g, d), item.row.meta), ToldBy(item.row))
      && d in next.headSeq && HeadOf(next, d) == (if item.seqNo > HeadOf(g, d) then item.seqNo else HeadOf(g, d))
      && d in next.owners && next.owners[d] == (if d in g.owners then g.owners[d] else item.row.user)
      && (d in next.order <==> d in g.order || CardOf(item.row) != [])
  }

  lemma SaysStep(g: Gathered, next: Gathered, items: seq<Item>, n: nat, d: nat)
    requires n < |items| && Says(g, items[..n], d) && RowTaken(g, next, items[n], d)
    ensures Says(next, items[..n + 1], d)
  {
    hide Of, Cards, Resolutions, HeadSeq, AfterMeta, AfterAnswers, CardOf;
    OfSnoc(items, n, d);
    SaysOneMore(Of(items[..n], d), items[n]);
  }

  lemma SaysAtStart(c: nat)
    ensures Says(Gathered([], map[], map[], map[], map[]), [], c)
  {
  }

  predicate Resolves(row: Row) {
    (IsKind(row.meta, RESOLVED) && CallId(row.meta).Some?) || ToldBy(row) != []
  }

  function RowInto(g: Gathered, item: Item): Gathered {
    var c, row := item.conversation, item.row;
    var card, head := CardOf(row), HeadOf(g, c);
    Gathered(
      if card == [] || c in g.pendings then g.order else g.order + [c],
      if card == [] then g.pendings else g.pendings[c := PendingsOf(g, c) + card],
      if Resolves(row)
      then g.resolutions[c := AfterAnswers(AfterMeta(ResolutionsOf(g, c), row.meta), ToldBy(row))]
      else g.resolutions,
      if c in g.owners then g.owners else g.owners[c := row.user],
      g.headSeq[c := if item.seqNo > head then item.seqNo else head])
  }

  /** Orders list exactly the conversations with cards, once each. */
  ghost predicate Listed(g: Gathered) {
    NoDup(g.order) && forall d :: d in g.order <==> d in g.pendings
  }

  lemma RowIntoTakes(g: Gathered, item: Item, d: nat)
    requires Listed(g)
    ensures RowTaken(g, RowInto(g, item), item, d)
  {
    RowIntoOrder(g, item, d);
    if item.conversation == d {
      RowIntoOwn(g, item);
    } else {
      hide AfterAnswers, AfterMeta, Resolves, CardOf, Listed;
      assert item.conversation != d;
    }
  }

  lemma RowIntoOwn(g: Gathered, item: Item)
    requires
      var order, d := RowInto(g, item).order, item.conversation;
      d in order <==> d in g.order || CardOf(item.row) != []
    ensures RowTaken(g, RowInto(g, item), item, item.conversation)
  {
    hide AfterAnswers, AfterMeta, Resolves, CardOf;
    if !Resolves(item.row) {
      ResolvesNothing(ResolutionsOf(g, item.conversation), item.row);
    }
  }

  lemma RowIntoOrder(g: Gathered, item: Item, d: nat)
    requires Listed(g)
    ensures d in RowInto(g, item).order <==> d in g.order || (item.conversation == d && CardOf(item.row) != [])
  {
    hide AfterAnswers, AfterMeta, Resolves, CardOf, NoDup;
  }

  lemma RowIntoLists(g: Gathered, item: Item)
    requires Listed(g)
    ensures Listed(RowInto(g, item))
  {
    hide AfterAnswers, AfterMeta, Resolves, CardOf;
    var next, c := RowInto(g, item), item.conversation;
    if CardOf(item.row) != [] && c !in g.pendings {
      assert NoDup([c]);
      DistinctConcat(g.order, [c]);
    }
  }

  /** The body of the loop over the query's rows: nothing when the walk over the payload raises. */
  method GatherRow(g: Gathered, item: Item) returns (taken: Option<Gathered>)
    ensures taken == if Readable(item.row) then Some(RowInto(g, item)) else None
  {
    hide AfterAnswers, AfterMeta, Resolves, Walkable, Answers, Fetched;
    var c, row := item.conversation, item.row;
    var next := g;
    if c !in next.owners {
      next := next.(owners := next.owners[c := row.user]);
    }
    var head := HeadOf(next, c);
    next := next.(headSeq := next.headSeq[c := if item.seqNo > head then item.seqNo else head]);
    if IsKind(row.meta, PENDING) && CallId(row.meta).Some? {
      var cards := PendingsOf(next, c) + [CallId(row.meta).value];
      if c !in next.pendings {
        next := next.(order := next.order + [c]);
      }
      next := next.(pendings := next.pendings[c := cards]);
    }
    var known := Answered(AfterMeta(ResolutionsOf(next, c), row.meta), Fetched(row.payload, row.probed));
    if known == None {
      return None;
    }
    if Resolves(row) {
      next := next.(resolutions := next.resolutions[c := known.value]);
    }
    taken := Some(next);
  }

  lemma ResolvesNothing(known: Resolved, row: Row)
    requires !Resolves(row)
    ensures AfterAnswers(AfterMeta(known, row.meta), ToldBy(row)) == known
  {
  }

  /** The loop over the query's rows. */
  method Gather(items: seq<Item>) returns (all: Option<Gathered>)
    ensures all == None <==> exists i :: 0 <= i < |items| && !Readable(items[i].row)
    ensures all.Some? ==> Listed(all.value) && forall c :: Says(all.value, items, c)
  {
    hide *;
    var g := Gathered([], map[], map[], map[], map[]);
    forall c ensures Says(g, [], c) {
      SaysAtStart(c);
    }
    NothingListed();
    for n := 0 to |items|
      invariant forall c :: Says(g, items[..n], c)
      invariant Listed(g)
      invariant forall i | 0 <= i < n :: Readable(items[i].row)
    {
      var next := GatherRow(g, items[n]);
      if next == None {
        return None;
      }
      ghost var upTo := items[..n + 1];
      forall d ensures Says(next.value, upTo, d) {
        RowIntoTakes(g, items[n], d);
        SaysStep(g, next.value, items, n, d);
      }
      RowIntoLists(g, items[n]);
      g := next.value;
    }
    assert items[..|items|] == items;
    all := Some(g);
  }

  lemma NothingListed()
    ensures Listed(Gathered([], map[], map[], map[], map[]))
  {
  }

  // ----- writing the overlays --------------------------------------------------------------

  lemma {:induction false} OfConcat(a: seq<Item>, b: seq<Item>, c: nat)
    ensures Of(a + b, c) == Of(a, c) + Of(b, c)
  {
    if b == [] {
      assert a + b == a;
    } else {
      var n := |b| - 1;
      assert (a + b)[..|a + b| - 1] == a + b[..n];
      OfConcat(a, b[..n], c);
    }
  }

  lemma {:induction false} OfOneConversation(items: seq<Item>, c: nat, d: nat)
    requires forall i | 0 <= i < |items| :: items[i].conversation == d
    ensures Of(items, c) == if c == d then items else []
  {
    if items != [] {
      OfOneConversation(items[..|items| - 1], c, d);
    }
  }

  lemma {:induction false} OfAllItems(table: Table, cs: seq<nat>, c: nat)
    requires NoDup(cs) && forall d | d in cs :: d in table
    ensures Of(AllItems(table, cs), c) == if c in cs then ThreadItems(c, table[c]) else []
  {
    hide Of, ThreadItems;
    if cs == [] {
      assert Of([], c) == [] by { OfOneConversation([], c, c); }
    } else {
      var n := |cs| - 1;
      var d := cs[n];
      OfAllItems(table, cs[..n], c);
      OfConcat(AllItems(table, cs[..n]), ThreadItems(d, table[d]), c);
      ThreadIsOneConversation(d, table[d]);
      OfOneConversation(ThreadItems(d, table[d]), c, d);
      assert cs == cs[..n] + [d];
    }
  }

  lemma ThreadIsOneConversation(c: nat, thread: Thread)
    ensures forall i | 0 <= i < |ThreadItems(c, thread)| :: ThreadItems(c, thread)[i].conversation == c
  {
  }

  /** The query returns a conversation's own rows in order, for every conversation with a pending row. */
  lemma QueryRows(table: Table, c: nat)
    ensures Of(Query(table), c) == if c in table && HasPending(table[c]) then ThreadItems(c, table[c]) else []
  {
    hide Of, ThreadItems, HasPending, AllItems;
    AscendingIsDistinct(Ordered(Candidates(table)));
    OfAllItems(table, Ordered(Candidates(table)), c);
  }

  lemma AscendingIsDistinct(s: seq<nat>)
    requires Ascending(s)
    ensures NoDup(s)
  {
  }

  lemma {:induction false} CardsNeedPending(items: seq<Item>)
    requires forall i | 0 <= i < |items| :: !IsKind(items[i].row.meta, PENDING)
    ensures Cards(items) == []
  {
    if items != [] {
      CardsNeedPending(items[..|items| - 1]);
    }
  }

  /** A conversation the query leaves out has no card. */
  lemma UnqueriedHasNoCard(c: nat, thread: Thread)
    requires !HasPending(thread)
    ensures Cards(ThreadItems(c, thread)) == []
  {
    var items := ThreadItems(c, thread);
    forall i | 0 <= i < |items| ensures !IsKind(items[i].row.meta, PENDING) {
      assert items[i].seqNo in thread && thread[items[i].seqNo] == items[i].row;
    }
    CardsNeedPending(items);
  }

  /** The dictionaries hold what the pass needs of a conversation. */
  ghost predicate Ready(g: Gathered, c: nat, thread: Thread) {
    && c in g.pendings && g.pendings[c] == Cards(ThreadItems(c, thread))
    && ResolutionsOf(g, c) == Resolutions(ThreadItems(c, thread))
    && c in g.headSeq && g.headSeq[c] + 1 == NextSeq(c, thread)
    && c in g.owners && g.owners[c] == Owner(c, thread)
  }

  lemma OrderedAreReady(g: Gathered, table: Table, c: nat)
    requires Says(g, Query(table), c) && Listed(g)
    ensures c in g.order ==> c in table && Ready(g, c, table[c])
    ensures c !in g.order && c in table ==> Closed(c, table[c]) == table[c]
  {
    QueryRows(table, c);
    assert Cards([]) == [];
    if c in table {
      if !HasPending(table[c]) {
        UnqueriedHasNoCard(c, table[c]);
      }
      hide Resolutions, ThreadItems, HeadSeq, Cards, Of, HasPending, Query;
      if c !in g.order {
        NoCardsNoChange(c, table[c]);
      }
    }
  }

  lemma NoCardsNoChange(c: nat, thread: Thread)
    requires Cards(ThreadItems(c, thread)) == []
    ensures Closed(c, thread) == thread
  {
    hide ThreadItems, Cards, Resolutions;
  }

  function Replaced(table: Table, c: nat, thread: Thread): Table {
    table[c := thread]
  }

  /** The loop over one conversation's cards. */
  method CloseConversation(messages: Messages, g: Gathered, c: nat)
    requires c in messages.table && Ready(g, c, messages.table[c])
    modifies messages
    ensures messages.table == Replaced(old(messages.table), c, Closed(c, old(messages.table)[c]))
  {
    hide Cards, Resolutions, ThreadItems, NextSeq, Owner, Overlay, WithOverlays, OverlayItems, IsOpen, OpenCards;
    ghost var before, thread := messages.table, messages.table[c];
    PastTheEnd(c, thread);
    var calls, answered, user := g.pendings[c], ResolutionsOf(g, c), g.owners[c];
    var nextSeq := g.headSeq[c] + 1;
    ghost var base := NextSeq(c, thread);
    NoOverlays(thread, base, user, answered);
    for i := 0 to |calls|
      invariant nextSeq == base + |OpenCards(calls[..i], answered)|
      invariant messages.table == Replaced(before, c, WithOverlays(thread, base, user, OpenCards(calls[..i], answered)))
    {
      ghost var open := OpenCards(calls[..i], answered);
      OpenCardsSnoc(calls, i, answered);
      OverlaysFollow(c, thread, base, user, open);
      assert open + [] == open;
      if IsOpen(Resolution(answered, calls[i])) {
        WithOverlaysSnoc(thread, base, user, open, calls[i]);
        RowReplaced(before, c, WithOverlays(thread, base, user, open), nextSeq, Overlay(user, calls[i]));
        messages.Insert(c, nextSeq, Overlay(user, calls[i]));
        nextSeq := nextSeq + 1;
      }
    }
    assert calls[..|calls|] == calls;
  }

  lemma RowReplaced(table: Table, c: nat, thread: Thread, s: nat, row: Row)
    ensures WithRow(Replaced(table, c, thread), c, s, row) == Replaced(table, c, thread[s := row])
  {
  }

  lemma NoOverlays(thread: Thread, base: nat, user: nat, known: Resolved)
    ensures OpenCards([], known) == [] && WithOverlays(thread, base, user, []) == thread
  {
  }

  lemma OpenCardsSnoc(cards: seq<string>, i: nat, known: Resolved)
    requires i < |cards|
    ensures OpenCards(cards[..i + 1], known) ==
            OpenCards(cards[..i], known) + if IsOpen(Resolution(known, cards[i])) then [cards[i]] else []
  {
    assert cards[..i + 1][..i] == cards[..i];
  }

  lemma WithOverlaysSnoc(thread: Thread, base: nat, user: nat, calls: seq<string>, call: string)
    ensures WithOverlays(thread, base, user, calls + [call]) ==
            WithOverlays(thread, base, user, calls)[base + |calls| := Overlay(user, call)]
  {
    assert (calls + [call])[..|calls|] == calls;
  }

  /** Some row the query fetches cannot be walked. */
  ghost predicate Unreadable(table: Table) {
    exists c, s :: c in table && HasPending(table[c]) && s in table[c] && !Readable(table[c][s])
  }

  /** The query returns exactly the rows of the conversations with a pending row. */
  lemma QueryMeaning(table: Table, item: Item)
    ensures item in Query(table) <==>
            && item.conversation in table && HasPending(table[item.conversation])
            && item.seqNo in table[item.conversation] && table[item.conversation][item.seqNo] == item.row
  {
    hide HasPending, AllItems, ThreadItems;
    AllItemsMeaning(table, Ordered(Candidates(table)), item);
    if item.conversation in table {
      ThreadItemsMeaning(item.conversation, table[item.conversation], item);
    }
  }

  lemma {:induction false} AllItemsMeaning(table: Table, cs: seq<nat>, item: Item)
    requires forall c | c in cs :: c in table
    ensures item in AllItems(table, cs) <==>
            item.conversation in cs && item in ThreadItems(item.conversation, table[item.conversation])
  {
    hide ThreadItems;
    if cs != [] {
      var n := |cs| - 1;
      AllItemsMeaning(table, cs[..n], item);
      ThreadIsOneConversation(cs[n], table[cs[n]]);
      assert cs == cs[..n] + [cs[n]];
    }
  }

  lemma ThreadItemsMeaning(c: nat, thread: Thread, item: Item)
    ensures item in ThreadItems(c, thread) <==>
            item.conversation == c && item.seqNo in thread && thread[item.seqNo] == item.row
  {
    hide Ascending;
    var seqs := Ordered(thread.Keys);
    if item.seqNo in thread && thread[item.seqNo] == item.row && item.conversation == c {
      var i :| 0 <= i < |seqs| && seqs[i] == item.seqNo;
      assert ThreadItems(c, thread)[i] == item;
    }
  }

  lemma UnreadableIff(table: Table)
    ensures Unreadable(table) <==> exists i :: 0 <= i < |Query(table)| && !Readable(Query(table)[i].row)
  {
    hide HasPending, Query, Readable;
    if Unreadable(table) {
      var c, s :| c in table && HasPending(table[c]) && s in table[c] && !Readable(table[c][s]);
      var item := Item(c, s, table[c][s]);
      QueryMeaning(table, item);
      var i :| 0 <= i < |Query(table)| && Query(table)[i] == item;
    }
    if i :| 0 <= i < |Query(table)| && !Readable(Query(table)[i].row) {
      var item := Query(table)[i];
      QueryMeaning(table, item);
      assert !Readable(table[item.conversation][item.seqNo]);
    }
  }

  /** What the pass adds can be walked and is no card, so a second pass raises exactly when the first does. */
  lemma PassStaysReadable(table: Table)
    ensures Unreadable(Pass(table)) <==> Unreadable(table)
  {
    hide HasPending, Closed, Readable;
    forall c | c in table
      ensures HasPending(Closed(c, table[c])) <==> HasPending(table[c])
      ensures forall s | s in table[c] :: s in Closed(c, table[c]) && Closed(c, table[c])[s] == table[c][s]
      ensures forall s | s in Closed(c, table[c]) && s !in table[c] :: Readable(Closed(c, table[c])[s])
    {
      ClosedRows(c, table[c]);
    }
    if Unreadable(table) {
      var c, s :| c in table && HasPending(table[c]) && s in table[c] && !Readable(table[c][s]);
      assert c in Pass(table) && s in Pass(table)[c] && !Readable(Pass(table)[c][s]);
    }
  }

  lemma ClosedRows(c: nat, thread: Thread)
    ensures HasPending(Closed(c, thread)) <==> HasPending(thread)
    ensures forall s | s in thread :: s in Closed(c, thread) && Closed(c, thread)[s] == thread[s]
    ensures forall s | s in Closed(c, thread) && s !in thread :: Readable(Closed(c, thread)[s])
  {
    hide OpenIn, NextSeq, Owner, WithOverlays, ThreadItems, OverlayItems, Readable, IsKind, Overlay;
    var base, user, open := NextSeq(c, thread), Owner(c, thread), OpenIn(c, thread);
    PastTheEnd(c, thread);
    OverlaysFollow(c, thread, base, user, open);
    forall s | s in Closed(c, thread) && s !in thread
      ensures Readable(Closed(c, thread)[s]) && !IsKind(Closed(c, thread)[s].meta, PENDING)
    {
      OverlayAt(thread, base, user, open, s - base);
      OverlayIsQuiet(user, open[s - base]);
    }
    if HasPending(thread) {
      var s :| s in thread && IsKind(thread[s].meta, PENDING);
      assert s in Closed(c, thread) && IsKind(Closed(c, thread)[s].meta, PENDING);
    }
  }

  lemma OverlayIsQuiet(user: nat, call: string)
    ensures Readable(Overlay(user, call)) && !IsKind(Overlay(user, call).meta, PENDING)
  {
    assert RESOLVED[13] != PENDING[13];
  }

  /** Closes every outstanding card, in one pass over the table. It raises exactly when a row it fetches
      cannot be walked, and then has written nothing. */
  method ResolveOutstanding(messages: Messages) returns (raised: bool)
    modifies messages
    ensures raised <==> Unreadable(old(messages.table))
    ensures messages.table == if raised then old(messages.table) else Pass(old(messages.table))
  {
    hide Query, Closed, Says, Ready, Unreadable, Readable;
    ghost var before := messages.table;
    UnreadableIff(before);
    var all := Gather(Query(messages.table));
    if all == None {
      return true;
    }
    var g := all.value;
    forall c
      ensures c in g.order ==> c in before && Ready(g, c, before[c])
      ensures c !in g.order && c in before ==> Closed(c, before[c]) == before[c]
    {
      OrderedAreReady(g, before, c);
    }
    for i := 0 to |g.order|
      invariant messages.table.Keys == before.Keys
      invariant forall c | c in before ::
                  messages.table[c] == if c in g.order[..i] then Closed(c, before[c]) else before[c]
    {
      assert g.order[..i + 1] == g.order[..i] + [g.order[i]];
      CloseConversation(messages, g, g.order[i]);
    }
    assert g.order[..|g.order|] == g.order;
    raised := false;
  }
}
