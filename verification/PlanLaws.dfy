/** What the pass over the plan cards does, said of the rows and the texts stored in them. */
module PlanLaws {
  import opened Sequences
  import opened JsonValues
  import opened PlanAnswers
  import opened PlanCards

  // ----- what one row says of a call -------------------------------------------------------

  /** The row offers the card of the call. */
  ghost predicate Offers(row: Row, call: string) {
    TextAt(row.meta, "kind", "plan_options_pending") && TextAt(row.meta, "toolCallId", call)
  }

  /** The row's meta says that the call is resolved. */
  ghost predicate Marks(row: Row, call: string) {
    TextAt(row.meta, "kind", "plan_options_resolved") && TextAt(row.meta, "toolCallId", call)
  }

  /** What the row's payload says of the call, when its text matches the probe: its last answer to it. */
  ghost predicate Replies(row: Row, call: string, v: Json) {
    row.probed && exists i :: LastFor(Answers(row.payload), call, i) && v == Answers(row.payload)[i].content
  }

  ghost predicate LastFor(answers: seq<Answer>, call: string, i: int) {
    0 <= i < |answers| && answers[i].callId == call && forall j | i < j < |answers| :: answers[j].callId != call
  }

  ghost predicate NoReply(row: Row, call: string) {
    row.probed ==> forall i | 0 <= i < |Answers(row.payload)| :: Answers(row.payload)[i].callId != call
  }

  /** The row resolves the call with `v`: its payload's last answer, else the choice its meta states, `refine`
      when it states none. */
  ghost predicate Resolves(row: Row, call: string, v: Json) {
    || Replies(row, call, v)
    || (NoReply(row, call) && Marks(row, call)
        && v == if "choice" in row.meta.fields then row.meta.fields["choice"] else Str("refine"))
  }

  ghost predicate SaysNothing(row: Row, call: string) {
    NoReply(row, call) && !Marks(row, call)
  }

  lemma OneOrTheOther(row: Row, call: string)
    ensures SaysNothing(row, call) <==> forall v :: !Resolves(row, call, v)
  {
    var answers := Answers(row.payload);
    if row.probed && !NoReply(row, call) {
      var i := LastOf(answers, call);
      assert Replies(row, call, answers[i].content);
      assert Resolves(row, call, answers[i].content);
    }
    if NoReply(row, call) && Marks(row, call) {
      assert Resolves(row, call, if "choice" in row.meta.fields then row.meta.fields["choice"] else Str("refine"));
    }
  }

  lemma {:induction false} LastOf(answers: seq<Answer>, call: string) returns (i: nat)
    requires exists k :: 0 <= k < |answers| && answers[k].callId == call
    ensures LastFor(answers, call, i)
  {
    var n := |answers| - 1;
    if answers[n].callId == call {
      i := n;
    } else {
      i := LastOf(answers[..n], call);
    }
  }

  lemma MetaIs(known: Resolved, row: Row, call: string)
    ensures Marks(row, call) ==>
              Resolution(AfterMeta(known, row.meta), call) ==
              Some(if "choice" in row.meta.fields then row.meta.fields["choice"] else Str("refine"))
    ensures !Marks(row, call) ==> Resolution(AfterMeta(known, row.meta), call) == Resolution(known, call)
    ensures CardOf(row) == [call] <==> Offers(row, call)
    ensures |CardOf(row)| <= 1
  {
  }

  /** A row that resolves the call sets its resolution; one that says nothing of it leaves it. */
  lemma RowResolves(known: Resolved, row: Row, call: string)
    ensures
      var after := Resolution(AfterAnswers(AfterMeta(known, row.meta), ToldBy(row)), call);
      && (forall v | Resolves(row, call, v) :: after == Some(v))
      && (SaysNothing(row, call) ==> after == Resolution(known, call))
  {
    MetaIs(known, row, call);
    AnswersResolve(AfterMeta(known, row.meta), row, call);
    hide AfterMeta, AfterAnswers, Answers, Marks, ToldBy, Replies, NoReply;
  }

  lemma AnswersResolve(known: Resolved, row: Row, call: string)
    ensures
      var after := Resolution(AfterAnswers(known, ToldBy(row)), call);
      && (forall v | Replies(row, call, v) :: after == Some(v) && !NoReply(row, call))
      && (NoReply(row, call) ==> after == Resolution(known, call))
  {
    var told := ToldBy(row);
    assert told == if row.probed then Answers(row.payload) else [];
    hide AfterAnswers, Answers, ToldBy;
    ToldResolves(known, told, call);
  }

  lemma ToldResolves(known: Resolved, told: seq<Answer>, call: string)
    ensures
      var after := Resolution(AfterAnswers(known, told), call);
      && (forall i | LastFor(told, call, i) :: after == Some(told[i].content))
      && ((forall i | 0 <= i < |told| :: told[i].callId != call) ==> after == Resolution(known, call))
  {
    hide AfterAnswers;
    forall i | LastFor(told, call, i) ensures Resolution(AfterAnswers(known, told), call) == Some(told[i].content) {
      LastAnswerStands(known, told, i);
    }
    if forall i | 0 <= i < |told| :: told[i].callId != call {
      UnansweredKeeps(known, told, call);
    }
  }

  // ----- a conversation --------------------------------------------------------------------

  /** Row `s` is the last of the conversation that says anything of the call. */
  ghost predicate LastWord(thread: Thread, s: nat, call: string) {
    && s in thread && !SaysNothing(thread[s], call)
    && forall t | t in thread && t > s :: SaysNothing(thread[t], call)
  }

  lemma {:induction false} ResolutionOfItems(items: seq<Item>, call: string) returns (k: nat)
    ensures k <= |items| && forall m | k < m < |items| :: SaysNothing(items[m].row, call)
    ensures k < |items| ==> !SaysNothing(items[k].row, call)
    ensures k < |items| ==> forall v | Resolves(items[k].row, call, v) :: Resolution(Resolutions(items), call) == Some(v)
    ensures k == |items| ==>
              Resolution(Resolutions(items), call) == None && forall m | 0 <= m < |items| :: SaysNothing(items[m].row, call)
  {
    hide AfterMeta, AfterAnswers, SaysNothing, Resolves, ToldBy;
    if items == [] {
      k := 0;
    } else {
      var n := |items| - 1;
      RowResolves(Resolutions(items[..n]), items[n].row, call);
      if SaysNothing(items[n].row, call) {
        k := ResolutionOfItems(items[..n], call);
        if k == n {
          k := n + 1;
        }
      } else {
        k := n;
      }
    }
  }

  lemma ItemsOfThread(c: nat, thread: Thread)
    ensures
      var items := ThreadItems(c, thread);
      && (forall i | 0 <= i < |items| :: items[i].seqNo in thread && items[i].row == thread[items[i].seqNo])
      && (forall i, j | 0 <= i < j < |items| :: items[i].seqNo < items[j].seqNo)
      && (forall s | s in thread :: exists i :: 0 <= i < |items| && items[i].seqNo == s)
  {
    var items, seqs := ThreadItems(c, thread), Ordered(thread.Keys);
    forall s | s in thread ensures exists i :: 0 <= i < |items| && items[i].seqNo == s {
      var i :| 0 <= i < |seqs| && seqs[i] == s;
      assert items[i].seqNo == s;
    }
  }

  /** The resolution of a call is the last word of the conversation on it. */
  lemma LastWordResolves(c: nat, thread: Thread, call: string)
    ensures
      var known := Resolution(Resolutions(ThreadItems(c, thread)), call);
      && (forall s: nat, v | LastWord(thread, s, call) && Resolves(thread[s], call, v) :: known == Some(v))
      && (known == None <==> forall s | s in thread :: SaysNothing(thread[s], call))
      && (known.Some? ==> exists s: nat :: LastWord(thread, s, call))
  {
    ItemsOfThread(c, thread);
    var items := ThreadItems(c, thread);
    var k := ResolutionOfItems(items, call);
    hide ThreadItems, Resolutions, SaysNothing, Resolves;
    if k < |items| {
      OneOrTheOther(items[k].row, call);
      var s := items[k].seqNo;
      forall t | t in thread && t > s ensures SaysNothing(thread[t], call) {
        var m :| 0 <= m < |items| && items[m].seqNo == t;
        assert m > k;
      }
      assert LastWord(thread, s, call);
      forall t: nat | LastWord(thread, t, call) ensures t == s {
      }
    }
  }

  /** A resolution that leaves a card open: a text that begins with `build_failed`. */
  ghost predicate Failed(v: Json) {
    v.Str? && |v.text| >= 12 && v.text[..12] == "build_failed"
  }

  lemma {:induction false} CardsOfItems(items: seq<Item>, call: string)
    ensures call in Cards(items) <==> exists k :: 0 <= k < |items| && Offers(items[k].row, call)
  {
    hide CardOf, Offers;
    if items != [] {
      var n := |items| - 1;
      CardsOfItems(items[..n], call);
      MetaIs(map[], items[n].row, call);
      assert forall k | 0 <= k < n :: items[..n][k] == items[k];
    }
  }

  lemma OfferedIff(c: nat, thread: Thread, call: string)
    ensures call in Cards(ThreadItems(c, thread)) <==> exists s :: s in thread && Offers(thread[s], call)
  {
    var items := ThreadItems(c, thread);
    CardsOfItems(items, call);
    ItemsOfThread(c, thread);
    hide ThreadItems, Cards, Offers;
    if k :| 0 <= k < |items| && Offers(items[k].row, call) {
      assert Offers(thread[items[k].seqNo], call);
    }
    if s :| s in thread && Offers(thread[s], call) {
      var k :| 0 <= k < |items| && items[k].seqNo == s;
      assert Offers(items[k].row, call);
    }
  }

  /** The last word on the call, if there is one, leaves its card open. */
  ghost predicate LeftOpen(thread: Thread, call: string) {
    forall s: nat, v | LastWord(thread, s, call) && Resolves(thread[s], call, v) :: Failed(v)
  }

  lemma LeftOpenIff(c: nat, thread: Thread, call: string)
    ensures IsOpen(Resolution(Resolutions(ThreadItems(c, thread)), call)) <==> LeftOpen(thread, call)
  {
    LastWordResolves(c, thread, call);
    var known := Resolution(Resolutions(ThreadItems(c, thread)), call);
    FailedIsOpen(known);
    hide Resolution, ThreadItems, Resolutions, IsOpen, SaysNothing, Resolves, Failed;
    if known.Some? {
      var s: nat :| LastWord(thread, s, call);
      OneOrTheOther(thread[s], call);
      var v :| Resolves(thread[s], call, v);
      assert known == Some(v);
      forall t: nat, w | LastWord(thread, t, call) && Resolves(thread[t], call, w) ensures w == v {
        assert known == Some(w);
      }
    }
  }

  /** A card is open exactly when some row offers it and the last word on it, if there is one, is a text that
      begins with `build_failed`. */
  lemma OpenByRows(c: nat, thread: Thread, call: string)
    ensures call in OpenIn(c, thread) <==>
              (exists s :: s in thread && Offers(thread[s], call)) && LeftOpen(thread, call)
  {
    hide *;
    OpenInMeaning(c, thread);
    LeftOpenIff(c, thread, call);
    OfferedIff(c, thread, call);
  }

  lemma FailedIsOpen(known: Option<Json>)
    ensures IsOpen(known) <==> known == None || Failed(known.value)
  {
  }

  /** The row closes the card of the call, for the user. */
  ghost predicate Refines(row: Row, user: nat, call: string) {
    && Marks(row, call) && TextAt(row.meta, "choice", "refine") && row.user == user && row.payload == Arr([])
  }

  /** A row is the conversation's first. */
  ghost predicate FirstRow(thread: Thread, s: nat) {
    s in thread && forall t | t in thread :: s <= t
  }

  lemma OwnerByRows(c: nat, thread: Thread, s: nat)
    requires FirstRow(thread, s)
    ensures Owner(c, thread) == thread[s].user
  {
    ItemsOfThread(c, thread);
    var items := ThreadItems(c, thread);
    var i :| 0 <= i < |items| && items[i].seqNo == s;
    hide ThreadItems;
    assert i == 0;
  }

  /** New rows are numbered from one past the last. */
  lemma NextSeqByRows(c: nat, thread: Thread)
    ensures thread == map[] ==> NextSeq(c, thread) == 0
    ensures thread != map[] ==> NextSeq(c, thread) > 0 && NextSeq(c, thread) - 1 in thread
    ensures forall s | s in thread :: s < NextSeq(c, thread)
  {
    PastTheEnd(c, thread);
    ItemsOfThread(c, thread);
    var items := ThreadItems(c, thread);
    hide ThreadItems;
    if thread == map[] {
      assert items == [];
    } else {
      var s :| s in thread;
      HeadIsSome(items);
    }
  }

  lemma {:induction false} HeadIsSome(items: seq<Item>)
    requires items != []
    ensures exists i :: 0 <= i < |items| && items[i].seqNo == HeadSeq(items)
  {
    var n := |items| - 1;
    if items[n].seqNo > HeadSeq(items[..n]) {
      assert items[n].seqNo == HeadSeq(items);
    } else {
      assert n > 0;
      HeadIsSome(items[..n]);
      var i :| 0 <= i < n && items[..n][i].seqNo == HeadSeq(items[..n]);
      assert items[i].seqNo == HeadSeq(items);
    }
  }

  /** After the pass every open card has a row that closes it, past the conversation's own rows and for the user
      of its first. */
  lemma OpenCardGetsRow(c: nat, thread: Thread, call: string, first: nat)
    requires call in OpenIn(c, thread) && FirstRow(thread, first)
    ensures exists s :: s in Closed(c, thread) && s !in thread && Refines(Closed(c, thread)[s], thread[first].user, call)
  {
    hide OpenIn, NextSeq, Owner, WithOverlays;
    OwnerByRows(c, thread, first);
    NextSeqByRows(c, thread);
    var open := OpenIn(c, thread);
    var k :| 0 <= k < |open| && open[k] == call;
    OverlayAt(thread, NextSeq(c, thread), Owner(c, thread), open, k);
    OverlayRefines(Owner(c, thread), call);
    var s := NextSeq(c, thread) + k;
    assert s in Closed(c, thread) && s !in thread;
  }

  lemma OverlayRefines(user: nat, call: string)
    ensures Refines(Overlay(user, call), user, call)
  {
  }

  /** And every row the pass adds closes a card that was open. */
  lemma AddedRowsRefine(c: nat, thread: Thread, s: nat)
    requires s in Closed(c, thread) && s !in thread
    ensures exists call :: call in OpenIn(c, thread) && Refines(Closed(c, thread)[s], Owner(c, thread), call)
  {
    hide OpenIn, NextSeq, Owner, WithOverlays;
    PastTheEnd(c, thread);
    var base, open := NextSeq(c, thread), OpenIn(c, thread);
    OverlaysFollow(c, thread, base, Owner(c, thread), open);
    OverlayAt(thread, base, Owner(c, thread), open, s - base);
    OverlayRefines(Owner(c, thread), open[s - base]);
    assert open[s - base] in open;
  }

  /** A row makes the pass raise exactly when its text matches the probe and its payload holds a message whose
      parts cannot be iterated. */
  lemma ReadableIff(row: Row)
    ensures !Readable(row) <==>
              row.probed && row.payload.Arr? && exists i :: 0 <= i < |row.payload.items| && BadParts(row.payload.items[i])
  {
    UnwalkableIff(row.payload);
    hide BadParts;
  }

  /** The query takes the conversations with a row of the pending kind. */
  lemma PendingByRows(thread: Thread)
    ensures HasPending(thread) <==> exists s :: s in thread && TextAt(thread[s].meta, "kind", "plan_options_pending")
  {
    forall s | s in thread
      ensures IsKind(thread[s].meta, PENDING) <==> TextAt(thread[s].meta, "kind", "plan_options_pending")
    {
    }
  }
}
