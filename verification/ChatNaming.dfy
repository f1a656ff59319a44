/** The pass that names every untitled chat after its first message, a page of chats at a time, while
    others go on naming chats. Ids are numbers; the nil id is 0. */
module ChatNaming {
  import opened Sequences
  import opened JsonValues
  import opened ChatTitle
  import ChatBatch

  const BATCH := 500

  type Titles = map<nat, Option<string>>

  // ----- the page query --------------------------------------------------------------------

  function UntitledAfter(titles: Titles, after: nat): (r: set<nat>)
    ensures forall id :: id in r <==> id in titles && titles[id] == None && id > after
  {
    set id | id in titles && titles[id] == None && id > after
  }

  /** `WHERE title IS NULL AND id > :after ORDER BY id LIMIT :size`. */
  function Page(titles: Titles, after: nat): seq<nat> {
    var ids := Ordered(UntitledAfter(titles, after));
    if |ids| <= BATCH then ids else ids[..BATCH]
  }

  /** What a page leaves out comes after it. */
  lemma PageMeaning(titles: Titles, after: nat)
    ensures
      var page := Page(titles, after);
      && |page| <= BATCH
      && (page == [] ==> UntitledAfter(titles, after) == {})
      && Ascending(page)
      && (forall i | 0 <= i < |page| :: page[i] in UntitledAfter(titles, after))
      && forall id | id in UntitledAfter(titles, after) && page != [] && id <= page[|page| - 1] :: id in page
  {
    var ids := Ordered(UntitledAfter(titles, after));
    var page := Page(titles, after);
    if page == [] {
      assert ids == [];
      assert forall id | id in UntitledAfter(titles, after) :: id in ids;
    } else {
      forall id | id in UntitledAfter(titles, after) && id <= page[|page| - 1] ensures id in page {
        var i :| 0 <= i < |ids| && ids[i] == id;
        assert ids[i] == page[i];
      }
    }
  }

  // ----- the messages ----------------------------------------------------------------------

  datatype Kind = Turn | Step | SystemEvent

  datatype Message = Message(kind: Kind, visible: bool, payload: Json)

  /** Conversation, then sequence number. */
  type Messages = map<nat, map<nat, Message>>

  datatype Row = Row(conversation: nat, payload: Json)

  /** A row the prompt query returns: the platform's own words and hidden rows are left out, and so is a
      payload without a user prompt. */
  predicate Fetched(m: Message) {
    m.kind != SystemEvent && m.visible && Probed(m.payload)
  }

  /** The rows fetched are the visible ones of turns and steps with a user prompt in a request. */
  lemma FetchedIff(m: Message)
    ensures Fetched(m) <==>
              && (m.kind == Turn || m.kind == Step) && m.visible && m.payload.Arr?
              && exists i :: 0 <= i < |m.payload.items|
                             && TextAt(m.payload.items[i], "kind", "request") && ChatBatch.Prompted(m.payload.items[i])
  {
    ChatBatch.ProbedIff(m.payload);
    hide Probed, TextAt, ChatBatch.Prompted;
  }

  function RowsIn(c: nat, thread: map<nat, Message>, seqs: seq<nat>): seq<Row>
    requires forall s | s in seqs :: s in thread
  {
    if seqs == [] then []
    else
      var n := |seqs| - 1;
      RowsIn(c, thread, seqs[..n]) + if Fetched(thread[seqs[n]]) then [Row(c, thread[seqs[n]].payload)] else []
  }

  /** The rows fetched for one conversation, in sequence order. */
  function RowsFor(messages: Messages, c: nat): seq<Row> {
    if c in messages then RowsIn(c, messages[c], Ordered(messages[c].Keys)) else []
  }

  /** `ORDER BY conversation_id, seq` over a page, whose ids ascend. */
  function Prompts(messages: Messages, ids: seq<nat>): seq<Row> {
    if ids == [] then [] else Prompts(messages, ids[..|ids| - 1]) + RowsFor(messages, ids[|ids| - 1])
  }

  /** What one row, or a run of rows, does for a chat: a name, none, or the walk raises. */
  datatype Naming = Named(title: string) | Nameless | Raises

  function NamingOf(payload: Json): Naming {
    if !Walkable(payload) then Raises
    else match DeriveTitle(Typed(payload))
      case Some(title) => Named(title)
      case None => Nameless
  }

  /** The first row that names the chat or raises decides. */
  function FirstIn(rows: seq<Row>, id: nat): Naming {
    if rows == [] then Nameless
    else
      var n := |rows| - 1;
      var earlier := FirstIn(rows[..n], id);
      if earlier != Nameless then earlier
      else if rows[n].conversation == id then NamingOf(rows[n].payload)
      else Nameless
  }

  /** What the messages of a chat come to. */
  function Outcome(messages: Messages, id: nat): Naming {
    FirstIn(RowsFor(messages, id), id)
  }

  function FirstTitle(messages: Messages, id: nat): Option<string> {
    match Outcome(messages, id)
    case Named(title) => Some(title)
    case _ => None
  }

  /** A message that the source says can name a chat: visible, of a turn or a step, and with words in it. */
  predicate CanName(m: Message) {
    m.kind != SystemEvent && m.visible && Walkable(m.payload) && DeriveTitle(Typed(m.payload)).Some?
  }

  predicate CanRaise(m: Message) {
    Fetched(m) && !Walkable(m.payload)
  }

  /** It stops the walk over its chat's rows. */
  predicate Decisive(m: Message) {
    CanName(m) || CanRaise(m)
  }

  /** The message at `s` decides: it can name the chat or raises, and no earlier one does either. */
  ghost predicate Decides(thread: map<nat, Message>, seqs: set<nat>, s: nat) {
    && s in thread && s in seqs && Decisive(thread[s])
    && forall t | t in thread && t in seqs && t < s :: !Decisive(thread[t])
  }

  ghost predicate NoneDecides(thread: map<nat, Message>, seqs: set<nat>) {
    forall s | s in thread && s in seqs :: !Decisive(thread[s])
  }

  lemma OneMoreMessage(thread: map<nat, Message>, seqs: set<nat>, last: nat)
    requires last in thread && forall s | s in seqs :: s < last
    ensures forall s: nat | Decides(thread, seqs, s) :: Decides(thread, seqs + {last}, s)
    ensures NoneDecides(thread, seqs) && Decisive(thread[last]) ==> Decides(thread, seqs + {last}, last)
    ensures NoneDecides(thread, seqs) && !Decisive(thread[last]) ==> NoneDecides(thread, seqs + {last})
  {
    hide Decisive;
  }

  /** What the rows of one conversation come to: the naming of the message that decides, if one does. */
  lemma {:induction false} FirstInMeaning(c: nat, thread: map<nat, Message>, seqs: seq<nat>)
    requires Ascending(seqs) && forall s | s in seqs :: s in thread
    ensures
      var naming := FirstIn(RowsIn(c, thread, seqs), c);
      || (naming == Nameless && NoneDecides(thread, ToSet(seqs)))
      || (exists s: nat :: Decides(thread, ToSet(seqs), s) && naming != Nameless && naming == NamingOf(thread[s].payload))
  {
    hide Decisive, NamingOf, Fetched, FirstIn, Decides, NoneDecides;
    if seqs == [] {
      NoRows(c);
      NoneAtFirst(thread);
    } else {
      var n := |seqs| - 1;
      var last := seqs[n];
      assert seqs == seqs[..n] + [last];
      assert ToSet(seqs) == ToSet(seqs[..n]) + {last};
      FirstInMeaning(c, thread, seqs[..n]);
      OneRowMore(c, RowsIn(c, thread, seqs[..n]), thread[last]);
      OneMoreMessage(thread, ToSet(seqs[..n]), last);
    }
  }

  lemma NoneAtFirst(thread: map<nat, Message>)
    ensures NoneDecides(thread, ToSet([]))
  {
  }

  lemma OneRowMore(c: nat, rows: seq<Row>, m: Message)
    ensures
      var more := if Fetched(m) then [Row(c, m.payload)] else [];
      FirstIn(rows + more, c) ==
      if FirstIn(rows, c) != Nameless then FirstIn(rows, c)
      else if Decisive(m) then NamingOf(m.payload)
      else Nameless
    ensures Decisive(m) ==> NamingOf(m.payload) != Nameless
  {
    RowOutcome(m);
    hide Decisive, NamingOf, Fetched;
    var row := Row(c, m.payload);
    assert (rows + [row])[..|rows|] == rows && rows + [] == rows;
  }

  lemma RowOutcome(m: Message)
    ensures Decisive(m) <==> Fetched(m) && NamingOf(m.payload) != Nameless
  {
    hide Walkable, DeriveTitle, Typed, Probed;
    if CanName(m) {
      ProbeLosesNoTitle(m.payload);
    }
  }

  /** A chat is named by the earliest of its visible messages that has words in it, whatever the probe let
      through, unless an earlier one makes the walk raise. */
  lemma NamingMeaning(messages: Messages, id: nat)
    requires id in messages
    ensures Outcome(messages, id) == Nameless <==> NoneDecides(messages[id], messages[id].Keys)
    ensures Outcome(messages, id) != Nameless ==>
            exists s: nat :: Decides(messages[id], messages[id].Keys, s)
                             && Outcome(messages, id) == NamingOf(messages[id][s].payload)
  {
    hide Decisive, NamingOf, FirstIn, RowsIn, Decides, NoneDecides;
    var seqs := Ordered(messages[id].Keys);
    FirstInMeaning(id, messages[id], seqs);
    assert ToSet(seqs) == messages[id].Keys;
    DecidesOrNot(messages[id], messages[id].Keys);
  }

  lemma DecidesOrNot(thread: map<nat, Message>, seqs: set<nat>)
    ensures forall s: nat | Decides(thread, seqs, s) :: !NoneDecides(thread, seqs)
  {
    hide Decisive;
  }

  // ----- the rows of a page ----------------------------------------------------------------

  lemma {:induction false} FirstInConcat(a: seq<Row>, b: seq<Row>, id: nat)
    ensures FirstIn(a + b, id) == if FirstIn(a, id) != Nameless then FirstIn(a, id) else FirstIn(b, id)
  {
    hide NamingOf;
    if b == [] {
      assert a + b == a;
    } else {
      var n := |b| - 1;
      assert (a + b)[..|a + b| - 1] == a + b[..n];
      FirstInConcat(a, b[..n], id);
    }
  }

  lemma {:induction false} OtherRows(c: nat, thread: map<nat, Message>, seqs: seq<nat>, id: nat)
    requires c != id && forall s | s in seqs :: s in thread
    ensures FirstIn(RowsIn(c, thread, seqs), id) == Nameless
  {
    hide NamingOf, Fetched;
    if seqs != [] {
      var n := |seqs| - 1;
      OtherRows(c, thread, seqs[..n], id);
      var rows := RowsIn(c, thread, seqs[..n]);
      assert (rows + [Row(c, thread[seqs[n]].payload)])[..|rows|] == rows && rows + [] == rows;
    }
  }

  /** On the rows of a whole page, each chat of the page comes to what its own messages come to, and no
      other chat to anything. */
  lemma {:induction false} PromptsKeepNames(messages: Messages, ids: seq<nat>, id: nat)
    requires Ascending(ids)
    ensures FirstIn(Prompts(messages, ids), id) == if id in ids then Outcome(messages, id) else Nameless
  {
    hide FirstIn, RowsIn;
    NoRows(id);
    if ids != [] {
      var n := |ids| - 1;
      var c := ids[n];
      assert ids == ids[..n] + [c];
      PromptsKeepNames(messages, ids[..n], id);
      FirstInConcat(Prompts(messages, ids[..n]), RowsFor(messages, c), id);
      if c != id && c in messages {
        OtherRows(c, messages[c], Ordered(messages[c].Keys), id);
      }
    }
  }

  lemma NoRows(id: nat)
    ensures FirstIn([], id) == Nameless
  {
  }

  // ----- the pass --------------------------------------------------------------------------

  function TitleOf(titles: Titles, id: nat): Option<string> {
    if id in titles then titles[id] else None
  }

  /** Others name chats: every one they name takes their name, whatever it had. */
  function NamedByOthers(titles: Titles, others: map<nat, string>): Titles {
    map id | id in titles :: if id in others then Some(others[id]) else titles[id]
  }

  /** `UPDATE ... SET title WHERE id AND title IS NULL`, once per name. */
  function NamedIfUntitled(titles: Titles, names: map<nat, string>): Titles {
    map id | id in titles :: if id in names && titles[id] == None then Some(names[id]) else titles[id]
  }

  /** The last name others gave a chat in the first rounds, if they gave it one. */
  function LastByOthers(others: seq<map<nat, string>>, id: nat): Option<string> {
    if others == [] then None
    else
      var n := |others| - 1;
      if id in others[n] then Some(others[n][id]) else LastByOthers(others[..n], id)
  }

  /** The title a chat should have once the pass has got past it: the last name anyone else gave it during
      the pass, or the one it had, or its own first words; the nil id keeps none. */
  function Settled(before: Titles, messages: Messages, others: seq<map<nat, string>>, after: nat, id: nat): Option<string>
  {
    var theirs := LastByOthers(others, id);
    if theirs.Some? then theirs
    else if TitleOf(before, id).Some? then TitleOf(before, id)
    else if 0 < id <= after then FirstTitle(messages, id)
    else None
  }

  class Chats {
    var titles: Titles

    /** Another session names some chats. */
    method NameByOthers(others: map<nat, string>)
      modifies this
      ensures titles == NamedByOthers(old(titles), others)
    {
      titles := NamedByOthers(titles, others);
    }

    /** The update, one row after another: of the chats there are, those still untitled that are given a name
        take it, and no title there was is overwritten. */
    method Name(names: map<nat, string>)
      modifies this
      ensures titles.Keys == old(titles).Keys
      ensures forall id | id in titles ::
                titles[id] == if id in names && old(titles)[id] == None then Some(names[id]) else old(titles)[id]
    {
      var todo := names.Keys;
      while todo != {}
        invariant todo <= names.Keys && titles.Keys == old(titles).Keys
        invariant forall id | id in titles ::
                    titles[id] == if id in names && id !in todo && old(titles)[id] == None then Some(names[id])
                                  else old(titles)[id]
      {
        var id :| id in todo;
        if id in titles && titles[id] == None {
          titles := titles[id := Some(names[id])];
        }
        todo := todo - {id};
      }
    }
  }

  /** The walk over one page's rows: the first row with a usable title names its chat; it stops when the walk
      over a payload raises. */
  method NamesFor(rows: seq<Row>) returns (names: map<nat, string>, raised: bool)
    ensures raised <==> exists id: nat :: FirstIn(rows, id) == Raises
    ensures !raised ==>
              forall id :: FirstIn(rows, id) == if id in names then Named(names[id]) else Nameless
  {
    names := map[];
    for n := 0 to |rows|
      invariant forall id :: FirstIn(rows[..n], id) == if id in names then Named(names[id]) else Nameless
    {
      assert rows[..n + 1][..n] == rows[..n];
      var row := rows[n];
      if row.conversation !in names {
        var text := TypedText(row.payload);
        if text.None? {
          RaisesStays(rows, n + 1, row.conversation);
          return names, true;
        }
        var title := DeriveTitle(text.value);
        if title.Some? {
          names := names[row.conversation := title.value];
        }
      }
    }
    assert rows[..|rows|] == rows;
    raised := false;
  }

  lemma RaisesStays(rows: seq<Row>, n: nat, id: nat)
    requires n <= |rows| && FirstIn(rows[..n], id) == Raises
    ensures FirstIn(rows, id) == Raises
  {
    hide FirstIn;
    assert rows == rows[..n] + rows[n..];
    FirstInConcat(rows[..n], rows[n..], id);
  }

  /** Where the pass has got to: every chat has the title it should have at this point. */
  ghost predicate Progress(before: Titles, now: Titles, messages: Messages, others: seq<map<nat, string>>, after: nat) {
    && now.Keys == before.Keys
    && forall id | id in before :: now[id] == Settled(before, messages, others, after, id)
  }

  /** One round: a page is read, others name some chats, and the page's names are written. */
  lemma RoundKeepsProgress(before: Titles, now: Titles, messages: Messages, others: seq<map<nat, string>>,
                           after: nat, named: map<nat, string>, names: map<nat, string>)
    requires Progress(before, now, messages, others, after) && Page(now, after) != []
    requires forall id | id in Page(now, after) :: NameOf(names, id) == FirstTitle(messages, id)
    requires forall id | id in names :: id in Page(now, after)
    ensures
      var page := Page(now, after);
      Progress(before, NamedIfUntitled(NamedByOthers(now, named), names), messages, others + [named], page[|page| - 1])
  {
    hide FirstTitle, LastByOthers, Page, Settled, UntitledAfter;
    PageMeaning(now, after);
    var page := Page(now, after);
    var last := page[|page| - 1];
    assert last in page && last > after;
    forall id | id in before
      ensures NamedIfUntitled(NamedByOthers(now, named), names)[id] == Settled(before, messages, others + [named], last, id)
    {
      LastOneMore(others, named, id);
      RoundSettles(before, messages, others, after, last, named, names, now[id], id, id in page);
    }
  }

  /** The same for one chat, with the title `was` it had when the page was read. */
  lemma RoundSettles(before: Titles, messages: Messages, others: seq<map<nat, string>>, after: nat, last: nat,
                     named: map<nat, string>, names: map<nat, string>, was: Option<string>, id: nat, onPage: bool)
    requires was == Settled(before, messages, others, after, id) && after < last && id in before
    requires onPage ==> was == None && after < id <= last
    requires was == None && after < id <= last ==> onPage
    requires onPage ==> NameOf(names, id) == FirstTitle(messages, id)
    requires id in names ==> onPage
    ensures LastByOthers(others + [named], id) == (if id in named then Some(named[id]) else LastByOthers(others, id)) ==>
              (if id in named then Some(named[id]) else if id in names && was == None then Some(names[id]) else was)
              == Settled(before, messages, others + [named], last, id)
  {
    hide FirstTitle, LastByOthers;
  }

  lemma LastOneMore(others: seq<map<nat, string>>, named: map<nat, string>, id: nat)
    ensures LastByOthers(others + [named], id) == if id in named then Some(named[id]) else LastByOthers(others, id)
  {
    assert (others + [named])[..|others|] == others;
  }

  function NameOf(names: map<nat, string>, id: nat): Option<string> {
    if id in names then Some(names[id]) else None
  }

  function Rounds(others: nat -> map<nat, string>, n: nat): (r: seq<map<nat, string>>)
    ensures |r| == n && forall i | 0 <= i < n :: r[i] == others(i)
  {
    if n == 0 then [] else Rounds(others, n - 1) + [others(n - 1)]
  }

  /** Every chat a page has shown, in order: untitled chats past the nil id, none twice, and none missed
      that nobody else has named. */
  ghost predicate VisitedUpTo(before: Titles, others: seq<map<nat, string>>, visited: seq<nat>, after: nat) {
    && Ascending(visited)
    && (forall i | 0 <= i < |visited| :: visited[i] in before && before[visited[i]] == None && 0 < visited[i] <= after)
    && forall id | id in before && before[id] == None && 0 < id <= after && LastByOthers(others, id) == None :: id in visited
  }

  lemma RoundVisits(before: Titles, now: Titles, messages: Messages, others: seq<map<nat, string>>,
                    after: nat, named: map<nat, string>, visited: seq<nat>)
    requires Progress(before, now, messages, others, after) && Page(now, after) != []
    requires VisitedUpTo(before, others, visited, after)
    ensures
      var page := Page(now, after);
      page[|page| - 1] > after && page[|page| - 1] in before && VisitedUpTo(before, others + [named], visited + page, page[|page| - 1])
  {
    hide FirstTitle, LastByOthers, Page;
    PageMeaning(now, after);
    var page := Page(now, after);
    var last := page[|page| - 1];
    forall i | 0 <= i < |page| ensures page[i] in before && before[page[i]] == None && after < page[i] <= last {
      assert page[i] in UntitledAfter(now, after);
      assert now[page[i]] == Settled(before, messages, others, after, page[i]);
    }
    forall id | id in before && before[id] == None && 0 < id <= last && LastByOthers(others + [named], id) == None
      ensures id in visited + page
    {
      LastOneMore(others, named, id);
      if id > after {
        assert now[id] == Settled(before, messages, others, after, id);
        assert id in UntitledAfter(now, after);
      }
    }
  }

  lemma NothingLeft(before: Titles, now: Titles, messages: Messages, others: seq<map<nat, string>>, after: nat, id: nat)
    requires Progress(before, now, messages, others, after) && Page(now, after) == [] && id in before
    ensures LastByOthers(others, id) == None && before[id] == None ==> id <= after
    ensures now[id] == Settled(before, messages, others, id, id)
  {
    hide FirstTitle, LastByOthers, Page;
    PageMeaning(now, after);
    assert id !in UntitledAfter(now, after);
    assert now[id] == Settled(before, messages, others, after, id);
  }

  /** What others name outside the page's round trip changes nothing the pass relies on. */
  lemma OthersKeepProgress(before: Titles, now: Titles, messages: Messages, others: seq<map<nat, string>>, after: nat,
                           named: map<nat, string>, visited: seq<nat>)
    requires Progress(before, now, messages, others, after) && VisitedUpTo(before, others, visited, after)
    ensures Progress(before, NamedByOthers(now, named), messages, others + [named], after)
    ensures VisitedUpTo(before, others + [named], visited, after)
  {
    hide FirstTitle, LastByOthers;
    forall id ensures LastByOthers(others + [named], id) == if id in named then Some(named[id]) else LastByOthers(others, id) {
      LastOneMore(others, named, id);
    }
  }

  /** The two times in the `n`-th round at which others name chats: before the page's names are written and
      after. */
  lemma TwoMoreRounds(others: nat -> map<nat, string>, n: nat)
    ensures Rounds(others, 2 * n + 2) == Rounds(others, 2 * n) + [others(2 * n)] + [others(2 * n + 1)]
  {
  }

  /** No chat shown so far makes the walk raise. */
  ghost predicate NoneRaised(messages: Messages, visited: seq<nat>) {
    forall i | 0 <= i < |visited| :: Outcome(messages, visited[i]) != Raises
  }

  /** The whole pass, with others naming chats between any two of its queries. It ends; it shows each untitled
      chat with a non-nil id that nobody else names exactly once, although naming shrinks the set it pages
      over; every chat ends with the last name another gave it, else the title it had, else the name of its
      earliest usable message; and a chat nobody can name stays untitled. It breaks off only at a page with
      a chat whose messages make the walk raise, with all chats before that page settled. */
  method NameUntitled(chats: Chats, messages: Messages, others: nat -> map<nat, string>)
    returns (rounds: nat, raised: bool, ghost visited: seq<nat>, ghost reached: nat)
    modifies chats
    ensures chats.titles.Keys == old(chats.titles).Keys
    ensures forall id | id in chats.titles && (!raised || id <= reached) ::
              chats.titles[id] == Settled(old(chats.titles), messages, Rounds(others, rounds), id, id)
    ensures Ascending(visited) && NoneRaised(messages, visited)
    ensures forall id | id in visited :: id in old(chats.titles) && old(chats.titles)[id] == None && id > 0
    ensures forall id | id in old(chats.titles) && old(chats.titles)[id] == None && id > 0 && (!raised || id <= reached)
                        && LastByOthers(Rounds(others, rounds), id) == None :: id in visited
    ensures raised ==> exists id :: id in old(chats.titles) && old(chats.titles)[id] == None && id > reached
                                    && Outcome(messages, id) == Raises
    ensures raised ==> forall id | id in chats.titles && id > reached ::
              chats.titles[id] == Settled(old(chats.titles), messages, Rounds(others, rounds), reached, id)
  {
    hide Page, LastByOthers, Outcome, NamedByOthers, NamedIfUntitled, Settled, FirstIn, Progress, VisitedUpTo,
      NoneRaised, Prompts, Ascending, Rounds;
    ghost var before := chats.titles;
    var after := 0;
    var trips := 0;
    rounds, raised, visited := 0, false, [];
    StartOfPass(before, messages, others);
    var ids := Page(chats.titles, after);
    while ids != []
      invariant ids == Page(chats.titles, after) && rounds == 2 * trips
      invariant Progress(before, chats.titles, messages, Rounds(others, rounds), after)
      invariant VisitedUpTo(before, Rounds(others, rounds), visited, after) && NoneRaised(messages, visited)
      decreases |Later(before, after)|
    {
      ghost var past, now, at := Rounds(others, rounds), chats.titles, after;
      RoundVisits(before, now, messages, past, after, others(rounds), visited);
      LaterShrinks(before, after, ids[|ids| - 1]);
      PageAscends(now, after);
      forall id: nat
        ensures FirstIn(Prompts(messages, ids), id) == if id in ids then Outcome(messages, id) else Nameless
      {
        PromptsKeepNames(messages, ids, id);
      }
      var names;
      names, raised := NamesFor(Prompts(messages, ids));
      if raised {
        reached := after;
        PageIsUntitled(before, now, messages, past, after);
        SettledUpTo(before, now, messages, past, after);
        VisitedMeans(before, past, visited, after);
        return rounds, true, visited, reached;
      }
      after := ids[|ids| - 1];
      chats.NameByOthers(others(rounds));
      OutcomesAreTitles(messages, ids, names);
      RoundKeepsProgress(before, now, messages, past, at, others(rounds), names);
      ghost var meanwhile := chats.titles;
      if names != map[] {
        chats.Name(names);
      }
      NamedIs(meanwhile, chats.titles, names);
      NoneRaisedMore(messages, visited, ids);
      visited := visited + ids;
      OthersKeepProgress(before, chats.titles, messages, past + [others(rounds)], after, others(rounds + 1), visited);
      TwoMoreRounds(others, trips);
      chats.NameByOthers(others(rounds + 1));
      rounds, trips := rounds + 2, trips + 1;
      ids := Page(chats.titles, after);
    }
    reached := after;
    SettledUpTo(before, chats.titles, messages, Rounds(others, rounds), after);
    VisitedMeans(before, Rounds(others, rounds), visited, after);
    forall id | id in before
      ensures chats.titles[id] == Settled(before, messages, Rounds(others, rounds), id, id)
      ensures LastByOthers(Rounds(others, rounds), id) == None && before[id] == None && id > 0 ==> id in visited
    {
      NothingLeft(before, chats.titles, messages, Rounds(others, rounds), after, id);
    }
  }

  lemma PageAscends(titles: Titles, after: nat)
    ensures Ascending(Page(titles, after))
  {
    hide Page;
    PageMeaning(titles, after);
  }

  lemma PageIsUntitled(before: Titles, now: Titles, messages: Messages, others: seq<map<nat, string>>, after: nat)
    requires Progress(before, now, messages, others, after)
    ensures forall id | id in Page(now, after) :: id in before && before[id] == None && id > after
  {
    hide FirstTitle, LastByOthers, Page;
    PageMeaning(now, after);
    forall id | id in Page(now, after) ensures id in before && before[id] == None && id > after {
      assert id in UntitledAfter(now, after);
      assert now[id] == Settled(before, messages, others, after, id);
    }
  }

  lemma SettledUpTo(before: Titles, now: Titles, messages: Messages, others: seq<map<nat, string>>, after: nat)
    requires Progress(before, now, messages, others, after)
    ensures now.Keys == before.Keys
    ensures forall id | id in before && id <= after :: now[id] == Settled(before, messages, others, id, id)
    ensures forall id | id in before && id > after :: now[id] == Settled(before, messages, others, after, id)
  {
    hide FirstTitle, LastByOthers;
  }

  lemma VisitedMeans(before: Titles, others: seq<map<nat, string>>, visited: seq<nat>, after: nat)
    requires VisitedUpTo(before, others, visited, after)
    ensures Ascending(visited)
    ensures forall id | id in visited :: id in before && before[id] == None && id > 0
    ensures forall id | id in before && before[id] == None && 0 < id <= after && LastByOthers(others, id) == None :: id in visited
  {
    hide LastByOthers;
  }

  lemma NoneRaisedMore(messages: Messages, visited: seq<nat>, ids: seq<nat>)
    requires NoneRaised(messages, visited) && forall id | id in ids :: Outcome(messages, id) != Raises
    ensures NoneRaised(messages, visited + ids)
  {
    hide Outcome;
  }

  lemma OutcomesAreTitles(messages: Messages, ids: seq<nat>, names: map<nat, string>)
    requires forall id: nat ::
               (if id in ids then Outcome(messages, id) else Nameless) == if id in names then Named(names[id]) else Nameless
    ensures forall id | id in ids :: NameOf(names, id) == FirstTitle(messages, id) && Outcome(messages, id) != Raises
    ensures forall id | id in names :: id in ids
  {
    hide Outcome;
  }

  lemma NamedIs(was: Titles, now: Titles, names: map<nat, string>)
    requires now.Keys == was.Keys
    requires forall id | id in now :: now[id] == if id in names && was[id] == None then Some(names[id]) else was[id]
    ensures now == NamedIfUntitled(was, names)
  {
  }

  ghost function Later(titles: Titles, after: nat): set<nat> {
    set id | id in titles && id > after
  }

  lemma LaterShrinks(titles: Titles, after: nat, last: nat)
    requires last in titles && last > after
    ensures |Later(titles, last)| < |Later(titles, after)|
  {
    SubsetCardinality(Later(titles, last), Later(titles, after) - {last});
  }

  lemma StartOfPass(titles: Titles, messages: Messages, others: nat -> map<nat, string>)
    ensures Rounds(others, 0) == []
    ensures Progress(titles, titles, messages, [], 0) && VisitedUpTo(titles, [], [], 0) && NoneRaised(messages, [])
  {
  }
}
