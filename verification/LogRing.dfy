/** The dev-server log of the supervisor: a ring of the newest lines with an absolute cursor. */
module LogRing {
  import opened Sequences
  import opened Redaction

  const DEV_LOG_MAXLEN := 5000

  function Max(a: int, b: int): int {
    if a >= b then a else b
  }

  /** The last `n` elements. */
  function Last(s: seq<string>, n: nat): seq<string> {
    if |s| <= n then s else s[|s| - n..]
  }

  function RedactLines(lines: seq<string>, secrets: seq<string>): (r: seq<string>)
    requires Nonempty(secrets)
    ensures |r| == |lines|
    ensures forall i | 0 <= i < |lines| :: r[i] == RedactWith(lines[i], secrets)
  {
    seq(|lines|, i requires 0 <= i < |lines| => RedactWith(lines[i], secrets))
  }

  /** What a request with cursor `since` is given of the whole history. */
  function Window(history: seq<string>, since: int): seq<string> {
    var from := Max(Max(0, |history| - DEV_LOG_MAXLEN), since);
    if from >= |history| then [] else history[from..]
  }

  /** Slicing the ring is slicing the history. */
  lemma RingWindow(history: seq<string>, since: int)
    ensures
      var ring := Last(history, DEV_LOG_MAXLEN);
      var start := Max(0, since - (|history| - |ring|));
      Window(history, since) == if start >= |ring| then [] else ring[start..]
  {
  }

  method RedactEach(lines: seq<string>, secrets: seq<string>) returns (out: seq<string>)
    requires Nonempty(secrets)
    ensures out == RedactLines(lines, secrets)
  {
    hide RedactWith;
    out := [];
    for n := 0 to |lines|
      invariant |out| == n && forall i | 0 <= i < n :: out[i] == RedactWith(lines[i], secrets)
    {
      var r := Redact(lines[n], secrets);
      out := out + [r];
    }
  }

  class Dev {
    var lines: seq<string>
    var total: nat
    /** Every line of the current dev-server life. */
    ghost var history: seq<string>

    ghost predicate Valid()
      reads this
    {
      lines == Last(history, DEV_LOG_MAXLEN) && total == |history|
    }

    constructor ()
      ensures Valid() && history == []
    {
      lines, total, history := [], 0, [];
    }

    /** A new dev-server life. */
    method Start()
      modifies this
      ensures Valid() && history == []
    {
      lines, total, history := [], 0, [];
    }

    /** One line off the child's pipe; the ring drops its oldest line past its length. */
    method Pump(line: string)
      requires Valid()
      modifies this
      ensures Valid() && history == old(history) + [line]
    {
      lines := if |lines| == DEV_LOG_MAXLEN then lines[1..] + [line] else lines + [line];
      total := total + 1;
      history := history + [line];
    }

    /** The lines from `since` on that are still held, redacted, and the next cursor. */
    method Logs(since: int, secrets: seq<string>) returns (out: seq<string>, next: nat)
      requires Valid() && Nonempty(secrets)
      ensures out == RedactLines(Window(history, since), secrets) && next == |history|
    {
      hide RedactLines, Window;
      RingWindow(history, since);
      var firstBuffered := total - |lines|;
      var start := Max(0, since - firstBuffered);
      var kept := if start >= |lines| then [] else lines[start..];
      out := RedactEach(kept, secrets);
      next := total;
    }
  }

  /** No served line holds a mask-proof secret, and lines without secrets are served as they were printed. */
  lemma ServedLinesAreRedacted(lines: seq<string>, secrets: seq<string>, i: nat)
    requires Nonempty(secrets) && i < |lines|
    ensures forall k | 0 <= k < |secrets| && MaskProof(secrets[k]) :: !Contains(RedactLines(lines, secrets)[i], secrets[k])
    ensures (forall j | 0 <= j < |secrets| :: !Contains(lines[i], secrets[j])) ==> RedactLines(lines, secrets)[i] == lines[i]
  {
    hide MaskProof, Contains, RedactWith;
    forall k | 0 <= k < |secrets| && MaskProof(secrets[k])
      ensures !Contains(RedactLines(lines, secrets)[i], secrets[k])
    {
      NoSecretSurvives(lines[i], secrets, k);
    }
    if forall j | 0 <= j < |secrets| :: !Contains(lines[i], secrets[j]) {
      CleanTextUnchanged(lines[i], secrets);
    }
  }

  // ----- a client that feeds the cursor back -----------------------------------------------

  datatype Event = Line(text: string) | Poll

  /** One dev-server life seen by a client that starts at cursor 0 and passes `next` back as `since`;
      `got` lists the absolute positions of the lines it has received, in order. */
  datatype Client = Client(history: seq<string>, cursor: nat, got: seq<nat>, received: seq<string>)

  const NEW_CLIENT := Client([], 0, [], [])

  function Positions(from: nat, to: nat): (r: seq<nat>)
    requires from <= to
    ensures |r| == to - from && forall i | 0 <= i < |r| :: r[i] == from + i
  {
    seq(to - from, i requires 0 <= i < to - from => from + i)
  }

  /** The first position a poll is given: the cursor, or the oldest line still held. */
  function Oldest(c: Client): (from: nat)
    requires c.cursor <= |c.history|
    ensures c.cursor <= from <= |c.history|
    ensures from == c.cursor <==> |c.history| - c.cursor <= DEV_LOG_MAXLEN
    ensures Window(c.history, c.cursor) == c.history[from..]
  {
    Max(Max(0, |c.history| - DEV_LOG_MAXLEN), c.cursor)
  }

  function Advance(c: Client, e: Event): (r: Client)
    requires c.cursor <= |c.history|
    ensures r.cursor <= |r.history|
  {
    match e
    case Line(text) => c.(history := c.history + [text])
    case Poll =>
      c.(cursor := |c.history|,
         got := c.got + Positions(Oldest(c), |c.history|),
         received := c.received + Window(c.history, c.cursor))
  }

  function After(events: seq<Event>): (c: Client)
    ensures c.cursor <= |c.history|
  {
    if events == [] then NEW_CLIENT else Advance(After(events[..|events| - 1]), events[|events| - 1])
  }

  /** The lines printed, in order. */
  function Printed(events: seq<Event>): seq<string> {
    if events == [] then []
    else (match events[0] case Line(text) => [text] case Poll => []) + Printed(events[1..])
  }

  lemma {:induction false} PrintedSnoc(events: seq<Event>, e: Event)
    ensures Printed(events + [e]) == Printed(events) + match e case Line(text) => [text] case Poll => []
  {
    var all := events + [e];
    if events == [] {
      assert all == [e] && all[1..] == [] && Printed([]) == [];
    } else {
      assert all[0] == events[0] && all[1..] == events[1..] + [e];
      PrintedSnoc(events[1..], e);
    }
  }

  /** The history is what was printed, and a poll leaves the cursor at its end. */
  lemma {:induction false} HistoryIsPrinted(events: seq<Event>)
    ensures After(events).history == Printed(events)
    ensures events != [] && events[|events| - 1] == Poll ==> After(events).cursor == |Printed(events)|
  {
    if events != [] {
      hide Window, Oldest, Positions;
      var n := |events| - 1;
      HistoryIsPrinted(events[..n]);
      PrintedSnoc(events[..n], events[n]);
      assert events == events[..n] + [events[n]];
    }
  }

  ghost predicate InOrderOnce(got: seq<nat>) {
    forall i, j | 0 <= i < j < |got| :: got[i] < got[j]
  }

  ghost predicate Faithful(c: Client) {
    && c.cursor <= |c.history|
    && |c.got| == |c.received| && InOrderOnce(c.got)
    && (forall i | 0 <= i < |c.got| :: c.got[i] < c.cursor && c.received[i] == c.history[c.got[i]])
  }

  lemma PollFaithful(c: Client)
    requires Faithful(c)
    ensures Faithful(Advance(c, Poll))
  {
    hide Window;
    var r := Advance(c, Poll);
    forall i | 0 <= i < |r.got| ensures r.got[i] < r.cursor && r.received[i] == r.history[r.got[i]] {
      if i >= |c.got| {
        assert r.got[i] == Oldest(c) + (i - |c.got|);
      }
    }
  }

  /** In every run the client receives lines of the history, in order, each at most once. */
  lemma {:induction false} ReceivedInOrderOnce(events: seq<Event>)
    ensures Faithful(After(events))
  {
    if events != [] {
      var c := After(events[..|events| - 1]);
      ReceivedInOrderOnce(events[..|events| - 1]);
      if events[|events| - 1] == Poll {
        PollFaithful(c);
      }
    }
  }

  /** At every poll at most a ring's length of lines has arrived since the poll before. */
  predicate KeepsUp(events: seq<Event>) {
    events == [] ||
    (var init := events[..|events| - 1];
     && KeepsUp(init)
     && (events[|events| - 1] == Poll ==> |After(init).history| - After(init).cursor <= DEV_LOG_MAXLEN))
  }

  /** A client that never falls more than a ring's length behind has, after each poll, received exactly
      the history up to its cursor; one that ever does has missed lines for good. */
  lemma {:induction false} ReceivesAllIffKeepsUp(events: seq<Event>)
    ensures |After(events).received| <= After(events).cursor
    ensures KeepsUp(events) ==> After(events).received == After(events).history[..After(events).cursor]
    ensures !KeepsUp(events) ==> |After(events).received| < After(events).cursor
  {
    if events != [] {
      hide Window;
      var c := After(events[..|events| - 1]);
      ReceivesAllIffKeepsUp(events[..|events| - 1]);
      if events[|events| - 1] == Poll {
        assert c.history[..c.cursor] + c.history[c.cursor..] == c.history;
      }
    }
  }
}
