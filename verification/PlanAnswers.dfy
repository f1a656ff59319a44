/** The answers to plan cards in a stored payload: the tool returns of the plan-options tool, found by a walk
    over the parts of its messages. */
module PlanAnswers {
  import opened Sequences
  import opened JsonValues

  const PLAN_OPTIONS_TOOL := "present_plan_options"

  /** The content is kept as stored. Of `str` of it only one thing is ever asked, whether it starts with
      `build_failed`, and only that of a text can. */
  datatype Answer = Answer(callId: string, content: Json)

  /** The latest answer to each call. */
  type Resolved = map<string, Json>

  predicate IsReturn(part: Json) {
    && Get(part, "part_kind") == Some(Str("tool-return"))
    && Get(part, "tool_name") == Some(Str(PLAN_OPTIONS_TOOL))
    && var id := Get(part, "tool_call_id"); id.Some? && id.value.Str?
  }

  function ReturnOf(part: Json): Answer
    requires IsReturn(part)
  {
    var content := Get(part, "content");
    Answer(Get(part, "tool_call_id").value.text, if content.Some? then content.value else Str(""))
  }

  function Returns(parts: seq<Json>): seq<Answer> {
    if parts == [] then []
    else
      var n := |parts| - 1;
      Returns(parts[..n]) + if IsReturn(parts[n]) then [ReturnOf(parts[n])] else []
  }

  function Told(messages: seq<Json>): seq<Answer> {
    if messages == [] then []
    else Told(messages[..|messages| - 1]) + Returns(Parts(messages[|messages| - 1]))
  }

  /** The answers in a payload, in order. */
  function Answers(payload: Json): seq<Answer> {
    if payload.Arr? then Told(payload.items) else []
  }

  /** The walk over a payload ends without raising. */
  predicate Walkable(payload: Json) {
    payload.Arr? ==> forall m | 0 <= m < |payload.items| :: Iterable(payload.items[m])
  }

  function AfterAnswers(known: Resolved, answers: seq<Answer>): Resolved {
    if answers == [] then known
    else
      var last := answers[|answers| - 1];
      AfterAnswers(known, answers[..|answers| - 1])[last.callId := last.content]
  }

  lemma AfterOneMore(known: Resolved, answers: seq<Answer>, a: Answer)
    ensures AfterAnswers(known, answers + [a]) == AfterAnswers(known, answers)[a.callId := a.content]
  {
    assert (answers + [a])[..|answers|] == answers;
  }

  lemma NothingTold()
    ensures Told([]) == [] && Returns([]) == []
  {
  }

  lemma ToldSnoc(messages: seq<Json>, m: nat)
    requires m < |messages|
    ensures Told(messages[..m + 1]) == Told(messages[..m]) + Returns(Parts(messages[m]))
  {
    assert messages[..m + 1][..m] == messages[..m];
  }

  lemma ReturnsSnoc(parts: seq<Json>, p: nat)
    requires p < |parts|
    ensures Returns(parts[..p + 1]) == Returns(parts[..p]) + if IsReturn(parts[p]) then [ReturnOf(parts[p])] else []
  {
    assert parts[..p + 1][..p] == parts[..p];
  }

  /** The walk over one payload: nothing when it raises. */
  method Answered(known: Resolved, payload: Json) returns (r: Option<Resolved>)
    ensures r == if Walkable(payload) then Some(AfterAnswers(known, Answers(payload))) else None
  {
    hide AfterAnswers, IsReturn, ReturnOf, Iterable, Parts, Returns, Told;
    NothingTold();
    var messages := if payload.Arr? then payload.items else [];
    var latest := known;
    assert latest == AfterAnswers(known, []) by {
      NoAnswers(known);
    }
    for m := 0 to |messages|
      invariant latest == AfterAnswers(known, Told(messages[..m]))
      invariant forall i | 0 <= i < m :: Iterable(messages[i])
    {
      ToldSnoc(messages, m);
      if messages[m].Obj? {
        if !Iterable(messages[m]) {
          return None;
        }
        latest := AnsweredIn(known, Told(messages[..m]), latest, Parts(messages[m]));
      } else {
        NoParts(messages[m]);
      }
    }
    assert messages[..|messages|] == messages;
    r := Some(latest);
  }

  /** The walk over one message's parts. */
  method AnsweredIn(ghost known: Resolved, ghost before: seq<Answer>, latest: Resolved, parts: seq<Json>)
    returns (r: Resolved)
    requires latest == AfterAnswers(known, before)
    ensures r == AfterAnswers(known, before + Returns(parts))
  {
    hide AfterAnswers, IsReturn, ReturnOf, Returns;
    NothingTold();
    r := latest;
    assert before + [] == before;
    for p := 0 to |parts|
      invariant r == AfterAnswers(known, before + Returns(parts[..p]))
    {
      ReturnsSnoc(parts, p);
      ghost var upTo := before + Returns(parts[..p]);
      if IsReturn(parts[p]) {
        var a := ReturnOf(parts[p]);
        AfterOneMore(known, upTo, a);
        assert before + Returns(parts[..p + 1]) == upTo + [a];
        r := r[a.callId := a.content];
      } else {
        assert before + Returns(parts[..p + 1]) == upTo;
      }
    }
    assert parts[..|parts|] == parts;
  }

  lemma NoAnswers(known: Resolved)
    ensures AfterAnswers(known, []) == known
  {
  }

  lemma NoParts(message: Json)
    requires !message.Obj?
    ensures Iterable(message) && Parts(message) == [] && forall a: seq<Answer> :: a + Returns(Parts(message)) == a
  {
  }

  // ----- what the walk finds ---------------------------------------------------------------

  lemma {:induction false} ReturnsMeaning(parts: seq<Json>, a: Answer)
    ensures a in Returns(parts) <==> exists p :: 0 <= p < |parts| && IsReturn(parts[p]) && ReturnOf(parts[p]) == a
  {
    hide IsReturn, ReturnOf;
    if parts != [] {
      var n := |parts| - 1;
      ReturnsMeaning(parts[..n], a);
      assert forall p | 0 <= p < n :: parts[..n][p] == parts[p];
    }
  }

  lemma {:induction false} ToldMeaning(messages: seq<Json>, a: Answer)
    ensures a in Told(messages) <==> exists m :: 0 <= m < |messages| && a in Returns(Parts(messages[m]))
  {
    hide Returns, Parts;
    if messages != [] {
      var n := |messages| - 1;
      ToldMeaning(messages[..n], a);
      assert forall m | 0 <= m < n :: messages[..n][m] == messages[m];
    }
  }

  /** The part is a return of the plan-options tool to the call of `a`, with its content or an empty one. */
  ghost predicate Gives(part: Json, a: Answer) {
    && TextAt(part, "part_kind", "tool-return") && TextAt(part, "tool_name", "present_plan_options")
    && TextAt(part, "tool_call_id", a.callId)
    && a.content == if "content" in part.fields then part.fields["content"] else Str("")
  }

  lemma GivesIff(part: Json, a: Answer)
    ensures IsReturn(part) && ReturnOf(part) == a <==> Gives(part, a)
  {
  }

  /** An answer is found exactly when some part of some message is a return of the tool and gives it. */
  lemma AnswersMeaning(payload: Json, a: Answer)
    ensures a in Answers(payload) <==>
            payload.Arr? && exists m, p ::
              && 0 <= m < |payload.items| && 0 <= p < |Parts(payload.items[m])|
              && Gives(Parts(payload.items[m])[p], a)
  {
    forall part ensures IsReturn(part) && ReturnOf(part) == a <==> Gives(part, a) {
      GivesIff(part, a);
    }
    hide IsReturn, ReturnOf, Told, Returns, Parts, Gives;
    if payload.Arr? {
      ToldMeaning(payload.items, a);
      forall m | 0 <= m < |payload.items|
        ensures a in Returns(Parts(payload.items[m])) <==>
                exists p :: 0 <= p < |Parts(payload.items[m])| && IsReturn(Parts(payload.items[m])[p])
                  && ReturnOf(Parts(payload.items[m])[p]) == a
      {
        ReturnsMeaning(Parts(payload.items[m]), a);
      }
    }
  }

  /** The last answer to a call is the one that stands. */
  lemma {:induction false} LastAnswerStands(known: Resolved, answers: seq<Answer>, i: nat)
    requires i < |answers| && forall j | i < j < |answers| :: answers[j].callId != answers[i].callId
    ensures answers[i].callId in AfterAnswers(known, answers)
    ensures AfterAnswers(known, answers)[answers[i].callId] == answers[i].content
  {
    if i < |answers| - 1 {
      LastAnswerStands(known, answers[..|answers| - 1], i);
    }
  }

  /** A call without an answer keeps what was known of it. */
  lemma {:induction false} UnansweredKeeps(known: Resolved, answers: seq<Answer>, call: string)
    requires forall i | 0 <= i < |answers| :: answers[i].callId != call
    ensures call in AfterAnswers(known, answers) <==> call in known
    ensures call in known ==> AfterAnswers(known, answers)[call] == known[call]
  {
    if answers != [] {
      UnansweredKeeps(known, answers[..|answers| - 1], call);
    }
  }

  /** What the query hands over of a payload: all of it when its text matches the probe, else nothing. */
  function Fetched(payload: Json, probed: bool): Json {
    if probed then payload else Null
  }

  /** A probe that takes every payload with the tool's name in it loses no answer. */
  lemma ProbeLosesNoAnswer(payload: Json, probed: bool)
    requires Holds(payload, PLAN_OPTIONS_TOOL) ==> probed
    ensures Answers(Fetched(payload, probed)) == Answers(payload)
  {
    hide Told, Returns;
    if Answers(payload) != [] {
      var a := Answers(payload)[0];
      AnswersMeaning(payload, a);
      var m, p :| && 0 <= m < |payload.items| && 0 <= p < |Parts(payload.items[m])|
                  && Gives(Parts(payload.items[m])[p], a);
      var message := payload.items[m];
      assert Holds(Parts(message)[p], PLAN_OPTIONS_TOOL) by {
        assert Holds(Parts(message)[p].fields["tool_name"], PLAN_OPTIONS_TOOL);
      }
      assert Holds(message.fields["parts"], PLAN_OPTIONS_TOOL);
      assert Holds(message, PLAN_OPTIONS_TOOL);
    }
  }

  /** The walk raises at a message whose parts are null, a truth value or a number, wherever it stands. */
  lemma UnwalkableIff(payload: Json)
    ensures !Walkable(payload) <==> payload.Arr? && exists i :: 0 <= i < |payload.items| && BadParts(payload.items[i])
  {
  }
}
