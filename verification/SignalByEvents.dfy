/** What a reader is told of the compile signal, said by the events of a run: the latest one that bears on
    the state decides, and only good news waits for a read. */
module SignalByEvents {
  import opened Sequences
  import opened CompileSignal

  /** The latest event bearing on the state before `n` came at step `i`. */
  ghost predicate Latest(acts: seq<Action>, i: nat, n: nat)
    requires n <= |acts|
  {
    i < n && StateBearing(acts[i]) && forall m | i < m < n :: !StateBearing(acts[m])
  }

  /** A frame that is known to carry no state came between the two steps. */
  ghost predicate HeardStateless(acts: seq<Action>, i: nat, n: nat)
    requires i <= n <= |acts|
  {
    exists m | i <= m < n :: acts[m].Receive? && SpeaksWithoutState(acts[m].msg)
  }

  /** The signal was read after step `i`, at least the debounce later. */
  ghost predicate ReadSettled(ws: seq<World>, acts: seq<Action>, i: nat, n: nat)
    requires |ws| == |acts| + 1 && i <= n <= |acts|
  {
    exists m | i < m < n :: acts[m] == Read && ws[m].now - ws[i].now >= COMPILE_DEBOUNCE_S
  }

  predicate Tells(s: Signal, state: State, errors: seq<string>, reason: Option<string>) {
    s.state == state && s.errors == errors && s.reason == reason
  }

  /** A stated reason sharpens once a frame without state has been read after the connect. */
  ghost function Sharpened(reason: Option<string>, acts: seq<Action>, i: nat, n: nat): Option<string>
    requires i <= n <= |acts|
  {
    if reason == Some(CONNECTED_NO_FRAME_YET) && HeardStateless(acts, i, n) then Some(AWAITING_COMPILE_STATE)
    else reason
  }

  /** What the signal says at `n`, when step `i` was the latest to bear on the state. */
  ghost predicate FollowsFrom(ws: seq<World>, acts: seq<Action>, i: nat, n: nat)
    requires |ws| == |acts| + 1 && i < n <= |acts|
  {
    var now, before := ws[n].signal, ws[i].signal;
    match acts[i]
    case Connect => Tells(now, Unknown, [], Sharpened(Some(CONNECTED_NO_FRAME_YET), acts, i, n))
    case Disconnect => Tells(now, Unknown, [], Some("disconnected"))
    case Timeout => Tells(now, Unknown, [], Some(NO_RECOGNISED_FRAME))
    case Drop(why) => Tells(now, Unknown, [], Some(why))
    case Receive(msg) =>
      if SpeaksOfBuilding(msg) then Tells(now, Building, [], None)
      else if msg.Object? && msg.errors != [] then Tells(now, Failed, CutErrors(msg.errors), None)
      else if ReadSettled(ws, acts, i, n) then Tells(now, Clean, [], None)
      else Tells(now, before.state, before.errors, Sharpened(before.reason, acts, i, n))
    case _ => false
  }

  /** Good news waits exactly while it has not settled. */
  ghost predicate WaitsRight(ws: seq<World>, acts: seq<Action>, i: nat, n: nat)
    requires |ws| == |acts| + 1 && i < n <= |acts|
  {
    var s := ws[n].signal;
    if CleanFrame(acts[i]) && !ReadSettled(ws, acts, i, n) then s.pending == Some([]) && s.pendingAt == ws[i].now
    else s.pending.None?
  }

  lemma BearingFollows(ws: seq<World>, acts: seq<Action>, i: nat)
    requires IsRun(ws, acts) && i < |acts| && StateBearing(acts[i])
    ensures FollowsFrom(ws, acts, i, i + 1) && WaitsRight(ws, acts, i, i + 1)
  {
    if acts[i].Receive? {
      DerivedByVerb(acts[i].msg);
      hide SpeaksOfBuilding, SpeaksOfCompletion, SpeaksWithoutState, DeriveCompile;
      assert !HeardStateless(acts, i, i + 1);
    }
    hide SpeaksOfBuilding, SpeaksOfCompletion, SpeaksWithoutState, DeriveCompile;
    assert !ReadSettled(ws, acts, i, i + 1);
    assert acts[i].Connect? ==> !HeardStateless(acts, i, i + 1);
  }

  lemma HeardStep(acts: seq<Action>, i: nat, n: nat)
    requires i <= n < |acts|
    ensures HeardStateless(acts, i, n + 1) <==>
              HeardStateless(acts, i, n) || (acts[n].Receive? && SpeaksWithoutState(acts[n].msg))
  {
    hide SpeaksWithoutState;
  }

  lemma SettledStep(ws: seq<World>, acts: seq<Action>, i: nat, n: nat)
    requires |ws| == |acts| + 1 && i < n < |acts|
    ensures ReadSettled(ws, acts, i, n + 1) <==>
              ReadSettled(ws, acts, i, n) || (acts[n] == Read && ws[n].now - ws[i].now >= COMPILE_DEBOUNCE_S)
  {
  }

  /** What a step that does not bear on the state does: a read settles good news that has waited long enough,
      and a frame without state sharpens the reason. */
  lemma QuietSteps(w: World, a: Action)
    requires !StateBearing(a)
    ensures
      var s, s' := w.signal, Step(w, a).signal;
      if a == Read && s.pending.Some? && w.now - s.pendingAt >= COMPILE_DEBOUNCE_S then
        s'.pending.None? && Tells(s', Clean, s.pending.value, None)
      else
        && s'.pending == s.pending && s'.pendingAt == s.pendingAt
        && Tells(s', s.state, s.errors,
                 if a.Receive? && SpeaksWithoutState(a.msg) && s.state == Unknown
                    && s.reason == Some(CONNECTED_NO_FRAME_YET)
                 then Some(AWAITING_COMPILE_STATE) else s.reason)
  {
    if a.Receive? {
      DerivedByVerb(a.msg);
    }
  }

  lemma QuietFollows(ws: seq<World>, acts: seq<Action>, i: nat, n: nat)
    requires IsRun(ws, acts) && i < n < |acts| && StateBearing(acts[i]) && !StateBearing(acts[n])
    requires WellFormed(ws[n].signal) && WellFormed(ws[i].signal)
    requires FollowsFrom(ws, acts, i, n) && WaitsRight(ws, acts, i, n)
    ensures FollowsFrom(ws, acts, i, n + 1) && WaitsRight(ws, acts, i, n + 1)
  {
    QuietSteps(ws[n], acts[n]);
    HeardStep(acts, i, n);
    SettledStep(ws, acts, i, n);
    hide Step, HeardStateless, ReadSettled, SpeaksOfBuilding, SpeaksOfCompletion, SpeaksWithoutState, DeriveCompile, CutErrors;
  }

  lemma {:induction false} LatestDecides(ws: seq<World>, acts: seq<Action>, i: nat, n: nat)
    requires IsRun(ws, acts) && n <= |acts| && Latest(acts, i, n)
    ensures FollowsFrom(ws, acts, i, n) && WaitsRight(ws, acts, i, n)
    decreases n
  {
    hide Step, Enabled, StateBearing, FollowsFrom, WaitsRight;
    if n == i + 1 {
      BearingFollows(ws, acts, i);
    } else {
      LatestDecides(ws, acts, i, n - 1);
      AlwaysWellFormed(ws, acts, n - 1);
      AlwaysWellFormed(ws, acts, i);
      QuietFollows(ws, acts, i, n - 1);
    }
  }

  /** Before anything bears on the state, the signal says that nothing was ever connected. */
  lemma {:induction false} SilentAtFirst(ws: seq<World>, acts: seq<Action>, n: nat)
    requires IsRun(ws, acts) && n <= |acts| && forall m | 0 <= m < n :: !StateBearing(acts[m])
    ensures Tells(ws[n].signal, Unknown, [], Some(NEVER_CONNECTED)) && ws[n].signal.pending.None?
    decreases n
  {
    if n > 0 {
      SilentAtFirst(ws, acts, n - 1);
      QuietSteps(ws[n - 1], acts[n - 1]);
      hide Step, StateBearing, SpeaksWithoutState;
    }
  }

  function Connects(acts: seq<Action>, n: nat): nat
    requires n <= |acts|
  {
    if n == 0 then 0 else Connects(acts, n - 1) + if acts[n - 1].Connect? then 1 else 0
  }

  /** The generation told is the number of connects so far. */
  lemma {:induction false} GenerationCountsConnects(ws: seq<World>, acts: seq<Action>, n: nat)
    requires IsRun(ws, acts) && n <= |acts|
    ensures ws[n].signal.generation == Connects(acts, n)
    decreases n
  {
    if n > 0 {
      GenerationCountsConnects(ws, acts, n - 1);
    }
  }
}
