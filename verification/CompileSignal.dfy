/** The compile signal of the sandbox supervisor: what the dev server's update socket says, derived frame
    by frame, with a read-side debounce on good news and an alarm for a vocabulary that moved.

    The socket consumer, the readers and the threads that drop the signal interleave freely; each step
    is one locked region, and time is any non-decreasing number. Properties are stated by the order of
    events: after a restart the consumer may still be reading the old server's socket. */
module CompileSignal {
  import opened Sequences

  const HMR_CANARY_S := 5.0
  const COMPILE_DEBOUNCE_S := 0.4
  const COMPILE_MAX_ERRORS := 5
  const COMPILE_MAX_ERROR_CHARS := 4000

  const NEVER_CONNECTED := "never_connected"
  const CONNECTED_NO_FRAME_YET := "connected_no_frame_yet"
  const AWAITING_COMPILE_STATE := "awaiting_compile_state"
  const NO_RECOGNISED_FRAME := "no_recognised_frame"

  const STATELESS_VERBS: set<string> := {
    "turbopack-connected", "isrManifest", "turbopack-message", "addedPage", "removedPage", "reloadPage",
    "serverComponentChanges", "staticParamsChanged", "middlewareChanges", "clientChanges",
    "serverOnlyChanges", "devPagesManifestUpdate", "cacheIndicator", "devIndicator", "devtoolsConfig",
    "requestCurrentErrorState", "requestPageMetadata", "requestInsightsUpdate", "serverError",
    "appIsrManifest"}

  // ----- one frame -------------------------------------------------------------------------

  /** A received text: not JSON at all, JSON that is not an object, or an object with the string
      values of `action` and `type` where they are strings, and the texts of `errors` when it is a
      list (already redacted and stripped of colour, not yet cut). */
  datatype Message =
    | NotJson
    | NotObject
    | Object(action: Option<string>, kind: Option<string>, errors: seq<string>)

  datatype State = Building | Clean | Failed | Unknown

  /** The three answers: a state with its errors, a verb known to carry none, or unreadable. */
  datatype Derived = Says(state: State, errors: seq<string>) | KnownNoState | Unreadable

  function Cut(s: string): string {
    if |s| <= COMPILE_MAX_ERROR_CHARS then s else s[..COMPILE_MAX_ERROR_CHARS]
  }

  /** The first errors, as many as fit, each as long as fits. */
  function CutErrors(errors: seq<string>): (r: seq<string>)
    ensures |r| <= |errors| && |r| <= COMPILE_MAX_ERRORS && (|r| < |errors| ==> |r| == COMPILE_MAX_ERRORS)
    ensures forall i | 0 <= i < |r| ::
              r[i] <= errors[i] && |r[i]| <= COMPILE_MAX_ERROR_CHARS
              && (r[i] != errors[i] ==> |r[i]| == COMPILE_MAX_ERROR_CHARS)
  {
    var n := if |errors| <= COMPILE_MAX_ERRORS then |errors| else COMPILE_MAX_ERRORS;
    seq(n, i requires 0 <= i < n => Cut(errors[i]))
  }

  function DeriveVerb(verb: string, errors: seq<string>): Derived {
    if verb == "building" then Says(Building, [])
    else if verb == "built" || verb == "sync" then
      if errors != [] then Says(Failed, CutErrors(errors)) else Says(Clean, [])
    else if verb in STATELESS_VERBS then KnownNoState
    else Unreadable
  }

  /** The verb is `action`, or `type` when that is not a string. */
  function DeriveCompile(msg: Message): Derived {
    match msg
    case NotJson => Unreadable
    case NotObject => Unreadable
    case Object(action, kind, errors) =>
      if action.Some? then DeriveVerb(action.value, errors)
      else if kind.Some? then DeriveVerb(kind.value, errors)
      else Unreadable
  }

  // ----- frames by their verbs -------------------------------------------------------------

  /** The frame's verb is `verb`: its action, or its type when it has no action. */
  predicate Speaks(msg: Message, verb: string) {
    msg.Object? && (msg.action == Some(verb) || (msg.action == None && msg.kind == Some(verb)))
  }

  predicate SpeaksOfBuilding(msg: Message) {
    Speaks(msg, "building")
  }

  predicate SpeaksOfCompletion(msg: Message) {
    Speaks(msg, "built") || Speaks(msg, "sync")
  }

  predicate SpeaksWithoutState(msg: Message) {
    exists verb | verb in STATELESS_VERBS :: Speaks(msg, verb)
  }

  /** What is read from a frame, by its verb alone, and from the errors of a completed compilation. */
  lemma DerivedByVerb(msg: Message)
    ensures SpeaksOfBuilding(msg) ==> DeriveCompile(msg) == Says(Building, [])
    ensures SpeaksOfCompletion(msg) ==>
              DeriveCompile(msg) == if msg.errors == [] then Says(Clean, []) else Says(Failed, CutErrors(msg.errors))
    ensures SpeaksWithoutState(msg) ==> DeriveCompile(msg) == KnownNoState
    ensures !SpeaksOfBuilding(msg) && !SpeaksOfCompletion(msg) && !SpeaksWithoutState(msg) ==>
              DeriveCompile(msg) == Unreadable
    ensures (SpeaksOfBuilding(msg) ==> !SpeaksOfCompletion(msg) && !SpeaksWithoutState(msg))
            && (SpeaksOfCompletion(msg) ==> !SpeaksWithoutState(msg))
  {
    if msg.Object? && (msg.action.Some? || msg.kind.Some?) {
      var verb := if msg.action.Some? then msg.action.value else msg.kind.value;
      assert Speaks(msg, verb) && forall v | Speaks(msg, v) :: v == verb;
    }
  }

  // ----- the published state ---------------------------------------------------------------

  datatype Signal = Signal(
    state: State, errors: seq<string>, reason: Option<string>, generation: nat,
    pending: Option<seq<string>>, pendingAt: real)

  const SILENT := Signal(Unknown, [], Some(NEVER_CONNECTED), 0, None, 0.0)

  function PublishLocked(s: Signal, state: State, errors: seq<string>, reason: Option<string>): Signal {
    s.(state := state, errors := errors, reason := reason, pending := None)
  }

  /** Only good news waits. */
  function NoteFrame(s: Signal, state: State, errors: seq<string>, now: real): Signal {
    if state == Clean then s.(pending := Some(errors), pendingAt := now)
    else PublishLocked(s, state, errors, None)
  }

  function NoteStateless(s: Signal): Signal {
    if s.state == Unknown && s.reason == Some(CONNECTED_NO_FRAME_YET) then
      s.(reason := Some(AWAITING_COMPILE_STATE))
    else s
  }

  function Settle(s: Signal, now: real): Signal {
    if s.pending.Some? && now - s.pendingAt >= COMPILE_DEBOUNCE_S then
      PublishLocked(s, Clean, s.pending.value, None)
    else s
  }

  function ForgetCompile(s: Signal, reason: string): Signal {
    PublishLocked(s, Unknown, [], Some(reason))
  }

  function Connected(s: Signal): Signal {
    PublishLocked(s.(generation := s.generation + 1), Unknown, [], Some(CONNECTED_NO_FRAME_YET))
  }

  /** The class the regions update. */
  class Compile {
    var state: State
    var errors: seq<string>
    var reason: Option<string>
    var generation: nat
    var pending: Option<seq<string>>
    var pendingAt: real

    function View(): Signal
      reads this
    {
      Signal(state, errors, reason, generation, pending, pendingAt)
    }

    constructor ()
      ensures View() == SILENT
    {
      state, errors, reason := Unknown, [], Some(NEVER_CONNECTED);
      generation, pending, pendingAt := 0, None, 0.0;
    }

    method Publish(s: State, e: seq<string>, r: Option<string>)
      modifies this
      ensures View() == PublishLocked(old(View()), s, e, r)
    {
      state, errors, reason, pending := s, e, r, None;
    }

    method Note(s: State, e: seq<string>, now: real)
      modifies this
      ensures View() == NoteFrame(old(View()), s, e, now)
    {
      if s == Clean {
        pending := Some(e);
        pendingAt := now;
        return;
      }
      Publish(s, e, None);
    }

    method NoteStatelessFrame()
      modifies this
      ensures View() == NoteStateless(old(View()))
    {
      if state == Unknown && reason == Some(CONNECTED_NO_FRAME_YET) {
        reason := Some(AWAITING_COMPILE_STATE);
      }
    }

    method Read(now: real) returns (s: State, e: seq<string>, r: Option<string>, g: nat)
      modifies this
      ensures View() == Settle(old(View()), now)
      ensures s == View().state && e == View().errors && r == View().reason && g == View().generation
    {
      if pending.Some? && now - pendingAt >= COMPILE_DEBOUNCE_S {
        Publish(Clean, pending.value, None);
      }
      s, e, r, g := state, errors, reason, generation;
    }

    method Forget(why: string)
      modifies this
      ensures View() == ForgetCompile(old(View()), why)
    {
      Publish(Unknown, [], Some(why));
    }

    method Connect()
      modifies this
      ensures View() == Connected(old(View()))
    {
      generation := generation + 1;
      Publish(Unknown, [], Some(CONNECTED_NO_FRAME_YET));
    }
  }

  // ----- the consumer ----------------------------------------------------------------------

  /** The whole picture: the signal, whether a socket is open, and since when the consumer has been
      owed a frame it understands. */
  datatype World = World(now: real, signal: Signal, open: bool, owedSince: Option<real>)

  const BOOT := World(0.0, SILENT, false, None)

  /** `Drop` is any other path that loses the signal: a restart of the dev server, a tampered base
      path, a missing library. */
  datatype Action =
    | Tick(elapsed: real)
    | Connect
    | Receive(msg: Message)
    | Timeout
    | Disconnect
    | Drop(why: string)
    | Read

  predicate Enabled(w: World, a: Action) {
    match a
    case Tick(elapsed) => elapsed >= 0.0
    case Connect => !w.open
    case Receive(_) => w.open
    case Timeout => w.open && w.owedSince.Some? && w.now >= w.owedSince.value + HMR_CANARY_S
    case Disconnect => true
    case Drop(why) => why != NO_RECOGNISED_FRAME && why != CONNECTED_NO_FRAME_YET && why != AWAITING_COMPILE_STATE
    case Read => true
  }

  /** One turn of the receive loop. A text that is not JSON changes nothing; any other frame that
      cannot be read starts a debt unless one runs already; a frame that can be read settles it. */
  function OnMessage(w: World, msg: Message): World {
    if msg.NotJson? then w
    else
      match DeriveCompile(msg)
      case Unreadable => if w.owedSince.None? then w.(owedSince := Some(w.now)) else w
      case KnownNoState => w.(owedSince := None, signal := NoteStateless(w.signal))
      case Says(state, errors) => w.(owedSince := None, signal := NoteFrame(w.signal, state, errors, w.now))
  }

  function Step(w: World, a: Action): World {
    match a
    case Tick(elapsed) => w.(now := w.now + elapsed)
    case Connect => w.(open := true, signal := Connected(w.signal), owedSince := Some(w.now))
    case Receive(msg) => OnMessage(w, msg)
    case Timeout => w.(owedSince := None, signal := ForgetCompile(w.signal, NO_RECOGNISED_FRAME))
    case Disconnect => w.(open := false, owedSince := None, signal := ForgetCompile(w.signal, "disconnected"))
    case Drop(why) => w.(signal := ForgetCompile(w.signal, why))
    case Read => w.(signal := Settle(w.signal, w.now))
  }

  /** The loop body of the consumer on the shared object and its own debt. */
  class Consumer {
    const compile: Compile
    var owedSince: Option<real>

    constructor (compile: Compile)
      ensures this.compile == compile && owedSince == None
    {
      this.compile, owedSince := compile, None;
    }

    method OnConnect(now: real)
      modifies this, compile
      ensures World(now, compile.View(), true, owedSince) == Step(World(now, old(compile.View()), false, None), Action.Connect)
    {
      compile.Connect();
      owedSince := Some(now);
    }

    method OnFrame(now: real, msg: Message)
      modifies this, compile
      ensures World(now, compile.View(), true, owedSince) ==
              Step(World(now, old(compile.View()), true, old(owedSince)), Receive(msg))
    {
      if msg.NotJson? {
        return;
      }
      var derived := DeriveCompile(msg);
      if derived.Unreadable? {
        if owedSince.None? {
          owedSince := Some(now);
        }
        return;
      }
      owedSince := None;
      if derived.KnownNoState? {
        compile.NoteStatelessFrame();
        return;
      }
      compile.Note(derived.state, derived.errors, now);
    }

    method OnTimeout(now: real)
      modifies this, compile
      ensures World(now, compile.View(), true, owedSince) ==
              Step(World(now, old(compile.View()), true, old(owedSince)), Timeout)
    {
      owedSince := None;
      compile.Forget(NO_RECOGNISED_FRAME);
    }
  }

  ghost predicate IsRun(ws: seq<World>, acts: seq<Action>) {
    && |ws| == |acts| + 1 && ws[0] == BOOT
    && forall i | 0 <= i < |acts| :: Enabled(ws[i], acts[i]) && ws[i + 1] == Step(ws[i], acts[i])
  }

  // ----- well-formed in every state --------------------------------------------------------

  /** `unknown` exactly when a reason is stated, `failed` exactly when errors are. */
  predicate WellFormed(s: Signal) {
    && (s.state == Unknown <==> s.reason.Some?)
    && (s.state == Failed <==> s.errors != [])
    && (s.pending.Some? ==> s.pending.value == [])
  }

  lemma StepKeepsForm(w: World, a: Action)
    requires WellFormed(w.signal)
    ensures WellFormed(Step(w, a).signal)
  {
    if a.Receive? {
      DerivedByVerb(a.msg);
    }
  }

  /** Throughout every run. */
  lemma {:induction false} AlwaysWellFormed(ws: seq<World>, acts: seq<Action>, n: nat)
    requires IsRun(ws, acts) && n <= |acts|
    ensures WellFormed(ws[n].signal)
    decreases n
  {
    if n > 0 {
      AlwaysWellFormed(ws, acts, n - 1);
      StepKeepsForm(ws[n - 1], acts[n - 1]);
    }
  }

  // ----- the signal never fails open -------------------------------------------------------

  predicate CleanFrame(a: Action) {
    a.Receive? && SpeaksOfCompletion(a.msg) && a.msg.errors == []
  }

  /** The events that bear on the state: frames that say one, and everything that drops the signal. */
  predicate StateBearing(a: Action) {
    || a.Connect? || a.Disconnect? || a.Timeout? || a.Drop?
    || (a.Receive? && (SpeaksOfBuilding(a.msg) || SpeaksOfCompletion(a.msg)))
  }

  /** The latest state-bearing event before `n` was the clean frame at `i`. */
  ghost predicate LatestIsClean(acts: seq<Action>, n: nat, i: nat)
    requires n <= |acts|
  {
    i < n && CleanFrame(acts[i]) && forall m | i < m < n :: !StateBearing(acts[m])
  }

  lemma QuietStep(w: World, a: Action)
    requires !StateBearing(a)
    ensures Step(w, a).signal.pendingAt == w.signal.pendingAt
    ensures Step(w, a).signal.state == Clean || Step(w, a).signal.pending.Some? ==>
              w.signal.state == Clean || w.signal.pending.Some?
    ensures Step(w, a).signal.pending.Some? ==> w.signal.pending.Some?
  {
  }

  lemma BearingStep(w: World, a: Action)
    requires StateBearing(a) && !CleanFrame(a)
    ensures Step(w, a).signal.state != Clean && Step(w, a).signal.pending.None?
  {
    if a.Receive? {
      DerivedByVerb(a.msg);
    }
  }

  lemma {:induction false} CleanComesFromFrame(ws: seq<World>, acts: seq<Action>, n: nat) returns (i: nat)
    requires IsRun(ws, acts) && n <= |acts|
    requires ws[n].signal.state == Clean || ws[n].signal.pending.Some?
    ensures LatestIsClean(acts, n, i)
    ensures ws[n].signal.pending.Some? ==> ws[n].signal.pendingAt == ws[i].now
    decreases n
  {
    var w, a := ws[n - 1], acts[n - 1];
    assert CleanFrame(a) || !StateBearing(a) by {
      if StateBearing(a) && !CleanFrame(a) {
        BearingStep(w, a);
      }
    }
    if CleanFrame(a) {
      i := n - 1;
    } else {
      QuietStep(w, a);
      i := CleanComesFromFrame(ws, acts, n - 1);
    }
  }

  /** Whenever the signal reads `clean`, the latest event that bears on the state was a clean frame. */
  lemma NeverFailsOpen(ws: seq<World>, acts: seq<Action>, n: nat)
    requires IsRun(ws, acts) && n <= |acts| && ws[n].signal.state == Clean
    ensures exists i: nat :: LatestIsClean(acts, n, i)
  {
    var i := CleanComesFromFrame(ws, acts, n);
  }

  /** The signal becomes `clean` only when it is read, and only once the latest clean frame is at least
      the debounce old with nothing bearing on the state since. */
  lemma CleanOnlyOnSettledRead(ws: seq<World>, acts: seq<Action>, n: nat)
    requires IsRun(ws, acts) && n < |acts|
    requires ws[n].signal.state != Clean && ws[n + 1].signal.state == Clean
    ensures acts[n] == Read
    ensures exists i: nat :: LatestIsClean(acts, n, i) && ws[n].now - ws[i].now >= COMPILE_DEBOUNCE_S
  {
    OnlyReadCleans(ws[n], acts[n]);
    var i := CleanComesFromFrame(ws, acts, n);
  }

  lemma OnlyReadCleans(w: World, a: Action)
    ensures a != Read && w.signal.state != Clean ==> Step(w, a).signal.state != Clean
  {
    if a.Receive? {
      DerivedByVerb(a.msg);
    }
  }

  // ----- the drift alarm -------------------------------------------------------------------

  predicate RecognisedFrame(a: Action) {
    a.Receive? && (SpeaksOfBuilding(a.msg) || SpeaksOfCompletion(a.msg) || SpeaksWithoutState(a.msg))
  }

  /** JSON, with no verb that is known. */
  predicate UnreadableFrame(a: Action) {
    a.Receive? && !a.msg.NotJson? && !RecognisedFrame(a)
  }

  predicate SettlesDebt(a: Action) {
    RecognisedFrame(a) || a.Timeout? || a.Disconnect? || a.Connect?
  }

  /** In the connection open at `i`, nothing unreadable arrived since the last recognised frame or alarm. */
  ghost predicate SettledBefore(acts: seq<Action>, i: nat)
    requires i <= |acts|
  {
    exists j: nat :: j < i && SettledFrom(acts, j, i)
  }

  ghost predicate SettledFrom(acts: seq<Action>, j: nat, i: nat)
    requires j < i <= |acts|
  {
    && (RecognisedFrame(acts[j]) || acts[j].Timeout?)
    && forall m | j < m < i :: !UnreadableFrame(acts[m]) && !acts[m].Connect? && !acts[m].Disconnect?
  }

  /** The consumer has been owed a frame since step `i`: since the connect, or since the first unreadable
      frame after the last recognised one. Later unreadable frames do not move it. */
  ghost predicate DebtFrom(acts: seq<Action>, n: nat, i: nat)
    requires n <= |acts|
  {
    && i < n
    && (acts[i].Connect? || (UnreadableFrame(acts[i]) && SettledBefore(acts, i)))
    && forall m | i < m < n :: !SettlesDebt(acts[m])
  }

  lemma {:induction false} NoDebtSince(ws: seq<World>, acts: seq<Action>, n: nat) returns (j: nat)
    requires IsRun(ws, acts) && n <= |acts| && ws[n].open && ws[n].owedSince.None?
    ensures j < n && SettledFrom(acts, j, n)
    decreases n
  {
    if RecognisedFrame(acts[n - 1]) || acts[n - 1].Timeout? {
      j := n - 1;
    } else {
      j := NoDebtSince(ws, acts, n - 1);
    }
  }

  lemma {:induction false} DebtSince(ws: seq<World>, acts: seq<Action>, n: nat) returns (i: nat)
    requires IsRun(ws, acts) && n <= |acts| && ws[n].owedSince.Some?
    ensures DebtFrom(acts, n, i) && ws[n].owedSince == Some(ws[i].now)
    decreases n
  {
    var w, a := ws[n - 1], acts[n - 1];
    if a.Connect? {
      i := n - 1;
    } else if UnreadableFrame(a) && w.owedSince.None? {
      i := n - 1;
      var j := NoDebtSince(ws, acts, i);
    } else {
      i := DebtSince(ws, acts, n - 1);
    }
  }

  lemma {:induction false} SettledHasNoDebt(ws: seq<World>, acts: seq<Action>, j: nat, n: nat)
    requires IsRun(ws, acts) && j < n <= |acts| && SettledFrom(acts, j, n)
    ensures ws[n].owedSince.None?
    decreases n
  {
    if n > j + 1 {
      SettledHasNoDebt(ws, acts, j, n - 1);
    }
  }

  lemma {:induction false} DebtIsRemembered(ws: seq<World>, acts: seq<Action>, n: nat, i: nat)
    requires IsRun(ws, acts) && n <= |acts| && DebtFrom(acts, n, i)
    ensures ws[n].open && ws[n].owedSince == Some(ws[i].now)
    decreases n
  {
    if n == i + 1 {
      if !acts[i].Connect? {
        var j: nat :| j < i && SettledFrom(acts, j, i);
        SettledHasNoDebt(ws, acts, j, i);
      }
    } else {
      DebtIsRemembered(ws, acts, n - 1, i);
    }
  }

  /** The alarm is due exactly when the consumer has been owed a frame it understands for the canary's
      whole length, counted from the connect or from the first unreadable frame. */
  lemma AlarmDueIff(ws: seq<World>, acts: seq<Action>, n: nat)
    requires IsRun(ws, acts) && n <= |acts|
    ensures Enabled(ws[n], Timeout) <==>
              exists i: nat :: DebtFrom(acts, n, i) && ws[n].now - ws[i].now >= HMR_CANARY_S
  {
    if Enabled(ws[n], Timeout) {
      var i := DebtSince(ws, acts, n);
      assert DebtFrom(acts, n, i) && ws[n].now - ws[i].now >= HMR_CANARY_S;
    }
    if exists i: nat :: DebtFrom(acts, n, i) && ws[n].now - ws[i].now >= HMR_CANARY_S {
      var i: nat :| DebtFrom(acts, n, i) && ws[n].now - ws[i].now >= HMR_CANARY_S;
      DebtIsRemembered(ws, acts, n, i);
    }
  }

  /** `no_recognised_frame` enters the published reason only by an alarm that was due. */
  lemma AlarmOnlyWhenDue(ws: seq<World>, acts: seq<Action>, n: nat)
    requires IsRun(ws, acts) && n < |acts|
    requires ws[n].signal.reason != Some(NO_RECOGNISED_FRAME) && ws[n + 1].signal.reason == Some(NO_RECOGNISED_FRAME)
    ensures acts[n] == Timeout
    ensures exists i: nat :: DebtFrom(acts, n, i) && ws[n].now - ws[i].now >= HMR_CANARY_S
  {
    AlarmDueIff(ws, acts, n);
  }

  /** A frame whose verb is known but carries no state settles the debt, and touches nothing a reader
      acts on: not the state, not the errors, not a waiting `clean`, not a raised alarm. */
  lemma StatelessFrameIsHarmless(w: World, msg: Message)
    requires SpeaksWithoutState(msg)
    ensures
      var w' := Step(w, Receive(msg));
      && w'.owedSince.None? && w'.signal == w.signal.(reason := w'.signal.reason)
      && (w'.signal.reason != w.signal.reason ==>
            w.signal.state == Unknown && w.signal.reason == Some(CONNECTED_NO_FRAME_YET))
  {
  }

  /** What takes a raised alarm down: a bad-news frame, a settled read of good news, or anything that
      drops the signal again for another reason. */
  lemma AlarmTakenDownBy(w: World, a: Action)
    requires Enabled(w, a) && w.signal.reason == Some(NO_RECOGNISED_FRAME)
    ensures Step(w, a).signal.reason != Some(NO_RECOGNISED_FRAME) <==>
              || a.Connect? || a.Disconnect? || a.Drop?
              || (a.Receive? && StateBearing(a) && !CleanFrame(a))
              || (a == Read && w.signal.pending.Some? && w.now - w.signal.pendingAt >= COMPILE_DEBOUNCE_S)
  {
    if a.Receive? {
      DerivedByVerb(a.msg);
    }
  }

  // ----- how often the alarm fires ---------------------------------------------------------

  /** Between two alarms with no connect between them an unreadable frame arrived. */
  lemma AlarmsApart(ws: seq<World>, acts: seq<Action>, j: nat, k: nat)
    requires IsRun(ws, acts) && j < k < |acts| && acts[j] == Timeout && acts[k] == Timeout
    requires forall m | j < m < k :: !acts[m].Connect?
    ensures exists m: nat :: j < m < k && UnreadableFrame(acts[m])
  {
    var i := DebtSince(ws, acts, k);
    assert SettlesDebt(acts[j]);
    assert j < i && UnreadableFrame(acts[i]);
  }

  /** An unreadable frame at `i`, after the alarm at `j`, has gone unanswered since for the canary's length. */
  ghost predicate Unanswered(ws: seq<World>, acts: seq<Action>, j: nat, i: nat, n: nat)
    requires |ws| == |acts| + 1 && n <= |acts|
  {
    && j < i < n && UnreadableFrame(acts[i]) && ws[n].now - ws[i].now >= HMR_CANARY_S
    && forall m | i < m < n :: !SettlesDebt(acts[m])
  }

  lemma {:induction false} StillOwed(ws: seq<World>, acts: seq<Action>, i: nat, n: nat)
    requires IsRun(ws, acts) && i < n <= |acts| && UnreadableFrame(acts[i])
    requires forall m | i < m < n :: !SettlesDebt(acts[m])
    ensures ws[n].open && ws[n].owedSince.Some? && ws[n].owedSince.value <= ws[i].now
    decreases n
  {
    if n == i + 1 {
      OwedInThePast(ws, acts, i);
    } else {
      StillOwed(ws, acts, i, n - 1);
    }
  }

  lemma {:induction false} OwedInThePast(ws: seq<World>, acts: seq<Action>, n: nat)
    requires IsRun(ws, acts) && n <= |acts|
    ensures ws[n].owedSince.Some? ==> ws[n].owedSince.value <= ws[n].now
    decreases n
  {
    if n > 0 {
      OwedInThePast(ws, acts, n - 1);
    }
  }

  lemma {:induction false} StaysShut(ws: seq<World>, acts: seq<Action>, d: nat, n: nat)
    requires IsRun(ws, acts) && d < n <= |acts| && acts[d].Disconnect?
    requires forall m | d < m < n :: !acts[m].Connect?
    ensures !ws[n].open
    decreases n
  {
    if d < n - 1 {
      StaysShut(ws, acts, d, n - 1);
    }
  }

  /** After an alarm, with no connect since, the next alarm is due exactly when the connection is still up
      and an unreadable frame that came after the first alarm has gone unanswered for the canary's length. */
  lemma AlarmAgainIff(ws: seq<World>, acts: seq<Action>, j: nat, n: nat)
    requires IsRun(ws, acts) && j < n <= |acts| && acts[j] == Timeout
    requires forall m | j < m < n :: !acts[m].Connect?
    ensures Enabled(ws[n], Timeout) <==>
            (forall m | j < m < n :: !acts[m].Disconnect?) && exists i: nat :: Unanswered(ws, acts, j, i, n)
  {
    if Enabled(ws[n], Timeout) {
      forall m | j < m < n ensures !acts[m].Disconnect? {
        if acts[m].Disconnect? {
          StaysShut(ws, acts, m, n);
        }
      }
      var i := DebtSince(ws, acts, n);
      assert SettlesDebt(acts[j]);
      assert Unanswered(ws, acts, j, i, n);
    }
    if i: nat :| Unanswered(ws, acts, j, i, n) {
      StillOwed(ws, acts, i, n);
    }
  }

  /** Steps that say nothing the consumer can count: texts that are not JSON among them. */
  predicate Silent(a: Action) {
    a.Tick? || a.Read? || a.Drop? || a == Receive(NotJson)
  }

  /** Texts that are not JSON neither arm the alarm nor discharge it: through any number of them, whatever
      is owed stays owed since the same moment, and nothing owed stays nothing owed. */
  lemma {:induction false} NotJsonCountsForNothing(ws: seq<World>, acts: seq<Action>, j: nat, n: nat)
    requires IsRun(ws, acts) && j <= n <= |acts| && forall m | j <= m < n :: Silent(acts[m])
    ensures ws[n].open == ws[j].open && ws[n].owedSince == ws[j].owedSince
    ensures ws[j].owedSince.None? ==> !Enabled(ws[n], Timeout)
    decreases n - j
  {
    if j < n {
      NotJsonCountsForNothing(ws, acts, j, n - 1);
    }
  }

  const UNHEARD := Object(Some("renamed"), None, [])

  /** The alarm can fire twice in one connection: the first alarm settles the debt, and the next
      unreadable frame starts another. */
  lemma AlarmFiresTwice() returns (ws: seq<World>, acts: seq<Action>)
    ensures IsRun(ws, acts) && |acts| == 6 && acts[2] == Timeout && acts[5] == Timeout
    ensures ws[2].signal.generation == ws[5].signal.generation == 1
  {
    acts := [Connect, Tick(5.0), Timeout, Receive(UNHEARD), Tick(5.0), Timeout];
    var w1 := Step(BOOT, acts[0]);
    var w2 := Step(w1, acts[1]);
    var w3 := Step(w2, acts[2]);
    var w4 := Step(w3, acts[3]);
    var w5 := Step(w4, acts[4]);
    ws := [BOOT, w1, w2, w3, w4, w5, Step(w5, acts[5])];
  }
}
