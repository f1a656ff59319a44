/** The readiness cache of the sandbox supervisor: a deadline, a generation counter and a single-flight
    probe slot behind one lock.

    Each locked region is one function on the cache and one method of class `Ready`. The interleaving
    of pollers, probe threads, failed spawns, child deaths and restarts is a state machine whose steps
    are those functions; time is any non-decreasing number. */
module Readiness {
  import opened Sequences

  const READY_CACHE_TTL := 5.0

  /** Identities of `threading.Event` objects, child processes and status requests. */
  type Event = nat
  type Child = nat
  type Caller = nat

  datatype Cache = Cache(
    servedUntil: real, servedStatus: Option<int>, generation: nat, probing: Option<Event>,
    mourned: Option<Child>, basePathChecked: int)

  const COLD := Cache(0.0, None, 0, None, None, -1)

  // ----- the locked regions ----------------------------------------------------------------

  /** Dropping the affirmative; a child already mourned is mourned once. */
  function Forget(c: Cache, mourned: Option<Child>): Cache {
    if mourned.Some? && c.mourned == mourned then c
    else Cache(0.0, None, c.generation + 1, None, mourned, -1)
  }

  datatype Beginning = Fresh(status: Option<int>) | Started(done: Event, generation: nat) | Joined(done: Event)

  /** The first region of a status poll; `event` is the one it would allocate. */
  function BeginPoll(c: Cache, now: real, event: Event): (Beginning, Cache) {
    if now < c.servedUntil then (Fresh(c.servedStatus), c)
    else if c.probing.None? then (Started(event, c.generation), c.(probing := Some(event)))
    else (Joined(c.probing.value), c)
  }

  /** Handing the slot back after a thread that would not start. */
  function HandBack(c: Cache, done: Event): Cache {
    if c.probing == Some(done) then c.(probing := None) else c
  }

  /** Publishing a probe's answer, unless a reset has disowned it; the flag says whether this is the
      publication that starts the base-path check. */
  function Publish(c: Cache, generation: nat, status: Option<int>, now: real): (bool, Cache) {
    if generation != c.generation then (false, c)
    else if status.None? then (false, c.(probing := None))
    else
      (c.basePathChecked != generation,
       c.(servedUntil := now + READY_CACHE_TTL, servedStatus := status, probing := None,
          basePathChecked := generation))
  }

  /** The last region of a status poll: ready, and with what status. */
  function EndPoll(c: Cache, now: real): (bool, Option<int>) {
    var ready := now < c.servedUntil;
    (ready, if ready then c.servedStatus else None)
  }

  /** The class the regions update. */
  class Ready {
    var servedUntil: real
    var servedStatus: Option<int>
    var generation: nat
    var probing: Option<Event>
    var mourned: Option<Child>
    var basePathChecked: int

    function View(): Cache
      reads this
    {
      Cache(servedUntil, servedStatus, generation, probing, mourned, basePathChecked)
    }

    constructor ()
      ensures View() == COLD
    {
      servedUntil, servedStatus, generation := 0.0, None, 0;
      probing, mourned, basePathChecked := None, None, -1;
    }

    method ForgetReady(dead: Option<Child>)
      modifies this
      ensures View() == Forget(old(View()), dead)
    {
      if dead.Some? && mourned == dead {
        return;
      }
      mourned := dead;
      servedUntil := 0.0;
      servedStatus := None;
      generation := generation + 1;
      probing := None;
      basePathChecked := -1;
    }

    method Begin(now: real, event: Event) returns (b: Beginning)
      modifies this
      ensures (b, View()) == BeginPoll(old(View()), now, event)
    {
      if now < servedUntil {
        return Fresh(servedStatus);
      }
      if probing.None? {
        probing := Some(event);
        b := Started(event, generation);
      } else {
        b := Joined(probing.value);
      }
    }

    method SpawnFailed(done: Event)
      modifies this
      ensures View() == HandBack(old(View()), done)
    {
      if probing == Some(done) {
        probing := None;
      }
    }

    method FinishProbe(probed: nat, status: Option<int>, now: real) returns (checkBasePath: bool)
      modifies this
      ensures (checkBasePath, View()) == Publish(old(View()), probed, status, now)
    {
      checkBasePath := false;
      if probed == generation {
        if status.Some? {
          servedUntil := now + READY_CACHE_TTL;
          servedStatus := status;
          if basePathChecked != probed {
            basePathChecked := probed;
            checkBasePath := true;
          }
        }
        probing := None;
      }
    }

    method End(now: real) returns (ready: bool, status: Option<int>)
      ensures (ready, status) == EndPoll(View(), now)
    {
      ready := now < servedUntil;
      status := if ready then servedStatus else None;
    }
  }

  // ----- the interleaving ------------------------------------------------------------------

  /** A probe from the moment its event is allocated: its thread is being started, it runs, its answer
      was published but the event not yet set, its spawn failed and the event is not yet set, or the
      event is set. */
  datatype Phase = Spawning(caller: Caller) | Running | Published | Abandoned | Finished

  datatype Probe = Probe(generation: nat, phase: Phase)

  /** `probes` is keyed by event; `waiting` says which event each poll waits on; `checks` lists the
      generations whose base-path check was started, in order. */
  datatype World = World(
    now: real, cache: Cache, probes: map<Event, Probe>, next: Event, waiting: map<Caller, Event>, checks: seq<nat>)

  const BOOT := World(0.0, COLD, map[], 0, map[], [])

  datatype Action =
    | Tick(elapsed: real)
    | Reset(mourned: Option<Child>)
    | BeginStep(caller: Caller)
    | Spawned(done: Event)
    | SpawnFails(done: Event)
    | ProbeReturns(done: Event, status: Option<int>)
    | SetEvent(done: Event)
    | EndStep(caller: Caller)

  predicate InPhase(w: World, e: Event, p: Phase) {
    e in w.probes && w.probes[e].phase == p
  }

  predicate Enabled(w: World, a: Action) {
    match a
    case Tick(elapsed) => elapsed >= 0.0
    case Reset(_) => true
    case BeginStep(caller) =>
      caller !in w.waiting && forall e | e in w.probes :: w.probes[e].phase != Spawning(caller)
    case Spawned(done) => done in w.probes && w.probes[done].phase.Spawning?
    case SpawnFails(done) => done in w.probes && w.probes[done].phase.Spawning?
    case ProbeReturns(done, _) => InPhase(w, done, Running)
    case SetEvent(done) => InPhase(w, done, Published) || InPhase(w, done, Abandoned)
    case EndStep(caller) => caller in w.waiting
  }

  function SetPhase(w: World, e: Event, p: Phase): World
    requires e in w.probes
  {
    w.(probes := w.probes[e := w.probes[e].(phase := p)])
  }

  function Step(w: World, a: Action): World
    requires Enabled(w, a)
  {
    match a
    case Tick(elapsed) => w.(now := w.now + elapsed)
    case Reset(mourned) => w.(cache := Forget(w.cache, mourned))
    case BeginStep(caller) =>
      var (b, c) := BeginPoll(w.cache, w.now, w.next);
      (match b
       case Fresh(_) => w
       case Started(done, generation) =>
         w.(cache := c, next := w.next + 1, probes := w.probes[done := Probe(generation, Spawning(caller))])
       case Joined(done) => w.(waiting := w.waiting[caller := done]))
    case Spawned(done) =>
      SetPhase(w, done, Running).(waiting := w.waiting[w.probes[done].phase.caller := done])
    case SpawnFails(done) => SetPhase(w, done, Abandoned).(cache := HandBack(w.cache, done))
    case ProbeReturns(done, status) =>
      var (check, c) := Publish(w.cache, w.probes[done].generation, status, w.now);
      SetPhase(w, done, Published).(
        cache := c, checks := if check then w.checks + [w.probes[done].generation] else w.checks)
    case SetEvent(done) => SetPhase(w, done, Finished)
    case EndStep(caller) => w.(waiting := w.waiting - {caller})
  }

  /** What a status request is told at this step, if it is answered here. */
  function Answer(w: World, a: Action): Option<(bool, Option<int>)> {
    match a
    case BeginStep(_) =>
      var b := BeginPoll(w.cache, w.now, w.next).0;
      if b.Fresh? then Some((true, b.status)) else None
    case EndStep(_) => Some(EndPoll(w.cache, w.now))
    case _ => None
  }

  /** `ws` is what happens when the steps `acts` are taken, in that order, from a cold start. */
  ghost predicate IsRun(ws: seq<World>, acts: seq<Action>) {
    && |ws| == |acts| + 1 && ws[0] == BOOT
    && forall i | 0 <= i < |acts| :: Enabled(ws[i], acts[i]) && ws[i + 1] == Step(ws[i], acts[i])
  }

  // ----- what every step keeps -------------------------------------------------------------

  predicate Unpublished(p: Probe) {
    p.phase.Spawning? || p.phase.Running?
  }

  /** The slot is held exactly by the unfinished probe of the current generation. */
  ghost predicate SlotOwned(w: World) {
    forall e: Event :: w.cache.probing == Some(e) <==>
      e in w.probes && w.probes[e].generation == w.cache.generation && Unpublished(w.probes[e])
  }

  ghost predicate ProbesKnown(w: World) {
    && (forall e | e in w.probes :: e < w.next && w.probes[e].generation <= w.cache.generation)
    && (forall c | c in w.waiting :: w.waiting[c] in w.probes)
  }

  ghost predicate CheckedOnce(w: World) {
    && NoDup(w.checks)
    && (forall i | 0 <= i < |w.checks| :: w.checks[i] <= w.cache.generation)
    && (w.cache.basePathChecked == -1 || w.cache.basePathChecked == w.cache.generation)
    && (w.cache.generation in w.checks <==> w.cache.basePathChecked == w.cache.generation)
  }

  ghost predicate PairMatched(w: World) {
    w.now >= 0.0 && (w.cache.servedUntil > 0.0 ==> w.cache.servedStatus.Some?)
  }

  ghost predicate Inv(w: World) {
    SlotOwned(w) && ProbesKnown(w) && CheckedOnce(w) && PairMatched(w)
  }

  lemma SlotKept(w: World, a: Action)
    requires Enabled(w, a) && SlotOwned(w) && ProbesKnown(w)
    ensures SlotOwned(Step(w, a)) && ProbesKnown(Step(w, a))
  {
  }

  lemma CheckedOnceAppend(checks: seq<nat>, g: nat)
    requires NoDup(checks) && g !in checks
    ensures NoDup(checks + [g]) && g in checks + [g]
  {
    assert (checks + [g])[|checks|] == g;
  }

  lemma ChecksKept(w: World, a: Action)
    requires Enabled(w, a) && CheckedOnce(w) && ProbesKnown(w)
    ensures CheckedOnce(Step(w, a))
  {
    if a.ProbeReturns? {
      var g := w.probes[a.done].generation;
      if g == w.cache.generation && a.status.Some? && w.cache.basePathChecked != g {
        CheckedOnceAppend(w.checks, g);
      }
    }
  }

  lemma PairKept(w: World, a: Action)
    requires Enabled(w, a) && PairMatched(w)
    ensures PairMatched(Step(w, a))
  {
  }

  /** Every step of every thread keeps the invariant. */
  lemma StepKeepsInv(w: World, a: Action)
    requires Enabled(w, a) && Inv(w)
    ensures Inv(Step(w, a))
  {
    SlotKept(w, a);
    ChecksKept(w, a);
    PairKept(w, a);
  }

  lemma {:induction false} RunKeepsInv(ws: seq<World>, acts: seq<Action>, n: nat)
    requires IsRun(ws, acts) && n <= |acts|
    ensures Inv(ws[n])
    decreases n
  {
    if n > 0 {
      RunKeepsInv(ws, acts, n - 1);
      StepKeepsInv(ws[n - 1], acts[n - 1]);
    }
  }

  // ----- the slot cannot wedge -------------------------------------------------------------

  /** The steps taken for the probe of `e` by the thread that starts it or by its own thread, whatever the
      probe returns. */
  predicate IsOwn(a: Action, e: Event) {
    match a
    case Spawned(done) => done == e
    case SpawnFails(done) => done == e
    case ProbeReturns(done, _) => done == e
    case SetEvent(done) => done == e
    case _ => false
  }

  /** How many own steps there can still be. */
  function StepsLeft(p: Phase): nat {
    match p
    case Spawning(_) => 3
    case Running => 2
    case Published => 1
    case Abandoned => 1
    case Finished => 0
  }

  /** Every own step of a probe, with whatever outcome, brings its event nearer to being set; no step of
      any other thread touches it. */
  lemma OwnStepsCountDown(w: World, a: Action, e: Event)
    requires Enabled(w, a) && ProbesKnown(w) && e in w.probes
    ensures e in Step(w, a).probes
    ensures IsOwn(a, e) ==> StepsLeft(Step(w, a).probes[e].phase) < StepsLeft(w.probes[e].phase)
    ensures !IsOwn(a, e) ==> Step(w, a).probes[e] == w.probes[e]
  {
  }

  /** Until the event is set an own step can be taken, with either outcome where there are two, without any
      other thread. */
  lemma OwnStepReady(w: World, e: Event)
    requires e in w.probes
    ensures match w.probes[e].phase
            case Spawning(_) => Enabled(w, Spawned(e)) && Enabled(w, SpawnFails(e))
            case Running => forall status :: Enabled(w, ProbeReturns(e, status))
            case Published => Enabled(w, SetEvent(e))
            case Abandoned => Enabled(w, SetEvent(e))
            case Finished => forall a | Enabled(w, a) :: !IsOwn(a, e)
  {
  }

  /** How many of the steps from `i` to `j` are own steps of the probe of `e`. */
  function OwnSteps(acts: seq<Action>, e: Event, i: nat, j: nat): nat
    requires i <= j <= |acts|
    decreases j - i
  {
    if i == j then 0 else OwnSteps(acts, e, i, j - 1) + if IsOwn(acts[j - 1], e) then 1 else 0
  }

  /** They are counted one by one. */
  lemma {:induction false} OwnStepsCounts(acts: seq<Action>, e: Event, i: nat, j: nat)
    requires i <= j <= |acts|
    ensures OwnSteps(acts, e, i, j) == |set m | i <= m < j && IsOwn(acts[m], e)|
    decreases j - i
  {
    hide IsOwn;
    if i < j {
      OwnStepsCounts(acts, e, i, j - 1);
      var before := set m | i <= m < j - 1 && IsOwn(acts[m], e);
      var last := if IsOwn(acts[j - 1], e) then {j - 1} else {};
      assert (set m | i <= m < j && IsOwn(acts[m], e)) == before + last;
    }
  }

  /** Whatever else happens in between, a probe takes at most the own steps it had left. */
  lemma {:induction false} OwnStepsAreFew(ws: seq<World>, acts: seq<Action>, e: Event, i: nat, j: nat)
    requires IsRun(ws, acts) && i <= j <= |acts| && e in ws[i].probes
    ensures e in ws[j].probes
    ensures OwnSteps(acts, e, i, j) + StepsLeft(ws[j].probes[e].phase) <= StepsLeft(ws[i].probes[e].phase) <= 3
    decreases j - i
  {
    hide Step, Enabled, SlotOwned, CheckedOnce, PairMatched;
    if i < j {
      OwnStepsAreFew(ws, acts, e, i, j - 1);
      RunKeepsInv(ws, acts, j - 1);
      OwnStepsCountDown(ws[j - 1], acts[j - 1], e);
    }
  }

  /** The probe of `e` has published, or given up, or its event is set: it no longer holds the slot. */
  lemma PublishedHoldsNoSlot(w: World, e: Event)
    requires SlotOwned(w) && e in w.probes && StepsLeft(w.probes[e].phase) <= 1
    ensures w.cache.probing != Some(e)
  {
  }

  /** In every reachable state the slot is held exactly by the unfinished probe of the current
      generation, and each event a poll waits on belongs to a probe. */
  lemma SlotCannotWedge(ws: seq<World>, acts: seq<Action>, n: nat)
    requires IsRun(ws, acts) && n <= |acts|
    ensures forall e: Event :: ws[n].cache.probing == Some(e) <==>
              && e in ws[n].probes && Unpublished(ws[n].probes[e])
              && ws[n].probes[e].generation == ws[n].cache.generation
    ensures forall c | c in ws[n].waiting :: ws[n].waiting[c] in ws[n].probes
  {
    RunKeepsInv(ws, acts, n);
  }

  /** In every interleaving the third own step of a probe, at the latest, sets its event: by then the slot
      is free of it, whatever the probe returned and whatever other threads did in between. */
  lemma EventIsSet(ws: seq<World>, acts: seq<Action>, e: Event, i: nat, j: nat)
    requires IsRun(ws, acts) && i <= j <= |acts| && e in ws[i].probes
    requires OwnSteps(acts, e, i, j) >= StepsLeft(ws[i].probes[e].phase)
    ensures OwnSteps(acts, e, i, j) <= 3 && InPhase(ws[j], e, Finished) && ws[j].cache.probing != Some(e)
  {
    hide Step, Enabled, IsOwn;
    OwnStepsAreFew(ws, acts, e, i, j);
    RunKeepsInv(ws, acts, j);
    PublishedHoldsNoSlot(ws[j], e);
  }

  /** A thread that will not start gives the slot back at once. */
  lemma FailedSpawnFreesSlot(w: World, done: Event)
    requires Inv(w) && Enabled(w, SpawnFails(done))
    ensures Step(w, SpawnFails(done)).cache.probing != Some(done)
    ensures w.probes[done].generation == w.cache.generation ==> Step(w, SpawnFails(done)).cache.probing == None
  {
  }

  /** The base-path check starts at most once in each generation. */
  lemma CheckStartsOnce(ws: seq<World>, acts: seq<Action>, n: nat)
    requires IsRun(ws, acts) && n <= |acts|
    ensures NoDup(ws[n].checks)
  {
    RunKeepsInv(ws, acts, n);
  }
}
