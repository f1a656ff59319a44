/** What the readiness protocol does, said by the events of a run alone: resets, probes begun and answers
    published. The generation counter, the slot and the deadline do not appear in these statements. */
module ReadinessByEvents {
  import opened Sequences
  import opened Readiness

  // ----- the events ------------------------------------------------------------------------

  ghost predicate LastReset(acts: seq<Action>, i: nat, n: nat)
    requires n <= |acts|
  {
    i < n && acts[i].Reset? && forall m | i < m < n :: !acts[m].Reset?
  }

  /** The death of a child that the latest reset was already for. */
  ghost predicate MournedAgain(acts: seq<Action>, m: nat)
    requires m < |acts|
  {
    acts[m].Reset? && acts[m].mourned.Some? && exists i: nat :: LastReset(acts, i, m) && acts[i] == acts[m]
  }

  /** No restart, and no death not yet mourned, at step `m`. */
  ghost predicate Calm(acts: seq<Action>, m: nat)
    requires m < |acts|
  {
    acts[m].Reset? ==> MournedAgain(acts, m)
  }

  ghost predicate NoReset(acts: seq<Action>, i: nat, j: nat)
    requires i <= j <= |acts|
  {
    forall m | i <= m < j :: Calm(acts, m)
  }

  /** The poll at step `b` began the probe of `e`. */
  ghost predicate Began(ws: seq<World>, acts: seq<Action>, b: nat, e: Event)
    requires |ws| == |acts| + 1
  {
    b < |acts| && acts[b].BeginStep? && e !in ws[b].probes && e in ws[b + 1].probes
  }

  /** At step `j` a probe got an answer, with no reset since it was begun. */
  ghost predicate Answered(ws: seq<World>, acts: seq<Action>, j: nat)
    requires |ws| == |acts| + 1
  {
    && j < |acts| && acts[j].ProbeReturns? && acts[j].status.Some?
    && exists b: nat :: b < j && Began(ws, acts, b, acts[j].done) && NoReset(acts, b, j)
  }

  /** The latest answer before `n` came at step `j`, and there was no reset since. */
  ghost predicate Stands(ws: seq<World>, acts: seq<Action>, j: nat, n: nat)
    requires |ws| == |acts| + 1 && n <= |acts|
  {
    j < n && Answered(ws, acts, j) && NoReset(acts, j, n) && forall m | j < m < n :: !Answered(ws, acts, m)
  }

  /** At `n` the answer of step `j` stands and is younger than the TTL. */
  ghost predicate Serves(ws: seq<World>, acts: seq<Action>, j: nat, n: nat)
    requires |ws| == |acts| + 1 && n <= |acts|
  {
    Stands(ws, acts, j, n) && ws[n].now - ws[j].now < READY_CACHE_TTL
  }

  /** The probe of `e` was begun, with no reset since, and has neither returned nor failed to start. */
  ghost predicate InFlight(ws: seq<World>, acts: seq<Action>, e: Event, n: nat)
    requires |ws| == |acts| + 1 && n <= |acts|
  {
    exists b: nat :: b < n && Began(ws, acts, b, e) && NoReset(acts, b, n) && !Over(acts, e, b, n)
  }

  ghost predicate Over(acts: seq<Action>, e: Event, i: nat, j: nat)
    requires i <= j <= |acts|
  {
    exists m | i <= m < j :: acts[m] == SpawnFails(e) || (acts[m].ProbeReturns? && acts[m].done == e)
  }

  function Elapsed(acts: seq<Action>, n: nat): real
    requires n <= |acts|
  {
    if n == 0 then 0.0 else Elapsed(acts, n - 1) + if acts[n - 1].Tick? then acts[n - 1].elapsed else 0.0
  }

  /** Time is what has elapsed; no other step takes any. */
  lemma {:induction false} TimeIsElapsed(ws: seq<World>, acts: seq<Action>, n: nat)
    requires IsRun(ws, acts) && n <= |acts|
    ensures ws[n].now == Elapsed(acts, n)
    decreases n
  {
    if n > 0 {
      TimeIsElapsed(ws, acts, n - 1);
    }
  }

  // ----- resets and generations ------------------------------------------------------------

  lemma {:induction false} MournedIsLatest(ws: seq<World>, acts: seq<Action>, i: nat, n: nat)
    requires IsRun(ws, acts) && n <= |acts| && LastReset(acts, i, n)
    ensures ws[n].cache.mourned == acts[i].mourned
    decreases n
  {
    if i < n - 1 {
      MournedIsLatest(ws, acts, i, n - 1);
    } else {
      ForgetSets(ws[i], acts[i]);
    }
  }

  lemma ForgetSets(w: World, a: Action)
    requires a.Reset?
    ensures Step(w, a).cache.mourned == a.mourned
  {
  }

  lemma {:induction false} MournedSince(ws: seq<World>, acts: seq<Action>, n: nat) returns (i: nat)
    requires IsRun(ws, acts) && n <= |acts| && ws[n].cache.mourned.Some?
    ensures LastReset(acts, i, n)
    decreases n
  {
    if acts[n - 1].Reset? {
      i := n - 1;
    } else {
      i := MournedSince(ws, acts, n - 1);
    }
  }

  /** A reset starts a generation unless it is for a child already mourned, which changes nothing. */
  lemma ResetStep(ws: seq<World>, acts: seq<Action>, m: nat)
    requires IsRun(ws, acts) && m < |acts|
    ensures acts[m].Reset? && Calm(acts, m) ==> ws[m + 1] == ws[m]
    ensures !Calm(acts, m) ==>
              && ws[m + 1].cache.generation == ws[m].cache.generation + 1
              && ws[m + 1].cache.servedUntil == 0.0 && ws[m + 1].cache.basePathChecked == -1
    ensures Calm(acts, m) ==> ws[m + 1].cache.generation == ws[m].cache.generation
  {
    if acts[m].Reset? && MournedAgain(acts, m) {
      var i: nat :| LastReset(acts, i, m) && acts[i] == acts[m];
      MournedIsLatest(ws, acts, i, m);
    } else if acts[m].Reset? && acts[m].mourned.Some? && ws[m].cache.mourned == acts[m].mourned {
      var i := MournedSince(ws, acts, m);
      MournedIsLatest(ws, acts, i, m);
    }
  }

  lemma {:induction false} SameGenerationIff(ws: seq<World>, acts: seq<Action>, i: nat, j: nat)
    requires IsRun(ws, acts) && i <= j <= |acts|
    ensures ws[i].cache.generation <= ws[j].cache.generation
    ensures ws[i].cache.generation == ws[j].cache.generation <==> NoReset(acts, i, j)
    decreases j - i
  {
    hide Step, Enabled, Calm;
    if i < j {
      SameGenerationIff(ws, acts, i, j - 1);
      ResetStep(ws, acts, j - 1);
      assert NoReset(acts, i, j) <==> NoReset(acts, i, j - 1) && Calm(acts, j - 1);
    }
  }

  // ----- probes ----------------------------------------------------------------------------

  lemma NewProbe(w: World, a: Action, e: Event)
    requires Enabled(w, a) && ProbesKnown(w)
    ensures e in w.probes ==>
              e in Step(w, a).probes && Step(w, a).probes[e].generation == w.probes[e].generation
    ensures e !in w.probes && e in Step(w, a).probes ==>
              a.BeginStep? && Step(w, a).probes[e].generation == w.cache.generation
  {
  }

  lemma {:induction false} BegunAt(ws: seq<World>, acts: seq<Action>, e: Event, n: nat) returns (b: nat)
    requires IsRun(ws, acts) && n <= |acts| && e in ws[n].probes
    ensures b < n && Began(ws, acts, b, e) && ws[n].probes[e].generation == ws[b].cache.generation
    decreases n
  {
    hide Step, Enabled, SlotOwned, CheckedOnce;
    RunKeepsInv(ws, acts, n - 1);
    NewProbe(ws[n - 1], acts[n - 1], e);
    if e in ws[n - 1].probes {
      b := BegunAt(ws, acts, e, n - 1);
    } else {
      b := n - 1;
    }
  }

  lemma {:induction false} StaysKnown(ws: seq<World>, acts: seq<Action>, e: Event, i: nat, n: nat)
    requires IsRun(ws, acts) && i <= n <= |acts| && e in ws[i].probes
    ensures e in ws[n].probes
    decreases n - i
  {
    hide Step, Enabled, SlotOwned, CheckedOnce;
    if i < n {
      StaysKnown(ws, acts, e, i, n - 1);
      RunKeepsInv(ws, acts, n - 1);
      NewProbe(ws[n - 1], acts[n - 1], e);
    }
  }

  /** A probe is begun once. */
  lemma BegunOnce(ws: seq<World>, acts: seq<Action>, e: Event, b: nat, b': nat)
    requires IsRun(ws, acts) && Began(ws, acts, b, e) && Began(ws, acts, b', e)
    ensures b == b'
  {
    hide Step, Enabled;
    if b < b' {
      StaysKnown(ws, acts, e, b + 1, b');
    } else if b' < b {
      StaysKnown(ws, acts, e, b' + 1, b);
    }
  }

  /** A probe is of the current generation exactly when nothing was reset since it was begun. */
  lemma CurrentIff(ws: seq<World>, acts: seq<Action>, e: Event, n: nat) returns (b: nat)
    requires IsRun(ws, acts) && n <= |acts| && e in ws[n].probes
    ensures b < n && Began(ws, acts, b, e)
    ensures forall b': nat | Began(ws, acts, b', e) :: b' == b
    ensures ws[n].probes[e].generation == ws[n].cache.generation <==> NoReset(acts, b, n)
  {
    hide Step, Enabled, NoReset;
    b := BegunAt(ws, acts, e, n);
    SameGenerationIff(ws, acts, b, n);
    forall b': nat | Began(ws, acts, b', e) ensures b' == b {
      BegunOnce(ws, acts, e, b, b');
    }
  }

  /** The step puts a new affirmative in the cache. */
  predicate Publishes(w: World, a: Action)
    requires Enabled(w, a)
  {
    a.ProbeReturns? && a.status.Some? && w.probes[a.done].generation == w.cache.generation
  }

  lemma AnsweredIff(ws: seq<World>, acts: seq<Action>, j: nat)
    requires IsRun(ws, acts) && j < |acts|
    ensures Answered(ws, acts, j) <==> Publishes(ws[j], acts[j])
  {
    if acts[j].ProbeReturns? {
      var b := CurrentIff(ws, acts, acts[j].done, j);
    }
  }

  // ----- what is served --------------------------------------------------------------------

  lemma PublishStep(w: World, a: Action)
    requires Enabled(w, a)
    ensures Publishes(w, a) ==>
              && Step(w, a).cache.servedUntil == w.now + READY_CACHE_TTL
              && Step(w, a).cache.servedStatus == a.status
              && Step(w, a).cache.basePathChecked == Step(w, a).cache.generation
    ensures !Publishes(w, a) && !a.Reset? ==>
              && Step(w, a).cache.servedUntil == w.cache.servedUntil
              && Step(w, a).cache.servedStatus == w.cache.servedStatus
              && Step(w, a).cache.basePathChecked == w.cache.basePathChecked
  {
  }

  /** What the cache holds is the answer that stands, and it holds something only when one stands. */
  ghost predicate HoldsAnswer(ws: seq<World>, acts: seq<Action>, n: nat)
    requires |ws| == |acts| + 1 && n <= |acts|
  {
    && (forall j: nat | Stands(ws, acts, j, n) ::
          ws[n].cache.servedUntil == ws[j].now + READY_CACHE_TTL && ws[n].cache.servedStatus == acts[j].status)
    && (ws[n].cache.servedUntil > 0.0 ==> exists j: nat :: Stands(ws, acts, j, n))
  }

  lemma StandsStep(ws: seq<World>, acts: seq<Action>, n: nat)
    requires |ws| == |acts| + 1 && 0 < n <= |acts|
    ensures Answered(ws, acts, n - 1) ==> Stands(ws, acts, n - 1, n)
    ensures !Answered(ws, acts, n - 1) ==>
              forall j: nat :: Stands(ws, acts, j, n) <==>
                Stands(ws, acts, j, n - 1) && Calm(acts, n - 1)
  {
    hide MournedAgain, Began;
    if Answered(ws, acts, n - 1) {
      assert !acts[n - 1].Reset?;
    } else {
      forall j: nat | j < n
        ensures NoReset(acts, j, n) <==> NoReset(acts, j, n - 1) && Calm(acts, n - 1)
      {
      }
    }
  }

  /** At most one answer stands. */
  lemma StandsAlone(ws: seq<World>, acts: seq<Action>, i: nat, j: nat, n: nat)
    requires |ws| == |acts| + 1 && n <= |acts| && Stands(ws, acts, i, n) && Stands(ws, acts, j, n)
    ensures i == j
  {
    hide Answered, NoReset;
  }

  /** What step `m` does to what is served: an answer replaces it, a reset drops it. */
  lemma ServedStep(ws: seq<World>, acts: seq<Action>, m: nat)
    requires IsRun(ws, acts) && m < |acts|
    ensures Answered(ws, acts, m) ==>
              && acts[m].ProbeReturns? && Calm(acts, m)
              && ws[m + 1].cache.servedUntil == ws[m].now + READY_CACHE_TTL
              && ws[m + 1].cache.servedStatus == acts[m].status
              && ws[m + 1].cache.basePathChecked == ws[m + 1].cache.generation
    ensures !Answered(ws, acts, m) && Calm(acts, m) ==>
              && ws[m + 1].cache.servedUntil == ws[m].cache.servedUntil
              && ws[m + 1].cache.servedStatus == ws[m].cache.servedStatus
              && ws[m + 1].cache.basePathChecked == ws[m].cache.basePathChecked
              && ws[m + 1].cache.generation == ws[m].cache.generation
    ensures !Calm(acts, m) ==> ws[m + 1].cache.servedUntil == 0.0 && ws[m + 1].cache.basePathChecked == -1
  {
    AnsweredIff(ws, acts, m);
    ResetStep(ws, acts, m);
    PublishStep(ws[m], acts[m]);
    hide Step, Answered, MournedAgain;
  }

  lemma {:induction false} AnswerIsHeld(ws: seq<World>, acts: seq<Action>, n: nat)
    requires IsRun(ws, acts) && n <= |acts|
    ensures HoldsAnswer(ws, acts, n)
    decreases n
  {
    hide Step, Enabled, Answered, Calm;
    if n > 0 {
      AnswerIsHeld(ws, acts, n - 1);
      StandsStep(ws, acts, n);
      ServedStep(ws, acts, n - 1);
      HeldStep(ws, acts, n);
    }
  }

  lemma HeldStep(ws: seq<World>, acts: seq<Action>, n: nat)
    requires |ws| == |acts| + 1 && 0 < n <= |acts| && HoldsAnswer(ws, acts, n - 1)
    requires Answered(ws, acts, n - 1) ==>
               && Stands(ws, acts, n - 1, n)
               && ws[n].cache.servedUntil == ws[n - 1].now + READY_CACHE_TTL
               && acts[n - 1].ProbeReturns? && ws[n].cache.servedStatus == acts[n - 1].status
    requires !Answered(ws, acts, n - 1) ==>
               && (forall j: nat :: Stands(ws, acts, j, n) <==>
                     Stands(ws, acts, j, n - 1) && Calm(acts, n - 1))
               && (if !Calm(acts, n - 1) then ws[n].cache.servedUntil == 0.0
                   else
                     && ws[n].cache.servedUntil == ws[n - 1].cache.servedUntil
                     && ws[n].cache.servedStatus == ws[n - 1].cache.servedStatus)
    ensures HoldsAnswer(ws, acts, n)
  {
    hide Answered, Calm, NoReset;
    if Answered(ws, acts, n - 1) {
      forall j: nat | Stands(ws, acts, j, n) ensures j == n - 1 {
        StandsAlone(ws, acts, j, n - 1, n);
      }
    } else {
      hide Stands;
      if ws[n].cache.servedUntil > 0.0 {
        var j: nat :| Stands(ws, acts, j, n - 1);
        assert Stands(ws, acts, j, n);
      }
    }
  }

  /** A fresh affirmative is in the cache exactly when some answer serves, and then with its status. */
  lemma ServesIff(ws: seq<World>, acts: seq<Action>, n: nat)
    requires IsRun(ws, acts) && n <= |acts|
    ensures ws[n].now < ws[n].cache.servedUntil <==> exists j: nat :: Serves(ws, acts, j, n)
    ensures forall j: nat | Serves(ws, acts, j, n) :: ws[n].cache.servedStatus == acts[j].status
  {
    AnswerIsHeld(ws, acts, n);
    RunKeepsInv(ws, acts, n);
    hide Stands, IsRun, Inv;
    if ws[n].now < ws[n].cache.servedUntil {
      var j: nat :| Stands(ws, acts, j, n);
      assert Serves(ws, acts, j, n);
    }
  }

  /** In every interleaving, a poll that is answered is told `ready: true` exactly when a probe's answer
      serves: a probe begun with no reset from its begin to now returned it, less than the TTL ago. It is told
      the status of the latest such answer. A poll's last step always answers, its first one only to say
      `ready: true`. */
  lemma AnsweredByEvents(ws: seq<World>, acts: seq<Action>, k: nat)
    requires IsRun(ws, acts) && k < |acts|
    ensures Answer(ws[k], acts[k]).Some? <==>
              acts[k].EndStep? || (acts[k].BeginStep? && exists j: nat :: Serves(ws, acts, j, k))
    ensures forall ready, status | Answer(ws[k], acts[k]) == Some((ready, status)) ::
              if ready then exists j: nat :: Serves(ws, acts, j, k) && acts[j].status == status && status.Some?
              else status == None && forall j: nat :: !Serves(ws, acts, j, k)
  {
    ServesIff(ws, acts, k);
    hide Step, Enabled, Stands;
  }

  lemma RunningStep(w: World, a: Action, e: Event)
    requires Enabled(w, a) && InPhase(Step(w, a), e, Running)
    ensures e in w.probes && (a == Spawned(e) || InPhase(w, e, Running))
  {
  }

  /** A running probe was started after it was begun. */
  lemma {:induction false} StartedAt(ws: seq<World>, acts: seq<Action>, e: Event, b: nat, n: nat) returns (s: nat)
    requires IsRun(ws, acts) && b < n <= |acts| && Began(ws, acts, b, e) && InPhase(ws[n], e, Running)
    ensures b < s < n && acts[s] == Spawned(e)
    decreases n
  {
    hide Step, Enabled;
    RunningStep(ws[n - 1], acts[n - 1], e);
    if acts[n - 1] == Spawned(e) {
      s := n - 1;
    } else {
      s := StartedAt(ws, acts, e, b, n - 1);
    }
  }

  /** In every interleaving, a request told `ready: true` is told the status that a probe started after the
      latest reset returned less than the TTL before. */
  lemma TrueAnswerIsEarned(ws: seq<World>, acts: seq<Action>, k: nat, status: Option<int>)
    returns (s: nat, j: nat, e: Event)
    requires IsRun(ws, acts) && k < |acts| && Answer(ws[k], acts[k]) == Some((true, status))
    ensures status.Some? && s < j < k && acts[s] == Spawned(e) && acts[j] == ProbeReturns(e, status)
    ensures NoReset(acts, s, k) && ws[k].now - ws[j].now < READY_CACHE_TTL
  {
    AnsweredByEvents(ws, acts, k);
    hide Step, Enabled, Calm;
    j :| Serves(ws, acts, j, k) && acts[j].status == status && status.Some?;
    e := acts[j].done;
    var b: nat :| b < j && Began(ws, acts, b, e) && NoReset(acts, b, j);
    s := StartedAt(ws, acts, e, b, j);
  }

  // ----- the single flight -----------------------------------------------------------------

  lemma PhaseStep(w: World, a: Action, e: Event)
    requires Enabled(w, a) && e in w.probes && ProbesKnown(w)
    ensures e in Step(w, a).probes
    ensures Unpublished(Step(w, a).probes[e]) <==>
              Unpublished(w.probes[e]) && a != SpawnFails(e) && !(a.ProbeReturns? && a.done == e)
  {
  }

  lemma BegunUnpublished(ws: seq<World>, acts: seq<Action>, b: nat, e: Event)
    requires IsRun(ws, acts) && Began(ws, acts, b, e)
    ensures Unpublished(ws[b + 1].probes[e])
    ensures !Over(acts, e, b, b + 1)
  {
  }

  lemma {:induction false} UnpublishedIff(ws: seq<World>, acts: seq<Action>, e: Event, b: nat, n: nat)
    requires IsRun(ws, acts) && b < n <= |acts| && Began(ws, acts, b, e)
    ensures e in ws[n].probes && (Unpublished(ws[n].probes[e]) <==> !Over(acts, e, b, n))
    decreases n
  {
    BegunUnpublished(ws, acts, b, e);
    if n > b + 1 {
      hide Step, Enabled, SlotOwned, CheckedOnce, Began, Unpublished;
      UnpublishedIff(ws, acts, e, b, n - 1);
      RunKeepsInv(ws, acts, n - 1);
      PhaseStep(ws[n - 1], acts[n - 1], e);
      OverStep(acts, e, b, n - 1);
    }
  }

  lemma OverStep(acts: seq<Action>, e: Event, i: nat, j: nat)
    requires i <= j < |acts|
    ensures Over(acts, e, i, j + 1) <==>
              Over(acts, e, i, j) || acts[j] == SpawnFails(e) || (acts[j].ProbeReturns? && acts[j].done == e)
  {
    if Over(acts, e, i, j) {
      var m :| i <= m < j && (acts[m] == SpawnFails(e) || (acts[m].ProbeReturns? && acts[m].done == e));
    }
  }

  /** The slot is held exactly by the probe in flight. */
  lemma SlotByEvents(ws: seq<World>, acts: seq<Action>, n: nat, e: Event)
    requires IsRun(ws, acts) && n <= |acts|
    ensures ws[n].cache.probing == Some(e) <==> InFlight(ws, acts, e, n)
  {
    RunKeepsInv(ws, acts, n);
    hide Step, Enabled, NoReset, Over, Unpublished;
    if e in ws[n].probes {
      var b := CurrentIff(ws, acts, e, n);
      UnpublishedIff(ws, acts, e, b, n);
    } else if InFlight(ws, acts, e, n) {
      var b: nat :| b < n && Began(ws, acts, b, e) && NoReset(acts, b, n) && !Over(acts, e, b, n);
      UnpublishedIff(ws, acts, e, b, n);
    }
  }

  /** What the first step of a poll does: when an answer serves, nothing but answer; else, when a probe is in
      flight, wait for that one, as long as it likes; else begin a probe, and only then. */
  lemma PollByEvents(ws: seq<World>, acts: seq<Action>, k: nat)
    requires IsRun(ws, acts) && k < |acts| && acts[k].BeginStep?
    ensures (exists j: nat :: Serves(ws, acts, j, k)) ==> ws[k + 1] == ws[k]
    ensures !(exists j: nat :: Serves(ws, acts, j, k)) ==>
              forall e: Event | InFlight(ws, acts, e, k) ::
                ws[k + 1] == ws[k].(waiting := ws[k].waiting[acts[k].caller := e])
                && Enabled(ws[k + 1], EndStep(acts[k].caller))
    ensures forall e: Event | Began(ws, acts, k, e) :: InPhase(ws[k + 1], e, Spawning(acts[k].caller))
    ensures (exists e :: Began(ws, acts, k, e)) <==>
              !(exists j: nat :: Serves(ws, acts, j, k)) && !(exists e :: InFlight(ws, acts, e, k))
  {
    ServesIff(ws, acts, k);
    RunKeepsInv(ws, acts, k);
    forall e: Event ensures ws[k].cache.probing == Some(e) <==> InFlight(ws, acts, e, k) {
      SlotByEvents(ws, acts, k, e);
    }
    hide InFlight, Serves, SlotOwned, CheckedOnce;
    if ws[k].cache.probing.Some? {
      assert InFlight(ws, acts, ws[k].cache.probing.value, k);
    } else if ws[k].now >= ws[k].cache.servedUntil {
      assert Began(ws, acts, k, ws[k].next);
    }
  }

  // ----- the base-path check ---------------------------------------------------------------

  /** There was an answer since the latest reset before `n`. */
  ghost predicate AnsweredSince(ws: seq<World>, acts: seq<Action>, n: nat)
    requires |ws| == |acts| + 1 && n <= |acts|
  {
    exists j: nat :: j < n && Answered(ws, acts, j) && NoReset(acts, j, n)
  }

  lemma {:induction false} CheckedIff(ws: seq<World>, acts: seq<Action>, n: nat)
    requires IsRun(ws, acts) && n <= |acts|
    ensures ws[n].cache.basePathChecked == ws[n].cache.generation <==> AnsweredSince(ws, acts, n)
    decreases n
  {
    hide Step, Enabled, Answered, AnsweredSince, Calm;
    if n > 0 {
      CheckedIff(ws, acts, n - 1);
      SinceStep(ws, acts, n);
      ServedStep(ws, acts, n - 1);
    } else {
      NoneSince(ws, acts);
    }
  }

  lemma NoneSince(ws: seq<World>, acts: seq<Action>)
    requires |ws| == |acts| + 1
    ensures !AnsweredSince(ws, acts, 0)
  {
  }

  lemma SinceStep(ws: seq<World>, acts: seq<Action>, n: nat)
    requires |ws| == |acts| + 1 && 0 < n <= |acts|
    ensures AnsweredSince(ws, acts, n) <==>
              Answered(ws, acts, n - 1) || (AnsweredSince(ws, acts, n - 1) && Calm(acts, n - 1))
  {
    if Answered(ws, acts, n - 1) {
      ReturnsAnswer(ws, acts, n - 1);
      assert NoReset(acts, n - 1, n);
    } else {
      hide Answered, MournedAgain;
      if AnsweredSince(ws, acts, n) {
        var j: nat :| j < n && Answered(ws, acts, j) && NoReset(acts, j, n);
        assert NoReset(acts, j, n - 1);
      }
      if AnsweredSince(ws, acts, n - 1) && Calm(acts, n - 1) {
        var j: nat :| j < n - 1 && Answered(ws, acts, j) && NoReset(acts, j, n - 1);
        assert NoReset(acts, j, n);
      }
    }
  }

  lemma ReturnsAnswer(ws: seq<World>, acts: seq<Action>, j: nat)
    requires |ws| == |acts| + 1 && Answered(ws, acts, j)
    ensures acts[j].ProbeReturns?
  {
  }

  /** The base-path check is started by exactly the first answer after each reset. */
  lemma CheckByEvents(ws: seq<World>, acts: seq<Action>, k: nat)
    requires IsRun(ws, acts) && k < |acts|
    ensures |ws[k + 1].checks| == |ws[k].checks| + 1 <==> Answered(ws, acts, k) && !AnsweredSince(ws, acts, k)
    ensures |ws[k + 1].checks| != |ws[k].checks| + 1 ==> ws[k + 1].checks == ws[k].checks
  {
    CheckedIff(ws, acts, k);
    AnsweredIff(ws, acts, k);
    hide Answered, AnsweredSince;
  }
}
