/** The worker pool as a transition system. One action is one step between two points where another
    thread can interfere: taking the mutex, what is done under it before it is released, the two
    notifications (which happen after the mutex is released), and running a job. Waking up without
    a notification is allowed, as it is for any condition variable. */
module ThreadPool {

  datatype Worker =
    | Outside            // wants the mutex at the top of its loop
    | Checking           // holds the mutex, about to evaluate the wait predicate
    | Asleep             // blocked in wait
    | Notified           // woken, wants the mutex to evaluate the predicate again
    | Running(job: nat)
    | Exited

  datatype Holder = Free | ByWorker(i: nat) | ByProducer | ByShutdown

  datatype Stage =
    | Open               // shutdown_ is false
    | Announcing         // shutdown_ is true, notify_all is still to come
    | Joining            // waiting for the workers to exit

  /** Jobs are numbered in the order in which they are accepted. `stranded`: a job was accepted
      when every worker had exited. */
  datatype Pool = Pool(
    workers: seq<Worker>, queue: seq<nat>, limit: nat, holder: Holder, stage: Stage,
    notifications: nat, accepted: nat, finished: set<nat>, stranded: bool)
  {
    predicate AllExited() { forall i :: 0 <= i < |workers| ==> workers[i] == Exited }

    predicate NoneAsleep() { forall i :: 0 <= i < |workers| ==> workers[i] != Asleep }

    function Started(): int { accepted - |queue| }

    function Set(i: nat, w: Worker): Pool
      requires i < |workers|
    {
      this.(workers := workers[i := w])
    }
  }

  function Initial(threads: nat, limit: nat): Pool {
    Pool(seq(threads, _ => Outside), [], limit, Free, Open, 0, 0, {}, false)
  }

  datatype Action =
    | ProducerLocks | ProducerRejected | ProducerPushes | NotifyOne(w: nat)
    | ShutdownLocks | ShutdownSets | NotifyAll
    | WorkerLocks(i: nat) | WorkerSleeps(i: nat) | WorkerTakes(i: nat) | WorkerExits(i: nat)
    | WorkerFinishes(i: nat) | WakesSpuriously(i: nat)

  /** The predicate that `wait` waits for. */
  predicate Ready(s: Pool) { s.queue != [] || s.stage != Open }

  predicate IsWorker(s: Pool, i: nat, w: Worker) { i < |s.workers| && s.workers[i] == w }

  predicate Enabled(s: Pool, a: Action) {
    match a
    case ProducerLocks => s.holder == Free
    case ProducerRejected => s.holder == ByProducer && s.limit > 0 && |s.queue| >= s.limit
    case ProducerPushes => s.holder == ByProducer && !(s.limit > 0 && |s.queue| >= s.limit)
    case NotifyOne(w) => s.notifications > 0 && (IsWorker(s, w, Asleep) || s.NoneAsleep())
    case ShutdownLocks => s.holder == Free && s.stage == Open
    case ShutdownSets => s.holder == ByShutdown
    case NotifyAll => s.stage == Announcing
    case WorkerLocks(i) => s.holder == Free && (IsWorker(s, i, Outside) || IsWorker(s, i, Notified))
    case WorkerSleeps(i) => IsWorker(s, i, Checking) && !Ready(s)
    case WorkerTakes(i) => IsWorker(s, i, Checking) && s.queue != []
    case WorkerExits(i) => IsWorker(s, i, Checking) && s.stage != Open && s.queue == []
    case WorkerFinishes(i) => i < |s.workers| && s.workers[i].Running?
    case WakesSpuriously(i) => IsWorker(s, i, Asleep)
  }

  function Apply(s: Pool, a: Action): Pool
    requires Enabled(s, a)
  {
    match a
    case ProducerLocks => s.(holder := ByProducer)
    case ProducerRejected => s.(holder := Free)
    case ProducerPushes =>
      s.(holder := Free, queue := s.queue + [s.accepted], accepted := s.accepted + 1,
         notifications := s.notifications + 1, stranded := s.stranded || s.AllExited())
    case NotifyOne(w) =>
      (if s.NoneAsleep() then s else s.Set(w, Notified)).(notifications := s.notifications - 1)
    case ShutdownLocks => s.(holder := ByShutdown)
    case ShutdownSets => s.(holder := Free, stage := Announcing)
    case NotifyAll =>
      s.(stage := Joining,
         workers := seq(|s.workers|, i requires 0 <= i < |s.workers| =>
                      if s.workers[i] == Asleep then Notified else s.workers[i]))
    case WorkerLocks(i) => s.Set(i, Checking).(holder := ByWorker(i))
    case WorkerSleeps(i) => s.Set(i, Asleep).(holder := Free)
    case WorkerTakes(i) => s.Set(i, Running(s.queue[0])).(holder := Free, queue := s.queue[1..])
    case WorkerExits(i) => s.Set(i, Exited).(holder := Free)
    case WorkerFinishes(i) => s.Set(i, Outside).(finished := s.finished + {s.workers[i].job})
    case WakesSpuriously(i) => s.Set(i, Notified)
  }

  // ----- runs

  predicate Possible(s: Pool, actions: seq<Action>)
    decreases |actions|
  {
    actions == [] || (Enabled(s, actions[0]) && Possible(Apply(s, actions[0]), actions[1..]))
  }

  function After(s: Pool, actions: seq<Action>): Pool
    requires Possible(s, actions)
    decreases |actions|
  {
    if actions == [] then s else After(Apply(s, actions[0]), actions[1..])
  }

  // ----- counting

  function Rechecks(w: Worker): nat { if w == Outside || w == Checking || w == Notified then 1 else 0 }

  /** Workers that will evaluate the wait predicate before they can sleep. */
  function Rechecking(ws: seq<Worker>): nat {
    if ws == [] then 0 else Rechecks(ws[0]) + Rechecking(ws[1..])
  }

  lemma {:induction false} RecheckingUpdate(ws: seq<Worker>, i: nat, w: Worker)
    requires i < |ws|
    ensures Rechecking(ws[i := w]) == Rechecking(ws) - Rechecks(ws[i]) + Rechecks(w)
  {
    if i == 0 {
      assert ws[i := w][1..] == ws[1..];
    } else {
      assert ws[i := w][1..] == ws[1..][i - 1 := w];
      RecheckingUpdate(ws[1..], i - 1, w);
    }
  }

  // ----- the invariant

  ghost predicate BeingRun(s: Pool, j: nat) { exists i :: 0 <= i < |s.workers| && s.workers[i] == Running(j) }

  ghost predicate JobsInOrder(s: Pool) {
    && |s.queue| <= s.accepted
    && forall k :: 0 <= k < |s.queue| ==> s.queue[k] == s.Started() + k
  }

  ghost predicate JobsAccounted(s: Pool) {
    && (forall j :: j in s.finished ==> 0 <= j < s.Started())
    && (forall i :: 0 <= i < |s.workers| && s.workers[i].Running? ==>
          s.workers[i].job < s.Started() && s.workers[i].job !in s.finished)
    && (forall i, k :: 0 <= i < k < |s.workers| && s.workers[i].Running? && s.workers[k].Running? ==>
          s.workers[i].job != s.workers[k].job)
    && (forall j: nat :: j < s.Started() ==> j in s.finished || BeingRun(s, j))
  }

  ghost predicate MutexHeld(s: Pool) {
    && (forall i :: 0 <= i < |s.workers| ==> (s.workers[i] == Checking <==> s.holder == ByWorker(i)))
    && (s.holder.ByWorker? ==> s.holder.i < |s.workers|)
    && (s.holder == ByShutdown ==> s.stage == Open)
  }

  ghost predicate NoWakeupLost(s: Pool) {
    s.NoneAsleep() || |s.queue| <= s.notifications + Rechecking(s.workers)
  }

  ghost predicate ShutdownState(s: Pool) {
    && (s.stage == Joining ==> s.NoneAsleep())
    && ((exists i :: 0 <= i < |s.workers| && s.workers[i] == Exited) ==> s.stage != Open)
    && (|s.workers| > 0 ==> s.AllExited() ==> (s.queue == [] <==> !s.stranded))
    && (|s.workers| > 0 ==> s.stranded ==> s.AllExited())
  }

  ghost predicate Inv(s: Pool) {
    && JobsInOrder(s) && JobsAccounted(s) && MutexHeld(s) && NoWakeupLost(s) && ShutdownState(s)
    && (s.limit > 0 ==> |s.queue| <= s.limit)
  }

  lemma InitialInv(threads: nat, limit: nat)
    ensures Inv(Initial(threads, limit))
  {
    var s := Initial(threads, limit);
    assert threads > 0 ==> s.workers[0] != Exited;
  }

  /** One worker moves; its contribution to the re-checking workers follows. */
  lemma WakeupsAfterMove(s: Pool, t: Pool, i: nat, w: Worker)
    requires NoWakeupLost(s) && i < |s.workers| && t.workers == s.workers[i := w] && w != Asleep
    requires t.notifications - |t.queue| + Rechecks(w) >= s.notifications - |s.queue| + Rechecks(s.workers[i])
    ensures NoWakeupLost(t)
  {
    RecheckingUpdate(s.workers, i, w);
    assert forall k :: 0 <= k < |t.workers| && t.workers[k] == Asleep ==> s.workers[k] == Asleep;
  }

  lemma KeepsWakeups(s: Pool, a: Action)
    requires Inv(s) && Enabled(s, a)
    ensures NoWakeupLost(Apply(s, a))
  {
    hide JobsInOrder, JobsAccounted, ShutdownState;
    var t := Apply(s, a);
    match a {
      case NotifyOne(w) => if !s.NoneAsleep() { WakeupsAfterMove(s, t, w, Notified); }
      case NotifyAll => assert t.NoneAsleep();
      case WorkerLocks(i) => WakeupsAfterMove(s, t, i, Checking);
      case WorkerSleeps(i) => assert t.queue == [];
      case WorkerTakes(i) => WakeupsAfterMove(s, t, i, t.workers[i]);
      case WorkerExits(i) => assert t.queue == [];
      case WorkerFinishes(i) => WakeupsAfterMove(s, t, i, Outside);
      case WakesSpuriously(i) => WakeupsAfterMove(s, t, i, Notified);
      case _ => assert t.workers == s.workers;
    }
  }

  /** Taking the oldest job: its number is the number of jobs started before it. */
  lemma KeepsJobsTaking(s: Pool, i: nat)
    requires Inv(s) && Enabled(s, WorkerTakes(i))
    ensures var t := Apply(s, WorkerTakes(i)); JobsInOrder(t) && JobsAccounted(t)
    ensures s.queue[0] == s.Started()
  {
    var t := Apply(s, WorkerTakes(i));
    assert t.workers[i] == Running(s.Started());
    forall j: nat | j < t.Started() && j !in t.finished ensures BeingRun(t, j) {
      if j < s.Started() {
        var k :| 0 <= k < |s.workers| && s.workers[k] == Running(j);
        assert t.workers[k] == Running(j);
      }
    }
  }

  lemma KeepsJobsFinishing(s: Pool, i: nat)
    requires Inv(s) && Enabled(s, WorkerFinishes(i))
    ensures var t := Apply(s, WorkerFinishes(i)); JobsInOrder(t) && JobsAccounted(t)
  {
    var t := Apply(s, WorkerFinishes(i));
    assert forall k :: 0 <= k < |t.workers| && t.workers[k].Running? ==> k != i && t.workers[k] == s.workers[k];
    forall j: nat | j < t.Started() && j !in t.finished ensures BeingRun(t, j) {
      var k :| 0 <= k < |s.workers| && s.workers[k] == Running(j);
      assert t.workers[k] == Running(j);
    }
  }

  /** An action that starts and finishes nothing. */
  lemma KeepsJobsOtherwise(s: Pool, t: Pool)
    requires Inv(s) && |t.workers| == |s.workers| && t.finished == s.finished && t.Started() == s.Started()
    requires forall k :: 0 <= k < |s.workers| && (s.workers[k].Running? || t.workers[k].Running?) ==>
               t.workers[k] == s.workers[k]
    ensures JobsAccounted(t)
  {
    forall j: nat | j < t.Started() && j !in t.finished ensures BeingRun(t, j) {
      var k :| 0 <= k < |s.workers| && s.workers[k] == Running(j);
      assert t.workers[k] == Running(j);
    }
  }

  lemma KeepsJobs(s: Pool, a: Action)
    requires Inv(s) && Enabled(s, a)
    ensures JobsInOrder(Apply(s, a)) && JobsAccounted(Apply(s, a))
  {
    hide JobsAccounted;
    if a.WorkerTakes? {
      KeepsJobsTaking(s, a.i);
    } else if a.WorkerFinishes? {
      KeepsJobsFinishing(s, a.i);
    } else {
      KeepsJobsOtherwise(s, Apply(s, a));
    }
  }

  lemma KeepsShutdownState(s: Pool, a: Action)
    requires Inv(s) && Enabled(s, a)
    ensures ShutdownState(Apply(s, a))
  {
    hide JobsInOrder, JobsAccounted, NoWakeupLost;
    var t := Apply(s, a);
    if a.NotifyOne? && s.NoneAsleep() {
    } else if a.NotifyOne? || a.WorkerLocks? || a.WorkerSleeps? || a.WorkerTakes? || a.WorkerFinishes? || a.WakesSpuriously? {
      var i := if a.NotifyOne? then a.w else a.i;
      assert s.workers[i] != Exited && t.workers[i] != Exited;
      assert forall k :: 0 <= k < |s.workers| && k != i ==> t.workers[k] == s.workers[k];
    } else if a.WorkerExits? {
      assert s.workers[a.i] != Exited;
      assert forall k :: 0 <= k < |s.workers| && k != a.i ==> t.workers[k] == s.workers[k];
    } else {
      assert forall k :: 0 <= k < |s.workers| ==> (t.workers[k] == Exited <==> s.workers[k] == Exited);
    }
  }

  lemma KeepsMutex(s: Pool, a: Action)
    requires Inv(s) && Enabled(s, a)
    ensures MutexHeld(Apply(s, a))
  {
    hide JobsInOrder, JobsAccounted, NoWakeupLost, ShutdownState;
  }

  /** Every action keeps the invariant. */
  lemma StepKeepsInv(s: Pool, a: Action)
    requires Inv(s) && Enabled(s, a)
    ensures Inv(Apply(s, a))
  {
    KeepsWakeups(s, a);
    KeepsJobs(s, a);
    KeepsShutdownState(s, a);
    KeepsMutex(s, a);
  }

  lemma {:induction false} RunKeepsInv(s: Pool, actions: seq<Action>)
    requires Inv(s) && Possible(s, actions)
    ensures Inv(After(s, actions))
    decreases |actions|
  {
    if actions != [] {
      StepKeepsInv(s, actions[0]);
      RunKeepsInv(Apply(s, actions[0]), actions[1..]);
    }
  }

  // ----- what holds in every run

  /** A sleeping worker never leaves jobs unattended: each queued job is matched by a notification
      on its way or by a worker that will still look at the queue. */
  lemma NoLostWakeup(threads: nat, limit: nat, actions: seq<Action>)
    requires Possible(Initial(threads, limit), actions)
    ensures var s := After(Initial(threads, limit), actions);
            && (!s.NoneAsleep() ==> |s.queue| <= s.notifications + Rechecking(s.workers))
            && (s.queue != [] && s.notifications == 0 && Rechecking(s.workers) == 0 ==> s.NoneAsleep())
  {
    InitialInv(threads, limit);
    RunKeepsInv(Initial(threads, limit), actions);
  }

  ghost predicate Queued(s: Pool, j: nat) { exists k :: 0 <= k < |s.queue| && s.queue[k] == j }
  ghost predicate Finished(s: Pool, j: nat) { j in s.finished }

  /** Conservation: an accepted job is queued, running or finished, never two of these, never twice
      in the queue and never on two workers; and a bounded queue keeps its bound. */
  lemma JobsConserved(threads: nat, limit: nat, actions: seq<Action>)
    requires Possible(Initial(threads, limit), actions)
    ensures var s := After(Initial(threads, limit), actions);
            && (forall j: nat :: j < s.accepted <==> Queued(s, j) || BeingRun(s, j) || Finished(s, j))
            && (forall j: nat :: !(Queued(s, j) && BeingRun(s, j)) && !(Queued(s, j) && Finished(s, j))
                                 && !(BeingRun(s, j) && Finished(s, j)))
            && (forall k, l :: 0 <= k < l < |s.queue| ==> s.queue[k] < s.queue[l])
            && (forall i, k :: 0 <= i < k < |s.workers| && s.workers[i].Running? ==> s.workers[i] != s.workers[k])
            && (limit > 0 ==> |s.queue| <= limit)
  {
    var s := After(Initial(threads, limit), actions);
    InitialInv(threads, limit);
    RunKeepsInv(Initial(threads, limit), actions);
    LimitFixed(Initial(threads, limit), actions);
    forall j: nat | s.Started() <= j < s.accepted ensures Queued(s, j) {
      assert s.queue[j - s.Started()] == j;
    }
  }

  lemma {:induction false} LimitFixed(s: Pool, actions: seq<Action>)
    requires Possible(s, actions)
    ensures After(s, actions).limit == s.limit && |After(s, actions).workers| == |s.workers|
    decreases |actions|
  {
    if actions != [] { LimitFixed(Apply(s, actions[0]), actions[1..]); }
  }

  /** The jobs a run starts, in the order in which it starts them. */
  function StartLog(s: Pool, actions: seq<Action>): seq<nat>
    requires Possible(s, actions)
    decreases |actions|
  {
    if actions == [] then []
    else (if actions[0].WorkerTakes? then [s.queue[0]] else []) + StartLog(Apply(s, actions[0]), actions[1..])
  }

  /** Only taking a job starts one, and it starts the next in line. */
  lemma StartsNext(s: Pool, a: Action)
    requires Inv(s) && Enabled(s, a)
    ensures Apply(s, a).Started() == s.Started() + if a.WorkerTakes? then 1 else 0
    ensures a.WorkerTakes? ==> s.queue[0] == s.Started()
  {
  }

  lemma {:induction false} StartsInOrder(s: Pool, actions: seq<Action>)
    requires Inv(s) && Possible(s, actions)
    ensures var log := StartLog(s, actions);
            && |log| == After(s, actions).Started() - s.Started()
            && forall k :: 0 <= k < |log| ==> log[k] == s.Started() + k
    decreases |actions|
  {
    if actions != [] {
      hide Inv;
      var t := Apply(s, actions[0]);
      StepKeepsInv(s, actions[0]);
      StartsInOrder(t, actions[1..]);
      StartsNext(s, actions[0]);
    }
  }

  /** Jobs start in acceptance order, each once: the k-th job started is the k-th accepted. */
  lemma JobsStartInAcceptanceOrder(threads: nat, limit: nat, actions: seq<Action>)
    requires Possible(Initial(threads, limit), actions)
    ensures var log := StartLog(Initial(threads, limit), actions);
            forall k :: 0 <= k < |log| ==> log[k] == k
  {
    InitialInv(threads, limit);
    StartsInOrder(Initial(threads, limit), actions);
  }

  // ----- draining after shutdown

  function Weight(w: Worker): nat {
    match w
    case Asleep => 4
    case Running(_) => 4
    case Outside => 3
    case Notified => 3
    case Checking => 2
    case Exited => 0
  }

  function Weights(ws: seq<Worker>): nat {
    if ws == [] then 0 else Weight(ws[0]) + Weights(ws[1..])
  }

  lemma {:induction false} WeightsUpdate(ws: seq<Worker>, i: nat, w: Worker)
    requires i < |ws|
    ensures Weights(ws[i := w]) == Weights(ws) - Weight(ws[i]) + Weight(w)
  {
    if i == 0 {
      assert ws[i := w][1..] == ws[1..];
    } else {
      assert ws[i := w][1..] == ws[1..][i - 1 := w];
      WeightsUpdate(ws[1..], i - 1, w);
    }
  }

  lemma {:induction false} WeightsDrop(ws: seq<Worker>, us: seq<Worker>)
    requires |ws| == |us|
    requires forall i :: 0 <= i < |ws| ==> us[i] == if ws[i] == Asleep then Notified else ws[i]
    ensures Weights(us) <= Weights(ws)
  {
    if ws != [] { WeightsDrop(ws[1..], us[1..]); }
  }

  /** Work left once shutdown has been announced and nothing more is enqueued. */
  function Remaining(s: Pool): nat {
    3 * |s.queue| + Weights(s.workers) + s.notifications + (if s.stage == Announcing then 1 else 0)
  }

  /** Shutdown announced, no producer inside enqueue. */
  ghost predicate Draining(s: Pool) { Inv(s) && s.stage != Open && s.holder != ByProducer && s.holder != ByShutdown }

  lemma DrainStep(s: Pool, a: Action)
    requires Draining(s) && Enabled(s, a) && a != ProducerLocks
    ensures var t := Apply(s, a);
            Draining(t) && Remaining(t) < Remaining(s) && t.accepted == s.accepted && t.stranded == s.stranded
  {
    hide Inv, Remaining;
    StepKeepsInv(s, a);
    DrainMeasure(s, a);
    StillDraining(s, a);
  }

  lemma StillDraining(s: Pool, a: Action)
    requires Draining(s) && Enabled(s, a) && a != ProducerLocks
    ensures var t := Apply(s, a);
            && t.stage != Open && t.holder != ByProducer && t.holder != ByShutdown
            && t.accepted == s.accepted && t.stranded == s.stranded
  {
    hide Inv;
  }

  lemma DrainMeasure(s: Pool, a: Action)
    requires Draining(s) && Enabled(s, a) && a != ProducerLocks
    ensures Remaining(Apply(s, a)) < Remaining(s)
  {
    hide Inv;
    var t := Apply(s, a);
    match a {
      case NotifyOne(w) => if !s.NoneAsleep() { WeightsUpdate(s.workers, w, Notified); }
      case NotifyAll => WeightsDrop(s.workers, t.workers);
      case WorkerLocks(i) => WeightsUpdate(s.workers, i, Checking);
      case WorkerTakes(i) => WeightsUpdate(s.workers, i, t.workers[i]);
      case WorkerExits(i) => WeightsUpdate(s.workers, i, Exited);
      case WorkerFinishes(i) => WeightsUpdate(s.workers, i, Outside);
      case WakesSpuriously(i) => WeightsUpdate(s.workers, i, Notified);
      case _ =>
    }
  }

  /** While a worker has not exited, somebody can move. */
  lemma DrainProgress(s: Pool) returns (a: Action)
    requires Draining(s) && !s.AllExited()
    ensures Enabled(s, a) && a != ProducerLocks
  {
    if s.holder.ByWorker? {
      a := if s.queue != [] then WorkerTakes(s.holder.i) else WorkerExits(s.holder.i);
    } else if s.stage == Announcing {
      a := NotifyAll;
    } else {
      var i :| 0 <= i < |s.workers| && s.workers[i] != Exited;
      a := if s.workers[i].Running? then WorkerFinishes(i) else WorkerLocks(i);
    }
  }

  ghost predicate NothingEnqueued(actions: seq<Action>) {
    forall k :: 0 <= k < |actions| ==> actions[k] != ProducerLocks
  }

  /** After shutdown every run without an enqueue is finite, with a bound known in advance. */
  lemma {:induction false} DrainTerminates(s: Pool, actions: seq<Action>)
    requires Draining(s) && Possible(s, actions) && NothingEnqueued(actions)
    ensures |actions| + Remaining(After(s, actions)) <= Remaining(s)
    ensures Draining(After(s, actions))
    ensures After(s, actions).accepted == s.accepted && After(s, actions).stranded == s.stranded
    decreases |actions|
  {
    if actions != [] {
      assert actions[0] != ProducerLocks;
      DrainStep(s, actions[0]);
      assert forall k :: 0 <= k < |actions[1..]| ==> actions[1..][k] == actions[k + 1];
      DrainTerminates(Apply(s, actions[0]), actions[1..]);
    }
  }

  lemma DrainedFrom(s: Pool, actions: seq<Action>)
    requires Draining(s) && |s.workers| > 0 && !s.stranded
    requires Possible(s, actions) && NothingEnqueued(actions)
    requires forall a :: Enabled(After(s, actions), a) ==> a == ProducerLocks
    ensures var t := After(s, actions);
            && t.AllExited() && t.NoneAsleep() && t.queue == []
            && t.accepted == s.accepted && forall j :: j in t.finished <==> 0 <= j < s.accepted
  {
    DrainTerminates(s, actions);
    LimitFixed(s, actions);
    var t := After(s, actions);
    if !t.AllExited() {
      var a := DrainProgress(t);
      assert false;
    }
    assert forall j: nat :: !BeingRun(t, j);
  }

  /** Drain: once shutdown has been announced and no producer is inside `enqueue`, a run that enqueues
      nothing and cannot be continued has woken every sleeper, seen every worker exit, and run every
      accepted job, each exactly once, provided none was accepted after the last worker had gone. */
  lemma Drained(threads: nat, limit: nat, before: seq<Action>, actions: seq<Action>)
    requires threads > 0 && Possible(Initial(threads, limit), before) && !PushedLate(Initial(threads, limit), before)
    requires var s := After(Initial(threads, limit), before);
             && s.stage != Open && s.holder != ByProducer
             && Possible(s, actions) && NothingEnqueued(actions)
             && (forall a :: Enabled(After(s, actions), a) ==> a == ProducerLocks)
    ensures var s := After(Initial(threads, limit), before); var t := After(s, actions);
            && t.AllExited() && t.NoneAsleep() && t.queue == []
            && t.accepted == s.accepted && forall j :: j in t.finished <==> 0 <= j < s.accepted
  {
    InitialInv(threads, limit);
    RunKeepsInv(Initial(threads, limit), before);
    LimitFixed(Initial(threads, limit), before);
    StrandedIff(Initial(threads, limit), before);
    DrainedFrom(After(Initial(threads, limit), before), actions);
  }

  /** At some point of the run a job is accepted when every worker has exited. */
  predicate PushedLate(s: Pool, actions: seq<Action>)
    requires Possible(s, actions)
    decreases |actions|
  {
    actions != []
    && ((actions[0].ProducerPushes? && s.AllExited()) || PushedLate(Apply(s, actions[0]), actions[1..]))
  }

  lemma {:induction false} StrandedIff(s: Pool, actions: seq<Action>)
    requires Possible(s, actions)
    ensures After(s, actions).stranded <==> s.stranded || PushedLate(s, actions)
    decreases |actions|
  {
    if actions != [] { StrandedIff(Apply(s, actions[0]), actions[1..]); }
  }

  /** When the threads have been joined, all accepted jobs have run if and only if none was accepted
      after the last worker exited. */
  lemma JoinedMeansDone(threads: nat, limit: nat, actions: seq<Action>)
    requires threads > 0 && Possible(Initial(threads, limit), actions)
    requires After(Initial(threads, limit), actions).AllExited()
    ensures var s := After(Initial(threads, limit), actions);
            (forall j :: 0 <= j < s.accepted ==> j in s.finished) <==> !PushedLate(Initial(threads, limit), actions)
  {
    StrandedIff(Initial(threads, limit), actions);
    var s := After(Initial(threads, limit), actions);
    InitialInv(threads, limit);
    RunKeepsInv(Initial(threads, limit), actions);
    LimitFixed(Initial(threads, limit), actions);
    assert forall j: nat :: !BeingRun(s, j);
    if s.queue != [] { assert s.queue[0] !in s.finished; }
  }

  /** The other case does occur: enqueue does not look at the shutdown flag, so a job accepted after
      the last worker has gone stays in the queue. */
  lemma LateJobIsStranded() returns (actions: seq<Action>, s: Pool)
    ensures Possible(Initial(1, 0), actions) && s == After(Initial(1, 0), actions)
    ensures s.AllExited() && s.accepted == 1 && s.queue == [0] && s.finished == {}
  {
    hide Possible, After;
    var s0 := Pool([Outside], [], 0, Free, Open, 0, 0, {}, false);
    assert Initial(1, 0).workers == [Outside];
    var s2 := s0.(stage := Announcing);
    var s3 := s0.(stage := Joining);
    assert Apply(s2, NotifyAll) == s3;
    var s4 := s3.(workers := [Checking], holder := ByWorker(0));
    assert Apply(s3, WorkerLocks(0)) == s4;
    var s5 := s3.(workers := [Exited]);
    assert Apply(s4, WorkerExits(0)) == s5;
    var s6 := s5.(holder := ByProducer);
    s := s5.(queue := [0], accepted := 1, notifications := 1, stranded := true);
    assert Apply(s6, ProducerPushes) == s;
    actions := NoActions(s);
    actions := Prepend(s6, ProducerPushes, actions, s);
    actions := Prepend(s5, ProducerLocks, actions, s);
    actions := Prepend(s4, WorkerExits(0), actions, s);
    actions := Prepend(s3, WorkerLocks(0), actions, s);
    actions := Prepend(s2, NotifyAll, actions, s);
    actions := Prepend(s0.(holder := ByShutdown), ShutdownSets, actions, s);
    actions := Prepend(s0, ShutdownLocks, actions, s);
  }

  lemma NoActions(s: Pool) returns (actions: seq<Action>)
    ensures Possible(s, actions) && After(s, actions) == s
  {
    actions := [];
  }

  lemma Prepend(s: Pool, a: Action, rest: seq<Action>, end: Pool) returns (actions: seq<Action>)
    requires Enabled(s, a) && Possible(Apply(s, a), rest) && After(Apply(s, a), rest) == end
    ensures Possible(s, actions) && After(s, actions) == end
  {
    actions := [a] + rest;
    assert actions[1..] == rest;
  }
}
