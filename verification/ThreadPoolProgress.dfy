/** The pool before shutdown: it never gets stuck with work to do, and left to itself it runs every
    accepted job. */
module ThreadPoolProgress {
  import opened ThreadPool

  /** A step by which the pool works on what it has: no new call of `enqueue` or `shutdown`, and no
      wakeup without a notification. A producer already inside `enqueue` may leave it. */
  predicate Internal(a: Action) {
    !a.ProducerLocks? && !a.ShutdownLocks? && !a.ShutdownSets? && !a.NotifyAll? && !a.WakesSpuriously?
  }

  ghost predicate AllInternal(actions: seq<Action>) {
    forall k :: 0 <= k < |actions| ==> Internal(actions[k])
  }

  /** Shutdown has not begun. */
  ghost predicate Working(s: Pool) { Inv(s) && s.stage == Open && s.holder != ByShutdown }

  function Effort(w: Worker): nat {
    match w
    case Asleep => 0
    case Exited => 0
    case Checking => 1
    case Outside => 2
    case Notified => 2
    case Running(_) => 3
  }

  function Efforts(ws: seq<Worker>): nat { if ws == [] then 0 else Effort(ws[0]) + Efforts(ws[1..]) }

  lemma {:induction false} EffortsUpdate(ws: seq<Worker>, i: nat, w: Worker)
    requires i < |ws|
    ensures Efforts(ws[i := w]) == Efforts(ws) - Effort(ws[i]) + Effort(w)
  {
    if i == 0 {
      assert ws[i := w][1..] == ws[1..];
    } else {
      assert ws[i := w][1..] == ws[1..][i - 1 := w];
      EffortsUpdate(ws[1..], i - 1, w);
    }
  }

  /** How many internal steps there can be at most. */
  function Outstanding(s: Pool): nat {
    3 * |s.queue| + Efforts(s.workers) + 3 * s.notifications + if s.holder == ByProducer then 7 else 0
  }

  lemma InternalStep(s: Pool, a: Action)
    requires Working(s) && Enabled(s, a) && Internal(a)
    ensures Working(Apply(s, a)) && Outstanding(Apply(s, a)) < Outstanding(s)
    ensures Apply(s, a).accepted >= s.accepted
  {
    hide Inv;
    StepKeepsInv(s, a);
    StillOpen(s, a);
    StepOutstanding(s, a);
  }

  lemma StillOpen(s: Pool, a: Action)
    requires Working(s) && Enabled(s, a) && Internal(a)
    ensures var t := Apply(s, a); t.stage == Open && t.holder != ByShutdown && t.accepted >= s.accepted
  {
    assert a.WorkerExits? ==> s.stage != Open;
  }

  lemma StepOutstanding(s: Pool, a: Action)
    requires Working(s) && Enabled(s, a) && Internal(a)
    ensures Outstanding(Apply(s, a)) < Outstanding(s)
  {
    hide JobsInOrder, JobsAccounted, NoWakeupLost, ShutdownState;
    var t := Apply(s, a);
    match a {
      case NotifyOne(w) => if !s.NoneAsleep() { EffortsUpdate(s.workers, w, Notified); }
      case WorkerLocks(i) => EffortsUpdate(s.workers, i, Checking);
      case WorkerSleeps(i) => EffortsUpdate(s.workers, i, Asleep);
      case WorkerTakes(i) => EffortsUpdate(s.workers, i, t.workers[i]);
      case WorkerExits(i) => EffortsUpdate(s.workers, i, Exited);
      case WorkerFinishes(i) => EffortsUpdate(s.workers, i, Outside);
      case _ =>
    }
  }

  /** Some job is still waiting or being run. */
  ghost predicate Unfinished(s: Pool) { exists j :: 0 <= j < s.accepted && j !in s.finished }

  /** Work to do means that somebody can move without a new call and without shutdown. */
  lemma Progress(s: Pool) returns (a: Action)
    requires Working(s) && |s.workers| > 0
    requires Unfinished(s) || s.holder != Free
    ensures Enabled(s, a) && Internal(a)
  {
    if s.holder == ByProducer {
      a := if s.limit > 0 && |s.queue| >= s.limit then ProducerRejected else ProducerPushes;
    } else if s.holder.ByWorker? {
      a := if s.queue != [] then WorkerTakes(s.holder.i) else WorkerSleeps(s.holder.i);
    } else if exists i :: 0 <= i < |s.workers| && s.workers[i].Running? {
      var i :| 0 <= i < |s.workers| && s.workers[i].Running?;
      a := WorkerFinishes(i);
    } else if exists i :: 0 <= i < |s.workers| && (s.workers[i] == Outside || s.workers[i] == Notified) {
      var i :| 0 <= i < |s.workers| && (s.workers[i] == Outside || s.workers[i] == Notified);
      a := WorkerLocks(i);
    } else {
      AllSleep(s);
      a := NotifyOne(0);
    }
  }

  /** Nobody running, nobody about to look: the queue is what the notifications are for. */
  lemma AllSleep(s: Pool)
    requires Working(s) && |s.workers| > 0 && Unfinished(s) && s.holder == Free
    requires forall i :: 0 <= i < |s.workers| ==>
               !s.workers[i].Running? && s.workers[i] != Outside && s.workers[i] != Notified
    ensures s.notifications > 0 && s.workers[0] == Asleep
  {
    assert forall i :: 0 <= i < |s.workers| ==> s.workers[i] == Asleep;
    NobodyRechecks(s.workers);
    var j :| 0 <= j < s.accepted && j !in s.finished;
    assert !BeingRun(s, j);
    assert j >= s.Started();
  }

  lemma {:induction false} NobodyRechecks(ws: seq<Worker>)
    requires forall i :: 0 <= i < |ws| ==> ws[i] == Asleep
    ensures Rechecking(ws) == 0
  {
    if ws != [] { NobodyRechecks(ws[1..]); }
  }

  lemma {:induction false} WorkingRun(s: Pool, actions: seq<Action>)
    requires Working(s) && Possible(s, actions) && AllInternal(actions)
    ensures Working(After(s, actions)) && After(s, actions).accepted >= s.accepted
    ensures |actions| + Outstanding(After(s, actions)) <= Outstanding(s)
    decreases |actions|
  {
    hide Inv, Outstanding;
    if actions != [] {
      assert Internal(actions[0]);
      InternalStep(s, actions[0]);
      assert forall k :: 0 <= k < |actions[1..]| ==> actions[1..][k] == actions[k + 1];
      WorkingRun(Apply(s, actions[0]), actions[1..]);
    }
  }

  /** Nothing to do: every accepted job is finished, and the mutex is there for the next caller. */
  ghost predicate Settled(s: Pool) {
    && s.holder == Free && s.queue == [] && (forall j :: 0 <= j < s.accepted ==> j in s.finished)
    && Enabled(s, ProducerLocks) && (s.stage == Open ==> Enabled(s, ShutdownLocks))
  }

  lemma SettledIf(s: Pool)
    requires Working(s) && !Unfinished(s) && s.holder == Free
    ensures Settled(s)
  {
    if s.queue != [] {
      QueuedIsUnfinished(s);
      assert false;
    }
  }

  lemma QueuedIsUnfinished(s: Pool)
    requires Inv(s) && s.queue != []
    ensures Unfinished(s)
  {
    assert s.queue[0] < s.accepted && s.queue[0] !in s.finished;
  }

  /** A queued job is never out of reach: from every reachable state of an open pool with a worker and
      a job that has not finished, the pool can move by itself. */
  lemma NeverStuck(threads: nat, limit: nat, before: seq<Action>) returns (a: Action)
    requires threads > 0 && Possible(Initial(threads, limit), before)
    requires var s := After(Initial(threads, limit), before);
             s.stage == Open && s.holder != ByShutdown && (s.queue != [] || Unfinished(s))
    ensures Enabled(After(Initial(threads, limit), before), a) && Internal(a)
  {
    InitialInv(threads, limit);
    RunKeepsInv(Initial(threads, limit), before);
    LimitFixed(Initial(threads, limit), before);
    var s := After(Initial(threads, limit), before);
    if s.queue != [] { QueuedIsUnfinished(s); }
    a := Progress(s);
  }

  /** However it is scheduled, an open pool that is left alone comes to rest after a number of steps
      known in advance, and then every accepted job has finished. */
  lemma Completes(threads: nat, limit: nat, before: seq<Action>, actions: seq<Action>)
    requires threads > 0 && Possible(Initial(threads, limit), before)
    requires var s := After(Initial(threads, limit), before);
             s.stage == Open && s.holder != ByShutdown && Possible(s, actions) && AllInternal(actions)
    ensures var s := After(Initial(threads, limit), before);
            && |actions| <= Outstanding(s)
            && ((forall a :: Internal(a) ==> !Enabled(After(s, actions), a)) ==> Settled(After(s, actions)))
  {
    InitialInv(threads, limit);
    RunKeepsInv(Initial(threads, limit), before);
    LimitFixed(Initial(threads, limit), before);
    var s := After(Initial(threads, limit), before);
    WorkingRun(s, actions);
    LimitFixed(s, actions);
    var t := After(s, actions);
    if forall a :: Internal(a) ==> !Enabled(t, a) {
      if Unfinished(t) || t.holder != Free {
        var a := Progress(t);
        assert false;
      }
      SettledIf(t);
    }
  }

  lemma Continue(s: Pool) returns (actions: seq<Action>)
    requires Working(s) && |s.workers| > 0
    ensures Possible(s, actions) && AllInternal(actions) && Settled(After(s, actions))
    decreases Outstanding(s)
  {
    hide Inv, Outstanding;
    if Unfinished(s) || s.holder != Free {
      var a := Progress(s);
      InternalStep(s, a);
      var t := Apply(s, a);
      assert |t.workers| == |s.workers|;
      var rest := Continue(t);
      actions := [a] + rest;
      assert actions[1..] == rest;
    } else {
      SettledIf(s);
      actions := [];
    }
  }

  /** From every reachable state before shutdown some continuation without shutdown finishes all jobs. */
  lemma CanComplete(threads: nat, limit: nat, before: seq<Action>) returns (actions: seq<Action>)
    requires threads > 0 && Possible(Initial(threads, limit), before)
    requires var s := After(Initial(threads, limit), before); s.stage == Open && s.holder != ByShutdown
    ensures var s := After(Initial(threads, limit), before);
            Possible(s, actions) && AllInternal(actions) && Settled(After(s, actions))
  {
    InitialInv(threads, limit);
    RunKeepsInv(Initial(threads, limit), before);
    LimitFixed(Initial(threads, limit), before);
    actions := Continue(After(Initial(threads, limit), before));
  }

  /** Inside `enqueue` exactly one thing can happen: the job is accepted, at the end of the queue and
      with a notification to come, if and only if there is no limit or the queue is below it. */
  lemma EnqueueAcceptsIff(s: Pool)
    requires s.holder == ByProducer
    ensures Enabled(s, ProducerPushes) <==> s.limit == 0 || |s.queue| < s.limit
    ensures Enabled(s, ProducerRejected) <==> !(s.limit == 0 || |s.queue| < s.limit)
    ensures Enabled(s, ProducerPushes) ==>
              var t := Apply(s, ProducerPushes);
              && t.queue == s.queue + [s.accepted] && t.accepted == s.accepted + 1
              && t.notifications == s.notifications + 1 && t.holder == Free && t.workers == s.workers
    ensures Enabled(s, ProducerRejected) ==> Apply(s, ProducerRejected) == s.(holder := Free)
  {
  }

  // ----- shutdown can begin and end whatever is queued

  /** Who may enter when the mutex is free: any producer, a first shutdown, and every worker that wants
      to look at the queue; nobody may enter while somebody holds it. */
  lemma MutexIsFair(s: Pool, i: nat)
    requires i < |s.workers|
    ensures Enabled(s, ProducerLocks) <==> s.holder == Free
    ensures Enabled(s, ShutdownLocks) <==> s.holder == Free && s.stage == Open
    ensures Enabled(s, WorkerLocks(i)) <==> s.holder == Free && (s.workers[i] == Outside || s.workers[i] == Notified)
    ensures Enabled(s, NotifyOne(i)) <==> s.notifications > 0 && (s.workers[i] == Asleep || s.NoneAsleep())
  {
  }

  lemma DrainOn(s: Pool) returns (actions: seq<Action>)
    requires Draining(s) && |s.workers| > 0 && !s.stranded
    ensures Possible(s, actions) && NothingEnqueued(actions)
    ensures After(s, actions).AllExited() && After(s, actions).accepted == s.accepted
    ensures Inv(After(s, actions)) && !After(s, actions).stranded && |After(s, actions).workers| > 0
    decreases Remaining(s)
  {
    hide Inv, Remaining;
    if s.AllExited() {
      actions := [];
    } else {
      var a := DrainProgress(s);
      DrainStep(s, a);
      var rest := DrainOn(Apply(s, a));
      actions := [a] + rest;
      assert actions[1..] == rest;
    }
  }

  /** A shutdown that finds the mutex free, at any moment and with any queue, can be carried through:
      every worker exits, and every job accepted before has finished. */
  lemma ShutdownCanComplete(threads: nat, limit: nat, before: seq<Action>) returns (actions: seq<Action>)
    requires threads > 0 && Possible(Initial(threads, limit), before)
    requires var s := After(Initial(threads, limit), before); s.stage == Open && s.holder == Free
    ensures var s := After(Initial(threads, limit), before);
            && Possible(s, [ShutdownLocks, ShutdownSets] + actions)
            && var t := After(s, [ShutdownLocks, ShutdownSets] + actions);
               t.AllExited() && t.queue == [] && t.accepted == s.accepted && forall j :: 0 <= j < s.accepted ==> j in t.finished
  {
    InitialInv(threads, limit);
    RunKeepsInv(Initial(threads, limit), before);
    LimitFixed(Initial(threads, limit), before);
    var s := After(Initial(threads, limit), before);
    hide Inv, Enabled, Apply, Remaining;
    var b := ShutdownBegins(s);
    actions := DrainOn(b);
    Joined(After(b, actions));
    assert ([ShutdownSets] + actions)[1..] == actions;
    assert ([ShutdownLocks, ShutdownSets] + actions)[1..] == [ShutdownSets] + actions;
  }

  lemma ShutdownBegins(s: Pool) returns (t: Pool)
    requires Inv(s) && |s.workers| > 0 && s.stage == Open && s.holder == Free
    ensures Enabled(s, ShutdownLocks) && Enabled(Apply(s, ShutdownLocks), ShutdownSets)
    ensures t == Apply(Apply(s, ShutdownLocks), ShutdownSets)
    ensures Draining(t) && |t.workers| > 0 && !t.stranded && t.accepted == s.accepted
  {
    hide Inv;
    NotStranded(s);
    var a := Apply(s, ShutdownLocks);
    StepKeepsInv(s, ShutdownLocks);
    t := Apply(a, ShutdownSets);
    StepKeepsInv(a, ShutdownSets);
  }

  lemma NotStranded(s: Pool)
    requires Inv(s) && |s.workers| > 0 && s.stage == Open
    ensures !s.stranded
  {
    assert s.workers[0] != Exited;
  }

  lemma Joined(t: Pool)
    requires Inv(t) && t.AllExited() && |t.workers| > 0 && !t.stranded
    ensures t.queue == [] && forall j :: 0 <= j < t.accepted ==> j in t.finished
  {
    assert forall j: nat :: !BeingRun(t, j);
  }
}
