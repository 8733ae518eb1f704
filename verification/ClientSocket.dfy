/** Who may close the client's socket: `send`, `send_`, `stop` and the close inside
    `handle_request` as a transition system over any number of threads. Each action is one critical
    section of `socket_mutex_`, or the taking or releasing of the recursive `request_mutex_`. */
module ClientSocket {
  import opened Wrappers

  type Thread = nat

  /** How far one call of `send_` has come. */
  datatype Phase =
    | Entered              // holds the request mutex, has not looked at the socket yet
    | Reading(fd: nat)     // marked in flight, talking over this descriptor without a lock
    | Responded            // the response is in (or failed); a redirect may send again from here
    | Done                 // left through the exit guard, or never got a connection

  /** `stacks[t]` are thread t's unfinished sends, the innermost last. Every connection has a
      descriptor number of its own; `closed` lists the numbers closed so far. */
  datatype Client = Client(
    socket: Option<nat>, nextFd: nat, closed: seq<nat>,
    inFlight: nat, from: Option<Thread>, shouldClose: bool,
    owner: Option<Thread>, depth: nat, stacks: seq<seq<Phase>>, keepAlive: bool)
  {
    predicate IsThread(t: Thread) { t < |stacks| }

    predicate TopIs(t: Thread, p: Phase) {
      IsThread(t) && stacks[t] != [] && stacks[t][|stacks[t]| - 1] == p
    }

    predicate TopIsReading(t: Thread) {
      IsThread(t) && stacks[t] != [] && stacks[t][|stacks[t]| - 1].Reading?
    }

    function Top(t: Thread, p: Phase): Client
      requires IsThread(t) && stacks[t] != []
    {
      this.(stacks := stacks[t := stacks[t][..|stacks[t]| - 1] + [p]])
    }

    /** `close_socket`: nothing to do when no socket is open. */
    function CloseSocket(): Client {
      if socket.None? then this else this.(socket := None, closed := closed + [socket.value])
    }

    /** The assertion in `close_socket` and in `shutdown_ssl`. */
    predicate MayClose(t: Thread) { inFlight == 0 || from == Some(t) }
  }

  function Initial(threads: nat, keepAlive: bool): Client {
    Client(None, 0, [], 0, None, false, None, 0, seq(threads, _ => []), keepAlive)
  }

  datatype Action =
    | Acquire(t: Thread)
    | Begin(t: Thread, alive: bool, connected: bool)
    | Respond(t: Thread, ok: bool, close: bool)
    | End(t: Thread, ret: bool)
    | Release(t: Thread)
    | Stop(t: Thread)

  predicate Enabled(s: Client, a: Action) {
    match a
    case Acquire(t) => s.IsThread(t) && (s.owner == None || (s.owner == Some(t) && s.TopIs(t, Responded)))
    case Begin(t, _, _) => s.TopIs(t, Entered)
    case Respond(t, ok, close) => s.TopIsReading(t) && (close ==> ok)
    case End(t, _) => s.TopIs(t, Responded)
    case Release(t) => s.TopIs(t, Done)
    case Stop(t) => s.IsThread(t)
  }

  // ----- the parts of `send_` under the socket mutex

  /** The flag is reset and a dead connection is closed. */
  function DropDead(s: Client, alive: bool): Client {
    var r := s.(shouldClose := false);
    if r.socket.Some? && !alive then r.CloseSocket() else r
  }

  const SIZE_MAX: nat := 0xFFFF_FFFF_FFFF_FFFF

  /** The in-flight mark comes off an unsigned counter. */
  function Unmark(s: Client): Client {
    s.(inFlight := if s.inFlight == 0 then SIZE_MAX else s.inFlight - 1,
       from := if s.inFlight == 1 then None else s.from)
  }

  predicate ClosesAtEnd(s: Client, ret: bool) { s.shouldClose || !s.keepAlive || !ret }

  /** The assertions that the source checks while it performs the action, each in the state in
      which it is checked; for the exit guard also that the counter does not wrap below zero. */
  ghost predicate Asserts(s: Client, a: Action)
    requires Enabled(s, a)
  {
    match a
    case Begin(t, alive, _) =>
      && (s.socket.Some? && !alive ==> s.MayClose(t))
      && (s.inFlight > 1 ==> s.from == Some(t))
    case Respond(t, _, close) => close ==> s.MayClose(t)
    case End(t, ret) => s.inFlight > 0 && (ClosesAtEnd(s, ret) ==> Unmark(s).MayClose(t))
    case Stop(t) => s.inFlight == 0 ==> s.MayClose(t)
    case _ => true
  }

  function Apply(s: Client, a: Action): Client
    requires Enabled(s, a)
  {
    match a
    case Acquire(t) =>
      s.(owner := Some(t), depth := s.depth + 1, stacks := s.stacks[t := s.stacks[t] + [Entered]])
    case Begin(t, alive, connected) =>
      var r := DropDead(s, alive);
      if r.socket.None? && !connected then r.Top(t, Done)
      else
        var o := if r.socket.None? then r.(socket := Some(r.nextFd), nextFd := r.nextFd + 1) else r;
        o.(inFlight := o.inFlight + 1, from := Some(t)).Top(t, Reading(o.socket.value))
    case Respond(t, _, close) => (if close then s.CloseSocket() else s).Top(t, Responded)
    case End(t, ret) =>
      var r := Unmark(s);
      (if ClosesAtEnd(s, ret) then r.CloseSocket() else r).Top(t, Done)
    case Release(t) =>
      s.(owner := if s.depth == 1 then None else s.owner, depth := if s.depth == 0 then 0 else s.depth - 1,
         stacks := s.stacks[t := s.stacks[t][..|s.stacks[t]| - 1]])
    case Stop(t) => if s.inFlight > 0 then s.(shouldClose := true) else s.CloseSocket()
  }

  // ----- the invariant

  predicate Active(p: Phase) { p.Reading? || p.Responded? }

  /** Sends that are marked in flight. */
  function ActiveSends(stack: seq<Phase>): nat {
    if stack == [] then 0
    else ActiveSends(stack[..|stack| - 1]) + if Active(stack[|stack| - 1]) then 1 else 0
  }

  lemma ActiveAppend(stack: seq<Phase>, p: Phase)
    ensures ActiveSends(stack + [p]) == ActiveSends(stack) + if Active(p) then 1 else 0
  {
    assert (stack + [p])[..|stack|] == stack;
  }

  ghost predicate OneSender(s: Client) {
    && (s.owner == None <==> s.depth == 0)
    && (s.owner.Some? ==> s.IsThread(s.owner.value) && |s.stacks[s.owner.value]| == s.depth)
    && (forall t :: 0 <= t < |s.stacks| && s.stacks[t] != [] ==> s.owner == Some(t))
    && (forall t, k :: 0 <= t < |s.stacks| && 0 <= k < |s.stacks[t]| - 1 ==> s.stacks[t][k] == Responded)
  }

  ghost predicate InFlightCounts(s: Client) {
    && (s.owner == None ==> s.inFlight == 0)
    && (s.owner.Some? && s.IsThread(s.owner.value) ==> s.inFlight == ActiveSends(s.stacks[s.owner.value]))
    && s.from == (if s.inFlight == 0 then None else s.owner)
  }

  ghost predicate DescriptorsFresh(s: Client) {
    && (s.socket.Some? ==> s.socket.value < s.nextFd && s.socket.value !in s.closed)
    && (forall k :: 0 <= k < |s.closed| ==> s.closed[k] < s.nextFd)
    && (forall k, l :: 0 <= k < l < |s.closed| ==> s.closed[k] != s.closed[l])
  }

  ghost predicate ReaderHasSocket(s: Client) {
    forall t :: 0 <= t < |s.stacks| && s.TopIsReading(t) ==>
      s.socket == Some(s.stacks[t][|s.stacks[t]| - 1].fd)
  }

  ghost predicate Inv(s: Client) {
    OneSender(s) && InFlightCounts(s) && DescriptorsFresh(s) && ReaderHasSocket(s)
  }

  lemma InitialInv(threads: nat, keepAlive: bool)
    ensures Inv(Initial(threads, keepAlive))
  {
  }

  /** The thread whose innermost send moves is the owner of the request mutex. */
  lemma MoverIsOwner(s: Client, t: Thread)
    requires Inv(s) && s.IsThread(t) && s.stacks[t] != []
    ensures s.owner == Some(t) && s.depth == |s.stacks[t]| > 0
    ensures s.from == (if s.inFlight == 0 then None else Some(t))
    ensures var n := |s.stacks[t]| - 1;
            s.inFlight == ActiveSends(s.stacks[t][..n]) + if Active(s.stacks[t][n]) then 1 else 0
  {
  }

  /** Every assertion in the source holds whenever it is reached. */
  lemma AssertsHold(s: Client, a: Action)
    requires Inv(s) && Enabled(s, a)
    ensures Asserts(s, a)
  {
    if !a.Stop? && !a.Acquire? { MoverIsOwner(s, a.t); }
  }

  /** Only the innermost send of `i` has moved, to phase `p`; the counter has followed. */
  lemma SendersAfterTop(s: Client, r: Client, i: Thread, p: Phase)
    requires Inv(s) && s.IsThread(i) && s.stacks[i] != []
    requires r.stacks == s.Top(i, p).stacks && r.owner == s.owner && r.depth == s.depth
    requires var was := s.stacks[i][|s.stacks[i]| - 1];
             r.inFlight == s.inFlight - (if Active(was) then 1 else 0) + if Active(p) then 1 else 0
    requires r.from == (if r.inFlight == 0 then None else s.owner)
    ensures OneSender(r) && InFlightCounts(r)
  {
    MoverIsOwner(s, i);
    var n := |s.stacks[i]| - 1;
    ActiveAppend(s.stacks[i][..n], p);
    assert forall t :: 0 <= t < |s.stacks| && t != i ==> r.stacks[t] == s.stacks[t];
    assert forall k :: 0 <= k < n ==> r.stacks[i][k] == s.stacks[i][k];
  }

  /** The taker of the mutex has it already, or has no send at all; either way every send of his so
      far is waiting for a redirect. */
  lemma TakerWaits(s: Client, i: Thread)
    requires Inv(s) && Enabled(s, Acquire(i))
    ensures |s.stacks[i]| == s.depth && s.inFlight == ActiveSends(s.stacks[i])
    ensures forall k :: 0 <= k < s.depth ==> s.stacks[i][k] == Responded
    ensures forall t :: 0 <= t < |s.stacks| && t != i ==> s.stacks[t] == []
  {
    hide DescriptorsFresh, ReaderHasSocket;
  }

  lemma SendersAfterAcquire(s: Client, i: Thread)
    requires Inv(s) && Enabled(s, Acquire(i))
    ensures var r := Apply(s, Acquire(i)); OneSender(r) && InFlightCounts(r)
  {
    hide DescriptorsFresh, ReaderHasSocket, OneSender;
    TakerWaits(s, i);
    var r := Apply(s, Acquire(i));
    ActiveAppend(s.stacks[i], Entered);
    assert OneSender(r) by { OneTaker(s, i); }
    assert s.from == if s.inFlight == 0 then None else Some(i) by {
      if s.owner == None { assert s.inFlight == 0; }
    }
  }

  lemma OneTaker(s: Client, i: Thread)
    requires Inv(s) && Enabled(s, Acquire(i))
    ensures OneSender(Apply(s, Acquire(i)))
  {
    hide DescriptorsFresh, ReaderHasSocket, Inv;
    TakerWaits(s, i);
    var r := Apply(s, Acquire(i));
    assert forall t :: 0 <= t < |s.stacks| && t != i ==> r.stacks[t] == [];
    assert forall k :: 0 <= k < s.depth ==> r.stacks[i][k] == Responded;
  }

  lemma SendersAfterRelease(s: Client, i: Thread)
    requires Inv(s) && Enabled(s, Release(i))
    ensures var r := Apply(s, Release(i)); OneSender(r) && InFlightCounts(r)
  {
    hide DescriptorsFresh, ReaderHasSocket;
    var r := Apply(s, Release(i));
    MoverIsOwner(s, i);
    assert forall t :: 0 <= t < |s.stacks| && t != i ==> r.stacks[t] == s.stacks[t];
    assert forall k :: 0 <= k < |r.stacks[i]| ==> r.stacks[i][k] == s.stacks[i][k];
  }

  lemma SendersAfterStop(s: Client, i: Thread)
    requires Inv(s) && Enabled(s, Stop(i))
    ensures var r := Apply(s, Stop(i)); OneSender(r) && InFlightCounts(r)
  {
  }

  lemma SendersAfterBegin(s: Client, i: Thread, alive: bool, connected: bool)
    requires Inv(s) && Enabled(s, Begin(i, alive, connected))
    ensures var r := Apply(s, Begin(i, alive, connected)); OneSender(r) && InFlightCounts(r)
  {
    hide ActiveSends, OneSender, InFlightCounts, DescriptorsFresh, ReaderHasSocket;
    MoverIsOwner(s, i);
    var q := DropDead(s, alive);
    assert q == s.(shouldClose := false, socket := q.socket, closed := q.closed);
    SendersAfterTop(s, Apply(s, Begin(i, alive, connected)), i,
      if q.socket.None? && !connected then Done
      else Reading(if q.socket.None? then q.nextFd else q.socket.value));
  }

  lemma SendersAfterEnd(s: Client, i: Thread, ret: bool)
    requires Inv(s) && Enabled(s, End(i, ret))
    ensures var r := Apply(s, End(i, ret)); OneSender(r) && InFlightCounts(r)
  {
    hide ActiveSends, OneSender, InFlightCounts, DescriptorsFresh, ReaderHasSocket;
    MoverIsOwner(s, i);
    SendersAfterTop(s, Apply(s, End(i, ret)), i, Done);
  }

  lemma SendersAfterRespond(s: Client, i: Thread, ok: bool, close: bool)
    requires Inv(s) && Enabled(s, Respond(i, ok, close))
    ensures var r := Apply(s, Respond(i, ok, close)); OneSender(r) && InFlightCounts(r)
  {
    hide ActiveSends, OneSender, InFlightCounts, DescriptorsFresh, ReaderHasSocket;
    MoverIsOwner(s, i);
    SendersAfterTop(s, Apply(s, Respond(i, ok, close)), i, Responded);
  }

  lemma StepKeepsSenders(s: Client, a: Action)
    requires Inv(s) && Enabled(s, a)
    ensures OneSender(Apply(s, a)) && InFlightCounts(Apply(s, a))
  {
    hide Inv, OneSender, InFlightCounts;
    match a {
      case Acquire(i) => SendersAfterAcquire(s, i);
      case Release(i) => SendersAfterRelease(s, i);
      case Stop(i) => SendersAfterStop(s, i);
      case Begin(i, alive, connected) => SendersAfterBegin(s, i, alive, connected);
      case Respond(i, ok, close) => SendersAfterRespond(s, i, ok, close);
      case End(i, ret) => SendersAfterEnd(s, i, ret);
    }
  }

  /** Connecting hands out a number that is not in use and has not been closed. */
  lemma FreshAfterBegin(s: Client, i: Thread, alive: bool, connected: bool)
    requires Inv(s) && Enabled(s, Begin(i, alive, connected))
    ensures DescriptorsFresh(Apply(s, Begin(i, alive, connected)))
  {
    hide OneSender, InFlightCounts, ReaderHasSocket;
    FreshAfterClose(s.(shouldClose := false));
    assert DescriptorsFresh(DropDead(s, alive));
  }

  lemma FreshAfterClose(s: Client)
    requires DescriptorsFresh(s)
    ensures DescriptorsFresh(s.CloseSocket())
  {
  }

  lemma StepKeepsFresh(s: Client, a: Action)
    requires Inv(s) && Enabled(s, a)
    ensures DescriptorsFresh(Apply(s, a))
  {
    hide OneSender, InFlightCounts, ReaderHasSocket;
    FreshAfterClose(s);
    match a {
      case Begin(i, alive, connected) => FreshAfterBegin(s, i, alive, connected);
      case End(_, _) => FreshAfterClose(Unmark(s));
      case _ =>
    }
  }

  /** Only the owner can be reading. */
  lemma ReaderIsOwner(r: Client, i: Thread)
    requires OneSender(r) && (r.owner.Some? ==> r.owner == Some(i))
    requires r.TopIsReading(i) ==> r.socket == Some(r.stacks[i][|r.stacks[i]| - 1].fd)
    ensures ReaderHasSocket(r)
  {
  }

  lemma ReaderAfterBegin(s: Client, i: Thread, alive: bool, connected: bool)
    requires Inv(s) && Enabled(s, Begin(i, alive, connected))
    ensures var r := Apply(s, Begin(i, alive, connected));
            r.TopIsReading(i) ==> r.socket == Some(r.stacks[i][|r.stacks[i]| - 1].fd)
  {
    hide Inv;
  }

  lemma ReaderAfterStop(s: Client, i: Thread)
    requires Inv(s) && Enabled(s, Stop(i))
    ensures ReaderHasSocket(Apply(s, Stop(i)))
  {
    if s.owner.Some? && s.TopIsReading(s.owner.value) { MoverIsOwner(s, s.owner.value); }
  }

  /** A reader's descriptor is the open one: nobody but its own thread touches the socket. */
  lemma StepKeepsReader(s: Client, a: Action)
    requires Inv(s) && Enabled(s, a)
    ensures ReaderHasSocket(Apply(s, a))
  {
    hide DescriptorsFresh, ActiveSends, ReaderHasSocket, OneSender, InFlightCounts;
    StepKeepsSenders(s, a);
    if a.Stop? {
      ReaderAfterStop(s, a.t);
    } else {
      if !a.Acquire? { MoverIsOwner(s, a.t); }
      if a.Begin? { ReaderAfterBegin(s, a.t, a.alive, a.connected); }
      if a.Release? { ReleaseUncovers(s, a.t); }
      ReaderIsOwner(Apply(s, a), a.t);
    }
  }

  /** What lies under a finished send is a send that already has its response. */
  lemma ReleaseUncovers(s: Client, i: Thread)
    requires Inv(s) && Enabled(s, Release(i))
    ensures !Apply(s, Release(i)).TopIsReading(i)
  {
    MoverIsOwner(s, i);
    var n := |s.stacks[i]| - 1;
    if n > 0 { assert s.stacks[i][n - 1] == Responded; }
  }

  lemma StepKeepsInv(s: Client, a: Action)
    requires Inv(s) && Enabled(s, a)
    ensures Inv(Apply(s, a))
  {
    StepKeepsSenders(s, a);
    StepKeepsFresh(s, a);
    StepKeepsReader(s, a);
  }

  // ----- what holds in every run

  predicate Possible(s: Client, actions: seq<Action>)
    decreases |actions|
  {
    actions == [] || (Enabled(s, actions[0]) && Possible(Apply(s, actions[0]), actions[1..]))
  }

  function After(s: Client, actions: seq<Action>): Client
    requires Possible(s, actions)
    decreases |actions|
  {
    if actions == [] then s else After(Apply(s, actions[0]), actions[1..])
  }

  lemma {:induction false} RunKeepsInv(s: Client, actions: seq<Action>)
    requires Inv(s) && Possible(s, actions)
    ensures Inv(After(s, actions))
    decreases |actions|
  {
    if actions != [] {
      StepKeepsInv(s, actions[0]);
      RunKeepsInv(Apply(s, actions[0]), actions[1..]);
    }
  }

  /** In every interleaving of sends, nested sends and stops: no assertion of the source can fail,
      the in-flight counter counts the active sends of one thread (the recorded one) and nobody
      else has any, and no descriptor is closed twice. */
  lemma SocketDiscipline(threads: nat, keepAlive: bool, actions: seq<Action>)
    requires Possible(Initial(threads, keepAlive), actions)
    ensures var s := After(Initial(threads, keepAlive), actions);
            && (forall a :: Enabled(s, a) ==> Asserts(s, a))
            && (forall t :: 0 <= t < |s.stacks| ==>
                  ActiveSends(s.stacks[t]) == if s.from == Some(t) then s.inFlight else 0)
            && (s.from == None <==> s.inFlight == 0)
            && (forall k, l :: 0 <= k < l < |s.closed| ==> s.closed[k] != s.closed[l])
            && (s.socket.Some? ==> s.socket.value !in s.closed)
  {
    var s := After(Initial(threads, keepAlive), actions);
    InitialInv(threads, keepAlive);
    RunKeepsInv(Initial(threads, keepAlive), actions);
    forall a | Enabled(s, a) ensures Asserts(s, a) { AssertsHold(s, a); }
    forall t | 0 <= t < |s.stacks|
      ensures ActiveSends(s.stacks[t]) == if s.from == Some(t) then s.inFlight else 0
    {
      if s.stacks[t] != [] { MoverIsOwner(s, t); }
    }
  }

  /** Whoever closes a descriptor is the only thread with a request in flight, if anybody is. */
  lemma NoForeignClose(threads: nat, keepAlive: bool, actions: seq<Action>, a: Action, other: Thread)
    requires Possible(Initial(threads, keepAlive), actions)
    requires var s := After(Initial(threads, keepAlive), actions);
             Enabled(s, a) && Apply(s, a).closed != s.closed && s.IsThread(other) && other != a.t
    ensures ActiveSends(After(Initial(threads, keepAlive), actions).stacks[other]) == 0
  {
    var s := After(Initial(threads, keepAlive), actions);
    SocketDiscipline(threads, keepAlive, actions);
    InitialInv(threads, keepAlive);
    RunKeepsInv(Initial(threads, keepAlive), actions);
    if a.Begin? || a.Respond? || a.End? { MoverIsOwner(s, a.t); }
  }

  /** While a thread talks over a descriptor, whatever the other threads do, the descriptor stays
      the client's socket and stays open. */
  lemma {:induction false} ReaderUndisturbed(s: Client, t: Thread, fd: nat, others: seq<Action>)
    requires Inv(s) && s.TopIs(t, Reading(fd)) && Possible(s, others)
    requires forall k :: 0 <= k < |others| ==> others[k].t != t
    ensures var r := After(s, others); r.TopIs(t, Reading(fd)) && r.socket == Some(fd) && fd !in r.closed
    decreases |others|
  {
    assert s.TopIsReading(t);
    if others != [] {
      var a := others[0];
      assert a.t != t;
      MoverIsOwner(s, t);
      StepKeepsInv(s, a);
      assert a.Stop?;
      assert forall k :: 0 <= k < |others[1..]| ==> others[1..][k] == others[k + 1];
      ReaderUndisturbed(Apply(s, a), t, fd, others[1..]);
    }
  }

  /** A stop while a request is in flight takes effect when that request ends: unless another send
      has begun in between, the exit guard leaves the socket closed, keep-alive or not. */
  lemma {:induction false} StopTakesEffect(s: Client, actions: seq<Action>, t: Thread, ret: bool)
    requires s.shouldClose && Possible(s, actions)
    requires forall k :: 0 <= k < |actions| ==> !actions[k].Begin?
    requires Enabled(After(s, actions), End(t, ret))
    ensures Apply(After(s, actions), End(t, ret)).socket == None
    decreases |actions|
  {
    if actions != [] {
      assert !actions[0].Begin?;
      assert forall k :: 0 <= k < |actions[1..]| ==> actions[1..][k] == actions[k + 1];
      StopTakesEffect(Apply(s, actions[0]), actions[1..], t, ret);
    }
  }

  lemma StopDuringRequest(threads: nat, keepAlive: bool, before: seq<Action>, stopper: Thread,
                          actions: seq<Action>, t: Thread, ret: bool)
    requires Possible(Initial(threads, keepAlive), before)
    requires var s := After(Initial(threads, keepAlive), before);
             && s.inFlight > 0 && Enabled(s, Stop(stopper))
             && Possible(Apply(s, Stop(stopper)), actions)
             && (forall k :: 0 <= k < |actions| ==> !actions[k].Begin?)
             && Enabled(After(Apply(s, Stop(stopper)), actions), End(t, ret))
    ensures var s := After(Initial(threads, keepAlive), before);
            && Apply(s, Stop(stopper)).socket == s.socket
            && Apply(After(Apply(s, Stop(stopper)), actions), End(t, ret)).socket == None
  {
    var s := After(Initial(threads, keepAlive), before);
    StopTakesEffect(Apply(s, Stop(stopper)), actions, t, ret);
  }

  // ----- when a stop takes effect

  ghost predicate NoStop(actions: seq<Action>) { forall k :: 0 <= k < |actions| ==> !actions[k].Stop? }
  ghost predicate NoBegin(actions: seq<Action>) { forall k :: 0 <= k < |actions| ==> !actions[k].Begin? }

  /** Only the beginning of another send clears the flag, and it always does. */
  lemma {:induction false} FlagKept(s: Client, actions: seq<Action>)
    requires Possible(s, actions) && NoStop(actions)
    ensures After(s, actions).shouldClose <==> s.shouldClose && NoBegin(actions)
    ensures After(s, actions).keepAlive == s.keepAlive
    decreases |actions|
  {
    if actions != [] {
      assert !actions[0].Stop?;
      assert forall k :: 0 <= k < |actions[1..]| ==> actions[1..][k] == actions[k + 1];
      FlagKept(Apply(s, actions[0]), actions[1..]);
      assert NoBegin(actions) <==> !actions[0].Begin? && NoBegin(actions[1..]) by {
        assert forall k :: 0 < k < |actions| ==> actions[k] == actions[1..][k - 1];
      }
    }
  }

  /** The exact condition: after the last stop during a request, the exit guard of a send leaves the
      socket closed if and only if no send has begun since, or the guard closes anyway (no keep-alive,
      or the request failed), or there is no open socket left to close. */
  lemma StopTakesEffectIff(threads: nat, keepAlive: bool, before: seq<Action>, stopper: Thread,
                           actions: seq<Action>, t: Thread, ret: bool)
    requires Possible(Initial(threads, keepAlive), before)
    requires var s := After(Initial(threads, keepAlive), before);
             && s.inFlight > 0 && Enabled(s, Stop(stopper))
             && Possible(Apply(s, Stop(stopper)), actions) && NoStop(actions)
             && Enabled(After(Apply(s, Stop(stopper)), actions), End(t, ret))
    ensures var r := After(Apply(After(Initial(threads, keepAlive), before), Stop(stopper)), actions);
            Apply(r, End(t, ret)).socket == None
            <==> NoBegin(actions) || !keepAlive || !ret || r.socket == None
  {
    var s := After(Initial(threads, keepAlive), before);
    FlagKept(Apply(s, Stop(stopper)), actions);
    KeepAliveFixed(Initial(threads, keepAlive), before);
  }

  lemma {:induction false} KeepAliveFixed(s: Client, actions: seq<Action>)
    requires Possible(s, actions)
    ensures After(s, actions).keepAlive == s.keepAlive
    decreases |actions|
  {
    if actions != [] { KeepAliveFixed(Apply(s, actions[0]), actions[1..]); }
  }

  // ----- a stop that is forgotten

  /** Thread 0 sends, thread 1 stops it, the response redirects, and thread 0 sends again from inside
      the first send. */
  ghost function ScriptAction(k: nat): Action {
    match k
    case 0 => Acquire(0)
    case 1 => Begin(0, true, true)
    case 2 => Stop(1)
    case 3 => Respond(0, true, false)
    case 4 => Acquire(0)
    case 5 => Begin(0, false, true)
    case 6 => Respond(0, true, false)
    case 7 => End(0, true)
    case 8 => Release(0)
    case 9 => End(0, true)
    case _ => Release(0)
  }

  ghost function ScriptState(k: nat): Client {
    var c := Client(Some(0), 1, [], 1, Some(0), false, Some(0), 1, [[], []], true);
    var d := c.(socket := Some(1), nextFd := 2, closed := [0], depth := 2, inFlight := 2);
    match k
    case 0 => Initial(2, true)
    case 1 => Client(None, 0, [], 0, None, false, Some(0), 1, [[Entered], []], true)
    case 2 => c.(stacks := [[Reading(0)], []])
    case 3 => c.(stacks := [[Reading(0)], []], shouldClose := true)
    case 4 => c.(stacks := [[Responded], []], shouldClose := true)
    case 5 => c.(stacks := [[Responded, Entered], []], shouldClose := true, depth := 2)
    case 6 => d.(stacks := [[Responded, Reading(1)], []])
    case 7 => d.(stacks := [[Responded, Responded], []])
    case 8 => d.(stacks := [[Responded, Done], []], inFlight := 1)
    case 9 => d.(stacks := [[Responded], []], inFlight := 1, depth := 1)
    case 10 => d.(stacks := [[Done], []], inFlight := 0, from := None, depth := 1)
    case _ => d.(stacks := [[], []], inFlight := 0, from := None, depth := 0, owner := None)
  }

  lemma Replaced(x: seq<Phase>, y: seq<Phase>, z: seq<Phase>)
    ensures [x, y][0 := z] == [z, y]
  {
  }

  /** A stack of one or two sends whose innermost one is dropped, moved or joined by another. */
  lemma OneSend(p: Phase, q: Phase)
    ensures [p][..0] == [] && [p][..0] + [q] == [q] && [] + [q] == [q] && [p] + [q] == [p, q]
    ensures [p, q][..1] == [p]
  {
  }

  lemma TwoSends(p: Phase, q: Phase, r: Phase)
    ensures [p, q][..1] == [p] && [p, q][..1] + [r] == [p, r]
  {
  }

  lemma ScriptStep(k: nat)
    requires k <= 10
    ensures Enabled(ScriptState(k), ScriptAction(k)) && Apply(ScriptState(k), ScriptAction(k)) == ScriptState(k + 1)
  {
    if k <= 4 { FirstSteps(k); } else if k <= 7 { NestedSteps(k); } else { LastSteps(k); }
  }

  lemma FirstSteps(k: nat)
    requires k <= 4
    ensures Enabled(ScriptState(k), ScriptAction(k)) && Apply(ScriptState(k), ScriptAction(k)) == ScriptState(k + 1)
  {
    assert Initial(2, true).stacks == [[], []];
    Replaced(ScriptState(k).stacks[0], [], ScriptState(k + 1).stacks[0]);
    match k {
      case 0 => OneSend(Entered, Entered);
      case 1 => OneSend(Entered, Reading(0));
      case 2 =>
      case 3 => OneSend(Reading(0), Responded);
      case _ => OneSend(Responded, Entered);
    }
  }

  lemma NestedSteps(k: nat)
    requires 5 <= k <= 7
    ensures Enabled(ScriptState(k), ScriptAction(k)) && Apply(ScriptState(k), ScriptAction(k)) == ScriptState(k + 1)
  {
    Replaced(ScriptState(k).stacks[0], [], ScriptState(k + 1).stacks[0]);
    match k {
      case 5 => TwoSends(Responded, Entered, Reading(1));
      case 6 => TwoSends(Responded, Reading(1), Responded);
      case _ => TwoSends(Responded, Responded, Done);
    }
  }

  lemma LastSteps(k: nat)
    requires 8 <= k <= 10
    ensures Enabled(ScriptState(k), ScriptAction(k)) && Apply(ScriptState(k), ScriptAction(k)) == ScriptState(k + 1)
  {
    Replaced(ScriptState(k).stacks[0], [], ScriptState(k + 1).stacks[0]);
    match k {
      case 8 => OneSend(Responded, Done);
      case 9 => OneSend(Responded, Done);
      case _ => OneSend(Done, Done);
    }
  }

  ghost function Script(k: nat): seq<Action>
    requires k <= 11
    decreases 11 - k
  {
    if k == 11 then [] else [ScriptAction(k)] + Script(k + 1)
  }

  lemma {:induction false} ScriptRuns(k: nat)
    requires k <= 11
    ensures Possible(ScriptState(k), Script(k)) && After(ScriptState(k), Script(k)) == ScriptState(11)
    decreases 11 - k
  {
    if k < 11 {
      ScriptStep(k);
      ScriptRuns(k + 1);
      assert Script(k)[1..] == Script(k + 1);
    }
  }

  /** The other case does occur: a nested send begins by clearing the flag, so with keep-alive a
      stop that comes before a redirect is forgotten and the outermost send leaves a socket open. */
  lemma RedirectForgetsStop()
    ensures Possible(Initial(2, true), Script(0)) && Script(0)[2] == Stop(1)
    ensures var s := After(Initial(2, true), Script(0));
            s.depth == 0 && s.inFlight == 0 && s.socket.Some?
  {
    ScriptRuns(0);
    assert Script(0)[1..][1..] == Script(2);
  }
}
