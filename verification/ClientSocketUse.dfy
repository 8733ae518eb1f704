/** What the client's calls do to its socket in every reachable state, and that every send can be
    brought to its end. */
module ClientSocketUse {
  import opened Wrappers
  import opened ClientSocket

  ghost predicate Reachable(threads: nat, keepAlive: bool, before: seq<Action>, s: Client) {
    Possible(Initial(threads, keepAlive), before) && s == After(Initial(threads, keepAlive), before)
  }

  lemma ReachableInv(threads: nat, keepAlive: bool, before: seq<Action>, s: Client)
    requires Reachable(threads, keepAlive, before, s)
    ensures Inv(s) && s.keepAlive == keepAlive && |s.stacks| == threads
  {
    InitialInv(threads, keepAlive);
    RunKeepsInv(Initial(threads, keepAlive), before);
    KeepAliveFixed(Initial(threads, keepAlive), before);
    ThreadsFixed(Initial(threads, keepAlive), before);
  }

  lemma {:induction false} ThreadsFixed(s: Client, actions: seq<Action>)
    requires Possible(s, actions)
    ensures |After(s, actions).stacks| == |s.stacks|
    decreases |actions|
  {
    if actions != [] { ThreadsFixed(Apply(s, actions[0]), actions[1..]); }
  }

  /** The descriptors closed after closing this socket, if it is open. */
  function ClosedWith(closed: seq<nat>, socket: Option<nat>): seq<nat> {
    if socket.Some? then closed + [socket.value] else closed
  }

  /** `stop`: the socket is closed at once if and only if no thread has a request in flight; otherwise
      it is left to the thread that has one, and marked. */
  lemma StopClosesIffIdle(threads: nat, keepAlive: bool, before: seq<Action>, s: Client, t: Thread)
    requires Reachable(threads, keepAlive, before, s) && t < threads
    ensures |s.stacks| == threads && Enabled(s, Stop(t))
    ensures var r := Apply(s, Stop(t));
            && (if forall u :: 0 <= u < threads ==> ActiveSends(s.stacks[u]) == 0 then
                  r.socket == None && r.closed == ClosedWith(s.closed, s.socket)
                else
                  r.socket == s.socket && r.closed == s.closed && r.shouldClose)
            && r.inFlight == s.inFlight && r.stacks == s.stacks && r.owner == s.owner
  {
    ReachableInv(threads, keepAlive, before, s);
    SocketDiscipline(threads, keepAlive, before);
    if s.inFlight > 0 {
      assert s.from.Some? && ActiveSends(s.stacks[s.from.value]) == s.inFlight;
    }
  }

  /** The beginning of a send: a live connection is used again, a dead one is closed and replaced, and
      without a connection nothing is in flight that was not before. */
  lemma BeginUses(threads: nat, keepAlive: bool, before: seq<Action>, s: Client, t: Thread, alive: bool, connected: bool)
    requires Reachable(threads, keepAlive, before, s) && Enabled(s, Begin(t, alive, connected))
    ensures var r := Apply(s, Begin(t, alive, connected));
            if s.socket.Some? && alive then
              && r.socket == s.socket && r.closed == s.closed
              && r.TopIs(t, Reading(s.socket.value)) && r.inFlight == s.inFlight + 1
            else if connected then
              && r.socket.Some? && r.socket != s.socket && r.socket.value !in r.closed
              && r.closed == ClosedWith(s.closed, s.socket)
              && r.TopIs(t, Reading(r.socket.value)) && r.inFlight == s.inFlight + 1
            else
              && r.socket == None && r.closed == ClosedWith(s.closed, s.socket)
              && r.TopIs(t, Done) && r.inFlight == s.inFlight
  {
    ReachableInv(threads, keepAlive, before, s);
    StepKeepsInv(s, Begin(t, alive, connected));
  }

  /** The end of a send: the socket is kept exactly for a successful request of a keep-alive client
      that nobody has stopped. */
  lemma EndKeepsIff(threads: nat, keepAlive: bool, before: seq<Action>, s: Client, t: Thread, ret: bool)
    requires Reachable(threads, keepAlive, before, s) && Enabled(s, End(t, ret))
    ensures var r := Apply(s, End(t, ret));
            && r.socket == (if keepAlive && ret && !s.shouldClose then s.socket else None)
            && r.closed == (if r.socket == s.socket then s.closed else ClosedWith(s.closed, s.socket))
            && s.inFlight > 0 && r.inFlight == s.inFlight - 1
            && r.from == (if r.inFlight == 0 then None else Some(t))
  {
    ReachableInv(threads, keepAlive, before, s);
    MoverIsOwner(s, t);
  }

  /** A response that announces the end of the connection closes it; another one leaves it. */
  lemma RespondCloses(threads: nat, keepAlive: bool, before: seq<Action>, s: Client, t: Thread, ok: bool, close: bool)
    requires Reachable(threads, keepAlive, before, s) && Enabled(s, Respond(t, ok, close))
    ensures var r := Apply(s, Respond(t, ok, close));
            && s.socket == Some(s.stacks[t][|s.stacks[t]| - 1].fd) && r.TopIs(t, Responded)
            && r.socket == (if close then None else s.socket)
            && r.closed == (if close then s.closed + [s.socket.value] else s.closed)
  {
    ReachableInv(threads, keepAlive, before, s);
  }

  /** A keep-alive client without anything in flight: a whole request over a live connection uses it
      and leaves it open. */
  lemma KeepAliveReuses(threads: nat, before: seq<Action>, s: Client, t: Thread)
    requires Reachable(threads, true, before, s) && t < threads && s.owner == None && s.socket.Some?
    ensures var request := [Acquire(t), Begin(t, true, true), Respond(t, true, false), End(t, true), Release(t)];
            && Possible(s, request)
            && After(s, request).socket == s.socket && After(s, request).closed == s.closed
            && After(s, request).owner == None && After(s, request).inFlight == 0
  {
    hide *;
    Idle(threads, before, s);
    var e := Midway(s, t, 5);
    forall k | 0 <= k < 5
      ensures Enabled(Midway(s, t, k), RequestAction(t, k))
              && Apply(Midway(s, t, k), RequestAction(t, k)) == Midway(s, t, k + 1)
    {
      RequestStep(s, t, k);
    }
    var r4, r3 := [Release(t)], [End(t, true), Release(t)];
    var r2 := [Respond(t, true, false)] + r3;
    var r1 := [Begin(t, true, true)] + r2;
    Then(Midway(s, t, 4), RequestAction(t, 4), [], e) by { Ends(e); }
    assert [Release(t)] + [] == r4 && [End(t, true)] + r4 == r3;
    RequestActions(t);
    Then(Midway(s, t, 3), End(t, true), r4, e);
    Then(Midway(s, t, 2), Respond(t, true, false), r3, e);
    Then(Midway(s, t, 1), Begin(t, true, true), r2, e);
    MidwayEnds(s, t);
    Then(s, Acquire(t), r1, e);
    assert [Acquire(t)] + r1 == [Acquire(t), Begin(t, true, true), Respond(t, true, false), End(t, true), Release(t)];
  }

  lemma Ends(s: Client)
    ensures Possible(s, []) && After(s, []) == s
  {
  }

  ghost function RequestAction(t: Thread, k: nat): Action {
    match k
    case 0 => Acquire(t)
    case 1 => Begin(t, true, true)
    case 2 => Respond(t, true, false)
    case 3 => End(t, true)
    case _ => Release(t)
  }

  lemma RequestActions(t: Thread)
    ensures RequestAction(t, 0) == Acquire(t) && RequestAction(t, 1) == Begin(t, true, true)
    ensures RequestAction(t, 2) == Respond(t, true, false) && RequestAction(t, 3) == End(t, true)
    ensures RequestAction(t, 4) == Release(t)
  {
  }

  /** A request of an idle client with an open socket, after `k` steps. */
  ghost function Midway(s: Client, t: Thread, k: nat): Client
    requires t < |s.stacks| && s.socket.Some?
  {
    var held := s.(owner := Some(t), depth := 1);
    var marked := held.(shouldClose := false, inFlight := 1, from := Some(t));
    match k
    case 0 => s
    case 1 => held.(stacks := s.stacks[t := [Entered]])
    case 2 => marked.(stacks := s.stacks[t := [Reading(s.socket.value)]])
    case 3 => marked.(stacks := s.stacks[t := [Responded]])
    case 4 => held.(shouldClose := false, stacks := s.stacks[t := [Done]])
    case _ => s.(shouldClose := false, stacks := s.stacks[t := []])
  }

  lemma MidwayEnds(s: Client, t: Thread)
    requires t < |s.stacks| && s.socket.Some?
    ensures Midway(s, t, 0) == s
    ensures var e := Midway(s, t, 5);
            e.socket == s.socket && e.closed == s.closed && e.owner == s.owner && e.inFlight == s.inFlight
  {
  }

  lemma RequestStep(s: Client, t: Thread, k: nat)
    requires k < 5 && t < |s.stacks| && s.stacks[t] == [] && s.socket.Some? && s.keepAlive
    requires s.owner == None && s.inFlight == 0 && s.from == None && s.depth == 0
    ensures Enabled(Midway(s, t, k), RequestAction(t, k))
    ensures Apply(Midway(s, t, k), RequestAction(t, k)) == Midway(s, t, k + 1)
  {
    var fd := s.socket.value;
    match k {
      case 0 => OneOnStack(s.stacks, t, Entered, Entered);
      case 1 => OneOnStack(s.stacks, t, Entered, Reading(fd));
      case 2 => OneOnStack(s.stacks, t, Reading(fd), Responded);
      case 3 => OneOnStack(s.stacks, t, Responded, Done);
      case _ => OneOnStack(s.stacks, t, Done, Done);
    }
  }

  lemma Idle(threads: nat, before: seq<Action>, s: Client)
    requires Reachable(threads, true, before, s) && s.owner == None
    ensures s.inFlight == 0 && s.from == None && s.depth == 0 && s.keepAlive && |s.stacks| == threads
    ensures forall t :: 0 <= t < |s.stacks| ==> s.stacks[t] == []
  {
    ReachableInv(threads, true, before, s);
  }

  lemma OneOnStack(stacks: seq<seq<Phase>>, t: Thread, p: Phase, q: Phase)
    requires t < |stacks|
    ensures var u := stacks[t := [p]];
            && u[t][..|u[t]| - 1] == [] && u[t := u[t][..|u[t]| - 1] + [q]] == stacks[t := [q]]
            && u[t := []] == stacks[t := []]
    ensures stacks[t] == [] ==> stacks[t := stacks[t] + [q]] == stacks[t := [q]]
  {
    assert [p][..0] == [] && [] + [q] == [q];
  }

  lemma Then(s: Client, a: Action, rest: seq<Action>, end: Client)
    requires Enabled(s, a) && Possible(Apply(s, a), rest) && After(Apply(s, a), rest) == end
    ensures Possible(s, [a] + rest) && After(s, [a] + rest) == end
  {
    assert ([a] + rest)[1..] == rest;
  }

  /** Who may enter `send`: with nobody inside, any thread; otherwise only the thread whose innermost
      send has its response, for a redirect. */
  lemma AcquireIff(threads: nat, keepAlive: bool, before: seq<Action>, s: Client, t: Thread)
    requires Reachable(threads, keepAlive, before, s) && t < threads
    ensures |s.stacks| == threads
    ensures Enabled(s, Acquire(t))
            <==> (forall u :: 0 <= u < threads ==> s.stacks[u] == []) || s.TopIs(t, Responded)
  {
    ReachableInv(threads, keepAlive, before, s);
    if s.owner.Some? { assert s.stacks[s.owner.value] != []; }
  }

  /** Inside `send` every outcome can occur: the old connection dead or alive, the new one made or not,
      the request answered or failed, with the connection to be closed or not. */
  lemma EveryOutcome(threads: nat, keepAlive: bool, before: seq<Action>, s: Client, t: Thread, b0: bool, b1: bool)
    requires Reachable(threads, keepAlive, before, s)
    ensures s.TopIs(t, Entered) ==> Enabled(s, Begin(t, b0, b1))
    ensures s.TopIsReading(t) ==> Enabled(s, Respond(t, b0, false)) && Enabled(s, Respond(t, true, b1))
    ensures s.TopIs(t, Responded) ==> Enabled(s, End(t, b0))
    ensures s.TopIs(t, Done) ==> Enabled(s, Release(t)) && ActiveSends(Apply(s, Release(t)).stacks[t]) == ActiveSends(s.stacks[t])
  {
    ReachableInv(threads, keepAlive, before, s);
  }

  // ----- every send can be finished

  function StepsLeft(p: Phase): nat {
    match p
    case Entered => 4
    case Reading(_) => 3
    case Responded => 2
    case Done => 1
  }

  function StepsOf(stack: seq<Phase>): nat {
    if stack == [] then 0 else StepsOf(stack[..|stack| - 1]) + StepsLeft(stack[|stack| - 1])
  }

  lemma StepsAppend(stack: seq<Phase>, p: Phase)
    ensures StepsOf(stack + [p]) == StepsOf(stack) + StepsLeft(p)
  {
    assert (stack + [p])[..|stack|] == stack;
  }

  /** The thread inside `send` can always go on: nobody else has to move, and no stop can prevent it. */
  lemma NextOfOwner(s: Client) returns (a: Action)
    requires Inv(s) && s.owner.Some?
    ensures Enabled(s, a) && a.t == s.owner.value && !a.Acquire? && !a.Stop?
    ensures var t := s.owner.value;
            |Apply(s, a).stacks| == |s.stacks| && StepsOf(Apply(s, a).stacks[t]) < StepsOf(s.stacks[t])
  {
    var t := s.owner.value;
    var stack := s.stacks[t];
    var top, under := stack[|stack| - 1], stack[..|stack| - 1];
    match top {
      case Entered => a := Begin(t, true, true);
      case Reading(_) => a := Respond(t, true, false);
      case Responded => a := End(t, true);
      case Done => a := Release(t);
    }
    assert stack == under + [top];
    StepsAppend(under, top);
    var r := Apply(s, a);
    if !a.Release? {
      StepsAppend(under, r.stacks[t][|stack| - 1]);
      assert r.stacks[t] == under + [r.stacks[t][|stack| - 1]];
    }
  }

  lemma Finish(s: Client) returns (actions: seq<Action>)
    requires Inv(s)
    ensures Possible(s, actions) && After(s, actions).owner == None && After(s, actions).inFlight == 0
    ensures forall k :: 0 <= k < |actions| ==> s.owner == Some(actions[k].t) && !actions[k].Stop? && !actions[k].Acquire?
    decreases if s.owner.Some? && s.IsThread(s.owner.value) then StepsOf(s.stacks[s.owner.value]) else 0
  {
    if s.owner == None {
      actions := [];
    } else {
      var a := NextOfOwner(s);
      StepKeepsInv(s, a);
      var r := Apply(s, a);
      assert r.owner == None || r.owner == s.owner;
      var rest := Finish(r);
      actions := [a] + rest;
      assert actions[1..] == rest;
    }
  }

  /** From every reachable state the sending thread can finish all its sends by itself, after which the
      client is free for any thread. */
  lemma SendsCanFinish(threads: nat, keepAlive: bool, before: seq<Action>, s: Client) returns (actions: seq<Action>)
    requires Reachable(threads, keepAlive, before, s)
    ensures Possible(s, actions) && After(s, actions).owner == None && After(s, actions).inFlight == 0
    ensures forall k :: 0 <= k < |actions| ==> s.owner == Some(actions[k].t) && !actions[k].Stop? && !actions[k].Acquire?
    ensures forall t :: 0 <= t < threads ==> Enabled(After(s, actions), Acquire(t))
  {
    ReachableInv(threads, keepAlive, before, s);
    actions := Finish(s);
    ThreadsFixed(s, actions);
  }
}
