/**
 The stop protocol of src/Common/Thread.c: one mutex and one condition variable shared by two events,
 ShouldStop and HasStopped, with any number of threads that raise, await or ask for them. A broadcast is
 left out when nobody has announced that it waits for the event.
 */
module ThreadControl {
  import opened Options

  datatype Event = ShouldStop | HasStopped

  /** SignalStop and MarkStopped raise an event, WaitForSignal and WaitForStop await one, ShouldStop asks. */
  datatype Call = Raise(event: Event) | Await(event: Event) | Ask

  /** Where a thread is between two accesses to what is shared. */
  datatype Pc =
    | Idle
    | Entering(call: Call)
    | Setting(event: Event)
    | Notifying(event: Event)
    | Testing(event: Event)
    | Flagging(event: Event)
    | GoingToSleep(event: Event)
    | Asleep(event: Event)
    | Waking(event: Event)
    | Asking
    | Answering(answer: bool)
    | Leaving(call: Call)

  datatype State = State(
    owner: Option<nat>,
    raised: map<Event, bool>,
    waiting: map<Event, bool>,
    pcs: seq<Pc>)

  predicate HoldsMutex(pc: Pc) {
    pc.Setting? || pc.Notifying? || pc.Testing? || pc.Flagging? || pc.GoingToSleep?
    || pc.Asking? || pc.Answering? || pc.Leaving?
  }

  function At(s: State, t: nat, pc: Pc): State
    requires t < |s.pcs|
  {
    s.(pcs := s.pcs[t := pc])
  }

  function Wake(pc: Pc): Pc {
    if pc.Asleep? then Waking(pc.event) else pc
  }

  /** SdbCondBroadcast: whoever sleeps on the condition variable, for either event, has to get the mutex. */
  function Broadcast(pcs: seq<Pc>): (r: seq<Pc>)
    ensures |r| == |pcs| && forall i :: 0 <= i < |pcs| ==> r[i] == Wake(pcs[i])
  {
    seq(|pcs|, i requires 0 <= i < |pcs| => Wake(pcs[i]))
  }

  function Locked(s: State, t: nat, pc: Pc): State
    requires t < |s.pcs|
  {
    if s.owner == None then At(s.(owner := Some(t)), t, pc) else s
  }

  function AfterLock(call: Call): Pc {
    match call
    case Raise(e) => Setting(e)
    case Await(e) => Testing(e)
    case Ask => Asking
  }

  /**
   One step of thread `t`; an idle thread starts `call`. A thread that must lock a taken mutex stays where
   it is. A sleeping thread that steps wakes up without being notified.
   */
  function Step(s: State, t: nat, call: Call): (r: State)
    ensures |r.pcs| == |s.pcs|
  {
    if t >= |s.pcs| then s
    else
      match s.pcs[t]
      case Idle => At(s, t, Entering(call))
      case Entering(c) => Locked(s, t, AfterLock(c))
      case Setting(e) => At(s.(raised := s.raised[e := true]), t, Notifying(e))
      case Notifying(e) =>
        var woken := if Flag(s.waiting, e) then s.(pcs := Broadcast(s.pcs)) else s;
        At(woken, t, Leaving(Raise(e)))
      case Testing(e) => At(s, t, if Flag(s.raised, e) then Leaving(Await(e)) else Flagging(e))
      case Flagging(e) => At(s.(waiting := s.waiting[e := true]), t, GoingToSleep(e))
      case GoingToSleep(e) => At(s.(owner := None), t, Asleep(e))
      case Asleep(e) => At(s, t, Waking(e))
      case Waking(e) => Locked(s, t, Testing(e))
      case Asking => At(s, t, Answering(Flag(s.raised, ShouldStop)))
      case Answering(_) => At(s.(owner := None), t, Idle)
      case Leaving(_) => At(s.(owner := None), t, Idle)
  }

  function Flag(flags: map<Event, bool>, e: Event): bool {
    e in flags && flags[e]
  }

  datatype Move = Move(thread: nat, call: Call)

  function Run(s: State, moves: seq<Move>): (r: State)
    ensures |r.pcs| == |s.pcs|
    decreases |moves|
  {
    if moves == [] then s else Run(Step(s, moves[0].thread, moves[0].call), moves[1..])
  }

  /** After SdbTCtlInit; WaitingForMarkStopped is not set there and may hold anything. */
  function Init(threads: nat, leftover: bool): State {
    State(None, map[ShouldStop := false, HasStopped := false],
          map[ShouldStop := false, HasStopped := leftover], seq(threads, i => Idle))
  }

  ghost predicate Reachable(s: State) {
    exists threads, leftover, moves :: s == Run(Init(threads, leftover), moves)
  }

  // ---- Invariants ----

  /** Exactly the thread inside a critical section owns the mutex. */
  ghost predicate MutexOk(s: State) {
    && (s.owner.Some? ==> s.owner.value < |s.pcs| && HoldsMutex(s.pcs[s.owner.value]))
    && (forall t :: 0 <= t < |s.pcs| && HoldsMutex(s.pcs[t]) ==> s.owner == Some(t))
  }

  /** Whether the owner is about to notify those who wait for an event. */
  predicate NotifyPending(s: State, e: Event) {
    s.owner.Some? && s.owner.value < |s.pcs| && s.pcs[s.owner.value] == Notifying(e)
  }

  /** What each program counter says about the two flags of its event. */
  ghost predicate PcOk(s: State, pc: Pc) {
    match pc
    case Notifying(e) => Flag(s.raised, e)
    case Flagging(e) => !Flag(s.raised, e)
    case GoingToSleep(e) => !Flag(s.raised, e) && Flag(s.waiting, e)
    case Asleep(e) => Flag(s.waiting, e) && (Flag(s.raised, e) ==> NotifyPending(s, e))
    case Leaving(c) => c.Await? || c.Raise? ==> Flag(s.raised, c.event)
    case _ => true
  }

  ghost predicate Ok(s: State) {
    MutexOk(s) && forall t :: 0 <= t < |s.pcs| ==> PcOk(s, s.pcs[t])
  }

  lemma InitOk(threads: nat, leftover: bool)
    ensures Ok(Init(threads, leftover))
  {
  }

  /** A step changes only whether its own thread owns the mutex, and takes it only when it is free. */
  lemma OwnerOfStep(s: State, t: nat, call: Call)
    requires t < |s.pcs| && (HoldsMutex(s.pcs[t]) ==> s.owner == Some(t))
    ensures var r := Step(s, t, call);
            && (forall u :: 0 <= u < |s.pcs| && u != t ==> (HoldsMutex(r.pcs[u]) <==> HoldsMutex(s.pcs[u])))
            && (if HoldsMutex(r.pcs[t]) then r.owner == Some(t) && (HoldsMutex(s.pcs[t]) || s.owner == None)
                else r.owner == if HoldsMutex(s.pcs[t]) then None else s.owner)
  {
  }

  lemma StepKeepsMutex(s: State, t: nat, call: Call)
    requires Ok(s) && t < |s.pcs|
    ensures MutexOk(Step(s, t, call))
  {
    var r := Step(s, t, call);
    assert HoldsMutex(s.pcs[t]) ==> s.owner == Some(t);
    OwnerOfStep(s, t, call);
    hide Step, PcOk, HoldsMutex;
    forall u | 0 <= u < |r.pcs| && HoldsMutex(r.pcs[u])
      ensures r.owner == Some(u)
    {
      assert u != t ==> HoldsMutex(s.pcs[u]);
    }
  }

  lemma StepKeepsOwnPc(s: State, t: nat, call: Call)
    requires Ok(s) && t < |s.pcs|
    ensures PcOk(Step(s, t, call), Step(s, t, call).pcs[t])
  {
    assert PcOk(s, s.pcs[t]);
  }

  lemma OtherPcIsOkWhenNotified(s: State, t: nat, call: Call, u: nat)
    requires t < |s.pcs| && u < |s.pcs| && u != t && PcOk(s, s.pcs[u]) && PcOk(s, s.pcs[t])
    requires HoldsMutex(s.pcs[u]) ==> s.owner == Some(u)
    requires HoldsMutex(s.pcs[t]) ==> s.owner == Some(t)
    requires s.pcs[t].Notifying?
    ensures PcOk(Step(s, t, call), Step(s, t, call).pcs[u])
  {
  }

  lemma OtherPcIsOkOtherwise(s: State, t: nat, call: Call, u: nat)
    requires t < |s.pcs| && u < |s.pcs| && u != t && PcOk(s, s.pcs[u]) && PcOk(s, s.pcs[t])
    requires HoldsMutex(s.pcs[u]) ==> s.owner == Some(u)
    requires HoldsMutex(s.pcs[t]) ==> s.owner == Some(t)
    requires !s.pcs[t].Notifying?
    ensures PcOk(Step(s, t, call), Step(s, t, call).pcs[u])
  {
    hide Broadcast;
  }

  lemma OtherPcIsOk(s: State, t: nat, call: Call, u: nat)
    requires t < |s.pcs| && u < |s.pcs| && u != t && PcOk(s, s.pcs[u]) && PcOk(s, s.pcs[t])
    requires HoldsMutex(s.pcs[u]) ==> s.owner == Some(u)
    requires HoldsMutex(s.pcs[t]) ==> s.owner == Some(t)
    ensures PcOk(Step(s, t, call), Step(s, t, call).pcs[u])
  {
    if s.pcs[t].Notifying? {
      OtherPcIsOkWhenNotified(s, t, call, u);
    } else {
      OtherPcIsOkOtherwise(s, t, call, u);
    }
    hide PcOk, Step;
  }

  lemma StepKeepsOtherPc(s: State, t: nat, call: Call, u: nat)
    requires Ok(s) && t < |s.pcs| && u < |s.pcs| && u != t
    ensures PcOk(Step(s, t, call), Step(s, t, call).pcs[u])
  {
    assert PcOk(s, s.pcs[u]) && PcOk(s, s.pcs[t]);
    assert HoldsMutex(s.pcs[u]) ==> s.owner == Some(u);
    assert HoldsMutex(s.pcs[t]) ==> s.owner == Some(t);
    hide Ok, MutexOk;
    OtherPcIsOk(s, t, call, u);
  }

  lemma StepKeepsOk(s: State, t: nat, call: Call)
    requires Ok(s)
    ensures Ok(Step(s, t, call))
  {
    if t < |s.pcs| {
      StepKeepsMutex(s, t, call);
      hide Step, PcOk, MutexOk;
      forall u | 0 <= u < |s.pcs|
        ensures PcOk(Step(s, t, call), Step(s, t, call).pcs[u])
      {
        if u == t {
          StepKeepsOwnPc(s, t, call);
        } else {
          StepKeepsOtherPc(s, t, call, u);
        }
      }
    }
  }

  lemma {:induction false} RunKeepsOk(s: State, moves: seq<Move>)
    requires Ok(s)
    ensures Ok(Run(s, moves))
    decreases |moves|
  {
    if moves != [] {
      StepKeepsOk(s, moves[0].thread, moves[0].call);
      RunKeepsOk(Step(s, moves[0].thread, moves[0].call), moves[1..]);
    }
  }

  lemma ReachableIsOk(s: State)
    requires Reachable(s)
    ensures Ok(s)
  {
    var threads, leftover, moves :| s == Run(Init(threads, leftover), moves);
    InitOk(threads, leftover);
    RunKeepsOk(Init(threads, leftover), moves);
  }

  // ---- Results ----

  /**
   No wake-up is lost: in every reachable state, with any number of threads, a thread that sleeps although
   its event was raised is about to be notified by the owner of the mutex; when the mutex is free there is none.
   */
  lemma NoLostWakeUp(s: State, t: nat)
    requires Reachable(s) && t < |s.pcs| && s.pcs[t].Asleep? && Flag(s.raised, s.pcs[t].event)
    ensures s.owner.Some? && NotifyPending(s, s.pcs[t].event)
  {
    ReachableIsOk(s);
    assert PcOk(s, s.pcs[t]);
  }

  /** A wait returns only after its event was raised, and one thread at a time is in a critical section. */
  lemma WaitsReturnInTime(s: State, t: nat, u: nat)
    requires Reachable(s) && t < |s.pcs| && u < |s.pcs|
    ensures s.pcs[t].Leaving? && s.pcs[t].call.Await? ==> Flag(s.raised, s.pcs[t].call.event)
    ensures HoldsMutex(s.pcs[t]) && HoldsMutex(s.pcs[u]) ==> t == u
  {
    ReachableIsOk(s);
    assert PcOk(s, s.pcs[t]);
  }

  predicate Awaits(pc: Pc, e: Event) {
    pc == Entering(Await(e)) || pc == Testing(e) || pc == Flagging(e) || pc == GoingToSleep(e) || pc == Asleep(e)
    || pc == Waking(e) || pc == Leaving(Await(e))
  }

  /** How many steps the owner of the mutex takes at most until it gives it back. */
  function StepsToRelease(s: State): nat {
    if s.owner == None || s.owner.value >= |s.pcs| then 0
    else
      match s.pcs[s.owner.value]
      case Testing(_) => 4
      case Setting(_) => 4
      case Flagging(_) => 3
      case Notifying(_) => 3
      case Asking => 2
      case _ => 1
  }

  /** Each step of the owner brings the release nearer, and waiters for a raised event stay waiters or leave. */
  lemma OwnerGoesOn(s: State, t: nat, e: Event)
    requires Ok(s) && s.owner.Some? && t < |s.pcs| && Awaits(s.pcs[t], e) && Flag(s.raised, e)
    ensures var r := Step(s, s.owner.value, Ask);
            && Flag(r.raised, e) && StepsToRelease(r) < StepsToRelease(s)
            && (Awaits(r.pcs[t], e) || r.pcs[t] == Idle)
  {
    assert PcOk(s, s.pcs[t]);
  }

  /**
   Whoever waits for an event that was raised can always finish: from every state some steps, first of
   the owner of the mutex and then of the waiter itself, take it out of the call.
   */
  lemma {:induction false} WaiterCanFinish(s: State, t: nat, e: Event) returns (moves: seq<Move>)
    requires Ok(s) && t < |s.pcs| && Awaits(s.pcs[t], e) && Flag(s.raised, e)
    ensures |moves| <= 7 && Run(s, moves).pcs[t] == Idle
    ensures s.owner == None ==> !s.pcs[t].Asleep? && |moves| <= 3 && forall m <- moves :: m.thread == t
    ensures |moves| <= StepsToRelease(s) + 3
    decreases StepsToRelease(s)
  {
    if s.owner == None {
      assert PcOk(s, s.pcs[t]);
      var s1 := Step(s, t, Ask);
      var s2 := Step(s1, t, Ask);
      assert s1.pcs[t] == Testing(e);
      assert s2.pcs[t] == Leaving(Await(e));
      var move := Move(t, Ask);
      moves := [move, move, move];
      assert moves[1..] == [move, move] && [move, move][1..] == [move] && [move][1..] == [];
      assert Run(s2, [move]) == Run(Step(s2, t, Ask), []);
      assert Run(s1, [move, move]) == Run(s2, [move]);
    } else {
      var u := s.owner.value;
      var r := Step(s, u, Ask);
      OwnerGoesOn(s, t, e);
      StepKeepsOk(s, u, Ask);
      var rest := [];
      if r.pcs[t] != Idle {
        rest := WaiterCanFinish(r, t, e);
      }
      moves := [Move(u, Ask)] + rest;
      assert moves[1..] == rest;
    }
  }
}
