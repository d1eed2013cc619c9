/**
 What a whole run of src/Common/ThreadGroup.c achieves: every thread is started, once; a report never goes
 unnoticed; and from wherever a run stands all groups can still be completed and waited for.
 */
module GroupRun {
  import opened Options
  import opened ThreadGroup

  // ---- Starting ----

  predicate AllStarted(group: Group) {
    group.monitor != NotCreated && forall t :: 0 <= t < |group.threads| ==> group.threads[t] != NotStarted
  }

  predicate NoneStarted(group: Group) {
    group.monitor == NotCreated && forall t :: 0 <= t < |group.threads| ==> group.threads[t] == NotStarted
  }

  /** The first `i` threads are started, the others and the monitor are not. */
  predicate PartlyStarted(group: Group, i: nat) {
    && group.monitor == NotCreated && i <= |group.threads|
    && forall t :: 0 <= t < |group.threads| ==> (group.threads[t] == NotStarted <==> t >= i)
  }

  /** How far TgManagerStartAll has come with group `g`. */
  predicate StartedSoFar(manager: ManagerPc, g: nat, group: Group) {
    match manager
    case Begin => NoneStarted(group)
    case Creating(g0, i) =>
      if g < g0 then AllStarted(group) else if g == g0 then PartlyStarted(group, i) else NoneStarted(group)
    case _ => AllStarted(group)
  }

  /** Only a monitor that exists can hold the mutex, and a manager that waits has something to wait for. */
  ghost predicate RunOk(s: State) {
    && (forall g :: 0 <= g < |s.groups| ==> StartedSoFar(s.manager, g, s.groups[g]))
    && (s.owner.Some? && s.owner.value.Monitor? ==> s.owner.value.group < |s.groups|)
    && (s.manager == Waiting ==> s.completedCount < |s.groups| || Reporting(s))
  }

  /** A monitor has counted its group and is about to signal the manager. */
  predicate Reporting(s: State) {
    s.owner.Some? && s.owner.value.Monitor? && s.owner.value.group < |s.groups|
    && s.groups[s.owner.value.group].monitor == Signalling
  }

  lemma CreatingStartsGroup(s: State, g: nat)
    requires g < |s.groups| && StartedSoFar(s.manager, g, s.groups[g]) && s.manager.Creating?
    ensures var r := ManagerStep(s);
            |r.groups| == |s.groups| && StartedSoFar(r.manager, g, r.groups[g])
  {
    var g0, i := s.manager.group, s.manager.thread;
    if g0 < |s.groups| && g == g0 {
      OwnGroupStarts(s, g, i);
    } else {
      hide AllStarted, NoneStarted, PartlyStarted;
      if g == g0 + 1 {
        FirstToStart(s.groups[g]);
      }
    }
  }

  lemma FirstToStart(group: Group)
    ensures NoneStarted(group) ==> PartlyStarted(group, 0)
  {
  }

  lemma OwnGroupStarts(s: State, g: nat, i: nat)
    requires g < |s.groups| && s.manager == Creating(g, i) && PartlyStarted(s.groups[g], i)
    ensures var r := ManagerStep(s);
            |r.groups| == |s.groups| && StartedSoFar(r.manager, g, r.groups[g])
  {
  }

  lemma ManagerStartsGroup(s: State, g: nat)
    requires g < |s.groups| && StartedSoFar(s.manager, g, s.groups[g])
    ensures var r := ManagerStep(s);
            |r.groups| == |s.groups| && StartedSoFar(r.manager, g, r.groups[g])
  {
    if s.manager.Creating? {
      CreatingStartsGroup(s, g);
    } else {
      FirstToStart(s.groups[g]);
      hide NoneStarted, PartlyStarted;
    }
  }

  lemma MonitorKeepsStarted(s: State, k: nat, g: nat)
    requires g < |s.groups| && k < |s.groups| && StartedSoFar(s.manager, g, s.groups[g])
    ensures StartedSoFar(MonitorStep(s, k).manager, g, MonitorStep(s, k).groups[g])
  {
    MonitorStepIs(s, k);
    hide MonitorStep;
  }

  lemma StepKeepsStarted(s: State, move: Move, g: nat)
    requires g < |s.groups| && StartedSoFar(s.manager, g, s.groups[g])
    ensures StartedSoFar(Step(s, move).manager, g, Step(s, move).groups[g])
  {
    match move
    case ManagerMoves => ManagerStartsGroup(s, g);
    case MonitorMoves(k) =>
      if k < |s.groups| {
        MonitorKeepsStarted(s, k, g);
      }
    case ThreadEnds(_, _) =>
    case ShutdownRequested =>
    hide ManagerStep, MonitorStep;
  }

  lemma ManagerKeepsWaiting(s: State)
    requires RunOk(s)
    ensures var r := ManagerStep(s);
            && (r.owner.Some? && r.owner.value.Monitor? ==> r.owner.value.group < |r.groups|)
            && (r.manager == Waiting ==> r.completedCount < |r.groups| || Reporting(r))
  {
    hide StartedSoFar;
  }

  lemma MonitorKeepsWaiting(s: State, g: nat)
    requires RunOk(s) && MutexOk(s) && g < |s.groups|
    ensures var r := MonitorStep(s, g);
            && (r.owner.Some? && r.owner.value.Monitor? ==> r.owner.value.group < |r.groups|)
            && (r.manager == Waiting ==> r.completedCount < |r.groups| || Reporting(r))
  {
    assert MonitorHolds(s.groups[g].monitor) <==> s.owner == Some(Monitor(g));
    hide StartedSoFar, MutexOk;
  }

  lemma StepKeepsWaiting(s: State, move: Move)
    requires RunOk(s) && MutexOk(s)
    ensures var r := Step(s, move);
            && (r.owner.Some? && r.owner.value.Monitor? ==> r.owner.value.group < |r.groups|)
            && (r.manager == Waiting ==> r.completedCount < |r.groups| || Reporting(r))
  {
    match move
    case ManagerMoves => ManagerKeepsWaiting(s);
    case MonitorMoves(g) =>
      if g < |s.groups| {
        MonitorKeepsWaiting(s, g);
      }
    case ThreadEnds(_, _) =>
    case ShutdownRequested =>
    hide ManagerStep, MonitorStep, StartedSoFar, MutexOk;
  }

  lemma StepKeepsRunOk(s: State, move: Move)
    requires RunOk(s) && MutexOk(s)
    ensures RunOk(Step(s, move))
  {
    StepKeepsWaiting(s, move);
    forall g | 0 <= g < |s.groups|
      ensures StartedSoFar(Step(s, move).manager, g, Step(s, move).groups[g])
    {
      StepKeepsStarted(s, move, g);
    }
    hide Step, StartedSoFar, MutexOk, Reporting;
  }

  lemma {:induction false} RunKeepsRunOk(s: State, moves: seq<Move>)
    requires Ok(s) && RunOk(s)
    ensures Ok(Run(s, moves)) && RunOk(Run(s, moves))
    decreases |moves|
  {
    if moves != [] {
      StepKeepsOk(s, moves[0]);
      StepKeepsRunOk(s, moves[0]);
      RunKeepsRunOk(Step(s, moves[0]), moves[1..]);
    }
    hide Step, StartedSoFar, CountOk, ManagerOk, GroupOk, RunOk;
  }

  lemma ReachableIsRunOk(s: State)
    requires Reachable(s)
    ensures Ok(s) && RunOk(s)
  {
    var counts, moves :| s == Run(Init(counts), moves);
    InitOk(counts);
    RunKeepsRunOk(Init(counts), moves);
    hide Ok, Run;
  }

  /** When TgManagerStartAll has returned every thread of every group runs or has run, and every group is monitored. */
  lemma AllAreStarted(s: State)
    requires Reachable(s) && !s.manager.Begin? && !s.manager.Creating?
    ensures forall g, t :: 0 <= g < |s.groups| && 0 <= t < |s.groups[g].threads| ==>
              s.groups[g].threads[t] != NotStarted
    ensures forall g :: 0 <= g < |s.groups| ==> s.groups[g].monitor != NotCreated
  {
    ReachableIsRunOk(s);
    hide Ok, Reachable;
    forall g | 0 <= g < |s.groups|
      ensures AllStarted(s.groups[g])
    {
      assert StartedSoFar(s.manager, g, s.groups[g]);
    }
  }

  ghost predicate StartsThread(s: State, g: nat, t: nat) {
    s.manager == Creating(g, t) && s.owner == Some(Manager)
  }

  /** What becomes of thread `t` of group `g` in a step. */
  ghost predicate GoesOn(s: State, r: State, move: Move, g: nat, t: nat)
    requires g < |s.groups| && t < |s.groups[g].threads| && g < |r.groups|
  {
    && |r.groups[g].threads| == |s.groups[g].threads|
    && r.groups[g].threads[t] ==
       if move == ManagerMoves && StartsThread(s, g, t) then Running
       else if move == ThreadEnds(g, t) && s.groups[g].threads[t] == Running then Finished
       else s.groups[g].threads[t]
  }

  lemma ManagerStartsThread(s: State, g: nat, t: nat)
    requires Ok(s) && g < |s.groups| && t < |s.groups[g].threads|
    ensures GoesOn(s, ManagerStep(s), ManagerMoves, g, t)
  {
    assert s.manager.Creating? ==> s.owner == Some(Manager);
    hide Ok;
  }

  lemma MonitorLeavesThread(s: State, k: nat, g: nat, t: nat)
    requires k < |s.groups| && g < |s.groups| && t < |s.groups[g].threads|
    ensures GoesOn(s, MonitorStep(s, k), MonitorMoves(k), g, t)
  {
    MonitorStepIs(s, k);
    hide MonitorStep;
  }

  /** A thread is started once, by the manager with the mutex, and only its own end ends it. */
  lemma ThreadsStartOnce(s: State, move: Move, g: nat, t: nat)
    requires Reachable(s) && g < |s.groups| && t < |s.groups[g].threads|
    ensures |Step(s, move).groups[g].threads| == |s.groups[g].threads|
    ensures var before, after := s.groups[g].threads[t], Step(s, move).groups[g].threads[t];
            after == if move == ManagerMoves && StartsThread(s, g, t) then Running
                     else if move == ThreadEnds(g, t) && before == Running then Finished
                     else before
    ensures StartsThread(s, g, t) ==> s.groups[g].threads[t] == NotStarted
  {
    ReachableIsRunOk(s);
    assert StartedSoFar(s.manager, g, s.groups[g]);
    match move
    case ManagerMoves => ManagerStartsThread(s, g, t);
    case MonitorMoves(k) =>
      if k < |s.groups| {
        MonitorLeavesThread(s, k, g, t);
      }
    case ThreadEnds(_, _) =>
    case ShutdownRequested =>
    hide Reachable, Ok, ManagerStep, MonitorStep, RunOk;
  }

  /**
   No report is lost: while the manager waits, some group is not counted yet, or the monitor that counted the
   last one holds the mutex and is about to signal. Its signal then ends the wait.
   */
  lemma NoLostReport(s: State)
    requires Reachable(s) && s.manager == Waiting
    ensures s.completedCount < |s.groups| || Reporting(s)
    ensures Reporting(s) ==> Step(s, MonitorMoves(s.owner.value.group)).manager == Relocking
  {
    ReachableIsRunOk(s);
    hide Ok, Reachable, StartedSoFar;
  }

  // ---- Every group can be completed ----

  /** Unfinished threads and steps of the monitor that are left. */
  function GroupRank(group: Group): nat {
    Unfinished(group.threads) +
    match group.monitor
    case NotCreated => |group.threads| + 8
    case Joining(t) => (if t < |group.threads| then |group.threads| - t else 0) + 7
    case Cleaning => 6
    case Locking => 5
    case Marking => 4
    case Counting => 3
    case Signalling => 2
    case Unlocking => 1
    case Gone => 0
  }

  function Unfinished(threads: seq<Thread>): nat {
    if threads == [] then 0
    else Unfinished(threads[..|threads| - 1]) + if threads[|threads| - 1] == Finished then 0 else 1
  }

  function Ranks(groups: seq<Group>): nat {
    if groups == [] then 0 else Ranks(groups[..|groups| - 1]) + GroupRank(groups[|groups| - 1])
  }

  lemma {:induction false} RanksUpdate(groups: seq<Group>, g: nat, group: Group)
    requires g < |groups|
    ensures Ranks(groups[g := group]) == Ranks(groups) - GroupRank(groups[g]) + GroupRank(group)
  {
    var last := |groups| - 1;
    if g < last {
      RanksUpdate(groups[..last], g, group);
      assert groups[g := group][..last] == groups[..last][g := group];
    } else {
      assert groups[g := group][..last] == groups[..last];
    }
    hide GroupRank;
  }

  lemma {:induction false} UnfinishedUpdate(threads: seq<Thread>, t: nat)
    requires t < |threads| && threads[t] == Running
    ensures Unfinished(threads[t := Finished]) < Unfinished(threads)
  {
    var last := |threads| - 1;
    if t < last {
      UnfinishedUpdate(threads[..last], t);
      assert threads[t := Finished][..last] == threads[..last][t := Finished];
    } else {
      assert threads[t := Finished][..last] == threads[..last];
    }
  }

  /** How many steps the manager can take before it releases the mutex. */
  function HoldRank(s: State): nat {
    match s.manager
    case Started => 1
    case Scanning(i) => (if i < |s.groups| then |s.groups| - i else 0) + 4
    case Checking => 3
    case AskingAgain => 2
    case Leaving => 1
    case _ => 0
  }

  /** How far TgManagerStartAll still has to go. */
  function StartRank(s: State): (nat, nat, nat) {
    match s.manager
    case Begin => (2, 0, 0)
    case Creating(g, i) =>
      (1, if g < |s.groups| then |s.groups| - g else 0,
       if g < |s.groups| && i < |s.groups[g].threads| then |s.groups[g].threads| - i else 0)
    case _ => (0, 0, 0)
  }

  predicate IsStarting(s: State) {
    s.manager.Begin? || s.manager.Creating?
  }

  lemma StartingGoesOn(s: State)
    requires RunOk(s) && MutexOk(s) && IsStarting(s)
    ensures var x, y := StartRank(ManagerStep(s)), StartRank(s);
            x.0 < y.0 || (x.0 == y.0 && (x.1 < y.1 || (x.1 == y.1 && x.2 < y.2)))
    ensures ManagerStep(s).shutdown == s.shutdown
  {
    if s.manager.Begin? {
      FreeAtBegin(s);
    }
  }

  lemma NotHeldBy(s: State, g: nat)
    requires RunOk(s) && MutexOk(s) && s.manager.Begin? && g < |s.groups|
    ensures s.owner != Some(Monitor(g))
  {
    assert StartedSoFar(s.manager, g, s.groups[g]);
    assert MonitorHolds(s.groups[g].monitor) <==> s.owner == Some(Monitor(g));
  }

  lemma FreeAtBegin(s: State)
    requires RunOk(s) && MutexOk(s) && s.manager.Begin?
    ensures s.owner == None
  {
    if s.owner.Some? && s.owner.value.Monitor? {
      NotHeldBy(s, s.owner.value.group);
    }
    hide StartedSoFar;
  }

  lemma HoldingReleases(s: State)
    requires MutexOk(s) && s.owner == Some(Manager) && !IsStarting(s)
    ensures var r := ManagerStep(s);
            !IsStarting(r) && r.shutdown == s.shutdown && HoldRank(r) < HoldRank(s)
  {
    hide MonitorHolds;
  }

  lemma ScanningKeepsRanks(s: State)
    requires !IsStarting(s)
    ensures Ranks(ManagerStep(s).groups) == Ranks(s.groups)
  {
    if s.manager.Scanning? && s.manager.next < |s.groups| {
      var i := s.manager.next;
      RanksUpdate(s.groups, i, s.groups[i].(listed := false));
    }
    hide Ranks;
  }

  lemma HoldingGoesOn(s: State)
    requires MutexOk(s) && s.owner == Some(Manager) && !IsStarting(s)
    ensures var r := ManagerStep(s);
            && !IsStarting(r) && r.shutdown == s.shutdown
            && Ranks(r.groups) == Ranks(s.groups) && HoldRank(r) < HoldRank(s)
  {
    HoldingReleases(s);
    ScanningKeepsRanks(s);
    hide *;
  }

  /** A monitor that need not wait: it has the mutex, or needs it and it is free, or works on its own. */
  ghost predicate CanStep(s: State, g: nat)
    requires g < |s.groups|
  {
    match s.groups[g].monitor
    case NotCreated => false
    case Joining(t) => t >= |s.groups[g].threads| || s.groups[g].threads[t] == Finished
    case Cleaning => true
    case Locking => s.owner == None
    case Gone => false
    case _ => true
  }

  lemma MonitorGroupFalls(s: State, g: nat)
    requires g < |s.groups| && CanStep(s, g)
    ensures GroupRank(MonitorGroup(s.groups[g], s.owner == None)) < GroupRank(s.groups[g])
  {
    hide Unfinished;
  }

  lemma MonitorLeavesManager(s: State, g: nat)
    requires g < |s.groups|
    ensures var r := MonitorStep(s, g);
            && r.shutdown == s.shutdown && (IsStarting(r) <==> IsStarting(s))
            && r.groups == s.groups[g := MonitorGroup(s.groups[g], s.owner == None)]
  {
    MonitorStepIs(s, g);
  }

  lemma MonitorGoesOn(s: State, g: nat)
    requires g < |s.groups| && CanStep(s, g)
    ensures var r := MonitorStep(s, g);
            Ranks(r.groups) < Ranks(s.groups) && r.shutdown == s.shutdown && (IsStarting(r) <==> IsStarting(s))
  {
    hide *;
    MonitorLeavesManager(s, g);
    MonitorGroupFalls(s, g);
    RanksUpdate(s.groups, g, MonitorGroup(s.groups[g], s.owner == None));
  }

  lemma ThreadGoesOn(s: State, g: nat, t: nat)
    requires g < |s.groups| && t < |s.groups[g].threads| && s.groups[g].threads[t] == Running
    ensures var r := Step(s, ThreadEnds(g, t));
            Ranks(r.groups) < Ranks(s.groups) && r.shutdown == s.shutdown && r.manager == s.manager
  {
    var group := s.groups[g].(threads := s.groups[g].threads[t := Finished]);
    UnfinishedUpdate(s.groups[g].threads, t);
    RanksUpdate(s.groups, g, group);
    hide Ranks, Unfinished;
  }

  /** The next move of a group with something left to do: one of its threads ends, or its monitor goes on. */
  lemma GroupCanMove(s: State, g: nat) returns (move: Move)
    requires g < |s.groups| && StartedSoFar(s.manager, g, s.groups[g]) && !IsStarting(s)
    requires s.owner == None && s.groups[g].monitor != Gone
    ensures move != ShutdownRequested
    ensures var r := Step(s, move);
            Ranks(r.groups) < Ranks(s.groups) && r.shutdown == s.shutdown && !IsStarting(r)
  {
    var pc := s.groups[g].monitor;
    if pc.Joining? && pc.next < |s.groups[g].threads| && s.groups[g].threads[pc.next] != Finished {
      assert s.groups[g].threads[pc.next] == Running;
      move := ThreadEnds(g, pc.next);
      ThreadGoesOn(s, g, pc.next);
    } else {
      move := MonitorMoves(g);
      MonitorGoesOn(s, g);
    }
    hide ThreadGroup.MonitorStep, Ranks;
  }

  lemma HolderCanStep(s: State)
    requires RunOk(s) && MutexOk(s) && s.owner.Some? && s.owner.value.Monitor?
    ensures s.owner.value.group < |s.groups| && CanStep(s, s.owner.value.group)
  {
    var g := s.owner.value.group;
    assert MonitorHolds(s.groups[g].monitor) <==> s.owner == Some(Monitor(g));
    hide StartedSoFar;
  }

  ghost predicate AllGone(s: State) {
    forall g :: 0 <= g < |s.groups| ==> s.groups[g].monitor == Gone
  }

  lemma GoneAreCompleted(s: State)
    requires Ok(s) && AllGone(s)
    ensures Completed(s.groups) == |s.groups|
  {
    AllCompleted(s.groups);
    forall g | 0 <= g < |s.groups|
      ensures s.groups[g].completed
    {
      GroupOf(s, g);
    }
    hide Completed, Ok;
  }

  lemma GroupStarted(s: State, g: nat)
    requires RunOk(s) && g < |s.groups|
    ensures StartedSoFar(s.manager, g, s.groups[g])
  {
  }

  lemma NextMove(s: State) returns (move: Move)
    requires Ok(s) && RunOk(s) && (IsStarting(s) || s.owner.Some? || !AllGone(s))
    ensures move != ShutdownRequested && Step(s, move).shutdown == s.shutdown
    ensures var r := Step(s, move);
            var x, y := StartRank(r), StartRank(s);
            if IsStarting(s) then x.0 < y.0 || (x.0 == y.0 && (x.1 < y.1 || (x.1 == y.1 && x.2 < y.2)))
            else
              && !IsStarting(r)
              && (Ranks(r.groups) < Ranks(s.groups) ||
                  (Ranks(r.groups) == Ranks(s.groups) && HoldRank(r) < HoldRank(s)))
  {
    move := ManagerMoves;
    OkIs(s);
    if IsStarting(s) {
      StartingGoesOn(s);
    } else if s.owner == Some(Manager) {
      HoldingGoesOn(s);
    } else if s.owner.Some? {
      move := MonitorMoves(s.owner.value.group);
      HolderCanStep(s);
      MonitorGoesOn(s, s.owner.value.group);
    } else {
      var g :| 0 <= g < |s.groups| && s.groups[g].monitor != Gone;
      GroupStarted(s, g);
      move := GroupCanMove(s, g);
    }
    hide Ok, RunOk, MutexOk, ManagerStep, MonitorStep, Ranks, HoldRank, StartRank, IsStarting, CanStep;
  }

  lemma OkIs(s: State)
    requires Ok(s)
    ensures MutexOk(s)
  {
  }

  ghost predicate Calm(moves: seq<Move>) {
    forall i :: 0 <= i < |moves| ==> moves[i] != ShutdownRequested
  }

  lemma NotStartingRank(s: State)
    ensures !IsStarting(s) ==> StartRank(s) == (0, 0, 0)
  {
  }

  lemma RunOfCons(s: State, move: Move, rest: seq<Move>)
    ensures Run(s, [move] + rest) == Run(Step(s, move), rest)
    ensures move != ShutdownRequested && Calm(rest) ==> Calm([move] + rest)
  {
    assert ([move] + rest)[1..] == rest;
    hide Step;
  }

  /** Some continuation without a shutdown request brings every monitor to its end, the mutex being free. */
  lemma {:induction false} CanComplete(s: State) returns (moves: seq<Move>)
    requires Ok(s) && RunOk(s)
    ensures Calm(moves)
    ensures var r := Run(s, moves);
            Ok(r) && RunOk(r) && AllGone(r) && r.owner == None && !IsStarting(r) && r.shutdown == s.shutdown
    decreases StartRank(s).0, StartRank(s).1, StartRank(s).2, Ranks(s.groups), HoldRank(s)
  {
    hide *;
    moves := [];
    if IsStarting(s) || s.owner.Some? || !AllGone(s) {
      var move := NextMove(s);
      NotStartingRank(s);
      NotStartingRank(Step(s, move));
      OkIs(s);
      StepKeepsOk(s, move);
      StepKeepsRunOk(s, move);
      var rest := CanComplete(Step(s, move));
      RunOfCons(s, move, rest);
      moves := [move] + rest;
    } else {
      EmptyRun(s);
    }
  }

  lemma EmptyRun(s: State)
    ensures Run(s, []) == s && Calm([])
  {
  }

  lemma {:induction false} RunOfConcat(s: State, a: seq<Move>, b: seq<Move>)
    ensures Run(s, a + b) == Run(Run(s, a), b)
    decreases |a|
  {
    if a == [] {
      assert a + b == b;
    } else {
      RunOfConcat(Step(s, a[0]), a[1..], b);
      assert (a + b)[1..] == a[1..] + b;
    }
    hide Step;
  }

  ghost predicate ManagerOnly(moves: seq<Move>) {
    forall i :: 0 <= i < |moves| ==> moves[i] == ManagerMoves
  }

  lemma OnlyTheManager(moves: seq<Move>)
    requires forall i :: 0 <= i < |moves| ==> moves[i] == ManagerMoves
    ensures ManagerOnly(moves)
  {
  }

  /** The manager's own steps neither start a thread again nor request a shutdown. */
  lemma {:induction false} ManagerRuns(s: State, moves: seq<Move>)
    requires ManagerOnly(moves) && Ok(s)
    ensures Run(s, moves).shutdown == s.shutdown
    ensures AllGone(s) && !IsStarting(s) ==> AllGone(Run(s, moves))
    decreases |moves|
  {
    if moves != [] {
      assert moves[0] == ManagerMoves;
      StepKeepsOk(s, moves[0]);
      ManagerStays(s);
      ManagerRuns(Step(s, moves[0]), moves[1..]);
    }
    hide ManagerStep, Ok;
  }

  lemma ManagerStays(s: State)
    ensures ManagerStep(s).shutdown == s.shutdown
    ensures AllGone(s) && !IsStarting(s) ==> AllGone(ManagerStep(s)) && !IsStarting(ManagerStep(s))
  {
  }

  lemma CalmParts(a: seq<Move>, b: seq<Move>)
    requires Calm(a) && ManagerOnly(b)
    ensures Calm(a + b)
  {
  }

  lemma {:induction false} ThreadsKeepTheirNumber(s: State, moves: seq<Move>)
    ensures var r := Run(s, moves);
            && |r.groups| == |s.groups|
            && forall g :: 0 <= g < |s.groups| ==> |r.groups[g].threads| == |s.groups[g].threads|
    decreases |moves|
  {
    if moves != [] {
      forall g | 0 <= g < |s.groups|
        ensures |Step(s, moves[0]).groups[g].threads| == |s.groups[g].threads|
      {
        if moves[0].MonitorMoves? && moves[0].group < |s.groups| {
          MonitorStepIs(s, moves[0].group);
          hide MonitorStep;
        }
      }
      hide Step;
      ThreadsKeepTheirNumber(Step(s, moves[0]), moves[1..]);
    }
  }

  lemma GoneIsCleaned(group: Group)
    requires GroupOk(group) && group.monitor == Gone
    ensures AllFinished(group) && group.completed && group.cleanups == 1
  {
  }

  /**
   From wherever a run stands, and without a shutdown request, it can be continued until TgManagerWaitForAll has
   returned with every thread of every group run to its end, every group cleaned up once and marked.
   */
  lemma GroupsCanComplete(counts: seq<nat>, before: seq<Move>) returns (moves: seq<Move>)
    ensures Calm(moves)
    ensures var s, r := Run(Init(counts), before), Run(Init(counts), before + moves);
            && r.manager == Done && r.shutdown == s.shutdown && |r.groups| == |counts|
            && forall g :: 0 <= g < |counts| ==>
                 && |r.groups[g].threads| == counts[g] && AllFinished(r.groups[g])
                 && r.groups[g].completed && r.groups[g].cleanups == 1
  {
    hide *;
    var s := Run(Init(counts), before);
    InitOk(counts);
    InitRunOk(counts);
    RunKeepsRunOk(Init(counts), before);
    var first := CanComplete(s);
    var q := Run(s, first);
    GoneAreCompleted(q);
    OkIs(q);
    StartingIs(q);
    var last := ManagerCanReturn(q);
    OnlyTheManager(last);
    RunOfConcat(s, first, last);
    RunOfConcat(Init(counts), before, first + last);
    moves := first + last;
    CalmParts(first, last);
    ManagerRuns(q, last);
    RunKeepsRunOk(q, last);
    ThreadsKeepTheirNumber(Init(counts), before + moves);
    InitSizes(counts);
    AllAreCleaned(Run(q, last));
  }

  lemma InitRunOk(counts: seq<nat>)
    ensures RunOk(Init(counts))
  {
  }

  lemma InitSizes(counts: seq<nat>)
    ensures |Init(counts).groups| == |counts|
    ensures forall g :: 0 <= g < |counts| ==> |Init(counts).groups[g].threads| == counts[g]
  {
  }

  lemma StartingIs(s: State)
    requires RunOk(s) && !IsStarting(s) && s.owner == None && MutexOk(s)
    ensures !s.manager.Begin? && !s.manager.Creating? && !s.manager.Started?
  {
  }

  lemma AllAreCleaned(s: State)
    requires Ok(s) && AllGone(s)
    ensures forall g :: 0 <= g < |s.groups| ==>
              AllFinished(s.groups[g]) && s.groups[g].completed && s.groups[g].cleanups == 1
  {
    forall g | 0 <= g < |s.groups|
      ensures AllFinished(s.groups[g]) && s.groups[g].completed && s.groups[g].cleanups == 1
    {
      GroupOf(s, g);
      GoneIsCleaned(s.groups[g]);
    }
    hide Ok, AllFinished;
  }
}