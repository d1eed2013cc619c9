/**
 Thread groups of src/Common/ThreadGroup.c: a manager starts the threads of every group and one monitor
 per group; a monitor joins its threads, cleans up and reports; the manager waits until all groups have
 reported or a shutdown is requested. Every thread creation succeeds.
 */
module ThreadGroup {
  import opened Options

  datatype Who = Manager | Monitor(group: nat)

  datatype Thread = NotStarted | Running | Finished

  /** TgMonitor, between two accesses to what is shared. */
  datatype MonitorPc =
    | NotCreated
    | Joining(next: nat)
    | Cleaning
    | Locking
    | Marking
    | Counting
    | Signalling
    | Unlocking
    | Gone

  /** TgManagerStartAll and then TgManagerWaitForAll. */
  datatype ManagerPc =
    | Begin
    | Creating(group: nat, thread: nat)
    | Started
    | Entering
    | Checking
    | Waiting
    | Relocking
    | Scanning(next: nat)
    | AskingAgain
    | Leaving
    | Done

  datatype Group = Group(
    threads: seq<Thread>, monitor: MonitorPc, completed: bool, cleanups: nat, listed: bool)

  datatype State = State(
    owner: Option<Who>,
    manager: ManagerPc,
    groups: seq<Group>,
    completedCount: nat,
    shutdown: bool,
    overridden: bool)   // whether the manager has set the count because of a shutdown

  function Set(s: State, g: nat, group: Group): State
    requires g < |s.groups|
  {
    s.(groups := s.groups[g := group])
  }

  /** One step of the manager; where it must lock a taken mutex it stays. */
  function ManagerStep(s: State): (r: State)
    ensures |r.groups| == |s.groups|
  {
    match s.manager
    case Begin => if s.owner == None then s.(owner := Some(Manager), manager := Creating(0, 0)) else s
    case Creating(g, i) =>
      if g >= |s.groups| then s.(manager := Started)
      else if i < |s.groups[g].threads| then
        Set(s, g, s.groups[g].(threads := s.groups[g].threads[i := Running])).(manager := Creating(g, i + 1))
      else Set(s, g, s.groups[g].(monitor := Joining(0))).(manager := Creating(g + 1, 0))
    case Started => s.(owner := None, manager := Entering)
    case Entering => if s.owner == None then s.(owner := Some(Manager), manager := Checking) else s
    case Checking =>
      if s.completedCount < |s.groups| && !s.shutdown then s.(owner := None, manager := Waiting)
      else s.(manager := AskingAgain)
    case Waiting => s.(manager := Relocking)   // signalled, or after a second
    case Relocking => if s.owner == None then s.(owner := Some(Manager), manager := Scanning(0)) else s
    case Scanning(i) =>
      if i >= |s.groups| then s.(manager := Checking)
      else if s.groups[i].completed then Set(s, i, s.groups[i].(listed := false)).(manager := Scanning(i + 1))
      else s.(manager := Scanning(i + 1))
    case AskingAgain =>
      if s.shutdown then s.(completedCount := |s.groups|, overridden := true, manager := Leaving)
      else s.(manager := Leaving)
    case Leaving => s.(owner := None, manager := Done)
    case Done => s
  }

  /** One step of the monitor of group `g`; a join waits for the thread to finish. */
  function MonitorStep(s: State, g: nat): (r: State)
    requires g < |s.groups|
    ensures |r.groups| == |s.groups|
  {
    var group := s.groups[g];
    match group.monitor
    case NotCreated => s
    case Joining(t) =>
      if t >= |group.threads| then Set(s, g, group.(monitor := Cleaning))
      else if group.threads[t] == Finished then Set(s, g, group.(monitor := Joining(t + 1)))
      else s
    case Cleaning => Set(s, g, group.(monitor := Locking, cleanups := group.cleanups + 1))
    case Locking =>
      if s.owner == None then Set(s, g, group.(monitor := Marking)).(owner := Some(Monitor(g))) else s
    case Marking => Set(s, g, group.(monitor := Counting, completed := true))
    case Counting => Set(s, g, group.(monitor := Signalling)).(completedCount := s.completedCount + 1)
    case Signalling => WakeManager(Set(s, g, group.(monitor := Unlocking)))
    case Unlocking => Set(s, g, group.(monitor := Gone)).(owner := None)
    case Gone => s
  }

  function WakeManager(s: State): State {
    if s.manager == Waiting then s.(manager := Relocking) else s
  }

  datatype Move = ManagerMoves | MonitorMoves(group: nat) | ThreadEnds(group: nat, thread: nat) | ShutdownRequested

  function Step(s: State, move: Move): (r: State)
    ensures |r.groups| == |s.groups|
  {
    match move
    case ManagerMoves => ManagerStep(s)
    case MonitorMoves(g) => if g < |s.groups| then MonitorStep(s, g) else s
    case ThreadEnds(g, t) =>
      if g < |s.groups| && t < |s.groups[g].threads| && s.groups[g].threads[t] == Running then
        Set(s, g, s.groups[g].(threads := s.groups[g].threads[t := Finished]))
      else s
    case ShutdownRequested => s.(shutdown := true)
  }

  function Run(s: State, moves: seq<Move>): State
    decreases |moves|
  {
    if moves == [] then s else Run(Step(s, moves[0]), moves[1..])
  }

  function NewGroup(threads: nat): Group {
    Group(seq(threads, i => NotStarted), NotCreated, false, 0, true)
  }

  /** A manager of groups with the given numbers of threads. */
  function Init(counts: seq<nat>): State {
    State(None, Begin, seq(|counts|, g requires 0 <= g < |counts| => NewGroup(counts[g])), 0, false, false)
  }

  ghost predicate Reachable(s: State) {
    exists counts, moves :: s == Run(Init(counts), moves)
  }

  // ---- Counting ----

  function Completed(groups: seq<Group>): (n: nat)
    ensures n <= |groups|
  {
    if groups == [] then 0
    else Completed(groups[..|groups| - 1]) + if groups[|groups| - 1].completed then 1 else 0
  }

  lemma {:induction false} CompletedUpdate(groups: seq<Group>, g: nat, group: Group)
    requires g < |groups|
    ensures Completed(groups[g := group]) ==
            Completed(groups) - (if groups[g].completed then 1 else 0) + (if group.completed then 1 else 0)
  {
    var last := |groups| - 1;
    if g < last {
      CompletedUpdate(groups[..last], g, group);
      assert groups[g := group][..last] == groups[..last][g := group];
    } else {
      assert groups[g := group][..last] == groups[..last];
    }
  }

  lemma {:induction false} AllCompleted(groups: seq<Group>)
    ensures Completed(groups) == |groups| <==> forall g :: 0 <= g < |groups| ==> groups[g].completed
  {
    if groups != [] {
      var last := |groups| - 1;
      AllCompleted(groups[..last]);
      assert forall g :: 0 <= g < last ==> groups[g] == groups[..last][g];
    }
  }

  lemma {:induction false} NoneCompleted(groups: seq<Group>)
    requires forall g :: 0 <= g < |groups| ==> !groups[g].completed
    ensures Completed(groups) == 0
  {
    if groups != [] {
      NoneCompleted(groups[..|groups| - 1]);
    }
  }

  // ---- Invariants ----

  predicate MonitorHolds(pc: MonitorPc) {
    pc.Marking? || pc.Counting? || pc.Signalling? || pc.Unlocking?
  }

  predicate ManagerHolds(pc: ManagerPc) {
    pc.Creating? || pc.Started? || pc.Checking? || pc.Scanning? || pc.AskingAgain? || pc.Leaving?
  }

  ghost predicate MutexOk(s: State) {
    && (ManagerHolds(s.manager) <==> s.owner == Some(Manager))
    && forall g :: 0 <= g < |s.groups| ==> (MonitorHolds(s.groups[g].monitor) <==> s.owner == Some(Monitor(g)))
  }

  predicate AllFinished(group: Group) {
    forall t :: 0 <= t < |group.threads| ==> group.threads[t] == Finished
  }

  /** What the monitor's position says about its group. */
  predicate GroupOk(group: Group) {
    && (!group.listed ==> group.completed)
    && match group.monitor
       case NotCreated => group.cleanups == 0 && !group.completed
       case Joining(t) =>
         group.cleanups == 0 && !group.completed && t <= |group.threads|
         && forall k :: 0 <= k < t ==> group.threads[k] == Finished
       case Cleaning => group.cleanups == 0 && !group.completed && AllFinished(group)
       case Locking => group.cleanups == 1 && !group.completed && AllFinished(group)
       case Marking => group.cleanups == 1 && !group.completed && AllFinished(group)
       case _ => group.cleanups == 1 && group.completed && AllFinished(group)
  }

  /** A monitor has marked its group but not counted it yet. */
  predicate CountPending(s: State) {
    s.owner.Some? && s.owner.value.Monitor? && s.owner.value.group < |s.groups|
    && s.groups[s.owner.value.group].monitor == Counting
  }

  predicate CountOk(s: State) {
    && (s.overridden ==> s.shutdown && (s.manager.Leaving? || s.manager.Done?))
    && (!s.overridden ==> s.completedCount + (if CountPending(s) then 1 else 0) == Completed(s.groups))
  }

  /** The manager may return: it has overridden the count, or all groups are completed and counted. */
  predicate Settled(s: State) {
    (s.overridden || Completed(s.groups) == |s.groups|) && s.completedCount >= |s.groups|
  }

  predicate ManagerOk(s: State) {
    match s.manager
    case Begin => forall g :: 0 <= g < |s.groups| ==> s.groups[g].monitor == NotCreated
    case Creating(g0, _) => forall g :: g0 <= g < |s.groups| ==> s.groups[g].monitor == NotCreated
    case AskingAgain => s.shutdown || (Completed(s.groups) == |s.groups| && s.completedCount >= |s.groups|)
    case Leaving => Settled(s)
    case Done => Settled(s)
    case _ => true
  }

  ghost predicate Ok(s: State) {
    MutexOk(s) && CountOk(s) && ManagerOk(s) && forall g :: 0 <= g < |s.groups| ==> GroupOk(s.groups[g])
  }

  lemma ManagerKeepsMutex(s: State)
    requires MutexOk(s)
    ensures MutexOk(ManagerStep(s))
  {
    var r := ManagerStep(s);
    forall h | 0 <= h < |r.groups|
      ensures MonitorHolds(r.groups[h].monitor) <==> r.owner == Some(Monitor(h))
    {
      assert MonitorHolds(s.groups[h].monitor) <==> s.owner == Some(Monitor(h));
    }
  }

  /** What a step of its monitor makes of a group. */
  function MonitorGroup(group: Group, free: bool): Group {
    match group.monitor
    case NotCreated => group
    case Joining(t) =>
      if t >= |group.threads| then group.(monitor := Cleaning)
      else if group.threads[t] == Finished then group.(monitor := Joining(t + 1)) else group
    case Cleaning => group.(monitor := Locking, cleanups := group.cleanups + 1)
    case Locking => if free then group.(monitor := Marking) else group
    case Marking => group.(monitor := Counting, completed := true)
    case Counting => group.(monitor := Signalling)
    case Signalling => group.(monitor := Unlocking)
    case Unlocking => group.(monitor := Gone)
    case Gone => group
  }

  lemma MonitorStepIs(s: State, g: nat)
    requires g < |s.groups|
    ensures var r, pc := MonitorStep(s, g), s.groups[g].monitor;
            && r.groups == s.groups[g := MonitorGroup(s.groups[g], s.owner == None)]
            && r.owner == (if pc == Locking && s.owner == None then Some(Monitor(g))
                           else if pc == Unlocking then None else s.owner)
            && (r.manager == s.manager || (s.manager == Waiting && r.manager == Relocking))
  {
  }

  lemma MonitorKeepsMutex(s: State, g: nat)
    requires MutexOk(s) && g < |s.groups|
    ensures MutexOk(MonitorStep(s, g))
  {
    MonitorStepIs(s, g);
    hide MonitorStep;
    var r := MonitorStep(s, g);
    assert MonitorHolds(s.groups[g].monitor) <==> s.owner == Some(Monitor(g));
    forall h | 0 <= h < |r.groups|
      ensures MonitorHolds(r.groups[h].monitor) <==> r.owner == Some(Monitor(h))
    {
      assert MonitorHolds(s.groups[h].monitor) <==> s.owner == Some(Monitor(h));
    }
  }

  lemma StepKeepsMutex(s: State, move: Move)
    requires MutexOk(s)
    ensures MutexOk(Step(s, move))
  {
    hide ManagerStep, MonitorStep;
    match move
    case ManagerMoves => ManagerKeepsMutex(s);
    case MonitorMoves(g) =>
      if g < |s.groups| {
        MonitorKeepsMutex(s, g);
      }
    case ThreadEnds(g, t) =>
    case ShutdownRequested =>
  }

  lemma ManagerKeepsGroup(s: State, g: nat)
    requires g < |s.groups| && GroupOk(s.groups[g]) && ManagerOk(s)
    ensures GroupOk(ManagerStep(s).groups[g])
  {
    hide Completed;
  }

  lemma MonitorGroupIsOk(group: Group, free: bool)
    requires GroupOk(group)
    ensures GroupOk(MonitorGroup(group, free))
  {
  }

  lemma MonitorKeepsGroup(s: State, g: nat)
    requires g < |s.groups| && GroupOk(s.groups[g])
    ensures GroupOk(MonitorStep(s, g).groups[g])
  {
    MonitorStepIs(s, g);
    hide MonitorStep;
    MonitorGroupIsOk(s.groups[g], s.owner == None);
    hide *;
  }

  lemma StepKeepsGroup(s: State, move: Move, g: nat)
    requires Ok(s) && g < |s.groups|
    ensures GroupOk(Step(s, move).groups[g])
  {
    assert GroupOk(s.groups[g]);
    hide MutexOk, CountOk;
    match move
    case ManagerMoves =>
      hide ManagerStep;
      ManagerKeepsGroup(s, g);
    case MonitorMoves(k) =>
      if k == g {
        hide MonitorStep;
        MonitorKeepsGroup(s, g);
      }
    case ThreadEnds(k, t) =>
    case ShutdownRequested =>
  }

  /** The step in which a monitor marks its group as completed. */
  predicate Marks(s: State, move: Move) {
    move.MonitorMoves? && move.group < |s.groups| && s.groups[move.group].monitor == Marking
  }

  /** A step that changes one group changes the number of completed ones by that group's mark. */
  lemma CompletedOfOne(groups: seq<Group>, r: seq<Group>, g: nat)
    requires g < |groups| && |r| == |groups| && r == groups[g := r[g]]
    ensures Completed(r) == Completed(groups) - (if groups[g].completed then 1 else 0) + (if r[g].completed then 1 else 0)
  {
    CompletedUpdate(groups, g, r[g]);
  }

  lemma CompletedOfManager(s: State)
    ensures Completed(ManagerStep(s).groups) == Completed(s.groups)
  {
    var r := ManagerStep(s);
    hide Completed;
    match s.manager
    case Creating(g, i) =>
      if g < |s.groups| {
        CompletedOfOne(s.groups, r.groups, g);
      }
    case Scanning(i) =>
      if i < |s.groups| {
        CompletedOfOne(s.groups, r.groups, i);
      }
    case _ =>
  }

  lemma CompletedOfMonitor(s: State, g: nat)
    requires g < |s.groups| && GroupOk(s.groups[g])
    ensures Completed(MonitorStep(s, g).groups) ==
            Completed(s.groups) + if s.groups[g].monitor == Marking then 1 else 0
  {
    var r := MonitorStep(s, g);
    hide Completed, AllFinished;
    CompletedOfOne(s.groups, r.groups, g);
  }

  lemma CompletedStep(s: State, move: Move)
    requires Ok(s)
    ensures Completed(Step(s, move).groups) == Completed(s.groups) + if Marks(s, move) then 1 else 0
  {
    hide MutexOk, CountOk, ManagerOk, Completed, GroupOk, ManagerStep, MonitorStep;
    match move
    case ManagerMoves => CompletedOfManager(s);
    case MonitorMoves(g) =>
      if g < |s.groups| {
        CompletedOfMonitor(s, g);
      }
    case ThreadEnds(g, t) =>
      if g < |s.groups| {
        CompletedOfOne(s.groups, Step(s, move).groups, g);
      }
    case ShutdownRequested =>
  }

  lemma ManagerKeepsManager(s: State)
    requires ManagerOk(s) && CountOk(s) && MutexOk(s) && Completed(ManagerStep(s).groups) == Completed(s.groups)
    ensures ManagerOk(ManagerStep(s))
  {
    hide Completed;
    assert s.owner == Some(Manager) ==> !CountPending(s);
  }

  lemma MonitorKeepsManager(s: State, g: nat)
    requires ManagerOk(s) && g < |s.groups| && Completed(MonitorStep(s, g).groups) >= Completed(s.groups)
    ensures ManagerOk(MonitorStep(s, g))
  {
    hide Completed;
    assert s.groups[g].monitor == NotCreated ==> MonitorStep(s, g) == s;
  }

  lemma StepKeepsManager(s: State, move: Move)
    requires Ok(s)
    ensures ManagerOk(Step(s, move))
  {
    CompletedStep(s, move);
    hide Completed, GroupOk, ManagerStep, MonitorStep;
    match move
    case ManagerMoves => ManagerKeepsManager(s);
    case MonitorMoves(g) =>
      if g < |s.groups| {
        MonitorKeepsManager(s, g);
      }
    case ThreadEnds(g, t) =>
    case ShutdownRequested =>
  }

  lemma ManagerKeepsCount(s: State)
    requires CountOk(s) && MutexOk(s) && Completed(ManagerStep(s).groups) == Completed(s.groups)
    ensures CountOk(ManagerStep(s))
  {
    hide Completed;
  }

  lemma MonitorKeepsCount(s: State, g: nat)
    requires CountOk(s) && MutexOk(s) && g < |s.groups|
    requires Completed(MonitorStep(s, g).groups) ==
             Completed(s.groups) + if s.groups[g].monitor == Marking then 1 else 0
    ensures CountOk(MonitorStep(s, g))
  {
    hide Completed;
    assert MonitorHolds(s.groups[g].monitor) <==> s.owner == Some(Monitor(g));
  }

  lemma StepKeepsCount(s: State, move: Move)
    requires Ok(s)
    ensures CountOk(Step(s, move))
  {
    CompletedStep(s, move);
    hide Completed, GroupOk, ManagerOk, ManagerStep, MonitorStep;
    match move
    case ManagerMoves => ManagerKeepsCount(s);
    case MonitorMoves(g) =>
      if g < |s.groups| {
        MonitorKeepsCount(s, g);
      }
    case ThreadEnds(g, t) =>
    case ShutdownRequested =>
  }

  lemma StepKeepsOk(s: State, move: Move)
    requires Ok(s)
    ensures Ok(Step(s, move))
  {
    StepKeepsMutex(s, move);
    StepKeepsManager(s, move);
    StepKeepsCount(s, move);
    forall g | 0 <= g < |s.groups|
      ensures GroupOk(Step(s, move).groups[g])
    {
      StepKeepsGroup(s, move, g);
    }
    hide Step, MutexOk, CountOk, ManagerOk, GroupOk;
  }

  lemma InitOk(counts: seq<nat>)
    ensures Ok(Init(counts))
  {
    NoneCompleted(Init(counts).groups);
  }

  lemma {:induction false} RunKeepsOk(s: State, moves: seq<Move>)
    requires Ok(s)
    ensures Ok(Run(s, moves))
    decreases |moves|
  {
    if moves != [] {
      StepKeepsOk(s, moves[0]);
      RunKeepsOk(Step(s, moves[0]), moves[1..]);
    }
  }

  lemma ReachableIsOk(s: State)
    requires Reachable(s)
    ensures Ok(s)
  {
    var counts, moves :| s == Run(Init(counts), moves);
    InitOk(counts);
    RunKeepsOk(Init(counts), moves);
  }

  // ---- Results ----

  /**
   Until the manager overrides it because of a shutdown, CompletedCount is the number of groups that are
   marked, except while a monitor inside its critical section has marked its group and not counted it yet.
   */
  lemma CountIsCompletedGroups(s: State)
    requires Reachable(s) && !s.overridden
    ensures s.completedCount + (if CountPending(s) then 1 else 0) == Completed(s.groups)
    ensures s.owner == None || s.owner == Some(Manager) ==> s.completedCount == Completed(s.groups)
  {
    ReachableIsOk(s);
  }

  /** A group is cleaned up once, after all its threads were joined, and before it is marked. */
  lemma CleanedUpOnce(s: State, g: nat)
    requires Reachable(s) && g < |s.groups|
    ensures s.groups[g].cleanups <= 1
    ensures s.groups[g].completed || s.groups[g].cleanups > 0 ==> s.groups[g].cleanups == 1 && AllFinished(s.groups[g])
    ensures !s.groups[g].listed ==> s.groups[g].completed
  {
    ReachableIsOk(s);
    assert GroupOk(s.groups[g]);
  }

  /**
   TgManagerWaitForAll returns only when every group is completed or a shutdown was requested, and the
   count has then reached the number of groups.
   */
  lemma WaitReturnsWhenDone(s: State)
    requires Reachable(s) && s.manager == Done
    ensures s.completedCount >= |s.groups|
    ensures s.shutdown || forall g :: 0 <= g < |s.groups| ==> s.groups[g].completed && s.groups[g].cleanups == 1
  {
    ReachableIsOk(s);
    AllCompleted(s.groups);
    forall g | 0 <= g < |s.groups| && s.groups[g].completed
      ensures s.groups[g].cleanups == 1
    {
      CleanedUpOnce(s, g);
    }
  }

  lemma GroupOf(s: State, g: nat)
    requires Ok(s) && g < |s.groups|
    ensures GroupOk(s.groups[g])
  {
  }

  lemma CleanupsAreFew(group: Group)
    requires GroupOk(group)
    ensures group.cleanups <= 1
  {
  }

  lemma ManagerIsMonotone(s: State, g: nat)
    requires g < |s.groups|
    ensures var r := ManagerStep(s);
            && r.groups[g].completed == s.groups[g].completed && r.groups[g].cleanups == s.groups[g].cleanups
            && r.shutdown == s.shutdown
  {
  }

  lemma MonitorIsMonotone(s: State, g: nat)
    requires g < |s.groups|
    ensures MonitorStep(s, g).shutdown == s.shutdown
    ensures var group, after := s.groups[g], MonitorGroup(s.groups[g], s.owner == None);
            (group.completed ==> after.completed) && group.cleanups <= after.cleanups
  {
  }

  lemma StepIsMonotone(s: State, move: Move, g: nat)
    requires g < |s.groups|
    ensures s.groups[g].completed ==> Step(s, move).groups[g].completed
    ensures s.groups[g].cleanups <= Step(s, move).groups[g].cleanups
    ensures s.shutdown ==> Step(s, move).shutdown
  {
    hide ManagerStep, MonitorStep;
    match move
    case ManagerMoves => ManagerIsMonotone(s, g);
    case MonitorMoves(k) =>
      if k < |s.groups| {
        MonitorStepIs(s, k);
        MonitorIsMonotone(s, k);
      }
    case ThreadEnds(_, _) =>
    case ShutdownRequested =>
  }

  /** What happens once in a step stays: marks, cleanups and a shutdown request are never taken back. */
  lemma ProgressStays(s: State, move: Move, g: nat)
    requires Reachable(s) && g < |s.groups|
    ensures s.groups[g].completed ==> Step(s, move).groups[g].completed
    ensures s.groups[g].cleanups <= Step(s, move).groups[g].cleanups <= 1
    ensures s.shutdown ==> Step(s, move).shutdown
  {
    hide *;
    ReachableIsOk(s);
    GroupOf(s, g);
    StepKeepsGroup(s, move, g);
    CleanupsAreFew(Step(s, move).groups[g]);
    StepIsMonotone(s, move, g);
  }

  /** How many steps the manager takes at most until it returns, once nothing keeps it waiting. */
  function StepsToReturn(pc: ManagerPc, groups: nat): nat {
    match pc
    case Done => 0
    case Leaving => 1
    case AskingAgain => 2
    case Checking => 3
    case Entering => 4
    case Scanning(i) => if i < groups then groups - i + 4 else 4
    case Relocking => groups + 5
    case Waiting => groups + 6
    case _ => 0
  }

  /** When every group is completed, or a shutdown requested, and no monitor is reporting, the manager gets on. */
  lemma ManagerGetsOn(s: State)
    requires Ok(s) && (s.owner == None || s.owner == Some(Manager))
    requires s.shutdown || Completed(s.groups) == |s.groups|
    requires !s.manager.Begin? && !s.manager.Creating? && !s.manager.Started? && s.manager != Done
    ensures var r := ManagerStep(s);
            && (r.owner == None || r.owner == Some(Manager))
            && !r.manager.Begin? && !r.manager.Creating? && !r.manager.Started?
            && StepsToReturn(r.manager, |r.groups|) < StepsToReturn(s.manager, |s.groups|)
            && r.shutdown == s.shutdown
  {
    hide Completed, GroupOk;
  }

  /** It then returns after a bounded number of its own steps. */
  lemma {:induction false} ManagerCanReturn(s: State) returns (moves: seq<Move>)
    requires Ok(s) && (s.owner == None || s.owner == Some(Manager))
    requires s.shutdown || Completed(s.groups) == |s.groups|
    requires !s.manager.Begin? && !s.manager.Creating? && !s.manager.Started?
    ensures Run(s, moves).manager == Done && |moves| <= |s.groups| + 6
    ensures forall i :: 0 <= i < |moves| ==> moves[i] == ManagerMoves
    ensures |moves| <= StepsToReturn(s.manager, |s.groups|)
    decreases StepsToReturn(s.manager, |s.groups|)
  {
    moves := [];
    if s.manager != Done {
      ManagerGetsOn(s);
      CompletedStep(s, ManagerMoves);
      StepKeepsOk(s, ManagerMoves);
      hide Ok, Completed, ManagerStep;
      var rest := ManagerCanReturn(ManagerStep(s));
      moves := [ManagerMoves] + rest;
      assert moves[1..] == rest;
    }
  }
}
