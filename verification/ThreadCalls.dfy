/**
 What the calls of src/Common/Thread.c promise to their callers, over whole runs: which calls were started and
 returned is read off the moves and off when a thread is idle, whatever its steps in between are.
 */
module ThreadCalls {
  import opened Options
  import opened ThreadControl

  /** A question that was answered: whether a stop had been signalled before it was asked, and the answer. */
  datatype Asked = Asked(due: bool, answer: bool)

  /** A run so far: the call each thread is in, the calls that were started, and those that returned. */
  datatype Trace = Trace(
    state: State,
    calls: seq<Option<Call>>,
    due: seq<bool>,
    started: set<Call>,
    returned: set<Call>,
    asked: seq<Asked>)

  function Begin(threads: nat, leftover: bool): Trace {
    Trace(Init(threads, leftover), seq(threads, i => None), seq(threads, i => false), {}, {}, [])
  }

  predicate Aligned(tr: Trace) {
    |tr.calls| == |tr.state.pcs| && |tr.due| == |tr.state.pcs|
  }

  /** An idle thread that moves starts the call of the move; a thread that becomes idle has returned from its call. */
  function Extend(tr: Trace, m: Move): (r: Trace)
    requires Aligned(tr)
    ensures Aligned(r) && r.state == Step(tr.state, m.thread, m.call)
  {
    var t, after := m.thread, Step(tr.state, m.thread, m.call);
    if t >= |tr.state.pcs| then tr.(state := after)
    else if tr.state.pcs[t] == Idle then
      tr.(state := after, calls := tr.calls[t := Some(m.call)], started := tr.started + {m.call},
          due := tr.due[t := Raise(ShouldStop) in tr.returned])
    else if after.pcs[t] == Idle && tr.calls[t].Some? then
      var call := tr.calls[t].value;
      var asked := if call == Ask then [Asked(tr.due[t], Answer(tr.state.pcs[t]))] else [];
      tr.(state := after, calls := tr.calls[t := None], returned := tr.returned + {call}, asked := tr.asked + asked)
    else tr.(state := after)
  }

  predicate Answer(pc: Pc) { pc.Answering? && pc.answer }

  function Follow(tr: Trace, moves: seq<Move>): (r: Trace)
    requires Aligned(tr)
    ensures Aligned(r)
    decreases |moves|
  {
    if moves == [] then tr else Follow(Extend(tr, moves[0]), moves[1..])
  }

  /** Some run of some threads has this trace. */
  ghost predicate IsTrace(tr: Trace) {
    exists threads, leftover, moves :: tr == Follow(Begin(threads, leftover), moves)
  }

  /** The call a program counter belongs to. */
  function CallOf(pc: Pc): Option<Call> {
    match pc
    case Idle => None
    case Entering(c) => Some(c)
    case Setting(e) => Some(Raise(e))
    case Notifying(e) => Some(Raise(e))
    case Asking => Some(Ask)
    case Answering(_) => Some(Ask)
    case Leaving(c) => Some(c)
    case _ => Some(Await(pc.event))
  }

  /** A thread is where its call is, and what it has read is still so. */
  ghost predicate ThreadFits(tr: Trace, t: nat)
    requires Aligned(tr) && t < |tr.calls|
  {
    var pc := tr.state.pcs[t];
    && tr.calls[t] == CallOf(pc) && (tr.calls[t].Some? ==> tr.calls[t].value in tr.started)
    && (tr.due[t] ==> Flag(tr.state.raised, ShouldStop))
    && pc != Leaving(Ask)
    && (pc.Answering? ==> (pc.answer ==> Raise(ShouldStop) in tr.started) && (tr.due[t] ==> pc.answer))
  }

  ghost predicate Fits(tr: Trace) {
    && Aligned(tr) && Ok(tr.state)
    && (forall t :: 0 <= t < |tr.calls| ==> ThreadFits(tr, t))
    && (forall e :: Flag(tr.state.raised, e) ==> Raise(e) in tr.started)
    && (forall e :: Raise(e) in tr.returned || Await(e) in tr.returned ==> Flag(tr.state.raised, e))
    && (forall a <- tr.asked :: (a.due ==> a.answer) && (a.answer ==> Raise(ShouldStop) in tr.started))
  }

  lemma BeginFits(threads: nat, leftover: bool)
    ensures Fits(Begin(threads, leftover))
  {
    InitOk(threads, leftover);
    hide Ok;
  }

  /** A step of one thread moves only its own program counter, except that it may wake sleepers. */
  lemma StepMoves(s: State, t: nat, call: Call)
    requires t < |s.pcs|
    ensures var r := Step(s, t, call);
            && (forall u :: 0 <= u < |s.pcs| && u != t ==> r.pcs[u] == s.pcs[u] || r.pcs[u] == Wake(s.pcs[u]))
            && CallOf(r.pcs[t]) == (if s.pcs[t] == Idle then Some(call) else if r.pcs[t] == Idle then None else CallOf(s.pcs[t]))
  {
  }

  /** Flags are never lowered, and only a thread that raises an event changes one. */
  lemma StepRaises(s: State, t: nat, call: Call)
    requires t < |s.pcs|
    ensures var r := Step(s, t, call);
            && (forall e :: Flag(s.raised, e) ==> Flag(r.raised, e))
            && (forall e :: Flag(r.raised, e) && !Flag(s.raised, e) ==> CallOf(s.pcs[t]) == Some(Raise(e)))
            && (r.pcs[t].Answering? && !s.pcs[t].Answering? ==> r.pcs[t].answer == Flag(s.raised, ShouldStop))
  {
  }

  /** Whoever returns from raising or awaiting an event leaves it raised. */
  lemma ReturnsRaised(s: State, t: nat, call: Call)
    requires Ok(s) && t < |s.pcs|
    ensures var r := Step(s, t, call);
            s.pcs[t] != Idle && r.pcs[t] == Idle ==>
              forall e :: CallOf(s.pcs[t]) == Some(Raise(e)) || CallOf(s.pcs[t]) == Some(Await(e)) ==> Flag(s.raised, e)
  {
    assert PcOk(s, s.pcs[t]);
  }

  lemma NeverLeavesAsk(s: State, t: nat, call: Call)
    requires t < |s.pcs|
    ensures Step(s, t, call).pcs[t] != Leaving(Ask) || s.pcs[t] == Leaving(Ask)
    ensures CallOf(s.pcs[t]) == Some(Ask) && Step(s, t, call).pcs[t] == Idle ==> s.pcs[t].Answering? || s.pcs[t] == Leaving(Ask)
    ensures s.pcs[t].Answering? ==> Step(s, t, call).pcs[t] == Idle
  {
  }

  lemma ExtendKeepsThread(tr: Trace, m: Move, u: nat)
    requires Fits(tr) && m.thread < |tr.calls| && u < |tr.calls|
    ensures ThreadFits(Extend(tr, m), u)
  {
    var s, t := tr.state, m.thread;
    assert ThreadFits(tr, u) && ThreadFits(tr, t);
    StepMoves(s, t, m.call);
    StepRaises(s, t, m.call);
    NeverLeavesAsk(s, t, m.call);
    hide Step, Ok;
  }

  lemma ExtendKeepsReturned(tr: Trace, m: Move)
    requires Fits(tr) && m.thread < |tr.calls|
    ensures var r := Extend(tr, m);
            && (forall e :: Flag(r.state.raised, e) ==> Raise(e) in r.started)
            && (forall e :: Raise(e) in r.returned || Await(e) in r.returned ==> Flag(r.state.raised, e))
            && (forall a <- r.asked :: (a.due ==> a.answer) && (a.answer ==> Raise(ShouldStop) in r.started))
  {
    var s, t := tr.state, m.thread;
    assert ThreadFits(tr, t);
    StepRaises(s, t, m.call);
    ReturnsRaised(s, t, m.call);
    NeverLeavesAsk(s, t, m.call);
    hide Step, Ok;
  }

  lemma ExtendFits(tr: Trace, m: Move)
    requires Fits(tr)
    ensures Fits(Extend(tr, m))
  {
    StepKeepsOk(tr.state, m.thread, m.call);
    if m.thread < |tr.calls| {
      ExtendKeepsReturned(tr, m);
      forall u | 0 <= u < |tr.calls|
        ensures ThreadFits(Extend(tr, m), u)
      {
        ExtendKeepsThread(tr, m, u);
      }
    }
    hide Ok, Step;
  }

  lemma {:induction false} FollowFits(tr: Trace, moves: seq<Move>)
    requires Fits(tr)
    ensures Fits(Follow(tr, moves))
    decreases |moves|
  {
    if moves != [] {
      ExtendFits(tr, moves[0]);
      FollowFits(Extend(tr, moves[0]), moves[1..]);
    }
    hide Fits;
  }

  lemma TraceFits(tr: Trace)
    requires IsTrace(tr)
    ensures Fits(tr)
  {
    var threads, leftover, moves :| tr == Follow(Begin(threads, leftover), moves);
    BeginFits(threads, leftover);
    FollowFits(Begin(threads, leftover), moves);
  }

  // ---- Results ----

  /** Once a call that raises or awaits an event has returned, the event is raised, and stays so. */
  lemma ReturnedLeavesRaised(tr: Trace, e: Event, moves: seq<Move>)
    requires IsTrace(tr) && (Raise(e) in tr.returned || Await(e) in tr.returned)
    ensures Flag(Follow(tr, moves).state.raised, e)
  {
    TraceFits(tr);
    FollowFits(tr, moves);
    ReturnedStays(tr, moves);
  }

  lemma {:induction false} ReturnedStays(tr: Trace, moves: seq<Move>)
    requires Aligned(tr)
    ensures tr.returned <= Follow(tr, moves).returned
    decreases |moves|
  {
    if moves != [] {
      ReturnedStays(Extend(tr, moves[0]), moves[1..]);
    }
  }

  /** An event is raised only after somebody has called to raise it. */
  lemma OnlyRaisersRaise(tr: Trace, e: Event)
    requires IsTrace(tr) && Flag(tr.state.raised, e)
    ensures Raise(e) in tr.started
  {
    TraceFits(tr);
  }

  /** Asked after a stop was signalled the answer is yes, and it is yes only if somebody has called to signal one. */
  lemma AnswersAreRight(tr: Trace, i: nat)
    requires IsTrace(tr) && i < |tr.asked|
    ensures tr.asked[i].due ==> tr.asked[i].answer
    ensures tr.asked[i].answer ==> Raise(ShouldStop) in tr.started
  {
    TraceFits(tr);
  }

  /** A step of the owner of the mutex brings its release nearer and leaves the calls of the others alone. */
  lemma OwnerMovesOn(s: State, t: nat, c: Call)
    requires Ok(s) && s.owner.Some? && t < |s.pcs| && CallOf(s.pcs[t]) == Some(c)
    ensures var r := Step(s, s.owner.value, Ask);
            && StepsToRelease(r) < StepsToRelease(s)
            && (CallOf(r.pcs[t]) == Some(c) || (r.pcs[t] == Idle && s.owner == Some(t)))
  {
    StepMoves(s, s.owner.value, Ask);
  }

  /** From every state a thread that raises an event can return from its call, which leaves the event raised. */
  lemma {:induction false} RaiserCanFinish(s: State, t: nat, e: Event) returns (moves: seq<Move>)
    requires Ok(s) && t < |s.pcs| && CallOf(s.pcs[t]) == Some(Raise(e))
    ensures Run(s, moves).pcs[t] == Idle && Flag(Run(s, moves).raised, e)
    ensures |moves| <= StepsToRelease(s) + 4
    ensures s.owner == None ==> |moves| <= 4 && forall m <- moves :: m.thread == t
    decreases StepsToRelease(s)
  {
    assert PcOk(s, s.pcs[t]);
    var move := Move(t, Ask);
    if s.owner == None {
      moves := RaiserRuns(s, t, e);
    } else {
      var u := s.owner.value;
      var r := Step(s, u, Ask);
      OwnerMovesOn(s, t, Raise(e));
      StepKeepsOk(s, u, Ask);
      ReturnsRaised(s, u, Ask);
      StepRaises(s, u, Ask);
      var rest := [];
      if r.pcs[t] != Idle {
        rest := RaiserCanFinish(r, t, e);
      }
      moves := [Move(u, Ask)] + rest;
      assert moves[1..] == rest;
    }
    hide Step, Ok;
  }

  /** With the mutex free the thread returns by its own four steps. */
  lemma RaiserRuns(s: State, t: nat, e: Event) returns (moves: seq<Move>)
    requires Ok(s) && t < |s.pcs| && CallOf(s.pcs[t]) == Some(Raise(e)) && s.owner == None
    ensures Run(s, moves).pcs[t] == Idle && Flag(Run(s, moves).raised, e)
    ensures |moves| == 4 && forall m <- moves :: m.thread == t
  {
    var s1 := Step(s, t, Ask);
    var s2 := Step(s1, t, Ask);
    var s3 := Step(s2, t, Ask);
    assert s1.pcs[t] == Setting(e) && s2.pcs[t] == Notifying(e) && s3.pcs[t] == Leaving(Raise(e));
    var move := Move(t, Ask);
    moves := [move, move, move, move];
    FourMoves(s, move);
    hide Run;
  }

  lemma FourMoves(s: State, m: Move)
    ensures Run(s, [m, m, m, m]) ==
            Step(Step(Step(Step(s, m.thread, m.call), m.thread, m.call), m.thread, m.call), m.thread, m.call)
  {
    assert [m, m, m, m][1..] == [m, m, m] && [m, m, m][1..] == [m, m] && [m, m][1..] == [m] && [m][1..] == [];
    var s1 := Step(s, m.thread, m.call);
    var s2 := Step(s1, m.thread, m.call);
    assert Run(s2, [m, m]) == Run(Step(s2, m.thread, m.call), [m]);
    assert Run(s1, [m, m, m]) == Run(s2, [m, m]);
    hide Step;
  }
}
