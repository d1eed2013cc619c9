/**
 MbPipeThroughputTest of src/DataHandlers/ModbusWithPostgres/Modbus.c on the writer's side of the concurrent
 pipe, step by step, while a reader does what it likes on the other side. The producer's calls are not
 interrupted.
 */
module ProducerRun {
  import opened Sequences
  import opened Bytes
  import opened SensorDataPipe
  import opened BulkProducer

  /** Where the producer stands: at the loop test, before the push, before and in the call, in the last flush. */
  datatype ProducerPc = Testing | Filling | Calling | Getting | Flushing | Finished

  datatype System = System(pipe: Pipe, pc: ProducerPc, file: seq<Byte>, maxFill: nat, remaining: int)

  datatype Action = Produce | ReaderCalls | ReaderMoves | ReaderIsInterrupted

  predicate WellFormed(s: System) {
    InBounds(s.pipe) && s.maxFill > 0 && s.remaining <= |s.file|
  }

  function Start(mems: seq<seq<Byte>>, file: seq<Byte>, maxFill: nat): System
    requires mems != []
  {
    System(Create(mems), Testing, file, maxFill, |file|)
  }

  /** The producer's next access: its own loop, or one step of the pipe call it is in. */
  function StepProducer(s: System): (r: System)
    requires WellFormed(s)
    ensures WellFormed(r)
  {
    match s.pc
    case Testing =>
      if s.remaining > 0 then s.(pc := Filling) else s.(pc := Flushing, pipe := Apply(s.pipe, CallFlush))
    case Filling =>
      if s.remaining > 0 then
        s.(pc := Calling, pipe := Apply(s.pipe, Push(NextChunk(s.file, s.maxFill, s.remaining))))
      else s
    case Calling => s.(pc := Getting, pipe := Apply(s.pipe, CallGetWriteBuffer))
    case Getting =>
      var pipe := StepWriter(s.pipe);
      if pipe.wpc.WOutside? then s.(pc := Testing, pipe := pipe, remaining := s.remaining - s.maxFill)
      else s.(pipe := pipe)
    case Flushing =>
      var pipe := StepWriter(s.pipe);
      s.(pc := if pipe.wpc.WOutside? then Finished else Flushing, pipe := pipe)
    case Finished => s
  }

  function Act(s: System, a: Action): (r: System)
    requires WellFormed(s)
    ensures WellFormed(r)
  {
    match a
    case Produce => StepProducer(s)
    case ReaderCalls => s.(pipe := Apply(s.pipe, CallGetReadBuffer))
    case ReaderMoves => s.(pipe := StepReader(s.pipe))
    case ReaderIsInterrupted => s.(pipe := Apply(s.pipe, ReaderInterrupt))
  }

  function Execute(s: System, actions: seq<Action>): (r: System)
    requires WellFormed(s)
    ensures WellFormed(r)
    decreases |actions|
  {
    if actions == [] then s else Act(Execute(s, actions[..|actions| - 1]), actions[|actions| - 1])
  }

  // ---- The invariant ----

  /** The arenas the reader took and the one it may take next: everything published, in order. */
  function Published(s: Pipe): seq<seq<Byte>>
    requires InBounds(s)
  {
    s.taken + Slot(s)
  }

  /** The call has stored the write index, so that the arena filled before it counts as published. */
  predicate HasPublished(wpc: WriterPc) {
    wpc.WAdd? || wpc.WSignal? || wpc.WClear?
  }

  /** With `remaining` bytes left to send, what was published is the chunks before them. */
  predicate Sent(file: seq<Byte>, maxFill: nat, remaining: int, published: seq<seq<Byte>>)
    requires maxFill > 0 && remaining <= |file|
  {
    published + Pending(file, maxFill, remaining) == Chunks(file, maxFill)
  }

  /** What is still to be published once the call in progress is over the point of publication, if there is one. */
  predicate Progress(s: System)
    requires WellFormed(s)
  {
    var published, current := Published(s.pipe), Current(s.pipe);
    match s.pc
    case Testing => s.pipe.wpc.WOutside? && current == [] && Sent(s.file, s.maxFill, s.remaining, published)
    case Filling =>
      && s.remaining > 0 && s.pipe.wpc.WOutside? && current == []
      && Sent(s.file, s.maxFill, s.remaining, published)
    case Calling =>
      && s.remaining > 0 && s.pipe.wpc.WOutside? && current == NextChunk(s.file, s.maxFill, s.remaining)
      && Sent(s.file, s.maxFill, s.remaining, published)
    case Getting =>
      && s.remaining > 0 && !s.pipe.wpc.WOutside? && !s.pipe.wpc.WFlushLoad? && !s.pipe.wpc.WFlushTest?
      && (if HasPublished(s.pipe.wpc) then
            current == [] && Sent(s.file, s.maxFill, s.remaining - s.maxFill, published)
          else
            && current == NextChunk(s.file, s.maxFill, s.remaining)
            && Sent(s.file, s.maxFill, s.remaining, published))
    case Flushing =>
      && (s.pipe.wpc.WFlushLoad? || s.pipe.wpc.WFlushTest?) && current == []
      && Sent(s.file, s.maxFill, 0, published)
    case Finished => s.pipe.wpc.WOutside? && current == [] && Sent(s.file, s.maxFill, 0, published)
  }

  ghost predicate Safe(s: System, cap: nat) {
    WellFormed(s) && Control(s.pipe) && SameCapacity(s.pipe.buffers, cap) && s.maxFill <= cap && Progress(s)
  }

  lemma NothingSent(file: seq<Byte>, maxFill: nat)
    requires maxFill > 0
    ensures Sent(file, maxFill, |file|, [])
  {
    var all := Chunks(file, maxFill);
    assert file[|file| - |file|..] == file && [] + all == all;
    if file == [] {
      NoChunks(maxFill);
    }
    hide Chunks;
  }

  lemma StartIsSafe(mems: seq<seq<Byte>>, file: seq<Byte>, maxFill: nat, cap: nat)
    requires |mems| >= 2 && 0 < maxFill <= cap && forall i :: 0 <= i < |mems| ==> |mems[i]| == cap
    ensures Safe(Start(mems, file, maxFill), cap)
  {
    NothingSent(file, maxFill);
    assert Published(Create(mems)) == [];
    hide Chunks, Sent;
  }

  lemma NoChunks(maxFill: nat)
    requires maxFill > 0
    ensures Chunks([], maxFill) == []
  {
  }

  lemma SafeIs(s: System, cap: nat)
    requires Safe(s, cap)
    ensures WellFormed(s) && InBounds(s.pipe) && s.maxFill > 0 && Progress(s)
    ensures Control(s.pipe) && SameCapacity(s.pipe.buffers, cap)
  {
  }

  lemma ReaderActs(s: System, a: Action, step: Step)
    requires WellFormed(s) && InBounds(s.pipe) && !a.Produce?
    requires step == if a.ReaderCalls? then CallGetReadBuffer else if a.ReaderMoves? then ReaderStep else ReaderInterrupt
    ensures Act(s, a) == s.(pipe := Apply(s.pipe, step))
  {
    assert Apply(s.pipe, ReaderStep) == StepReader(s.pipe);
    hide Apply, StepReader;
  }

  /** Progress is about what was published, what is being filled and where the writer stands, and nothing else. */
  lemma SameProgress(s: System, pipe: Pipe, cap: nat)
    requires Safe(s, cap) && Control(pipe) && SameCapacity(pipe.buffers, cap) && pipe.wpc == s.pipe.wpc && InBounds(pipe)
    requires Published(pipe) == Published(s.pipe) && Current(pipe) == Current(s.pipe)
    ensures Safe(s.(pipe := pipe), cap)
  {
    hide Control, SameCapacity, Sent, Published, Current, NextChunk, InBounds;
  }

  /** Whatever the reader does, nothing changes for the producer. */
  lemma ReaderKeepsProgress(s: System, cap: nat, a: Action)
    requires Safe(s, cap) && !a.Produce?
    ensures Safe(Act(s, a), cap)
  {
    hide *;
    var step := if a.ReaderCalls? then CallGetReadBuffer else if a.ReaderMoves? then ReaderStep else ReaderInterrupt;
    SafeIs(s, cap);
    ReaderActs(s, a, step);
    ControlOfStep(s.pipe, step);
    PipeKeepsCapacity(s.pipe, step, cap);
    ReaderKeepsPublished(s.pipe, step);
    SameProgress(s, Apply(s.pipe, step), cap);
  }

  lemma ReaderKeepsPublished(s: Pipe, step: Step)
    requires Control(s) && (step.CallGetReadBuffer? || step.ReaderStep? || step.ReaderInterrupt?)
    ensures var r := Apply(s, step);
            Published(r) == Published(s) && Current(r) == Current(s) && r.wpc == s.wpc
  {
    if step.ReaderStep? {
      ReaderRefinesHandoff(s);
    }
  }

  /** A writer step publishes the current arena exactly when it stores the write index. */
  lemma WriterPublishes(s: Pipe)
    requires Control(s)
    ensures var r := StepWriter(s);
            if s.wpc.WStore? then Published(r) == Published(s) + [Current(s)] && Current(r) == []
            else Published(r) == Published(s) && Current(r) == Current(s)
  {
    WriterRefinesHandoff(s);
    WriterKeepsHistory(s);
    if s.wpc.WStore? {
      assert s.taken + [] + [Current(s)] == s.taken + [Current(s)];
    }
  }

  lemma SentStep(file: seq<Byte>, maxFill: nat, remaining: int, published: seq<seq<Byte>>)
    requires maxFill > 0 && 0 < remaining <= |file| && Sent(file, maxFill, remaining, published)
    ensures Sent(file, maxFill, remaining - maxFill, published + [NextChunk(file, maxFill, remaining)])
  {
    PendingStep(file, maxFill, remaining, published);
    hide Chunks, Pending, NextChunk;
  }

  lemma AllSent(file: seq<Byte>, maxFill: nat, remaining: int, published: seq<seq<Byte>>)
    requires maxFill > 0 && remaining <= 0 && Sent(file, maxFill, remaining, published)
    ensures Sent(file, maxFill, 0, published) && published == Chunks(file, maxFill)
  {
    NothingAdded(published);
    hide Chunks;
  }

  lemma TestKeepsProgress(s: System, cap: nat)
    requires Safe(s, cap) && s.pc == Testing
    ensures Progress(StepProducer(s))
  {
    hide Control, SameCapacity, Sent;
    if s.remaining <= 0 {
      AllSent(s.file, s.maxFill, s.remaining, Published(s.pipe));
    }
  }

  lemma FillKeepsProgress(s: System, cap: nat)
    requires Safe(s, cap) && s.pc == Filling
    ensures Progress(StepProducer(s))
  {
    var chunk := NextChunk(s.file, s.maxFill, s.remaining);
    assert |s.pipe.buffers[s.pipe.writeIdx].mem| == cap;
    PushExtends(s.pipe, chunk);
    NothingAdded(chunk);
    hide Sent, Control, SameCapacity, NextChunk, Current, Slot, Apply, HasPublished;
  }

  lemma CallKeepsProgress(s: System, cap: nat)
    requires Safe(s, cap) && s.pc == Calling
    ensures Progress(StepProducer(s))
  {
    hide Control, SameCapacity, NextChunk, Sent;
  }

  /** Where a call of the writer leads: it leaves from its clearing only, and publishes in its store. */
  lemma GetMoves(s: Pipe)
    requires Control(s) && !s.wpc.WOutside? && !s.wpc.WFlushLoad? && !s.wpc.WFlushTest?
    ensures var r := StepWriter(s).wpc;
            && (r.WOutside? <==> s.wpc.WClear?) && !r.WFlushLoad? && !r.WFlushTest?
            && (s.wpc.WStore? ==> r.WAdd?) && (!s.wpc.WStore? && !r.WOutside? ==> (HasPublished(r) <==> HasPublished(s.wpc)))
            && (HasPublished(s.wpc) ==> !s.wpc.WStore?)
  {
    hide Control;
  }

  lemma GetKeepsProgress(s: System, cap: nat)
    requires Safe(s, cap) && s.pc == Getting
    ensures Progress(StepProducer(s))
  {
    GetMoves(s.pipe);
    WriterPublishes(s.pipe);
    hide Sent, Control, SameCapacity, NextChunk, Current, Published, StepWriter;
    if s.pipe.wpc.WStore? {
      SentStep(s.file, s.maxFill, s.remaining, Published(s.pipe));
    }
  }

  lemma FlushKeepsProgress(s: System, cap: nat)
    requires Safe(s, cap) && s.pc == Flushing
    ensures Progress(StepProducer(s))
  {
    WriterPublishes(s.pipe);
    FlushOfNothing(s.pipe);
    hide Sent, Control, SameCapacity, Current, Published;
  }

  /** A flush over an empty arena ends after its test. */
  lemma FlushOfNothing(s: Pipe)
    requires Control(s) && (s.wpc.WFlushLoad? || s.wpc.WFlushTest?) && Current(s) == []
    ensures StepWriter(s).wpc == if s.wpc.WFlushLoad? then WFlushTest(s.writeIdx) else WOutside
  {
    hide TokenControl;
  }

  lemma ProducerKeepsProgress(s: System, cap: nat)
    requires Safe(s, cap)
    ensures Safe(StepProducer(s), cap)
  {
    PipeOfProducer(s, cap);
    match s.pc
    case Testing => TestKeepsProgress(s, cap);
    case Filling => FillKeepsProgress(s, cap);
    case Calling => CallKeepsProgress(s, cap);
    case Getting => GetKeepsProgress(s, cap);
    case Flushing => FlushKeepsProgress(s, cap);
    case Finished =>
      hide Progress, Control, SameCapacity;
  }

  lemma PipeOfProducer(s: System, cap: nat)
    requires Safe(s, cap)
    ensures var r := StepProducer(s);
            Control(r.pipe) && SameCapacity(r.pipe.buffers, cap) && r.maxFill == s.maxFill && r.file == s.file
  {
    var step := match s.pc
      case Testing => CallFlush
      case Filling => if s.remaining > 0 then Push(NextChunk(s.file, s.maxFill, s.remaining)) else WriterStep
      case Calling => CallGetWriteBuffer
      case Getting => WriterStep
      case Flushing => WriterStep
      case Finished => WriterStep;
    ControlOfStep(s.pipe, step);
    PipeKeepsCapacity(s.pipe, step, cap);
    assert Apply(s.pipe, WriterStep) == StepWriter(s.pipe);
    hide Control, SameCapacity, Progress, Apply, StepWriter, NextChunk;
  }

  lemma ActKeepsSafe(s: System, cap: nat, a: Action)
    requires Safe(s, cap)
    ensures Safe(Act(s, a), cap)
  {
    hide Safe;
    if a.Produce? {
      ProducerKeepsProgress(s, cap);
    } else {
      ReaderKeepsProgress(s, cap, a);
    }
  }

  // ---- Main results over every run ----

  /** Some run of the producer over `bufCount` arenas of `cap` bytes ends in `s`. */
  ghost predicate Reachable(bufCount: nat, cap: nat, file: seq<Byte>, maxFill: nat, s: System) {
    exists mems: seq<seq<Byte>>, actions: seq<Action> ::
      mems != [] && |mems| == bufCount && (forall i :: 0 <= i < bufCount ==> |mems[i]| == cap) &&
      0 < maxFill <= cap && Execute(Start(mems, file, maxFill), actions) == s
  }

  lemma {:induction false} RunIsSafe(s: System, cap: nat, actions: seq<Action>)
    requires Safe(s, cap)
    ensures Safe(Execute(s, actions), cap)
    decreases |actions|
  {
    if actions != [] {
      RunIsSafe(s, cap, actions[..|actions| - 1]);
      ActKeepsSafe(Execute(s, actions[..|actions| - 1]), cap, actions[|actions| - 1]);
    }
  }

  lemma {:induction false} RunKeepsFile(s: System, actions: seq<Action>)
    requires WellFormed(s)
    ensures Execute(s, actions).file == s.file && Execute(s, actions).maxFill == s.maxFill
    decreases |actions|
  {
    if actions != [] {
      RunKeepsFile(s, actions[..|actions| - 1]);
    }
  }

  lemma ReachableIsSafe(bufCount: nat, cap: nat, file: seq<Byte>, maxFill: nat, s: System)
    requires bufCount >= 2 && Reachable(bufCount, cap, file, maxFill, s)
    ensures Safe(s, cap) && s.file == file && s.maxFill == maxFill
  {
    var mems: seq<seq<Byte>>, actions: seq<Action> :|
      mems != [] && |mems| == bufCount && (forall i :: 0 <= i < bufCount ==> |mems[i]| == cap) &&
      0 < maxFill <= cap && Execute(Start(mems, file, maxFill), actions) == s;
    StartIsSafe(mems, file, maxFill, cap);
    RunIsSafe(Start(mems, file, maxFill), cap, actions);
    RunKeepsFile(Start(mems, file, maxFill), actions);
  }

  lemma TakenIsPublished(s: Pipe)
    requires InBounds(s)
    ensures Slot(s) == [] ==> Published(s) == s.taken
  {
    NothingAdded(s.taken);
  }

  lemma SentIs(file: seq<Byte>, maxFill: nat, remaining: int, published: seq<seq<Byte>>)
    requires maxFill > 0 && remaining <= |file| && Sent(file, maxFill, remaining, published)
    ensures published + Pending(file, maxFill, remaining) == Chunks(file, maxFill)
  {
  }

  lemma PendingNow(s: System) returns (rest: seq<seq<Byte>>)
    requires WellFormed(s) && InBounds(s.pipe) && s.maxFill > 0 && Progress(s)
    ensures Published(s.pipe) + rest == Chunks(s.file, s.maxFill)
    ensures s.pc == Finished ==> rest == [] && Current(s.pipe) == []
  {
    hide Sent, Current, Published, NextChunk, InBounds;
    var remaining := if s.pc == Flushing || s.pc == Finished then 0
                     else if s.pc == Getting && HasPublished(s.pipe.wpc) then s.remaining - s.maxFill else s.remaining;
    rest := Pending(s.file, s.maxFill, remaining);
    SentIs(s.file, s.maxFill, remaining, Published(s.pipe));
  }

  /**
   In every interleaving, with two or more arenas, what was published is the first chunks of the file, in
   order. When the producer has finished it is all of them: the last flush adds nothing.
   */
  lemma PublishedAreTheChunks(bufCount: nat, cap: nat, file: seq<Byte>, maxFill: nat, s: System) returns (rest: seq<seq<Byte>>)
    requires bufCount >= 2 && Reachable(bufCount, cap, file, maxFill, s)
    ensures InBounds(s.pipe) && maxFill > 0 && Published(s.pipe) + rest == Chunks(file, maxFill)
    ensures s.pc == Finished ==> rest == [] && Current(s.pipe) == []
    ensures s.pc == Finished && Slot(s.pipe) == [] ==>
              s.pipe.taken == Chunks(file, maxFill) && Flatten(s.pipe.taken) == file
  {
    hide *;
    ReachableIsSafe(bufCount, cap, file, maxFill, s);
    SafeIs(s, cap);
    ChunksTileTheFile(file, maxFill);
    rest := PendingNow(s);
    NothingAdded(Published(s.pipe));
    TakenIsPublished(s.pipe);
  }

  // ---- Every run can be finished ----

  lemma {:induction false} ExecuteCons(s: System, a: Action, rest: seq<Action>)
    requires WellFormed(s)
    ensures Execute(s, [a] + rest) == Execute(Act(s, a), rest)
    decreases |rest|
  {
    hide Act;
    if rest == [] {
      assert [a][..0] == [] && [a] + rest == [a];
      assert Execute(s, []) == s;
    } else {
      var before := rest[..|rest| - 1];
      ExecuteCons(s, a, before);
      assert ([a] + rest)[..|rest|] == [a] + before;
    }
  }

  /** How far the writer is from the end of its call, and the reader from its next wait for an arena. */
  function WriterRank(wpc: WriterPc): nat {
    match wpc
    case WOutside => 0
    case WFlushLoad => 8
    case WFlushTest(_) => 7
    case WLoad => 6
    case WDrain(_) => 5
    case WStore(_) => 4
    case WAdd(_) => 3
    case WSignal(_) => 2
    case WClear(_) => 1
  }

  function ProducerRank(s: System): nat {
    match s.pc
    case Testing => 20
    case Filling => 19
    case Calling => 18
    case Getting => 1 + WriterRank(s.pipe.wpc)
    case Flushing => 1 + WriterRank(s.pipe.wpc)
    case Finished => 0
  }

  function ReaderRank(s: Pipe): nat {
    (if s.readFd > 0 then 20 else 0) +
    match s.rpc
    case RDrain => 3
    case RLoad => 10
    case RStore(_) => 9
    case RSub(_) => 8
    case RSignal(_) => 7
    case _ => 4
  }

  function ToSend(s: System): nat {
    if s.remaining > 0 then s.remaining else 0
  }

  ghost predicate ProducerWaits(s: System) {
    s.pipe.wpc.WDrain? && s.pipe.writeFd == 0
  }

  ghost predicate ReaderWaits(s: System) {
    s.pipe.rpc.RDrain? && s.pipe.readFd == 0
  }

  lemma OneCanMove(s: System, cap: nat)
    requires Safe(s, cap)
    ensures !(ProducerWaits(s) && ReaderWaits(s))
  {
    hide Progress, IndexControl, Alternating, SameCapacity;
  }

  function NextOfReader(s: System): Action {
    if s.pipe.rpc.ROutside? || s.pipe.rpc.RHolding? then ReaderCalls else ReaderMoves
  }

  lemma ReaderAdvances(s: System, cap: nat)
    requires Safe(s, cap) && !ReaderWaits(s)
    ensures var r := Act(s, NextOfReader(s));
            && WellFormed(s) && ReaderRank(r.pipe) < ReaderRank(s.pipe)
            && ProducerRank(r) == ProducerRank(s) && ToSend(r) == ToSend(s) && r.file == s.file && r.maxFill == s.maxFill
  {
    hide Progress, Control, SameCapacity, Contents;
  }

  lemma ProducerAdvances(s: System, cap: nat)
    requires Safe(s, cap) && !ProducerWaits(s) && s.pc != Finished
    ensures var r := StepProducer(s);
            && (ToSend(r) < ToSend(s) || (ToSend(r) == ToSend(s) && ProducerRank(r) < ProducerRank(s)))
            && r.file == s.file && r.maxFill == s.maxFill
  {
    hide Control, SameCapacity, Sent, NextChunk, Current, Slot;
  }

  /** From every safe state some continuation finishes the producer and lets the reader take all there is. */
  lemma {:induction false} CanFinish(s: System, cap: nat) returns (actions: seq<Action>)
    requires Safe(s, cap)
    ensures WellFormed(s)
    ensures var r := Execute(s, actions);
            Safe(r, cap) && r.pc == Finished && ReaderWaits(r) && r.file == s.file && r.maxFill == s.maxFill
    decreases ToSend(s), ProducerRank(s), ReaderRank(s.pipe)
  {
    hide *;
    SafeIs(s, cap);
    OneCanMove(s, cap);
    actions := [];
    var a := Produce;
    if s.pc != Finished && !ProducerWaits(s) {
      ProducerAdvances(s, cap);
      ProduceIs(s);
    } else if !ReaderWaits(s) {
      a := NextOfReader(s);
      ReaderAdvances(s, cap);
    } else {
      NoActions(s);
      return;
    }
    ActKeepsSafe(s, cap, a);
    var rest := CanFinish(Act(s, a), cap);
    ExecuteCons(s, a, rest);
    actions := [a] + rest;
  }

  lemma ProduceIs(s: System)
    requires WellFormed(s)
    ensures Act(s, Produce) == StepProducer(s)
  {
    hide StepProducer;
  }

  lemma NoActions(s: System)
    requires WellFormed(s)
    ensures Execute(s, []) == s
  {
  }

  lemma NothingLeft(s: System, cap: nat)
    requires Safe(s, cap) && s.pc == Finished && ReaderWaits(s)
    ensures InBounds(s.pipe) && Slot(s.pipe) == []
  {
    hide Control, SameCapacity, Sent, Current;
  }

  /**
   Nothing gets stuck: with two or more arenas every run can be continued until the producer has finished and
   the reader has taken exactly the chunks of the file, in order.
   */
  lemma EveryRunCanBeFinished(bufCount: nat, cap: nat, file: seq<Byte>, maxFill: nat, s: System)
    returns (actions: seq<Action>)
    requires bufCount >= 2 && Reachable(bufCount, cap, file, maxFill, s)
    ensures WellFormed(s) && maxFill > 0
    ensures var r := Execute(s, actions);
            r.pc == Finished && r.pipe.taken == Chunks(file, maxFill) && Flatten(r.pipe.taken) == file
  {
    hide *;
    ReachableIsSafe(bufCount, cap, file, maxFill, s);
    SafeIs(s, cap);
    actions := CanFinish(s, cap);
    var r := Execute(s, actions);
    SafeIs(r, cap);
    NothingLeft(r, cap);
    var rest := PendingNow(r);
    ChunksTileTheFile(file, maxFill);
    NothingAdded(Published(r.pipe));
    TakenIsPublished(r.pipe);
  }
}
