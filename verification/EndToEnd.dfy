/**
 The data path from Modbus to PostgreSQL: the receive loop of MbRun
 (src/DataHandlers/ModbusWithPostgres/Modbus.c) and the insert loop of PgRun
 (src/DataHandlers/ModbusWithPostgres/Postgres.c) running on the two sides of one pipe. MbRun serves
 a single connection and its pipe calls are not interrupted; everything else may interleave.
 */
module EndToEnd {
  import opened Sequences
  import opened Bytes
  import opened SensorDataPipe

  /** Where MbRun stands: at the top of its receive loop, in a pipe call, or waiting for a frame. */
  datatype MbPc = MbTop | MbGetting | MbReceiving | MbFlushing | MbDone

  /** Where PgRun stands: before a pipe call, in it, holding an arena, about to insert `size` bytes. */
  datatype PgPc = PgTop | PgWaiting | PgGot | PgInserting(size: nat)

  /** What one attempt to receive a frame yields; anything but a timeout or a packet ends the connection. */
  datatype Received = Timeout | Failure | Packet(data: seq<Byte>)

  datatype System = System(
    pipe: Pipe,
    mb: MbPc,
    pg: PgPc,
    packetSize: nat,
    maxFill: nat,
    accepted: seq<seq<Byte>>,    // history: the payloads MbRun pushed
    inserted: seq<seq<Byte>>     // history: the rows PgRun passed to PgInsertData, call by call
  )

  datatype Action =
    | MbLoop(shutdown: bool)
    | MbPipe
    | MbReceive(event: Received)
    | PgCall
    | PgPipe
    | PgInterrupt
    | PgCount
    | PgInsert

  /** The fill limit PgPrepareCtx derives from the capacity of an arena. */
  function MaxFill(packetSize: nat, cap: nat): nat
    requires packetSize > 0
  {
    packetSize * (cap / packetSize)
  }

  function Start(mems: seq<seq<Byte>>, packetSize: nat): System
    requires mems != [] && packetSize > 0
  {
    System(Create(mems), MbTop, PgTop, packetSize, MaxFill(packetSize, |mems[0]|), [], [])
  }

  predicate WellFormed(s: System) {
    InBounds(s.pipe) && s.packetSize > 0
  }

  function Position(s: System): nat
    requires WellFormed(s)
  {
    s.pipe.buffers[s.pipe.writeIdx].cur
  }

  function StepMb(s: System, a: Action): (r: System)
    requires WellFormed(s)
    ensures WellFormed(r)
  {
    match a
    case MbLoop(shutdown) =>
      if s.mb.MbTop? then
        if shutdown then s.(mb := MbFlushing, pipe := Apply(s.pipe, CallFlush))
        else if Position(s) == s.maxFill then s.(mb := MbGetting, pipe := Apply(s.pipe, CallGetWriteBuffer))
        else s.(mb := MbReceiving)
      else s
    case MbPipe =>
      if s.mb.MbGetting? || s.mb.MbFlushing? then
        var pipe := Apply(s.pipe, WriterStep);
        s.(pipe := pipe,
           mb := if !pipe.wpc.WOutside? then s.mb else if s.mb.MbGetting? then MbReceiving else MbDone)
      else s
    case MbReceive(event) =>
      if s.mb.MbReceiving? then
        match event
        case Timeout => s.(mb := MbTop)
        case Packet(data) =>
          if |data| == s.packetSize then
            s.(mb := MbTop, pipe := Apply(s.pipe, Push(data)), accepted := s.accepted + [data])
          else s.(mb := MbFlushing, pipe := Apply(s.pipe, CallFlush))
        case Failure => s.(mb := MbFlushing, pipe := Apply(s.pipe, CallFlush))
      else s
    case _ => s
  }

  function StepPg(s: System, a: Action): (r: System)
    requires WellFormed(s)
    ensures WellFormed(r)
  {
    match a
    case PgCall =>
      if s.pg.PgTop? then s.(pg := PgWaiting, pipe := Apply(s.pipe, CallGetReadBuffer)) else s
    case PgPipe =>
      if s.pg.PgWaiting? then
        var pipe := Apply(s.pipe, ReaderStep);
        s.(pipe := pipe, pg := if pipe.rpc.RHolding? then PgGot else PgWaiting)
      else s
    case PgInterrupt =>
      if s.pg.PgWaiting? && s.pipe.rpc.RDrain? then
        s.(pg := PgTop, pipe := Apply(s.pipe, ReaderInterrupt))
      else s
    case PgCount =>
      if s.pg.PgGot? && s.pipe.rpc.RHolding? then
        var items := s.pipe.buffers[s.pipe.rpc.buf].cur / s.packetSize;
        s.(pg := PgInserting(items * s.packetSize))
      else s
    case PgInsert =>
      if s.pg.PgInserting? && s.pipe.rpc.RHolding? && s.pg.size <= |s.pipe.buffers[s.pipe.rpc.buf].mem| then
        s.(pg := PgTop, inserted := s.inserted + [s.pipe.buffers[s.pipe.rpc.buf].mem[..s.pg.size]])
      else s
    case _ => s
  }

  function Act(s: System, a: Action): (r: System)
    requires WellFormed(s)
    ensures WellFormed(r)
  {
    if a.MbLoop? || a.MbPipe? || a.MbReceive? then StepMb(s, a) else StepPg(s, a)
  }

  function Execute(s: System, actions: seq<Action>): (r: System)
    requires WellFormed(s)
    ensures WellFormed(r)
    decreases |actions|
  {
    if actions == [] then s else Act(Execute(s, actions[..|actions| - 1]), actions[|actions| - 1])
  }

  predicate ValidSetup(mems: seq<seq<Byte>>, packetSize: nat) {
    && mems != []
    && (forall i :: 0 <= i < |mems| ==> |mems[i]| == |mems[0]|)
    && 0 < packetSize <= |mems[0]|
  }

  // ---- The invariant of the whole system ----

  predicate Batches(batches: seq<seq<Byte>>, packetSize: nat)
    requires packetSize > 0
  {
    forall i :: 0 <= i < |batches| ==> |batches[i]| % packetSize == 0
  }

  /** The two programs and the pipe agree on which calls are running. */
  predicate InStep(s: System) {
    && (s.pipe.wpc.WOutside? <==> s.mb.MbTop? || s.mb.MbReceiving? || s.mb.MbDone?)
    && (s.mb.MbGetting? ==> !s.pipe.wpc.WFlushLoad? && !s.pipe.wpc.WFlushTest?)
    && (s.pg.PgTop? ==> s.pipe.rpc.ROutside? || s.pipe.rpc.RHolding?)
    && (s.pg.PgWaiting? ==> !s.pipe.rpc.ROutside? && !s.pipe.rpc.RHolding?)
    && (s.pg.PgGot? || s.pg.PgInserting? ==> s.pipe.rpc.RHolding?)
  }

  /** The limit PgPrepareCtx sets leaves room for one more packet whenever it is not reached. */
  predicate Limits(s: System, cap: nat) {
    && SameCapacity(s.pipe.buffers, cap)
    && s.packetSize > 0 && s.maxFill <= cap && s.maxFill % s.packetSize == 0 && s.maxFill > 0
  }

  predicate Filling(s: System)
    requires WellFormed(s)
  {
    && |Current(s.pipe)| % s.packetSize == 0
    && |Current(s.pipe)| <= s.maxFill
    && (s.mb.MbReceiving? ==> |Current(s.pipe)| < s.maxFill)
    && (s.mb.MbDone? ==> Current(s.pipe) == [])
  }

  /** PgRun has acquired an arena whose rows it has not inserted yet. */
  predicate Outstanding(s: System) {
    s.pipe.rpc.RStore? || s.pipe.rpc.RSub? || s.pipe.rpc.RSignal? || s.pg.PgGot? || s.pg.PgInserting?
  }

  predicate Accounted(s: System)
    requires WellFormed(s)
  {
    && s.pipe.pushed == Flatten(s.accepted)
    && (forall i :: 0 <= i < |s.accepted| ==> |s.accepted[i]| == s.packetSize)
    && Batches(s.pipe.taken, s.packetSize) && Batches(Slot(s.pipe), s.packetSize)
  }

  predicate Inserted(s: System)
    requires WellFormed(s)
  {
    && (Outstanding(s) ==> s.pipe.taken != [])
    && s.inserted == (if Outstanding(s) then s.pipe.taken[..|s.pipe.taken| - 1] else s.pipe.taken)
    && (s.pg.PgInserting? && s.pipe.rpc.RHolding? ==> s.pg.size == s.pipe.buffers[s.pipe.rpc.buf].cur)
  }

  ghost predicate Safe(s: System, cap: nat) {
    && WellFormed(s) && Control(s.pipe) && Data(s.pipe) && |s.pipe.buffers| >= 3
    && InStep(s) && Limits(s, cap) && Filling(s) && Accounted(s) && Inserted(s)
  }

  lemma StartIsSafe(mems: seq<seq<Byte>>, packetSize: nat)
    requires ValidSetup(mems, packetSize) && |mems| >= 3
    ensures Safe(Start(mems, packetSize), |mems[0]|)
  {
    LimitFits(|mems[0]|, packetSize);
    hide MaxFill;
  }

  lemma LimitFits(cap: nat, packetSize: nat)
    requires 0 < packetSize <= cap
    ensures 0 < MaxFill(packetSize, cap) <= cap && MaxFill(packetSize, cap) % packetSize == 0
  {
    MultipleOf(cap / packetSize, packetSize);
    DivisionIsUnique(cap, cap / packetSize, cap % packetSize, packetSize);
  }

  /** Below the limit there is room for a whole packet, so no push of MbRun is refused. */
  lemma RoomForOne(position: nat, limit: nat, packetSize: nat)
    requires packetSize > 0 && position % packetSize == 0 && limit % packetSize == 0 && position < limit
    ensures position + packetSize <= limit
  {
    var a, b := position / packetSize, limit / packetSize;
    if b <= a {
      MulMonotone(b, a, packetSize);
    } else {
      MulMonotone(a + 1, b, packetSize);
      Distribute(a, 1, packetSize);
    }
  }

  /** Starting a pipe call, to rotate or to flush at the end of the connection, changes no data. */
  lemma SafeWriterCall(s: System, cap: nat, call: Step)
    requires Safe(s, cap) && (s.mb.MbTop? || s.mb.MbReceiving?)
    requires call.CallFlush? || call.CallGetWriteBuffer?
    ensures Safe(s.(mb := if call.CallFlush? then MbFlushing else MbGetting, pipe := Apply(s.pipe, call)), cap)
  {
    ControlOfStep(s.pipe, call);
    DataOfStep(s.pipe, call);
  }

  lemma SafeLoop(s: System, cap: nat, shutdown: bool)
    requires Safe(s, cap)
    ensures Safe(Act(s, MbLoop(shutdown)), cap)
  {
    if s.mb.MbTop? {
      SafeWriterCall(s, cap, CallFlush);
      SafeWriterCall(s, cap, CallGetWriteBuffer);
    }
  }

  lemma SafeReceive(s: System, cap: nat, event: Received)
    requires Safe(s, cap)
    ensures Safe(Act(s, MbReceive(event)), cap)
  {
    if s.mb.MbReceiving? {
      SafeWriterCall(s, cap, CallFlush);
      if event.Packet? && |event.data| == s.packetSize {
        SafePush(s, cap, event.data);
      }
    }
  }

  /** A push is never refused and only extends the current batch. */
  lemma PushFits(s: System, cap: nat, data: seq<Byte>)
    requires Safe(s, cap) && s.mb.MbReceiving? && |data| == s.packetSize
    ensures var r := Apply(s.pipe, Push(data));
            && r.pushed == s.pipe.pushed + data && r.taken == s.pipe.taken && Slot(r) == Slot(s.pipe)
            && Current(r) == Current(s.pipe) + data && r.wpc == s.pipe.wpc && r.rpc == s.pipe.rpc
            && |Current(r)| <= s.maxFill && |Current(r)| % s.packetSize == 0
            && (r.rpc.RHolding? ==> r.buffers[r.rpc.buf] == s.pipe.buffers[r.rpc.buf])
  {
    RoomForOne(|Current(s.pipe)|, s.maxFill, s.packetSize);
    MultiplesAdd(|Current(s.pipe)|, |data|, s.packetSize);
    WriterArenaIsFree(s.pipe);
    hide TokenControl, Data, Flatten, Accounted, Inserted;
  }

  lemma SafePush(s: System, cap: nat, data: seq<Byte>)
    requires Safe(s, cap) && s.mb.MbReceiving? && |data| == s.packetSize
    ensures Safe(Act(s, MbReceive(Packet(data))), cap)
  {
    PushFits(s, cap, data);
    ControlOfStep(s.pipe, Push(data));
    DataOfStep(s.pipe, Push(data));
    PipeKeepsCapacity(s.pipe, Push(data), cap);
    FlattenSnoc(s.accepted, data);
    hide *;
    SafeFromParts(s, cap, data);
  }

  lemma SafeFromParts(s: System, cap: nat, data: seq<Byte>)
    requires Safe(s, cap) && s.mb.MbReceiving? && |data| == s.packetSize
    requires var r := Apply(s.pipe, Push(data));
             && Control(r) && Data(r) && SameCapacity(r.buffers, cap)
             && r.pushed == s.pipe.pushed + data && r.taken == s.pipe.taken && Slot(r) == Slot(s.pipe)
             && r.wpc == s.pipe.wpc && r.rpc == s.pipe.rpc
             && |Current(r)| <= s.maxFill && |Current(r)| % s.packetSize == 0
             && (r.rpc.RHolding? ==> r.buffers[r.rpc.buf] == s.pipe.buffers[r.rpc.buf])
    requires Flatten(s.accepted + [data]) == Flatten(s.accepted) + data
    ensures Safe(Act(s, MbReceive(Packet(data))), cap)
  {
    hide Control, Data, SameCapacity, Flatten, Slot, Current, Apply;
  }

  /** A writer step leaves the arena PgRun is using as it is. */
  lemma HeldArenaStays(s: Pipe)
    requires Control(s) && |s.buffers| >= 3
    ensures s.rpc.RHolding? ==>
              StepWriter(s).rpc == s.rpc && StepWriter(s).buffers[s.rpc.buf] == s.buffers[s.rpc.buf]
  {
    WriterArenaIsFree(s);
  }

  lemma FillingOfMbPipe(s: System, cap: nat)
    requires Safe(s, cap)
    ensures InStep(Act(s, MbPipe)) && Filling(Act(s, MbPipe))
  {
    if s.mb.MbGetting? || s.mb.MbFlushing? {
      WriterRefinesHandoff(s.pipe);
      WriterKeepsHistory(s.pipe);
      WriterCallEnds(s.pipe);
    }
  }

  lemma InsertedOfMbPipe(s: System, cap: nat)
    requires Safe(s, cap)
    ensures Inserted(Act(s, MbPipe))
  {
    if s.mb.MbGetting? || s.mb.MbFlushing? {
      WriterKeepsHistory(s.pipe);
      HeldArenaStays(s.pipe);
    }
    hide Control, Data, Limits, Filling, Accounted, Flatten, StepWriter;
  }

  lemma AccountsOfMbPipe(s: System, cap: nat)
    requires Safe(s, cap)
    ensures Accounted(Act(s, MbPipe)) && Inserted(Act(s, MbPipe))
  {
    InsertedOfMbPipe(s, cap);
    if s.mb.MbGetting? || s.mb.MbFlushing? {
      WriterRefinesHandoff(s.pipe);
      WriterKeepsHistory(s.pipe);
      assert Batches([Current(s.pipe)], s.packetSize);
    }
    hide Control, Data, Limits, Inserted, Flatten, Slot, Current, StepWriter;
  }

  lemma SafeMbPipe(s: System, cap: nat)
    requires Safe(s, cap)
    ensures Safe(Act(s, MbPipe), cap)
  {
    FillingOfMbPipe(s, cap);
    AccountsOfMbPipe(s, cap);
    if s.mb.MbGetting? || s.mb.MbFlushing? {
      ControlOfStep(s.pipe, WriterStep);
      DataOfStep(s.pipe, WriterStep);
      PipeKeepsCapacity(s.pipe, WriterStep, cap);
    }
  }

  lemma FillingOfPgPipe(s: System, cap: nat)
    requires Safe(s, cap)
    ensures InStep(Act(s, PgPipe)) && Limits(Act(s, PgPipe), cap) && Filling(Act(s, PgPipe))
  {
    hide Control, Data, Accounted, Inserted, SameCapacity;
  }

  lemma AccountsOfPgPipe(s: System, cap: nat)
    requires Safe(s, cap)
    ensures Accounted(Act(s, PgPipe))
  {
    if s.pg.PgWaiting? {
      ReaderRefinesHandoff(s.pipe);
    }
    hide Control, Data, Limits, Filling, Inserted, Slot, Flatten, Current;
  }

  lemma InsertedOfPgPipe(s: System, cap: nat)
    requires Safe(s, cap)
    ensures Inserted(Act(s, PgPipe))
  {
    hide Control, Data, Limits, Filling, Accounted, Contents;
  }

  lemma SafePgPipe(s: System, cap: nat)
    requires Safe(s, cap)
    ensures Safe(Act(s, PgPipe), cap)
  {
    FillingOfPgPipe(s, cap);
    AccountsOfPgPipe(s, cap);
    InsertedOfPgPipe(s, cap);
    if s.pg.PgWaiting? {
      ControlOfStep(s.pipe, ReaderStep);
      DataOfStep(s.pipe, ReaderStep);
    }
    hide Control, Data, InStep, Limits, Filling, Accounted, Inserted;
  }

  lemma PgCallChangesNoData(s: Pipe, step: Step)
    requires InBounds(s) && (step.CallGetReadBuffer? || (step.ReaderInterrupt? && s.rpc.RDrain?))
    ensures var r := Apply(s, step);
            && r.wpc == s.wpc && r.taken == s.taken && r.pushed == s.pushed && r.buffers == s.buffers
            && Slot(r) == Slot(s) && Current(r) == Current(s)
            && (if step.ReaderInterrupt? then r.rpc.ROutside?
                else if s.rpc.ROutside? || s.rpc.RHolding? then r.rpc.RDrain? else r.rpc == s.rpc)
  {
  }

  /** What the receive loop's side asks for does not depend on where PgRun stands, nor on the reader's place. */
  lemma PgKeepsRest(s: System, cap: nat, pipe: Pipe, pg: PgPc, inserted: seq<seq<Byte>>)
    requires WellFormed(s) && Limits(s, cap) && Filling(s) && Accounted(s)
    requires InBounds(pipe) && pipe.buffers == s.pipe.buffers && pipe.taken == s.pipe.taken
    requires pipe.pushed == s.pipe.pushed && Slot(pipe) == Slot(s.pipe) && Current(pipe) == Current(s.pipe)
    ensures var r := s.(pipe := pipe, pg := pg, inserted := inserted);
            WellFormed(r) && Limits(r, cap) && Filling(r) && Accounted(r)
  {
    hide Slot, Current, Flatten, Batches, SameCapacity, InBounds;
  }

  /** PgRun starts a call, or an interrupted wait brings it back to its loop. */
  predicate MovesPg(s: System, step: Step, pg: PgPc) {
    || (s.pg.PgTop? && step.CallGetReadBuffer? && pg.PgWaiting?)
    || (s.pg.PgWaiting? && s.pipe.rpc.RDrain? && step.ReaderInterrupt? && pg.PgTop?)
  }

  lemma PgMoveKeepsPlace(s: System, pipe: Pipe, step: Step, pg: PgPc)
    requires WellFormed(s) && InStep(s) && Inserted(s) && MovesPg(s, step, pg)
    requires InBounds(pipe) && pipe.wpc == s.pipe.wpc && pipe.taken == s.pipe.taken && pipe.buffers == s.pipe.buffers
    requires if step.ReaderInterrupt? then pipe.rpc.ROutside? else pipe.rpc.RDrain?
    ensures var r := s.(pipe := pipe, pg := pg);
            InStep(r) && Inserted(r)
  {
    hide InBounds;
  }

  lemma SafePgMove(s: System, cap: nat, step: Step, pg: PgPc)
    requires Safe(s, cap) && MovesPg(s, step, pg)
    ensures Safe(s.(pipe := Apply(s.pipe, step), pg := pg), cap)
  {
    PgMoves(s, step, pg);
    ControlOfStep(s.pipe, step);
    DataOfStep(s.pipe, step);
    PgCallChangesNoData(s.pipe, step);
    PgMoveKeepsPlace(s, Apply(s.pipe, step), step, pg);
    PgKeepsRest(s, cap, Apply(s.pipe, step), pg, s.inserted);
    hide Control, Data, Slot, Current, Apply, Limits, Filling, Accounted, InStep, Inserted, InBounds, MovesPg;
  }

  lemma PgMoves(s: System, step: Step, pg: PgPc)
    requires InStep(s) && MovesPg(s, step, pg)
    ensures step.CallGetReadBuffer? || (step.ReaderInterrupt? && s.pipe.rpc.RDrain?)
    ensures step.CallGetReadBuffer? ==> s.pipe.rpc.ROutside? || s.pipe.rpc.RHolding?
  {
  }

  lemma SafePgCall(s: System, cap: nat, a: Action)
    requires Safe(s, cap) && (a.PgCall? || a.PgInterrupt?)
    ensures Safe(Act(s, a), cap)
  {
    if a.PgCall? && s.pg.PgTop? {
      SafePgMove(s, cap, CallGetReadBuffer, PgWaiting);
    } else if a.PgInterrupt? && s.pg.PgWaiting? && s.pipe.rpc.RDrain? {
      SafePgMove(s, cap, ReaderInterrupt, PgTop);
    }
    hide Safe, Apply;
  }

  lemma WholeItems(position: nat, packetSize: nat)
    requires packetSize > 0 && position % packetSize == 0
    ensures position / packetSize * packetSize == position
  {
  }

  lemma SafePgCount(s: System, cap: nat)
    requires Safe(s, cap)
    ensures Safe(Act(s, PgCount), cap)
  {
    if s.pg.PgGot? {
      HeldIsLastTaken(s.pipe);
      WholeItems(s.pipe.buffers[s.pipe.rpc.buf].cur, s.packetSize);
    }
  }

  /** The arena PgRun holds still has the contents it was acquired with. */
  lemma HeldIsLastTaken(s: Pipe)
    requires InBounds(s) && Data(s) && |s.buffers| >= 3 && s.rpc.RHolding?
    ensures s.taken != [] && s.taken[|s.taken| - 1] == Contents(s.buffers[s.rpc.buf])
  {
  }

  /** What PgRun is about to insert is the contents of the last arena it took. */
  lemma RowsOfPgInsert(s: System, cap: nat)
    requires Safe(s, cap) && s.pg.PgInserting?
    ensures s.pipe.rpc.RHolding? && s.pipe.rpc.buf < |s.pipe.buffers| && s.pipe.taken != []
    ensures var buffer, taken := s.pipe.buffers[s.pipe.rpc.buf], s.pipe.taken;
            && s.pg.size <= |buffer.mem| && buffer.mem[..s.pg.size] == taken[|taken| - 1]
            && s.inserted == taken[..|taken| - 1]
  {
    HeldIsLastTaken(s.pipe);
    hide Control, Data, Flatten, SameCapacity, Slot, Current, Accounted, Limits, Filling;
  }

  lemma InsertedOfPgInsert(s: System, cap: nat)
    requires Safe(s, cap) && s.pg.PgInserting?
    ensures Act(s, PgInsert) == s.(pg := PgTop, inserted := s.pipe.taken)
    ensures Inserted(Act(s, PgInsert)) && InStep(Act(s, PgInsert))
  {
    RowsOfPgInsert(s, cap);
    LastAdded(s.pipe.taken);
    hide Control, Data, Contents, Flatten, SameCapacity, Slot, Current, Accounted, Limits, Filling;
  }

  lemma SafePgInsert(s: System, cap: nat)
    requires Safe(s, cap)
    ensures Safe(Act(s, PgInsert), cap)
  {
    if s.pg.PgInserting? {
      InsertedOfPgInsert(s, cap);
      PgKeepsRest(s, cap, s.pipe, PgTop, s.pipe.taken);
      hide Control, Data, Limits, Filling, Accounted, InStep, Inserted;
    }
  }

  lemma SafeAct(s: System, cap: nat, a: Action)
    requires Safe(s, cap)
    ensures Safe(Act(s, a), cap)
  {
    match a
    case MbLoop(shutdown) => SafeLoop(s, cap, shutdown);
    case MbPipe => SafeMbPipe(s, cap);
    case MbReceive(event) => SafeReceive(s, cap, event);
    case PgPipe => SafePgPipe(s, cap);
    case PgCount => SafePgCount(s, cap);
    case PgInsert => SafePgInsert(s, cap);
    case _ => SafePgCall(s, cap, a);
  }

  // ---- Main results over every run ----

  /** Some run over `bufCount` arenas of `cap` bytes ends in `s`. */
  ghost predicate Reachable(bufCount: nat, cap: nat, packetSize: nat, s: System) {
    exists mems: seq<seq<Byte>>, actions: seq<Action> ::
      ValidSetup(mems, packetSize) && |mems| == bufCount && |mems[0]| == cap &&
      Execute(Start(mems, packetSize), actions) == s
  }

  lemma {:induction false} RunIsSafe(mems: seq<seq<Byte>>, packetSize: nat, actions: seq<Action>)
    requires ValidSetup(mems, packetSize) && |mems| >= 3
    ensures Safe(Execute(Start(mems, packetSize), actions), |mems[0]|)
    decreases |actions|
  {
    if actions == [] {
      StartIsSafe(mems, packetSize);
    } else {
      RunIsSafe(mems, packetSize, actions[..|actions| - 1]);
      SafeAct(Execute(Start(mems, packetSize), actions[..|actions| - 1]), |mems[0]|, actions[|actions| - 1]);
    }
  }

  lemma {:induction false} ActionsKeepPacketSize(s: System, actions: seq<Action>)
    requires WellFormed(s)
    ensures Execute(s, actions).packetSize == s.packetSize
    decreases |actions|
  {
    if actions != [] {
      ActionsKeepPacketSize(s, actions[..|actions| - 1]);
    }
  }

  lemma ReachableIsSafe(bufCount: nat, cap: nat, packetSize: nat, s: System)
    requires bufCount >= 3 && Reachable(bufCount, cap, packetSize, s)
    ensures Safe(s, cap) && s.packetSize == packetSize
  {
    var mems: seq<seq<Byte>>, actions: seq<Action> :|
      ValidSetup(mems, packetSize) && |mems| == bufCount && |mems[0]| == cap &&
      Execute(Start(mems, packetSize), actions) == s;
    RunIsSafe(mems, packetSize, actions);
    ActionsKeepPacketSize(Start(mems, packetSize), actions);
  }

  /** The first `k` accepted payloads are the first `k * packetSize` accepted bytes. */
  lemma {:induction false} PrefixOfPackets(packets: seq<seq<Byte>>, packetSize: nat, k: nat)
    requires k <= |packets|
    requires forall i :: 0 <= i < |packets| ==> |packets[i]| == packetSize
    ensures k * packetSize <= |Flatten(packets)| && Flatten(packets)[..k * packetSize] == Flatten(packets[..k])
  {
    FlattenUniformLength(packets[..k], packetSize);
    FlattenConcat(packets[..k], packets[k..]);
    assert packets == packets[..k] + packets[k..];
  }

  /** The rows PgRun has inserted are the first so many payloads MbRun accepted, in order. */
  ghost predicate Delivered(s: System, k: nat) {
    k <= |s.accepted| && Flatten(s.inserted) == Flatten(s.accepted[..k])
  }

  /** The arena that is acquired but not inserted yet, if there is one. */
  function Held(s: System): seq<seq<Byte>> {
    if Outstanding(s) && s.pipe.taken != [] then [s.pipe.taken[|s.pipe.taken| - 1]] else []
  }

  lemma TakenIsInsertedAndHeld(s: System, cap: nat)
    requires Safe(s, cap)
    ensures WellFormed(s) && s.pipe.taken == s.inserted + Held(s) && Batches(s.inserted, s.packetSize)
  {
    hide Control, Data;
  }

  lemma AcceptedIsTakenAndRest(s: System, cap: nat)
    requires Safe(s, cap)
    ensures Flatten(s.accepted) == Flatten(s.pipe.taken + Slot(s.pipe)) + Current(s.pipe)
  {
    hide Control, Slot, Current, Flatten, Inserted;
  }

  lemma InsertedIsPrefix(s: System, cap: nat) returns (rest: seq<Byte>)
    requires Safe(s, cap)
    ensures Flatten(s.accepted) == Flatten(s.inserted) + rest
    ensures Slot(s.pipe) == [] && Current(s.pipe) == [] && !Outstanding(s) ==> rest == []
    ensures |Flatten(s.inserted)| % s.packetSize == 0
  {
    hide Safe, Control, Data, Slot, Current, Flatten, Outstanding;
    TakenIsInsertedAndHeld(s, cap);
    AcceptedIsTakenAndRest(s, cap);
    FlattenMultiple(s.inserted, s.packetSize);
    var slot, current, held := Slot(s.pipe), Current(s.pipe), Held(s);
    hide *;
    FlattenConcat(s.pipe.taken, slot);
    FlattenConcat(s.inserted, held);
    FlattenNone();
    rest := Flatten(held) + (Flatten(slot) + current);
    Regroup(Flatten(s.inserted), Flatten(held), Flatten(slot), current);
  }

  lemma Regroup(a: seq<Byte>, b: seq<Byte>, c: seq<Byte>, d: seq<Byte>)
    ensures ((a + b) + c) + d == a + (b + (c + d))
  {
  }

  lemma FlattenNone()
    ensures Flatten<Byte>([]) == []
  {
  }

  /** A byte prefix that is a whole number of packets long is a prefix of the list of packets. */
  lemma WholePackets(packets: seq<seq<Byte>>, packetSize: nat, prefix: seq<Byte>, rest: seq<Byte>)
    returns (k: nat)
    requires packetSize > 0 && |prefix| % packetSize == 0
    requires forall i :: 0 <= i < |packets| ==> |packets[i]| == packetSize
    requires Flatten(packets) == prefix + rest
    ensures k <= |packets| && prefix == Flatten(packets[..k])
    ensures rest == [] ==> k == |packets|
  {
    k := |prefix| / packetSize;
    WholeItems(|prefix|, packetSize);
    FlattenUniformLength(packets, packetSize);
    if k > |packets| {
      MulMonotone(|packets| + 1, k, packetSize);
      Distribute(|packets|, 1, packetSize);
    }
    PrefixOfPackets(packets, packetSize, k);
    if rest == [] {
      DivisionIsUnique(|prefix|, |packets|, 0, packetSize);
    }
  }

  /** Conservation: with three or more arenas what reaches PgInsertData is a prefix of the accepted payloads. */
  lemma PacketsAreConserved(bufCount: nat, cap: nat, packetSize: nat, s: System) returns (k: nat)
    requires bufCount >= 3 && Reachable(bufCount, cap, packetSize, s)
    ensures Delivered(s, k)
    ensures s.mb.MbDone? && InBounds(s.pipe) && Slot(s.pipe) == [] && !Outstanding(s) ==> k == |s.accepted|
  {
    ReachableIsSafe(bufCount, cap, packetSize, s);
    var rest := InsertedIsPrefix(s, cap);
    k := WholePackets(s.accepted, packetSize, Flatten(s.inserted), rest);
  }

  lemma HeldParts(s: System, cap: nat)
    requires Safe(s, cap) && (s.pg.PgGot? || s.pg.PgInserting?)
    ensures s.pipe.rpc.RHolding? && InBounds(s.pipe) && s.pipe.rpc.buf < |s.pipe.buffers|
    ensures WellFormed(s) && s.packetSize > 0
    ensures var held := Contents(s.pipe.buffers[s.pipe.rpc.buf]);
            && s.pipe.taken == s.inserted + [held] && |held| % s.packetSize == 0
            && (s.pg.PgInserting? ==> s.pg.size == |held|)
  {
    HeldIsLastTaken(s.pipe);
    hide Control, Data, Flatten, Limits, Filling, Slot;
  }

  /**
   The arena PgRun holds is the next thing to insert: its contents are whole packets, they come right behind
   what was inserted before in the accepted bytes, and they are what PgInsertData will be given.
   */
  lemma HeldIsNextToInsert(bufCount: nat, cap: nat, packetSize: nat, s: System) returns (rest: seq<Byte>)
    requires bufCount >= 3 && packetSize > 0 && Reachable(bufCount, cap, packetSize, s)
    requires s.pg.PgGot? || s.pg.PgInserting?
    ensures s.pipe.rpc.RHolding? && InBounds(s.pipe)
    ensures var held := Contents(s.pipe.buffers[s.pipe.rpc.buf]);
            && Flatten(s.accepted) == Flatten(s.inserted) + held + rest && |held| % packetSize == 0
            && (s.pg.PgInserting? ==> s.pg.size == |held|)
  {
    hide *;
    ReachableIsSafe(bufCount, cap, packetSize, s);
    HeldParts(s, cap);
    AcceptedIsTakenAndRest(s, cap);
    var slot, current, held := Slot(s.pipe), Current(s.pipe), Contents(s.pipe.buffers[s.pipe.rpc.buf]);
    FlattenConcat(s.pipe.taken, slot);
    FlattenSnoc(s.inserted, held);
    rest := Flatten(slot) + current;
    Regroup(Flatten(s.inserted), held, Flatten(slot), current);
    Assoc(Flatten(s.inserted), held, rest);
  }

  /** The assertions and unchecked pushes of the two loops: what each relies on holds whenever it is reached. */
  lemma LoopAssertionsHold(bufCount: nat, cap: nat, packetSize: nat, s: System)
    requires bufCount >= 3 && Reachable(bufCount, cap, packetSize, s)
    ensures WellFormed(s)
    ensures s.mb.MbTop? ==> Position(s) <= s.maxFill
    ensures s.mb.MbReceiving? ==> Position(s) + packetSize <= cap == |s.pipe.buffers[s.pipe.writeIdx].mem|
    ensures s.pg.PgGot? ==> s.pipe.rpc.RHolding? && s.pipe.buffers[s.pipe.rpc.buf].cur % packetSize == 0
    ensures s.pg.PgInserting? ==> s.pipe.rpc.RHolding? && s.pg.size <= |s.pipe.buffers[s.pipe.rpc.buf].mem|
  {
    ReachableIsSafe(bufCount, cap, packetSize, s);
    if s.mb.MbReceiving? {
      RoomForOne(Position(s), s.maxFill, packetSize);
    }
    if s.pipe.rpc.RHolding? {
      HeldIsLastTaken(s.pipe);
    }
  }

  // ---- Two arenas are not enough ----

  lemma ReachableAct(n: nat, cap: nat, packetSize: nat, s: System, a: Action)
    requires Reachable(n, cap, packetSize, s) && WellFormed(s)
    ensures Reachable(n, cap, packetSize, Act(s, a))
  {
    var mems: seq<seq<Byte>>, actions: seq<Action> :|
      ValidSetup(mems, packetSize) && |mems| == n && |mems[0]| == cap &&
      Execute(Start(mems, packetSize), actions) == s;
    assert (actions + [a])[..|actions|] == actions;
    assert Execute(Start(mems, packetSize), actions + [a]) == Act(s, a);
  }

  lemma MbPipeIs(s: System)
    requires WellFormed(s) && s.mb.MbGetting?
    ensures var pipe := StepWriter(s.pipe);
            Act(s, MbPipe) == s.(pipe := pipe, mb := if pipe.wpc.WOutside? then MbReceiving else MbGetting)
  {
    hide StepWriter;
  }

  lemma PgPipeIs(s: System)
    requires WellFormed(s) && s.pg.PgWaiting?
    ensures var pipe := StepReader(s.pipe);
            Act(s, PgPipe) == s.(pipe := pipe, pg := if pipe.rpc.RHolding? then PgGot else PgWaiting)
  {
    hide StepReader;
  }

  /** MbRun rotates its full arena while PgRun stands still. */
  lemma MbRotates(s: System) returns (r: System)
    requires Reachable(2, 1, 1, s) && WellFormed(s) && s.mb.MbTop? && Position(s) == s.maxFill
    requires s.pipe.wpc.WOutside? && s.pipe.writeFd > 0 && s.pipe.full == 0
    ensures Reachable(2, 1, 1, r) && WellFormed(r)
    ensures var next := Advance(s.pipe.writeIdx, |s.pipe.buffers|);
            r == s.(mb := MbReceiving,
                    pipe := s.pipe.(writeFd := 0, readFd := s.pipe.readFd + 1, full := 1, writeIdx := next,
                                    acquisitions := s.pipe.acquisitions + [Writer],
                                    buffers := s.pipe.buffers[next := Clear(s.pipe.buffers[next])]))
  {
    hide Reachable;
    var run := WriterCallStates(s.pipe);
    ReachableAct(2, 1, 1, s, MbLoop(false));
    r := s.(mb := MbGetting, pipe := run[0]);
    for i := 0 to 5
      invariant Reachable(2, 1, 1, r) && WellFormed(r) && r == s.(mb := MbGetting, pipe := run[i])
    {
      ReachableAct(2, 1, 1, r, MbPipe);
      MbPipeIs(r);
      r := r.(pipe := run[i + 1]);
    }
    ReachableAct(2, 1, 1, r, MbPipe);
    MbPipeIs(r);
    r := Act(r, MbPipe);
  }

  /** PgRun completes one pipe call while MbRun stands still. */
  lemma PgAcquires(s: System) returns (r: System)
    requires Reachable(2, 1, 1, s) && WellFormed(s) && s.pg.PgTop?
    requires s.pipe.rpc.ROutside? && s.pipe.readFd > 0 && s.pipe.full == 1
    ensures Reachable(2, 1, 1, r) && WellFormed(r)
    ensures r == s.(pg := PgGot,
                    pipe := s.pipe.(readFd := 0, writeFd := s.pipe.writeFd + 1, full := 0,
                                    readIdx := Advance(s.pipe.readIdx, |s.pipe.buffers|),
                                    rpc := RHolding(s.pipe.readIdx),
                                    taken := s.pipe.taken + [Contents(s.pipe.buffers[s.pipe.readIdx])],
                                    acquisitions := s.pipe.acquisitions + [SensorDataPipe.Reader]))
  {
    hide Reachable, StepReader, Contents, Advance;
    var run := ReaderCallStates(s.pipe);
    ReachableAct(2, 1, 1, s, PgCall);
    r := s.(pg := PgWaiting, pipe := run[0]);
    for i := 0 to 5
      invariant Reachable(2, 1, 1, r) && WellFormed(r)
      invariant r == s.(pg := if i == 5 then PgGot else PgWaiting, pipe := run[i])
    {
      ReachableAct(2, 1, 1, r, PgPipe);
      PgPipeIs(r);
      r := s.(pg := if i == 4 then PgGot else PgWaiting, pipe := run[i + 1]);
    }
  }

  /** MbRun accepts a one-byte packet into its cleared arena. */
  lemma MbAccepts(s: System, packet: Byte) returns (r: System)
    requires Reachable(2, 1, 1, s) && WellFormed(s) && s.mb.MbReceiving? && s.packetSize == 1
    requires s.pipe.wpc.WOutside? && Position(s) == 0 && |s.pipe.buffers[s.pipe.writeIdx].mem| == 1
    ensures Reachable(2, 1, 1, r) && WellFormed(r)
    ensures r == s.(mb := MbTop, accepted := s.accepted + [[packet]],
                    pipe := s.pipe.(pushed := s.pipe.pushed + [packet],
                                    buffers := s.pipe.buffers[s.pipe.writeIdx := RawArena([packet], 1)]))
  {
    ReachableAct(2, 1, 1, s, MbReceive(Packet([packet])));
    r := Act(s, MbReceive(Packet([packet])));
    assert PushBytes(s.pipe.buffers[s.pipe.writeIdx], [packet]) == RawArena([packet], 1);
  }

  /** Two arenas of one one-byte packet: packet 7 is overwritten by packet 9 before PgRun inserts it. */
  lemma TwoArenasLoseAPacket() returns (s: System)
    ensures Reachable(2, 1, 1, s)
    ensures s.accepted == [[7], [8], [9]] && s.inserted == [[9]]
  {
    s := TwoArenasBegin();
    s := MbRotates(s);
    assert s.pipe.buffers == [RawArena([7], 0), RawArena([8], 1)];
    s := MbAccepts(s, 9);
    assert s.pipe.buffers == [RawArena([9], 1), RawArena([8], 1)];
    assert Contents(s.pipe.buffers[0]) == [9];
    s := PgInsertsOne(s);
  }

  /** MbRun has filled both arenas and PgRun has acquired the first. */
  lemma TwoArenasStart() returns (s: System)
    ensures Reachable(2, 1, 1, s) && s == Start([[0], [0]], 1)
    ensures s.pipe.buffers == [RawArena([0], 0), RawArena([0], 0)] && s.maxFill == 1
  {
    var mems: seq<seq<Byte>> := [[0], [0]];
    assert ValidSetup(mems, 1);
    s := Start(mems, 1);
    assert Execute(s, []) == s;
  }

  lemma TwoArenasBegin() returns (s: System)
    ensures Reachable(2, 1, 1, s) && WellFormed(s) && s.mb.MbTop? && s.pg.PgGot?
    ensures s.accepted == [[7], [8]] && s.inserted == [] && s.packetSize == s.maxFill == 1
    ensures s.pipe.wpc.WOutside? && s.pipe.rpc == RHolding(0)
    ensures s.pipe.writeIdx == 1 && s.pipe.writeFd > 0 && s.pipe.full == 0
    ensures s.pipe.buffers == [RawArena([7], 1), RawArena([8], 1)]
  {
    hide Reachable;
    s := TwoArenasStart();
    ReachableAct(2, 1, 1, s, MbLoop(false));
    s := s.(mb := MbReceiving);
    s := MbAccepts(s, 7);
    assert s.pipe.buffers == [RawArena([7], 1), RawArena([0], 0)];
    s := MbRotates(s);
    assert s.pipe.buffers == [RawArena([7], 1), RawArena([0], 0)];
    s := MbAccepts(s, 8);
    assert s.pipe.buffers == [RawArena([7], 1), RawArena([8], 1)];
    s := PgAcquires(s);
  }

  /** PgRun counts the arena it holds and inserts it. */
  lemma PgInsertsOne(s: System) returns (r: System)
    requires Reachable(2, 1, 1, s) && WellFormed(s) && s.pg.PgGot? && s.packetSize == 1 && s.pipe.rpc.RHolding?
    ensures Reachable(2, 1, 1, r)
    ensures r == s.(pg := PgTop, inserted := s.inserted + [Contents(s.pipe.buffers[s.pipe.rpc.buf])])
  {
    ReachableAct(2, 1, 1, s, PgCount);
    r := s.(pg := PgInserting(s.pipe.buffers[s.pipe.rpc.buf].cur));
    ReachableAct(2, 1, 1, r, PgInsert);
    r := Act(r, PgInsert);
  }

  lemma ThreeArenasConserve(bufCount: nat)
    requires bufCount >= 3
    ensures forall cap, packetSize, s | Reachable(bufCount, cap, packetSize, s) :: exists k :: Delivered(s, k)
  {
    hide *;
    forall cap, packetSize, s | Reachable(bufCount, cap, packetSize, s)
      ensures exists k :: Delivered(s, k)
    {
      var k := PacketsAreConserved(bufCount, cap, packetSize, s);
    }
  }

  /** Every run conserves packets, whatever the arena and packet sizes, exactly from three arenas on. */
  lemma ConservationExactlyFromThree(bufCount: nat)
    requires bufCount >= 2
    ensures bufCount >= 3 <==>
            forall cap, packetSize, s | Reachable(bufCount, cap, packetSize, s) :: exists k :: Delivered(s, k)
  {
    if bufCount >= 3 {
      ThreeArenasConserve(bufCount);
    } else {
      var s := TwoArenasLoseAPacket();
      hide Reachable, Flatten;
      forall k
        ensures !Delivered(s, k)
      {
        if Delivered(s, k) {
          NineIsNoPrefix(s.accepted, k);
        }
      }
    }
  }

  lemma NineIsNoPrefix(accepted: seq<seq<Byte>>, k: nat)
    requires accepted == [[7], [8], [9]] && k <= 3
    ensures Flatten(accepted[..k]) != Flatten([[9]])
  {
    assert Flatten([[9]]) == [9];
    PrefixOfPackets(accepted, 1, k);
    if k > 0 {
      PrefixOfPackets(accepted[..k], 1, 1);
      assert accepted[..k][..1] == [[7]];
      assert Flatten([[7]]) == [7];
    }
  }
}
