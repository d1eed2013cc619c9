/**
 The buffer pipe of src/Common/SensorDataPipe.c as a machine of atomic steps: one writer thread and
 one reader thread, two eventfd counters, two indices, one counter and `bufCount` arenas. A run is
 any sequence of steps; a thread that is blocked, or asked for a step that is not its next one,
 stays where it is.
 */
module SensorDataPipe {
  import opened Bytes

  /** The fill position of an arena never passes the end of its memory. */
  datatype RawArena = RawArena(mem: seq<Byte>, cur: nat)
  type Arena = a: RawArena | a.cur <= |a.mem| witness RawArena([], 0)

  function Contents(a: Arena): seq<Byte> {
    a.mem[..a.cur]
  }

  /** SdbArenaPush followed by a copy into the pushed block; a push that does not fit changes nothing. */
  function PushBytes(a: Arena, data: seq<Byte>): (r: Arena)
    ensures a.cur + |data| <= |a.mem| ==> Contents(r) == Contents(a) + data
    ensures a.cur + |data| > |a.mem| ==> r == a
    ensures |r.mem| == |a.mem|
  {
    if a.cur + |data| <= |a.mem| then
      RawArena(a.mem[..a.cur] + data + a.mem[a.cur + |data|..], a.cur + |data|)
    else
      a
  }

  function Clear(a: Arena): Arena {
    RawArena(a.mem, 0)
  }

  /** Where the writer thread stands. Each constructor names the next atomic access of a call. */
  datatype WriterPc =
    | WOutside
    | WFlushLoad
    | WFlushTest(cur: nat)
    | WLoad
    | WDrain(next: nat)
    | WStore(next: nat)
    | WAdd(next: nat)
    | WSignal(next: nat)
    | WClear(next: nat)

  /** Where the reader thread stands; `RHolding` is outside a call, using the arena last returned. */
  datatype ReaderPc =
    | ROutside
    | RHolding(buf: nat)
    | RDrain
    | RLoad
    | RStore(buf: nat)
    | RSub(buf: nat)
    | RSignal(buf: nat)

  datatype Side = Writer | Reader

  datatype Pipe = Pipe(
    buffers: seq<Arena>,
    writeIdx: nat,
    readIdx: nat,
    full: nat,
    readFd: nat,
    writeFd: nat,
    wpc: WriterPc,
    rpc: ReaderPc,
    pushed: seq<Byte>,          // history: every byte the writer pushed
    taken: seq<seq<Byte>>,      // history: the contents of each arena when the reader acquired it
    acquisitions: seq<Side>     // history: whose read of an eventfd succeeded, in order
  )

  datatype Step =
    | Push(data: seq<Byte>)
    | CallGetWriteBuffer
    | CallFlush
    | WriterStep
    | WriterInterrupt
    | CallGetReadBuffer
    | ReaderStep
    | ReaderInterrupt

  const U32 := 0x1_0000_0000

  /** Addition and subtraction of one on an unsigned 32-bit counter. */
  function FetchAdd(x: nat): nat { if x + 1 == U32 then 0 else x + 1 }
  function FetchSub(x: nat): nat { if x == 0 then U32 - 1 else x - 1 }

  /** `(i + 1) % bufCount`, as AdvanceIsModulo shows. */
  function Advance(i: nat, bufCount: nat): (r: nat)
    requires i < bufCount
    ensures r < bufCount
  {
    if i + 1 == bufCount then 0 else i + 1
  }

  lemma AdvanceIsModulo(i: nat, bufCount: nat)
    requires i < bufCount
    ensures Advance(i, bufCount) == (i + 1) % bufCount
  {
    DivisionIsUnique(i + 1, if i + 1 == bufCount then 1 else 0, Advance(i, bufCount), bufCount);
  }

  /** The state SdpCreate leaves: every arena empty, `bufCount - 1` credits for the writer. */
  function Create(mems: seq<seq<Byte>>): Pipe
    requires |mems| > 0
  {
    Pipe(seq(|mems|, i requires 0 <= i < |mems| => RawArena(mems[i], 0)),
         0, 0, 0, 0, |mems| - 1, WOutside, ROutside, [], [], [])
  }

  predicate WriterInBounds(s: Pipe) {
    match s.wpc
    case WFlushTest(cur) => cur < |s.buffers|
    case WDrain(n) => n < |s.buffers|
    case WStore(n) => n < |s.buffers|
    case WAdd(n) => n < |s.buffers|
    case WSignal(n) => n < |s.buffers|
    case WClear(n) => n < |s.buffers|
    case _ => true
  }

  predicate ReaderInBounds(s: Pipe) {
    match s.rpc
    case RHolding(b) => b < |s.buffers|
    case RStore(b) => b < |s.buffers|
    case RSub(b) => b < |s.buffers|
    case RSignal(b) => b < |s.buffers|
    case _ => true
  }

  /** Every index the two threads hold names an arena. */
  predicate InBounds(s: Pipe) {
    && s.writeIdx < |s.buffers| && s.readIdx < |s.buffers|
    && WriterInBounds(s) && ReaderInBounds(s)
  }

  /** One atomic access of the writer inside SdPipeGetWriteBuffer or SdPipeFlush. */
  function StepWriter(s: Pipe): (r: Pipe)
    requires InBounds(s)
    ensures InBounds(r) && |r.buffers| == |s.buffers|
  {
    match s.wpc
    case WOutside => s
    case WFlushLoad => s.(wpc := WFlushTest(s.writeIdx))
    case WFlushTest(cur) => s.(wpc := if s.buffers[cur].cur > 0 then WLoad else WOutside)
    case WLoad => s.(wpc := WDrain(Advance(s.writeIdx, |s.buffers|)))
    case WDrain(next) =>
      if s.writeFd == 0 then s
      else s.(writeFd := 0, wpc := WStore(next), acquisitions := s.acquisitions + [Writer])
    case WStore(next) => s.(writeIdx := next, wpc := WAdd(next))
    case WAdd(next) => s.(full := FetchAdd(s.full), wpc := WSignal(next))
    case WSignal(next) => s.(readFd := s.readFd + 1, wpc := WClear(next))
    case WClear(next) => s.(buffers := s.buffers[next := Clear(s.buffers[next])], wpc := WOutside)
  }

  /** One atomic access of the reader inside SdPipeGetReadBuffer. */
  function StepReader(s: Pipe): (r: Pipe)
    requires InBounds(s)
    ensures InBounds(r) && |r.buffers| == |s.buffers|
  {
    match s.rpc
    case ROutside => s
    case RHolding(_) => s
    case RDrain =>
      if s.readFd == 0 then s
      else s.(readFd := 0, rpc := RLoad, acquisitions := s.acquisitions + [Reader])
    case RLoad =>
      s.(rpc := RStore(s.readIdx), taken := s.taken + [Contents(s.buffers[s.readIdx])])
    case RStore(buf) => s.(readIdx := Advance(buf, |s.buffers|), rpc := RSub(buf))
    case RSub(buf) => s.(full := FetchSub(s.full), rpc := RSignal(buf))
    case RSignal(buf) => s.(writeFd := s.writeFd + 1, rpc := RHolding(buf))
  }

  /** A step of the whole pipe. The writer pushes only into the arena of its latest acquisition. */
  function Apply(s: Pipe, step: Step): (r: Pipe)
    requires InBounds(s)
    ensures InBounds(r) && |r.buffers| == |s.buffers|
  {
    match step
    case Push(data) =>
      if s.wpc.WOutside? && s.buffers[s.writeIdx].cur + |data| <= |s.buffers[s.writeIdx].mem| then
        s.(buffers := s.buffers[s.writeIdx := PushBytes(s.buffers[s.writeIdx], data)],
           pushed := s.pushed + data)
      else s
    case CallGetWriteBuffer => if s.wpc.WOutside? then s.(wpc := WLoad) else s
    case CallFlush => if s.wpc.WOutside? then s.(wpc := WFlushLoad) else s
    case WriterStep => StepWriter(s)
    case WriterInterrupt => if s.wpc.WDrain? then s.(wpc := WOutside) else s
    case CallGetReadBuffer =>
      if s.rpc.ROutside? || s.rpc.RHolding? then s.(rpc := RDrain) else s
    case ReaderStep => StepReader(s)
    case ReaderInterrupt => if s.rpc.RDrain? then s.(rpc := ROutside) else s
  }

  function Execute(s: Pipe, steps: seq<Step>): (r: Pipe)
    requires InBounds(s)
    ensures InBounds(r) && |r.buffers| == |s.buffers|
    decreases |steps|
  {
    if steps == [] then s else Apply(Execute(s, steps[..|steps| - 1]), steps[|steps| - 1])
  }

  // ---- Control: tokens, indices and the counter ----

  predicate WriterHoldsToken(s: Pipe) {
    s.wpc.WStore? || s.wpc.WAdd? || s.wpc.WSignal?
  }

  predicate ReaderHoldsToken(s: Pipe) {
    s.rpc.RLoad? || s.rpc.RStore? || s.rpc.RSub? || s.rpc.RSignal?
  }

  function Tokens(s: Pipe): nat {
    s.writeFd + s.readFd + (if WriterHoldsToken(s) then 1 else 0) + (if ReaderHoldsToken(s) then 1 else 0)
  }

  /** The token is on its way from the writer's acquisition to the reader's. */
  predicate ReaderIsNext(s: Pipe) {
    WriterHoldsToken(s) || s.readFd > 0
  }

  /** The write index is one ahead of the read index, otherwise they are equal. */
  predicate Ahead(s: Pipe) {
    s.wpc.WAdd? || s.wpc.WSignal? || s.readFd > 0 || s.rpc.RLoad? || s.rpc.RStore?
  }

  predicate Counted(s: Pipe) {
    s.wpc.WSignal? || s.readFd > 0 || s.rpc.RLoad? || s.rpc.RStore? || s.rpc.RSub?
  }

  predicate WriterPcFits(s: Pipe)
    requires InBounds(s)
  {
    match s.wpc
    case WFlushTest(cur) => cur == s.writeIdx
    case WDrain(n) => n == Advance(s.writeIdx, |s.buffers|)
    case WStore(n) => n == Advance(s.writeIdx, |s.buffers|)
    case WAdd(n) => n == s.writeIdx
    case WSignal(n) => n == s.writeIdx
    case WClear(n) => n == s.writeIdx
    case _ => true
  }

  predicate ReaderPcFits(s: Pipe)
    requires InBounds(s)
  {
    match s.rpc
    case RStore(b) => b == s.readIdx
    case RSub(b) => s.readIdx == Advance(b, |s.buffers|)
    case RSignal(b) => s.readIdx == Advance(b, |s.buffers|)
    case RHolding(b) => s.readIdx == Advance(b, |s.buffers|)
    case _ => true
  }

  ghost predicate Alternating(acquisitions: seq<Side>) {
    forall i :: 0 <= i < |acquisitions| ==> acquisitions[i] == if i % 2 == 0 then Writer else Reader
  }

  /** From the first acquisition on one token circulates; whose turn is next follows from where it is. */
  ghost predicate TokenControl(s: Pipe) {
    && (s.acquisitions == [] ==> s.writeFd == |s.buffers| - 1 && Tokens(s) == |s.buffers| - 1)
    && (s.acquisitions != [] ==> Tokens(s) == 1)
    && Alternating(s.acquisitions)
    && (ReaderIsNext(s) <==> |s.acquisitions| % 2 == 1)
  }

  /** The indices, the counter and the values the threads have loaded all follow from where the token is. */
  predicate IndexControl(s: Pipe)
    requires InBounds(s)
  {
    && WriterPcFits(s) && ReaderPcFits(s)
    && s.writeIdx == (if Ahead(s) then Advance(s.readIdx, |s.buffers|) else s.readIdx)
    && s.full == (if Counted(s) then 1 else 0)
  }

  ghost predicate Control(s: Pipe) {
    InBounds(s) && |s.buffers| >= 2 && TokenControl(s) && IndexControl(s)
  }

  /** The side whose turn it is may acquire. */
  lemma AlternatingSnoc(acquisitions: seq<Side>, side: Side)
    requires Alternating(acquisitions) && side == if |acquisitions| % 2 == 0 then Writer else Reader
    ensures Alternating(acquisitions + [side])
    ensures |acquisitions + [side]| % 2 == 1 <==> side == Writer
  {
  }

  lemma TokensOfWriter(s: Pipe)
    requires Control(s)
    ensures TokenControl(StepWriter(s))
  {
    hide Alternating;
    if s.wpc.WDrain? && s.writeFd > 0 {
      AlternatingSnoc(s.acquisitions, Writer);
    }
  }

  lemma PcsOfWriter(s: Pipe)
    requires Control(s)
    ensures WriterPcFits(StepWriter(s)) && ReaderPcFits(StepWriter(s))
  {
    hide TokenControl;
  }

  lemma IndexIsStored(s: Pipe)
    requires Control(s)
    ensures s.wpc.WStore? ==> s.wpc.next == Advance(s.writeIdx, |s.buffers|)
  {
    hide TokenControl;
  }

  lemma IndexOfWriter(s: Pipe)
    requires Control(s)
    ensures var r := StepWriter(s);
            r.writeIdx == if Ahead(r) then Advance(r.readIdx, |r.buffers|) else r.readIdx
  {
    IndexIsStored(s);
    hide Alternating, WriterPcFits, ReaderPcFits, Advance, Counted;
  }

  lemma CounterOfWriter(s: Pipe)
    requires Control(s)
    ensures var r := StepWriter(s);
            r.full == if Counted(r) then 1 else 0
  {
    hide Alternating, WriterPcFits, ReaderPcFits, Advance, Ahead;
  }

  lemma IndexControlIs(s: Pipe)
    requires InBounds(s) && WriterPcFits(s) && ReaderPcFits(s)
    requires s.writeIdx == (if Ahead(s) then Advance(s.readIdx, |s.buffers|) else s.readIdx)
    requires s.full == (if Counted(s) then 1 else 0)
    ensures IndexControl(s)
  {
  }

  lemma IndicesOfWriter(s: Pipe)
    requires Control(s)
    ensures IndexControl(StepWriter(s))
  {
    assert InBounds(s);
    hide *;
    PcsOfWriter(s);
    IndexOfWriter(s);
    CounterOfWriter(s);
    IndexControlIs(StepWriter(s));
  }

  lemma TokensOfReader(s: Pipe)
    requires Control(s)
    ensures TokenControl(StepReader(s))
  {
    hide Alternating;
    if s.rpc.RDrain? && s.readFd > 0 {
      AlternatingSnoc(s.acquisitions, Reader);
    }
  }

  lemma IndicesOfReader(s: Pipe)
    requires Control(s)
    ensures IndexControl(StepReader(s))
  {
    hide Alternating;
  }

  lemma ControlOfCall(s: Pipe, step: Step)
    requires Control(s) && !step.WriterStep? && !step.ReaderStep?
    ensures Control(Apply(s, step))
  {
  }

  lemma ControlOfStep(s: Pipe, step: Step)
    requires Control(s)
    ensures Control(Apply(s, step))
  {
    if step.WriterStep? {
      TokensOfWriter(s);
      IndicesOfWriter(s);
    } else if step.ReaderStep? {
      TokensOfReader(s);
      IndicesOfReader(s);
    } else {
      ControlOfCall(s, step);
    }
  }

  // ---- Data: what the arenas hold ----

  /** The published arena that the reader has not yet acquired. */
  function Slot(s: Pipe): seq<seq<Byte>>
    requires InBounds(s)
  {
    if s.wpc.WAdd? || s.wpc.WSignal? || s.readFd > 0 || s.rpc.RLoad? then [Contents(s.buffers[s.readIdx])]
    else []
  }

  /** What the writer has put into its current arena; a new arena counts as empty before it is cleared. */
  function Current(s: Pipe): seq<Byte>
    requires InBounds(s)
  {
    if s.wpc.WAdd? || s.wpc.WSignal? || s.wpc.WClear? then [] else Contents(s.buffers[s.writeIdx])
  }

  /** The reader has loaded its arena; once the call returned, only three arenas keep it intact. */
  predicate Snapshot(s: Pipe) {
    s.rpc.RStore? || s.rpc.RSub? || s.rpc.RSignal? || (s.rpc.RHolding? && |s.buffers| >= 3)
  }

  ghost predicate Data(s: Pipe)
    requires InBounds(s)
  {
    && s.pushed == Flatten(s.taken + Slot(s)) + Current(s)
    && (Snapshot(s) ==> |s.taken| > 0 && s.taken[|s.taken| - 1] == Contents(s.buffers[s.rpc.buf]))
  }

  lemma DataOfPublish(s: Pipe)
    requires Control(s) && Data(s) && s.wpc.WStore?
    ensures Data(StepWriter(s))
  {
    var r := StepWriter(s);
    assert Slot(s) == [] && Slot(r) == [Current(s)] && Current(r) == [];
    FlattenSnoc(s.taken, Current(s));
    assert s.taken + [] == s.taken;
  }

  /** The writer's arena is neither the snapshot of the reader nor the published one. */
  lemma WriterArenaIsFree(s: Pipe)
    requires Control(s)
    ensures Snapshot(s) && !s.wpc.WStore? ==> s.writeIdx != s.rpc.buf
    ensures Slot(s) != [] ==> s.writeIdx != s.readIdx
  {
  }

  /** A step that at most appends `data` to the current batch keeps the data invariant. */
  lemma DataFrame(s: Pipe, r: Pipe, data: seq<Byte>)
    requires InBounds(s) && InBounds(r) && Data(s)
    requires r.pushed == s.pushed + data && r.taken == s.taken
    requires Slot(r) == Slot(s) && Current(r) == Current(s) + data
    requires Snapshot(r) ==>
               Snapshot(s) && r.rpc.buf == s.rpc.buf &&
               Contents(r.buffers[r.rpc.buf]) == Contents(s.buffers[s.rpc.buf])
    ensures Data(r)
  {
  }

  lemma WriterKeepsSlot(s: Pipe)
    requires Control(s) && !s.wpc.WStore?
    ensures Slot(StepWriter(s)) == Slot(s)
  {
    WriterArenaIsFree(s);
  }

  lemma WriterKeepsCurrent(s: Pipe)
    requires Control(s) && !s.wpc.WStore?
    ensures Current(StepWriter(s)) == Current(s)
  {
  }

  lemma WriterKeepsSnapshot(s: Pipe)
    requires Control(s) && Snapshot(s) && !s.wpc.WStore?
    ensures StepWriter(s).rpc == s.rpc && StepWriter(s).buffers[s.rpc.buf] == s.buffers[s.rpc.buf]
  {
    WriterArenaIsFree(s);
  }

  lemma DataOfWriter(s: Pipe)
    requires Control(s) && Data(s)
    ensures Data(StepWriter(s))
  {
    if s.wpc.WStore? {
      DataOfPublish(s);
    } else {
      WriterKeepsSlot(s);
      WriterKeepsCurrent(s);
      if Snapshot(s) {
        WriterKeepsSnapshot(s);
      }
      WriterKeepsHistory(s);
      DataFrame(s, StepWriter(s), []);
    }
  }

  lemma WriterKeepsHistory(s: Pipe)
    requires InBounds(s)
    ensures var r := StepWriter(s);
            r.pushed == s.pushed && r.taken == s.taken && r.rpc == s.rpc
  {
  }

  lemma DataOfAcquire(s: Pipe)
    requires Control(s) && Data(s) && s.rpc.RLoad?
    ensures Data(StepReader(s))
  {
    var r := StepReader(s);
    assert r.taken + Slot(r) == s.taken + Slot(s);
  }

  lemma DataOfReader(s: Pipe)
    requires Control(s) && Data(s)
    ensures Data(StepReader(s))
  {
    if s.rpc.RLoad? {
      DataOfAcquire(s);
    } else {
      DataFrame(s, StepReader(s), []);
    }
  }

  lemma DataOfPush(s: Pipe, data: seq<Byte>)
    requires Control(s) && Data(s)
    ensures Data(Apply(s, Push(data)))
  {
    WriterArenaIsFree(s);
    var r := Apply(s, Push(data));
    if r != s {
      DataFrame(s, r, data);
    }
  }

  lemma DataOfCall(s: Pipe, step: Step)
    requires Control(s) && Data(s)
    requires !step.Push? && !step.WriterStep? && !step.ReaderStep?
    ensures Data(Apply(s, step))
  {
    DataFrame(s, Apply(s, step), []);
  }

  lemma DataOfStep(s: Pipe, step: Step)
    requires Control(s) && Data(s)
    ensures Data(Apply(s, step))
  {
    match step
    case WriterStep => DataOfWriter(s);
    case ReaderStep => DataOfReader(s);
    case Push(data) => DataOfPush(s, data);
    case _ => DataOfCall(s, step);
  }

  lemma {:induction false} RunKeepsInvariants(mems: seq<seq<Byte>>, steps: seq<Step>)
    requires |mems| >= 2
    ensures Control(Execute(Create(mems), steps)) && Data(Execute(Create(mems), steps))
    decreases |steps|
  {
    if steps != [] {
      var before := Execute(Create(mems), steps[..|steps| - 1]);
      RunKeepsInvariants(mems, steps[..|steps| - 1]);
      ControlOfStep(before, steps[|steps| - 1]);
      DataOfStep(before, steps[|steps| - 1]);
    }
  }

  // ---- Main results over every run ----

  lemma ExecuteKeepsCount(s: Pipe, steps: seq<Step>)
    requires InBounds(s)
    ensures |Execute(s, steps).buffers| == |s.buffers|
  {
  }

  lemma ExecuteSnoc(s: Pipe, steps: seq<Step>, step: Step)
    requires InBounds(s)
    ensures Execute(s, steps + [step]) == Apply(Execute(s, steps), step)
  {
    assert (steps + [step])[..|steps|] == steps;
  }

  /** Some run of a pipe with `bufCount` arenas ends in `s`. */
  ghost predicate Reachable(bufCount: nat, s: Pipe) {
    exists mems: seq<seq<Byte>>, steps: seq<Step> ::
      mems != [] && |mems| == bufCount && Execute(Create(mems), steps) == s
  }

  lemma ReachableIsSafe(bufCount: nat, s: Pipe)
    requires bufCount >= 2 && Reachable(bufCount, s)
    ensures Control(s) && Data(s) && |s.buffers| == bufCount
  {
    var mems: seq<seq<Byte>>, steps: seq<Step> :|
      mems != [] && |mems| == bufCount && Execute(Create(mems), steps) == s;
    RunKeepsInvariants(mems, steps);
    ExecuteKeepsCount(Create(mems), steps);
  }

  lemma ReachableStep(bufCount: nat, s: Pipe, step: Step)
    requires Reachable(bufCount, s) && InBounds(s)
    ensures Reachable(bufCount, Apply(s, step))
  {
    var mems: seq<seq<Byte>>, steps: seq<Step> :|
      mems != [] && |mems| == bufCount && Execute(Create(mems), steps) == s;
    ExecuteSnoc(Create(mems), steps, step);
    assert Execute(Create(mems), steps + [step]) == Apply(s, step);
  }

  lemma ReachableCreate(mems: seq<seq<Byte>>)
    requires mems != []
    ensures Reachable(|mems|, Create(mems))
  {
    assert Execute(Create(mems), []) == Create(mems);
  }

  predicate WriterBlocked(s: Pipe) { s.wpc.WDrain? && s.writeFd == 0 }
  predicate ReaderBlocked(s: Pipe) { s.rpc.RDrain? && s.readFd == 0 }

  /** From the writer's first acquisition on exactly one token circulates, and acquisitions alternate. */
  lemma OneToken(bufCount: nat, s: Pipe)
    requires bufCount >= 2 && Reachable(bufCount, s)
    ensures s.acquisitions != [] ==> Tokens(s) == 1
    ensures Alternating(s.acquisitions)
    ensures !(WriterBlocked(s) && ReaderBlocked(s))
  {
    ReachableIsSafe(bufCount, s);
  }

  lemma CounterAndIndices(s: Pipe)
    requires Control(s)
    ensures s.readIdx < |s.buffers| && s.full <= 1 && (s.rpc.RSub? ==> s.full > 0)
    ensures s.wpc.WOutside? && (s.rpc.ROutside? || s.rpc.RHolding?) ==>
              s.writeIdx == if s.full == 1 then Advance(s.readIdx, |s.buffers|) else s.readIdx
  {
    hide WriterPcFits, ReaderPcFits, Advance, Alternating;
  }

  lemma Distances(n: nat, i: int)
    requires n >= 2 && 0 <= i < n
    ensures (Advance(i, n) - i) % n == 1 && (i - i) % n == 0
  {
    if i + 1 == n {
      DivisionIsUnique(-i, -1, 1, n);
    } else {
      DivisionIsUnique(1, 0, 1, n);
    }
    DivisionIsUnique(0, 0, 0, n);
  }

  /** Outside calls FullBuffersCount is the distance between the indices, and it never underflows. */
  lemma CounterIsDistance(bufCount: nat, s: Pipe)
    requires bufCount >= 2 && Reachable(bufCount, s)
    ensures s.full <= 1
    ensures s.rpc.RSub? ==> s.full > 0
    ensures s.wpc.WOutside? && (s.rpc.ROutside? || s.rpc.RHolding?) ==>
              s.full == (s.writeIdx - s.readIdx) % bufCount
  {
    hide *;
    ReachableIsSafe(bufCount, s);
    CounterAndIndices(s);
    Distances(bufCount, s.readIdx);
  }

  /** Nothing is lost, duplicated or reordered between the writer's pushes and the reader's arenas. */
  lemma FifoOverEveryRun(bufCount: nat, s: Pipe)
    requires bufCount >= 2 && Reachable(bufCount, s)
    ensures InBounds(s) && s.pushed == Flatten(s.taken) + Flatten(Slot(s)) + Current(s)
  {
    ReachableIsSafe(bufCount, s);
    FlattenConcat(s.taken, Slot(s));
  }

  /** The writer is clearing the arena the reader is using, or may fill it with its next push. */
  predicate Collides(s: Pipe) {
    && s.rpc.RHolding?
    && ((s.wpc.WClear? && s.wpc.next == s.rpc.buf) || (s.wpc.WOutside? && s.writeIdx == s.rpc.buf))
  }

  /** With three or more arenas the reader has the arena to itself, and its contents stay as acquired. */
  lemma ExclusiveUse(bufCount: nat, s: Pipe)
    requires bufCount >= 3 && Reachable(bufCount, s)
    ensures !Collides(s)
    ensures s.rpc.RHolding? ==>
              s.rpc.buf < |s.buffers| && |s.taken| > 0 &&
              s.taken[|s.taken| - 1] == Contents(s.buffers[s.rpc.buf])
  {
    ReachableIsSafe(bufCount, s);
    WriterArenaIsFree(s);
  }

  // ---- The pipe refines a one-place handoff ----

  /** A channel with room for one published batch; `current` is the batch still being filled. */
  datatype Handoff = Handoff(current: seq<Byte>, slot: seq<seq<Byte>>, delivered: seq<seq<Byte>>)

  function Abstraction(s: Pipe): Handoff
    requires InBounds(s)
  {
    Handoff(Current(s), Slot(s), s.taken)
  }

  ghost predicate Append(h: Handoff, h': Handoff) {
    exists data :: h' == Handoff(h.current + data, h.slot, h.delivered)
  }

  predicate Publish(h: Handoff, h': Handoff) {
    h.slot == [] && h' == Handoff([], [h.current], h.delivered)
  }

  predicate Deliver(h: Handoff, h': Handoff) {
    |h.slot| == 1 && h' == Handoff(h.current, [], h.delivered + h.slot)
  }

  /** Every atomic step of the two threads is invisible or one whole step of the handoff. */
  lemma StepRefinesHandoff(s: Pipe, step: Step)
    requires Control(s)
    ensures var h, h' := Abstraction(s), Abstraction(Apply(s, step));
            h' == h || Append(h, h') || Publish(h, h') || Deliver(h, h')
    ensures Publish(Abstraction(s), Abstraction(Apply(s, step))) ==>
              step == WriterStep && s.wpc.WStore?
    ensures Deliver(Abstraction(s), Abstraction(Apply(s, step))) ==>
              step == ReaderStep && s.rpc.RLoad?
  {
    match step
    case Push(data) => PushRefinesAppend(s, data);
    case WriterStep => WriterRefinesHandoff(s);
    case ReaderStep => ReaderRefinesHandoff(s);
    case _ =>
  }

  lemma ReaderRefinesHandoff(s: Pipe)
    requires Control(s)
    ensures var h, h' := Abstraction(s), Abstraction(StepReader(s));
            if s.rpc.RLoad? then Deliver(h, h') else h' == h
    ensures StepReader(s).pushed == s.pushed && StepReader(s).wpc == s.wpc
  {
    assert Current(StepReader(s)) == Current(s);
  }

  lemma PushRefinesAppend(s: Pipe, data: seq<Byte>)
    requires Control(s)
    ensures var h, h' := Abstraction(s), Abstraction(Apply(s, Push(data)));
            (h' == h || Append(h, h')) && h'.slot == h.slot && h'.delivered == h.delivered
  {
    WriterArenaIsFree(s);
    var r := Apply(s, Push(data));
    if r != s {
      assert Current(r) == Current(s) + data;
      assert Slot(r) == Slot(s);
    }
  }

  lemma WriterRefinesHandoff(s: Pipe)
    requires Control(s)
    ensures var h, h' := Abstraction(s), Abstraction(StepWriter(s));
            if s.wpc.WStore? then Publish(h, h') else h' == h
  {
    if s.wpc.WStore? {
      assert Slot(s) == [] && Slot(StepWriter(s)) == [Current(s)] && Current(StepWriter(s)) == [];
    } else {
      WriterKeepsSlot(s);
      WriterKeepsCurrent(s);
      WriterKeepsHistory(s);
    }
  }

  // ---- What the two producers rely on ----

  predicate SameCapacity(buffers: seq<Arena>, cap: nat) {
    forall i :: 0 <= i < |buffers| ==> |buffers[i].mem| == cap
  }

  lemma PipeKeepsCapacity(s: Pipe, step: Step, cap: nat)
    requires InBounds(s) && SameCapacity(s.buffers, cap)
    ensures SameCapacity(Apply(s, step).buffers, cap)
  {
  }

  /** A writer call returns only over an empty arena. */
  lemma WriterCallEnds(s: Pipe)
    requires Control(s)
    ensures !s.wpc.WOutside? && StepWriter(s).wpc.WOutside? ==>
              Current(StepWriter(s)) == [] && (s.wpc.WClear? || s.wpc.WFlushTest?)
    ensures !s.wpc.WOutside? && !s.wpc.WFlushLoad? ==>
              !StepWriter(s).wpc.WFlushLoad? && !StepWriter(s).wpc.WFlushTest?
  {
  }

  /** A push that fits only extends the batch being filled. */
  lemma PushExtends(s: Pipe, data: seq<Byte>)
    requires Control(s) && s.wpc.WOutside? && |Current(s)| + |data| <= |s.buffers[s.writeIdx].mem|
    ensures var r := Apply(s, Push(data));
            && Current(r) == Current(s) + data && Slot(r) == Slot(s) && r.taken == s.taken
            && r.wpc == s.wpc && r.rpc == s.rpc && r.pushed == s.pushed + data
  {
    WriterArenaIsFree(s);
    hide TokenControl;
  }

  // ---- Where the bounds on the number of arenas come from ----

  /** The states an uncontended SdPipeGetWriteBuffer passes through, up to its clearing of the next arena. */
  lemma WriterCallStates(s: Pipe) returns (run: seq<Pipe>)
    requires InBounds(s) && s.wpc.WOutside? && s.writeFd > 0 && s.full == 0
    ensures |run| == 6 && run[0] == Apply(s, CallGetWriteBuffer)
    ensures forall i :: 0 <= i < 6 ==> InBounds(run[i]) && !run[i].wpc.WOutside?
    ensures forall i :: 0 <= i < 5 ==> run[i + 1] == StepWriter(run[i])
    ensures var next := Advance(s.writeIdx, |s.buffers|);
            run[5] == s.(writeFd := 0, writeIdx := next, full := 1, readFd := s.readFd + 1,
                         wpc := WClear(next), acquisitions := s.acquisitions + [Writer])
  {
    var next := Advance(s.writeIdx, |s.buffers|);
    var r0 := s.(wpc := WLoad);
    var r1 := s.(wpc := WDrain(next));
    var r2 := s.(writeFd := 0, wpc := WStore(next), acquisitions := s.acquisitions + [Writer]);
    var r3 := r2.(writeIdx := next, wpc := WAdd(next));
    var r4 := r3.(full := 1, wpc := WSignal(next));
    var r5 := r4.(readFd := s.readFd + 1, wpc := WClear(next));
    run := [r0, r1, r2, r3, r4, r5];
  }

  /** The states of an uncontended SdPipeGetReadBuffer. */
  lemma ReaderCallStates(s: Pipe) returns (run: seq<Pipe>)
    requires InBounds(s) && s.rpc.ROutside? && s.readFd > 0 && s.full == 1
    ensures |run| == 6 && run[0] == Apply(s, CallGetReadBuffer)
    ensures forall i :: 0 <= i < 6 ==> InBounds(run[i]) && (run[i].rpc.RHolding? <==> i == 5)
    ensures forall i :: 0 <= i < 5 ==> run[i + 1] == StepReader(run[i])
    ensures run[5] == s.(readFd := 0, readIdx := Advance(s.readIdx, |s.buffers|), full := 0,
                         writeFd := s.writeFd + 1, rpc := RHolding(s.readIdx),
                         taken := s.taken + [Contents(s.buffers[s.readIdx])],
                         acquisitions := s.acquisitions + [Reader])
  {
    var i := s.readIdx;
    var r0 := s.(rpc := RDrain);
    var r1 := s.(readFd := 0, rpc := RLoad, acquisitions := s.acquisitions + [Reader]);
    var r2 := r1.(rpc := RStore(i), taken := s.taken + [Contents(s.buffers[i])]);
    var r3 := r2.(readIdx := Advance(i, |s.buffers|), rpc := RSub(i));
    var r4 := r3.(full := 0, rpc := RSignal(i));
    var r5 := r4.(writeFd := s.writeFd + 1, rpc := RHolding(i));
    run := [r0, r1, r2, r3, r4, r5];
  }

  lemma WriterRunsAlone(n: nat, s: Pipe) returns (r: Pipe)
    requires Reachable(n, s) && InBounds(s) && s.wpc.WOutside? && s.writeFd > 0 && s.full == 0
    ensures Reachable(n, r) && InBounds(r)
    ensures var next := Advance(s.writeIdx, |s.buffers|);
            r == s.(writeFd := 0, writeIdx := next, full := 1, readFd := s.readFd + 1,
                    wpc := WClear(next), acquisitions := s.acquisitions + [Writer])
  {
    hide Reachable;
    var run := WriterCallStates(s);
    hide Contents, Advance, StepWriter;
    ReachableStep(n, s, CallGetWriteBuffer);
    for i := 0 to 5
      invariant Reachable(n, run[i])
    {
      ReachableStep(n, run[i], WriterStep);
      assert Apply(run[i], WriterStep) == StepWriter(run[i]);
    }
    r := run[5];
  }

  lemma ReaderRunsAlone(n: nat, s: Pipe) returns (r: Pipe)
    requires Reachable(n, s) && InBounds(s) && s.rpc.ROutside? && s.readFd > 0 && s.full == 1
    ensures Reachable(n, r) && InBounds(r)
    ensures r == s.(readFd := 0, readIdx := Advance(s.readIdx, |s.buffers|), full := 0,
                    writeFd := s.writeFd + 1, rpc := RHolding(s.readIdx),
                    taken := s.taken + [Contents(s.buffers[s.readIdx])],
                    acquisitions := s.acquisitions + [Reader])
  {
    hide Reachable;
    var run := ReaderCallStates(s);
    hide Contents, Advance, StepReader;
    ReachableStep(n, s, CallGetReadBuffer);
    for i := 0 to 5
      invariant Reachable(n, run[i])
    {
      ReachableStep(n, run[i], ReaderStep);
      assert Apply(run[i], ReaderStep) == StepReader(run[i]);
    }
    r := run[5];
  }

  /** With two arenas the writer can be clearing the arena the reader has just been given. */
  lemma TwoArenasCollide(mems: seq<seq<Byte>>) returns (s: Pipe)
    requires |mems| == 2
    ensures Reachable(2, s) && Collides(s)
  {
    ReachableCreate(mems);
    s := WriterRunsAlone(2, Create(mems));
    ReachableStep(2, s, WriterStep);
    s := Apply(s, WriterStep);
    s := ReaderRunsAlone(2, s);
    s := WriterRunsAlone(2, s);
  }

  /** Exclusive use of the acquired arena in every run is exactly having three or more arenas. */
  lemma ExclusiveExactlyFromThree(bufCount: nat)
    requires bufCount >= 2
    ensures bufCount >= 3 <==> forall s | Reachable(bufCount, s) :: !Collides(s)
  {
    if bufCount >= 3 {
      forall s | Reachable(bufCount, s)
        ensures !Collides(s)
      {
        ExclusiveUse(bufCount, s);
      }
    } else {
      var s := TwoArenasCollide([[], []]);
    }
  }

  /** A pipe of one arena starts without a credit, so its first two calls already wait for each other. */
  lemma OneArenaDeadlocks(mems: seq<seq<Byte>>) returns (s: Pipe)
    requires |mems| == 1
    ensures Reachable(1, s) && WriterBlocked(s) && ReaderBlocked(s)
  {
    ReachableCreate(mems);
    s := Create(mems);
    ReachableStep(1, s, CallGetWriteBuffer);
    s := s.(wpc := WLoad);
    ReachableStep(1, s, WriterStep);
    s := s.(wpc := WDrain(0));
    ReachableStep(1, s, CallGetReadBuffer);
    s := s.(rpc := RDrain);
  }

  /** The two threads can never both be blocked exactly when the pipe has at least two arenas. */
  lemma DeadlockFreeExactlyFromTwo(bufCount: nat)
    requires bufCount >= 1
    ensures bufCount >= 2 <==>
            forall s | Reachable(bufCount, s) :: !(WriterBlocked(s) && ReaderBlocked(s))
  {
    if bufCount >= 2 {
      forall s | Reachable(bufCount, s)
        ensures !(WriterBlocked(s) && ReaderBlocked(s))
      {
        OneToken(bufCount, s);
      }
    } else {
      var s := OneArenaDeadlocks([[]]);
    }
  }
}
