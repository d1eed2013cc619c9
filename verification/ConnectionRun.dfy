/**
 What a run of src/DataHandlers/ModbusWithPostgres does for the packets that arrive, read off its actions alone:
 which attempts to receive were made, what they yielded, and that every run can be finished with all of it
 inserted, in batches as full as an arena allows.
 */
module ConnectionRun {
  import opened Sequences
  import opened Bytes
  import opened EndToEnd
  import SensorDataPipe

  // ---- What arrives is what is accepted ----

  /** What the attempts to receive yielded that were made while MbRun was waiting for a frame, in order. */
  ghost function Attempts(s: System, actions: seq<Action>): seq<Received>
    requires WellFormed(s)
    decreases |actions|
  {
    if actions == [] then []
    else
      var before, last := actions[..|actions| - 1], actions[|actions| - 1];
      Attempts(s, before) + if last.MbReceive? && Execute(s, before).mb.MbReceiving? then [last.event] else []
  }

  /** A failure, or a packet that is not of the pipe's size, ends the connection. */
  ghost predicate Ends(event: Received, packetSize: nat) {
    match event
    case Timeout => false
    case Failure => true
    case Packet(data) => |data| != packetSize
  }

  /** The payloads that were received, up to the end of the connection; a timeout contributes nothing. */
  ghost function Payloads(events: seq<Received>, packetSize: nat): seq<seq<Byte>> {
    if events == [] || Ends(events[0], packetSize) then []
    else if events[0].Timeout? then Payloads(events[1..], packetSize)
    else [events[0].data] + Payloads(events[1..], packetSize)
  }

  /** MbRun was told to shut down when it stood at the top of its loop. */
  ghost predicate ToldToStop(s: System, actions: seq<Action>)
    requires WellFormed(s)
  {
    exists i :: 0 <= i < |actions| && actions[i] == MbLoop(true) && Execute(s, actions[..i]).mb.MbTop?
  }

  ghost predicate IsOver(s: System) {
    s.mb.MbFlushing? || s.mb.MbDone?
  }

  /** No attempt was made behind one that ended the connection. */
  ghost predicate OneEnd(events: seq<Received>, packetSize: nat) {
    forall i :: 0 <= i < |events| - 1 ==> !Ends(events[i], packetSize)
  }

  ghost predicate HasEnded(events: seq<Received>, packetSize: nat) {
    events != [] && Ends(events[|events| - 1], packetSize)
  }

  lemma {:induction false} PayloadsSnoc(events: seq<Received>, event: Received, packetSize: nat)
    requires forall i :: 0 <= i < |events| ==> !Ends(events[i], packetSize)
    ensures Payloads(events + [event], packetSize) ==
            Payloads(events, packetSize) + (if event.Packet? && |event.data| == packetSize then [event.data] else [])
  {
    if events == [] {
      assert ([event])[1..] == [];
    } else {
      PayloadsSnoc(events[1..], event, packetSize);
      assert (events + [event])[1..] == events[1..] + [event];
    }
  }

  /** One attempt: a packet of the right size is accepted and the loop goes on, anything else adds nothing. */
  lemma OneAttempt(s: System, event: Received)
    requires WellFormed(s) && s.mb.MbReceiving?
    ensures var r := Act(s, MbReceive(event));
            && r.packetSize == s.packetSize
            && r.accepted == s.accepted + (if event.Packet? && |event.data| == s.packetSize then [event.data] else [])
            && (if Ends(event, s.packetSize) then r.mb.MbFlushing? else r.mb.MbTop?)
  {
  }

  /** Nothing else accepts a packet, and the loop is over for ever once it is. */
  lemma NoAttempt(s: System, a: Action)
    requires WellFormed(s) && !(a.MbReceive? && s.mb.MbReceiving?)
    ensures var r := Act(s, a);
            && r.packetSize == s.packetSize && r.accepted == s.accepted
            && (IsOver(r) <==> IsOver(s) || (a == MbLoop(true) && s.mb.MbTop?))
  {
  }

  ghost predicate TellsTheRun(s: System, actions: seq<Action>)
    requires WellFormed(s)
  {
    var events, r := Attempts(s, actions), Execute(s, actions);
    && r.packetSize == s.packetSize
    && r.accepted == Payloads(events, s.packetSize)
    && OneEnd(events, s.packetSize)
    && (IsOver(r) <==> HasEnded(events, s.packetSize) || ToldToStop(s, actions))
  }

  lemma ToldSnoc(s: System, actions: seq<Action>)
    requires WellFormed(s) && actions != []
    ensures var before, last := actions[..|actions| - 1], actions[|actions| - 1];
            ToldToStop(s, actions) <==>
            ToldToStop(s, before) || (last == MbLoop(true) && Execute(s, before).mb.MbTop?)
  {
    var before := actions[..|actions| - 1];
    hide Execute;
    forall i | 0 <= i < |before|
      ensures actions[..i] == before[..i] && actions[i] == before[i]
    {
    }
    if ToldToStop(s, before) {
      var i :| 0 <= i < |before| && before[i] == MbLoop(true) && Execute(s, before[..i]).mb.MbTop?;
      assert actions[i] == MbLoop(true);
    }
  }

  lemma NoneEnds(events: seq<Received>, event: Received, packetSize: nat)
    requires OneEnd(events, packetSize) && !HasEnded(events, packetSize)
    ensures forall i :: 0 <= i < |events| ==> !Ends(events[i], packetSize)
    ensures OneEnd(events + [event], packetSize)
  {
    hide Ends;
  }

  lemma ExecuteSnoc(s: System, actions: seq<Action>)
    requires WellFormed(s) && actions != []
    ensures Execute(s, actions) == Act(Execute(s, actions[..|actions| - 1]), actions[|actions| - 1])
  {
    hide Act;
  }

  lemma AttemptsSnoc(s: System, actions: seq<Action>)
    requires WellFormed(s) && actions != []
    ensures var before, last := actions[..|actions| - 1], actions[|actions| - 1];
            Attempts(s, actions) ==
            Attempts(s, before) + if last.MbReceive? && Execute(s, before).mb.MbReceiving? then [last.event] else []
  {
    hide Execute;
  }

  lemma EndedSnoc(events: seq<Received>, event: Received, packetSize: nat)
    ensures HasEnded(events + [event], packetSize) <==> Ends(event, packetSize)
  {
    hide Ends;
  }

  lemma TellsIs(s: System, actions: seq<Action>, events: seq<Received>, r: System)
    requires WellFormed(s) && events == Attempts(s, actions) && r == Execute(s, actions)
    ensures TellsTheRun(s, actions) <==>
            && r.packetSize == s.packetSize && r.accepted == Payloads(events, s.packetSize)
            && OneEnd(events, s.packetSize)
            && (IsOver(r) <==> HasEnded(events, s.packetSize) || ToldToStop(s, actions))
  {
    hide Execute, Attempts, Payloads, OneEnd, HasEnded, ToldToStop, IsOver;
  }

  lemma OverIs(s: System)
    ensures IsOver(s) <==> s.mb.MbFlushing? || s.mb.MbDone?
  {
  }

  lemma StepTells(s: System, actions: seq<Action>)
    requires WellFormed(s) && actions != [] && TellsTheRun(s, actions[..|actions| - 1])
    ensures TellsTheRun(s, actions)
  {
    hide *;
    var before, last := actions[..|actions| - 1], actions[|actions| - 1];
    var q, events := Execute(s, before), Attempts(s, before);
    var r := Act(q, last);
    TellsIs(s, before, events, q);
    ToldSnoc(s, actions);
    ExecuteSnoc(s, actions);
    AttemptsSnoc(s, actions);
    OverIs(q);
    OverIs(r);
    if last.MbReceive? && q.mb.MbReceiving? {
      OneAttempt(q, last.event);
      NoneEnds(events, last.event, s.packetSize);
      PayloadsSnoc(events, last.event, s.packetSize);
      EndedSnoc(events, last.event, s.packetSize);
      TellsIs(s, actions, events + [last.event], r);
    } else {
      NoAttempt(q, last);
      NothingAdded(events);
      TellsIs(s, actions, events, r);
    }
  }

  /**
   Over every run from the start, MbRun has accepted exactly the payloads of the packet size that its attempts
   yielded. An attempt that fails or yields another size is the last one, and the loop is over exactly after
   such an attempt or when it was told to stop.
   */
  lemma {:induction false} AcceptedIsWhatArrived(mems: seq<seq<Byte>>, packetSize: nat, actions: seq<Action>)
    requires ValidSetup(mems, packetSize)
    ensures var s := Start(mems, packetSize);
            var events, r := Attempts(s, actions), Execute(s, actions);
            && r.accepted == Payloads(events, packetSize)
            && OneEnd(events, packetSize)
            && (IsOver(r) <==> HasEnded(events, packetSize) || ToldToStop(s, actions))
  {
    TellsEveryRun(mems, packetSize, actions);
    hide Execute, Payloads, Attempts, ToldToStop, OneEnd;
  }

  lemma {:induction false} TellsEveryRun(mems: seq<seq<Byte>>, packetSize: nat, actions: seq<Action>)
    requires ValidSetup(mems, packetSize)
    ensures TellsTheRun(Start(mems, packetSize), actions)
    decreases |actions|
  {
    if actions != [] {
      TellsEveryRun(mems, packetSize, actions[..|actions| - 1]);
      StepTells(Start(mems, packetSize), actions);
    }
  }

  // ---- Batches are as full as an arena allows ----

  /** The arenas that were published, in order, whether the reader has taken them or not. */
  ghost function Published(s: System): seq<seq<Byte>>
    requires WellFormed(s)
  {
    s.pipe.taken + SensorDataPipe.Slot(s.pipe)
  }

  /** No batch is empty, and all of them, or all but the last, are filled to the limit. */
  ghost predicate FullBatches(batches: seq<seq<Byte>>, limit: nat, withLast: bool) {
    && (forall i :: 0 <= i < |batches| ==> 0 < |batches[i]| <= limit)
    && (forall i :: 0 <= i < |batches| - (if withLast then 0 else 1) ==> |batches[i]| == limit)
  }

  /** The last batch may have been published by the flush at the end of the connection. */
  ghost predicate Flushed(s: System) {
    s.mb.MbDone? || (s.mb.MbFlushing? && (s.pipe.wpc.WAdd? || s.pipe.wpc.WSignal? || s.pipe.wpc.WClear?))
  }

  ghost predicate ToPublish(s: System) {
    s.pipe.wpc.WLoad? || s.pipe.wpc.WDrain? || s.pipe.wpc.WStore?
  }

  /** Rotation starts with a full arena, and a flush publishes only an arena that holds something. */
  ghost predicate ReadyToPublish(s: System)
    requires WellFormed(s)
  {
    && (s.mb.MbGetting? && ToPublish(s) ==> |SensorDataPipe.Current(s.pipe)| == s.maxFill)
    && (ToPublish(s) ==> SensorDataPipe.Current(s.pipe) != [])
  }

  ghost predicate Full(s: System)
    requires WellFormed(s)
  {
    ReadyToPublish(s) && FullBatches(Published(s), s.maxFill, !Flushed(s))
  }

  lemma FullSnoc(batches: seq<seq<Byte>>, batch: seq<Byte>, limit: nat, withLast: bool)
    requires FullBatches(batches, limit, true) && 0 < |batch| <= limit && (withLast ==> |batch| == limit)
    ensures FullBatches(batches + [batch], limit, withLast)
  {
  }

  lemma FullWeaken(batches: seq<seq<Byte>>, limit: nat, withLast: bool)
    requires FullBatches(batches, limit, withLast)
    ensures FullBatches(batches, limit, false)
  {
  }

  /** A step that publishes nothing keeps the batches full. */
  lemma FullFrame(s: System, r: System)
    requires WellFormed(s) && WellFormed(r) && Full(s) && r.maxFill == s.maxFill
    requires Published(r) == Published(s) && (Flushed(s) ==> Flushed(r)) && ReadyToPublish(r)
    ensures Full(r)
  {
    if Flushed(r) {
      FullWeaken(Published(s), s.maxFill, !Flushed(s));
    }
    hide Published, Flushed, ReadyToPublish, FullBatches;
  }

  /** The reader's side publishes nothing and does not touch the current batch. */
  lemma PgChangesNoBatch(s: System, cap: nat, a: Action)
    requires Safe(s, cap) && !(a.MbLoop? || a.MbPipe? || a.MbReceive?)
    ensures var r := Act(s, a);
            && WellFormed(s) && Published(r) == Published(s)
            && SensorDataPipe.Current(r.pipe) == SensorDataPipe.Current(s.pipe)
            && r.mb == s.mb && r.pipe.wpc == s.pipe.wpc && r.maxFill == s.maxFill
            && r.accepted == s.accepted && r.packetSize == s.packetSize
  {
    SensorDataPipe.ReaderRefinesHandoff(s.pipe);
    hide SensorDataPipe.Control, SensorDataPipe.Data, Filling, Accounted, Inserted, Limits;
    hide SensorDataPipe.Slot, SensorDataPipe.Current, SensorDataPipe.StepReader;
    if a.PgCall? && s.pg.PgTop? {
      PgCallChangesNoData(s.pipe, SensorDataPipe.CallGetReadBuffer);
    } else if a.PgInterrupt? && s.pg.PgWaiting? && s.pipe.rpc.RDrain? {
      PgCallChangesNoData(s.pipe, SensorDataPipe.ReaderInterrupt);
    }
  }

  lemma FullOfPg(s: System, cap: nat, a: Action)
    requires Safe(s, cap) && Full(s) && !(a.MbLoop? || a.MbPipe? || a.MbReceive?)
    ensures Full(Act(s, a))
  {
    PgChangesNoBatch(s, cap, a);
    FullFrame(s, Act(s, a));
    hide Safe, Published, FullBatches, Act;
  }

  /** Rotation is called over an arena filled to the limit, a flush over any. */
  lemma FullOfCall(s: System, cap: nat, call: SensorDataPipe.Step)
    requires Safe(s, cap) && Full(s) && (s.mb.MbTop? || s.mb.MbReceiving?)
    requires call.CallFlush? || (call.CallGetWriteBuffer? && Position(s) == s.maxFill)
    ensures WellFormed(s)
    ensures Full(s.(mb := if call.CallFlush? then MbFlushing else MbGetting,
                    pipe := SensorDataPipe.Apply(s.pipe, call)))
  {
    var r := s.(mb := if call.CallFlush? then MbFlushing else MbGetting, pipe := SensorDataPipe.Apply(s.pipe, call));
    FullFrame(s, r);
    hide SensorDataPipe.Data, Filling, Accounted, Inserted, FullBatches;
  }

  /** Outside a call of the writer nothing is about to be published. */
  lemma ReadyOutside(s: System)
    requires WellFormed(s) && s.pipe.wpc.WOutside? && !s.mb.MbFlushing?
    ensures ReadyToPublish(s)
  {
  }

  lemma FullOfMove(s: System, cap: nat, r: System)
    requires Safe(s, cap) && Full(s) && (s.mb.MbTop? || s.mb.MbReceiving?) && WellFormed(r)
    requires r.mb.MbTop? || r.mb.MbReceiving?
    requires r.maxFill == s.maxFill && r.pipe.wpc == s.pipe.wpc && Published(r) == Published(s)
    ensures Full(r)
  {
    ReadyOutside(r);
    FullFrame(s, r);
    hide SensorDataPipe.Control, SensorDataPipe.Data, Filling, Accounted, Inserted, FullBatches, Published;
  }

  lemma FullOfReceive(s: System, cap: nat, event: Received)
    requires Safe(s, cap) && Full(s)
    ensures Full(Act(s, MbReceive(event)))
  {
    if s.mb.MbReceiving? {
      if event.Packet? && |event.data| == s.packetSize {
        PushFits(s, cap, event.data);
        FullOfMove(s, cap, Act(s, MbReceive(event)));
      } else if event.Timeout? {
        FullOfMove(s, cap, s.(mb := MbTop));
      } else {
        FullOfCall(s, cap, SensorDataPipe.CallFlush);
      }
    }
    hide Safe, Full, SensorDataPipe.Apply, SensorDataPipe.Slot, SensorDataPipe.Current;
  }

  lemma FullOfLoop(s: System, cap: nat, shutdown: bool)
    requires Safe(s, cap) && Full(s)
    ensures Full(Act(s, MbLoop(shutdown)))
  {
    if s.mb.MbTop? {
      if shutdown {
        FullOfCall(s, cap, SensorDataPipe.CallFlush);
      } else if Position(s) == s.maxFill {
        FullOfCall(s, cap, SensorDataPipe.CallGetWriteBuffer);
      } else {
        FullOfMove(s, cap, s.(mb := MbReceiving));
      }
    }
    hide Safe, Full, SensorDataPipe.Apply;
  }

  /** The one step that publishes puts the current batch behind the others. */
  lemma FullOfStore(s: System, cap: nat)
    requires Safe(s, cap) && Full(s) && s.pipe.wpc.WStore?
    ensures Full(Act(s, MbPipe))
  {
    var r := Act(s, MbPipe);
    var batch := SensorDataPipe.Current(s.pipe);
    SensorDataPipe.WriterRefinesHandoff(s.pipe);
    SensorDataPipe.WriterKeepsHistory(s.pipe);
    FullSnoc(Published(s), batch, s.maxFill, s.mb.MbGetting?);
    assert Published(s) + [batch] == Published(r);
    hide SensorDataPipe.Control, SensorDataPipe.Data, Accounted, Inserted, FullBatches;
    hide SensorDataPipe.Slot, SensorDataPipe.Current;
  }

  lemma ReadyAfterTest(s: System, cap: nat)
    requires Safe(s, cap) && s.pipe.wpc.WFlushTest? && SensorDataPipe.StepWriter(s.pipe).wpc.WLoad?
    ensures SensorDataPipe.Current(s.pipe) != []
  {
    hide SensorDataPipe.Data, Accounted, Inserted, Filling, Limits;
  }

  lemma HandoffStays(s: SensorDataPipe.Pipe)
    requires SensorDataPipe.Control(s) && !s.wpc.WStore?
    ensures var r := SensorDataPipe.StepWriter(s);
            && r.taken == s.taken && SensorDataPipe.Slot(r) == SensorDataPipe.Slot(s)
            && SensorDataPipe.Current(r) == SensorDataPipe.Current(s)
  {
    SensorDataPipe.WriterRefinesHandoff(s);
    hide SensorDataPipe.Control, SensorDataPipe.StepWriter, SensorDataPipe.Slot, SensorDataPipe.Current;
  }

  lemma MbPipeMovesPipe(s: System)
    requires WellFormed(s) && (s.mb.MbGetting? || s.mb.MbFlushing?)
    ensures var r := Act(s, MbPipe);
            r.pipe == SensorDataPipe.StepWriter(s.pipe) && r.maxFill == s.maxFill
  {
    hide SensorDataPipe.StepWriter;
  }

  /** A call comes to the point of publication only through a test that found something to flush. */
  lemma OnlyTestMakesReady(s: SensorDataPipe.Pipe)
    requires SensorDataPipe.InBounds(s) && !s.wpc.WOutside?
    ensures var r := SensorDataPipe.StepWriter(s);
            (r.wpc.WLoad? || r.wpc.WDrain? || r.wpc.WStore?) && !(s.wpc.WLoad? || s.wpc.WDrain? || s.wpc.WStore?) ==>
              s.wpc.WFlushTest? && r.wpc.WLoad?
  {
  }

  lemma SafeParts(s: System, cap: nat)
    requires Safe(s, cap)
    ensures WellFormed(s) && SensorDataPipe.Control(s.pipe) && SensorDataPipe.InBounds(s.pipe)
    ensures s.mb.MbGetting? || s.mb.MbFlushing? ==> !s.pipe.wpc.WOutside?
  {
    hide SensorDataPipe.Control, SensorDataPipe.Data, Accounted, Inserted, Limits, Filling;
  }

  lemma PublishedIs(s: System)
    requires WellFormed(s)
    ensures Published(s) == s.pipe.taken + SensorDataPipe.Slot(s.pipe)
    ensures ToPublish(s) <==> s.pipe.wpc.WLoad? || s.pipe.wpc.WDrain? || s.pipe.wpc.WStore?
  {
    hide SensorDataPipe.Slot;
  }

  /** A writer step that publishes nothing leaves every batch, and what it makes ready holds something. */
  lemma WriterPublishesNothing(s: System, cap: nat)
    requires Safe(s, cap) && !s.pipe.wpc.WStore? && (s.mb.MbGetting? || s.mb.MbFlushing?)
    ensures var r := Act(s, MbPipe);
            && WellFormed(s) && Published(r) == Published(s) && r.maxFill == s.maxFill
            && SensorDataPipe.Current(r.pipe) == SensorDataPipe.Current(s.pipe)
            && (ToPublish(r) && !ToPublish(s) ==> SensorDataPipe.Current(s.pipe) != [])
  {
    hide *;
    SafeParts(s, cap);
    HandoffStays(s.pipe);
    MbPipeMovesPipe(s);
    OnlyTestMakesReady(s.pipe);
    PublishedIs(s);
    PublishedIs(Act(s, MbPipe));
    if s.pipe.wpc.WFlushTest? && SensorDataPipe.StepWriter(s.pipe).wpc.WLoad? {
      ReadyAfterTest(s, cap);
    }
  }

  /** How the place of the writer moves when it publishes nothing. */
  lemma WriterMoves(s: System, cap: nat)
    requires Safe(s, cap) && !s.pipe.wpc.WStore? && (s.mb.MbGetting? || s.mb.MbFlushing?)
    ensures var r := Act(s, MbPipe);
            && (Flushed(s) ==> Flushed(r))
            && (r.mb.MbGetting? ==> s.mb.MbGetting? && (ToPublish(r) ==> ToPublish(s)))
  {
    hide SensorDataPipe.Control, SensorDataPipe.Data, Accounted, Inserted, Limits, Filling;
  }

  lemma FullIsReady(s: System)
    requires WellFormed(s) && Full(s)
    ensures ReadyToPublish(s)
  {
    hide ReadyToPublish, FullBatches;
  }

  lemma FullOfWriter(s: System, cap: nat)
    requires Safe(s, cap) && Full(s) && !s.pipe.wpc.WStore?
    ensures Full(Act(s, MbPipe))
  {
    if s.mb.MbGetting? || s.mb.MbFlushing? {
      var r := Act(s, MbPipe);
      WriterPublishesNothing(s, cap);
      WriterMoves(s, cap);
      FullIsReady(s);
      hide *;
      ReadyStays(s, r);
      FullFrame(s, r);
    }
    hide Safe, Full;
  }

  lemma ReadyStays(s: System, r: System)
    requires WellFormed(s) && WellFormed(r) && ReadyToPublish(s) && r.maxFill == s.maxFill
    requires SensorDataPipe.Current(r.pipe) == SensorDataPipe.Current(s.pipe)
    requires ToPublish(r) && !ToPublish(s) ==> SensorDataPipe.Current(s.pipe) != []
    requires r.mb.MbGetting? ==> s.mb.MbGetting? && (ToPublish(r) ==> ToPublish(s))
    ensures ReadyToPublish(r)
  {
    hide ToPublish, WellFormed;
  }

  lemma FullOfAct(s: System, cap: nat, a: Action)
    requires Safe(s, cap) && Full(s)
    ensures Full(Act(s, a))
  {
    hide *;
    match a
    case MbLoop(shutdown) => FullOfLoop(s, cap, shutdown);
    case MbReceive(event) => FullOfReceive(s, cap, event);
    case MbPipe =>
      if s.pipe.wpc.WStore? {
        FullOfStore(s, cap);
      } else {
        FullOfWriter(s, cap);
      }
    case _ => FullOfPg(s, cap, a);
  }

  lemma StartIsFull(mems: seq<seq<Byte>>, packetSize: nat)
    requires ValidSetup(mems, packetSize)
    ensures Full(Start(mems, packetSize))
  {
    hide MaxFill;
  }

  lemma {:induction false} RunIsFull(mems: seq<seq<Byte>>, packetSize: nat, actions: seq<Action>)
    requires ValidSetup(mems, packetSize) && |mems| >= 3
    ensures Full(Execute(Start(mems, packetSize), actions))
    ensures Execute(Start(mems, packetSize), actions).maxFill == MaxFill(packetSize, |mems[0]|)
    decreases |actions|
  {
    hide Full, Safe, MaxFill, Act;
    if actions == [] {
      StartIsFull(mems, packetSize);
    } else {
      var before := actions[..|actions| - 1];
      RunIsFull(mems, packetSize, before);
      RunIsSafe(mems, packetSize, before);
      FullOfAct(Execute(Start(mems, packetSize), before), |mems[0]|, actions[|actions| - 1]);
      LimitStays(Execute(Start(mems, packetSize), before), actions[|actions| - 1]);
    }
  }

  lemma LimitStays(s: System, a: Action)
    requires WellFormed(s)
    ensures Act(s, a).maxFill == s.maxFill
  {
    hide SensorDataPipe.Apply, Position;
  }

  lemma ReachableIsFull(bufCount: nat, cap: nat, packetSize: nat, s: System)
    requires bufCount >= 3 && Reachable(bufCount, cap, packetSize, s)
    ensures WellFormed(s) && Full(s) && 0 < packetSize <= cap && s.maxFill == MaxFill(packetSize, cap)
  {
    var mems: seq<seq<Byte>>, actions: seq<Action> :|
      ValidSetup(mems, packetSize) && |mems| == bufCount && |mems[0]| == cap &&
      Execute(Start(mems, packetSize), actions) == s;
    RunIsFull(mems, packetSize, actions);
    hide Full, MaxFill, Execute;
  }

  /** The fill limit is the largest multiple of the packet size that fits into an arena. */
  lemma LimitIsLargest(cap: nat, packetSize: nat)
    requires 0 < packetSize <= cap
    ensures var limit := MaxFill(packetSize, cap);
            limit % packetSize == 0 && limit <= cap < limit + packetSize
  {
    LimitFits(cap, packetSize);
  }

  lemma InsertedArePublished(s: System, cap: nat)
    requires Safe(s, cap)
    ensures WellFormed(s) && |s.inserted| <= |Published(s)| && s.inserted == Published(s)[..|s.inserted|]
    ensures SensorDataPipe.Slot(s.pipe) == [] && !Outstanding(s) ==> s.inserted == Published(s)
  {
    hide SensorDataPipe.Control, SensorDataPipe.Data, SensorDataPipe.Slot, Filling, Accounted, Limits, InStep;
  }

  /**
   What PgInsertData is given, call by call: whole packets, never none, and as many as an arena can hold in
   every call but the last of a connection that is over.
   */
  lemma BatchesAreFull(bufCount: nat, cap: nat, packetSize: nat, s: System)
    requires bufCount >= 3 && packetSize > 0 && Reachable(bufCount, cap, packetSize, s)
    ensures forall i :: 0 <= i < |s.inserted| ==> 0 < |s.inserted[i]| <= cap && |s.inserted[i]| % packetSize == 0
    ensures forall i :: 0 <= i < |s.inserted| && (i < |s.inserted| - 1 || !IsOver(s)) ==>
              cap - packetSize < |s.inserted[i]|
  {
    hide *;
    ReachableIsSafe(bufCount, cap, packetSize, s);
    ReachableIsFull(bufCount, cap, packetSize, s);
    InsertedArePublished(s, cap);
    LimitIsLargest(cap, packetSize);
    TakenIsInsertedAndHeld(s, cap);
    BatchSizes(s, cap);
  }

  lemma BatchSizes(s: System, cap: nat)
    requires WellFormed(s) && Full(s) && s.maxFill <= cap < s.maxFill + s.packetSize
    requires |s.inserted| <= |Published(s)| && s.inserted == Published(s)[..|s.inserted|]
    requires Batches(s.inserted, s.packetSize)
    ensures forall i :: 0 <= i < |s.inserted| ==> 0 < |s.inserted[i]| <= cap && |s.inserted[i]| % s.packetSize == 0
    ensures forall i :: 0 <= i < |s.inserted| && (i < |s.inserted| - 1 || !IsOver(s)) ==>
              cap - s.packetSize < |s.inserted[i]|
  {
    hide Published, ReadyToPublish;
  }

  // ---- Every run can be finished ----

  ghost predicate Reaches(s: System, r: System)
    requires WellFormed(s)
  {
    exists actions :: Execute(s, actions) == r
  }

  lemma {:induction false} ExecuteConcat(s: System, a: seq<Action>, b: seq<Action>)
    requires WellFormed(s)
    ensures Execute(s, a + b) == Execute(Execute(s, a), b)
    decreases |b|
  {
    if b == [] {
      assert a + b == a;
    } else {
      ExecuteConcat(s, a, b[..|b| - 1]);
      assert (a + b)[..|a + b| - 1] == a + b[..|b| - 1];
      ExecuteSnoc(s, a + b);
      ExecuteSnoc(Execute(s, a), b);
    }
    hide Act;
  }

  lemma ReachesItself(s: System)
    requires WellFormed(s)
    ensures Reaches(s, s)
  {
    assert Execute(s, []) == s;
  }

  lemma ReachesAct(s: System, a: Action, r: System)
    requires WellFormed(s) && Reaches(Act(s, a), r)
    ensures Reaches(s, r)
  {
    var actions :| Execute(Act(s, a), actions) == r;
    ExecuteConcat(s, [a], actions);
    assert Execute(s, [a]) == Act(s, a) by {
      assert [a][..0] == [];
      ExecuteSnoc(s, [a]);
      assert Execute(s, []) == s;
    }
    hide Act;
  }

  /** How far MbRun is from its end, and PgRun from its next wait for an arena. */
  ghost function MbRank(s: System): nat {
    match s.mb
    case MbTop => 20
    case MbGetting => 30 + WriterRank(s)
    case MbReceiving => 25
    case MbFlushing => 1 + WriterRank(s)
    case MbDone => 0
  }

  ghost function WriterRank(s: System): nat {
    match s.pipe.wpc
    case WOutside => 0
    case WFlushLoad => 8
    case WFlushTest(_) => 7
    case WLoad => 6
    case WDrain(_) => 5
    case WStore(_) => 4
    case WAdd(_) => 3
    case WSignal(_) => 2
    case WClear(_) => 1
  }

  ghost function PgRank(s: System): nat {
    (if s.pipe.readFd > 0 then 20 else 0) +
    match s.pg
    case PgTop => 4
    case PgGot => 6
    case PgInserting(_) => 5
    case PgWaiting =>
      match s.pipe.rpc
      case RLoad => 10
      case RStore(_) => 9
      case RSub(_) => 8
      case RSignal(_) => 7
      case _ => 3
  }

  /** PgRun waits for an arena, and there is none. */
  ghost predicate PgWaits(s: System) {
    s.pg.PgWaiting? && s.pipe.rpc.RDrain? && s.pipe.readFd == 0
  }

  /** MbRun has ended, or waits for a free arena, and there is none. */
  ghost predicate MbWaits(s: System) {
    s.pipe.wpc.WDrain? && s.pipe.writeFd == 0
  }

  ghost function NextOfPg(s: System): Action {
    match s.pg
    case PgTop => PgCall
    case PgWaiting => PgPipe
    case PgGot => PgCount
    case PgInserting(_) => PgInsert
  }

  /** Unless PgRun waits, its next action brings it nearer to the next wait and leaves MbRun where it is. */
  lemma PgAdvances(s: System, cap: nat)
    requires Safe(s, cap) && !PgWaits(s)
    ensures WellFormed(s) && var r := Act(s, NextOfPg(s)); PgRank(r) < PgRank(s) && MbRank(r) == MbRank(s)
    ensures var r := Act(s, NextOfPg(s)); r.accepted == s.accepted && r.packetSize == s.packetSize && r.mb == s.mb
  {
    PgChangesNoBatch(s, cap, NextOfPg(s));
    if s.pg.PgInserting? {
      RowsOfPgInsert(s, cap);
    }
    PgRankFalls(s, cap);
    hide Safe, Published, PgRank, Act, PgWaits;
  }

  lemma PgRankFalls(s: System, cap: nat)
    requires Safe(s, cap) && !PgWaits(s)
    requires s.pg.PgInserting? ==>
               s.pipe.rpc.RHolding? && s.pipe.rpc.buf < |s.pipe.buffers| &&
               s.pg.size <= |s.pipe.buffers[s.pipe.rpc.buf].mem|
    ensures WellFormed(s) && PgRank(Act(s, NextOfPg(s))) < PgRank(s)
  {
    hide SensorDataPipe.Control, SensorDataPipe.Data, Accounted, Inserted, Limits, Filling;
    hide SensorDataPipe.Contents;
  }

  /** Unless MbRun waits, a writer step brings it nearer to the end of its call. */
  lemma MbAdvances(s: System, cap: nat)
    requires Safe(s, cap) && (s.mb.MbGetting? || s.mb.MbFlushing?) && !MbWaits(s)
    ensures WellFormed(s) && var r := Act(s, MbPipe); MbRank(r) < MbRank(s)
    ensures var r := Act(s, MbPipe);
            && r.accepted == s.accepted && r.packetSize == s.packetSize
            && (s.mb.MbGetting? ==> r.mb.MbGetting? || r.mb.MbReceiving?)
  {
    hide SensorDataPipe.Control, SensorDataPipe.Data, Accounted, Inserted, Limits, Filling;
  }

  /** The two programs never wait for each other. */
  lemma OneCanMove(s: System, cap: nat)
    requires Safe(s, cap)
    ensures !(MbWaits(s) && PgWaits(s))
  {
    hide SensorDataPipe.Data, SensorDataPipe.IndexControl, SensorDataPipe.Alternating;
    hide Accounted, Inserted, Limits, Filling;
  }

  lemma EverythingInserted(s: System, cap: nat)
    requires Safe(s, cap) && s.mb.MbDone? && PgWaits(s)
    ensures WellFormed(s) && SensorDataPipe.Slot(s.pipe) == [] && !Outstanding(s)
  {
    hide SensorDataPipe.Control, SensorDataPipe.Data, Accounted, Inserted, Limits, Filling;
  }

  /** Ending the connection from the top of the loop, or from a failed attempt to receive. */
  ghost function EndOfMb(s: System): Action {
    if s.mb.MbTop? then MbLoop(true) else if s.mb.MbReceiving? then MbReceive(Failure) else MbPipe
  }

  lemma MbEnds(s: System, cap: nat)
    requires Safe(s, cap) && !s.mb.MbDone? && !MbWaits(s)
    ensures WellFormed(s) && var r := Act(s, EndOfMb(s));
            MbRank(r) < MbRank(s) && r.accepted == s.accepted && r.packetSize == s.packetSize
  {
    if s.mb.MbTop? || s.mb.MbReceiving? {
      hide SensorDataPipe.Control, SensorDataPipe.Data, Accounted, Inserted, Limits, Filling;
    } else {
      MbAdvances(s, cap);
      hide Act, Safe, MbRank;
    }
  }

  /** From every safe state some run ends the connection and inserts all that was accepted. */
  lemma {:induction false} CanFinish(s: System, cap: nat) returns (r: System)
    requires Safe(s, cap)
    ensures WellFormed(s) && Reaches(s, r) && Safe(r, cap)
    ensures r.accepted == s.accepted && r.packetSize == s.packetSize && r.mb.MbDone? && PgWaits(r)
    decreases MbRank(s), PgRank(s)
  {
    hide *;
    SafeIsWellFormed(s, cap);
    OneCanMove(s, cap);
    var a: Action;
    if !s.mb.MbDone? && !MbWaits(s) {
      a := EndOfMb(s);
      MbEnds(s, cap);
    } else if !PgWaits(s) {
      a := NextOfPg(s);
      PgAdvances(s, cap);
    } else {
      ReachesItself(s);
      return s;
    }
    SafeAct(s, cap, a);
    r := CanFinish(Act(s, a), cap);
    ReachesAct(s, a, r);
  }

  lemma SafeIsWellFormed(s: System, cap: nat)
    requires Safe(s, cap)
    ensures WellFormed(s)
  {
  }

  lemma ReachableReaches(bufCount: nat, cap: nat, packetSize: nat, s: System, r: System)
    requires Reachable(bufCount, cap, packetSize, s) && WellFormed(s) && Reaches(s, r)
    ensures Reachable(bufCount, cap, packetSize, r)
  {
    var mems: seq<seq<Byte>>, actions: seq<Action> :|
      ValidSetup(mems, packetSize) && |mems| == bufCount && |mems[0]| == cap &&
      Execute(Start(mems, packetSize), actions) == s;
    var more :| Execute(s, more) == r;
    ExecuteConcat(Start(mems, packetSize), actions, more);
    hide Execute;
  }

  /**
   Nothing gets stuck: with three or more arenas, from wherever a run stands it can be continued, accepting
   nothing more, until MbRun has ended and every byte it accepted has been inserted.
   */
  lemma EveryRunCanBeFinished(bufCount: nat, cap: nat, packetSize: nat, s: System) returns (r: System)
    requires bufCount >= 3 && Reachable(bufCount, cap, packetSize, s)
    ensures WellFormed(s) && Reaches(s, r) && Reachable(bufCount, cap, packetSize, r)
    ensures r.mb.MbDone? && r.accepted == s.accepted && Flatten(r.inserted) == Flatten(s.accepted)
  {
    hide *;
    ReachableIsSafe(bufCount, cap, packetSize, s);
    r := CanFinish(s, cap);
    ReachableReaches(bufCount, cap, packetSize, s, r);
    EverythingInserted(r, cap);
    SafeIsWellFormed(r, cap);
    EmptyCurrent(r, cap);
    var rest := InsertedIsPrefix(r, cap);
    NothingAdded(Flatten(r.inserted));
  }

  lemma EmptyCurrent(s: System, cap: nat)
    requires Safe(s, cap) && s.mb.MbDone?
    ensures WellFormed(s) && SensorDataPipe.Current(s.pipe) == []
  {
    hide SensorDataPipe.Control, SensorDataPipe.Data, Accounted, Inserted, Limits;
  }

  ghost function NextOfMb(s: System): Action {
    if s.mb.MbTop? then MbLoop(false) else MbPipe
  }

  ghost function TopRank(s: System): nat {
    if s.mb.MbTop? then 10 else if s.mb.MbGetting? then 1 + WriterRank(s) else 0
  }

  lemma MbNears(s: System, cap: nat)
    requires Safe(s, cap) && (s.mb.MbTop? || s.mb.MbGetting?) && !MbWaits(s)
    ensures WellFormed(s) && var r := Act(s, NextOfMb(s));
            TopRank(r) < TopRank(s) && !IsOver(r) && r.accepted == s.accepted && r.packetSize == s.packetSize
  {
    hide SensorDataPipe.Control, SensorDataPipe.Data, Accounted, Inserted, Limits, Filling, Position;
  }

  lemma PgLeavesTop(s: System, cap: nat)
    requires Safe(s, cap)
    ensures WellFormed(s) && TopRank(Act(s, NextOfPg(s))) == TopRank(s)
  {
    PgChangesNoBatch(s, cap, NextOfPg(s));
    hide Safe, Act, Published;
  }

  /** From every safe state before the end of the connection some run brings MbRun to its next attempt. */
  lemma {:induction false} CanReceive(s: System, cap: nat) returns (r: System)
    requires Safe(s, cap) && !IsOver(s)
    ensures WellFormed(s) && Reaches(s, r) && Safe(r, cap)
    ensures r.mb.MbReceiving? && r.accepted == s.accepted && r.packetSize == s.packetSize
    decreases TopRank(s), PgRank(s)
  {
    hide *;
    SafeIsWellFormed(s, cap);
    OneCanMove(s, cap);
    OverIs(s);
    var a: Action;
    if s.mb.MbReceiving? {
      ReachesItself(s);
      return s;
    } else if !MbWaits(s) {
      a := NextOfMb(s);
      MbNears(s, cap);
    } else {
      a := NextOfPg(s);
      PgAdvances(s, cap);
      PgLeavesTop(s, cap);
      OverIs(Act(s, a));
    }
    SafeAct(s, cap, a);
    r := CanReceive(Act(s, a), cap);
    ReachesAct(s, a, r);
  }

  lemma ReachesOneMore(s: System, q: System, a: Action)
    requires WellFormed(s) && WellFormed(q) && Reaches(s, q)
    ensures Reaches(s, Act(q, a))
  {
    var actions :| Execute(s, actions) == q;
    assert (actions + [a])[..|actions|] == actions;
    ExecuteSnoc(s, actions + [a]);
    hide Act;
  }

  /** As long as the connection is not over, whatever packet arrives next can be accepted. */
  lemma NextPacketCanBeAccepted(bufCount: nat, cap: nat, packetSize: nat, s: System, data: seq<Byte>)
    returns (r: System)
    requires bufCount >= 3 && Reachable(bufCount, cap, packetSize, s) && !IsOver(s) && |data| == packetSize
    ensures WellFormed(s) && Reaches(s, r) && Reachable(bufCount, cap, packetSize, r)
    ensures r.accepted == s.accepted + [data] && !IsOver(r)
  {
    hide *;
    ReachableIsSafe(bufCount, cap, packetSize, s);
    var q := CanReceive(s, cap);
    SafeIsWellFormed(q, cap);
    OneAttempt(q, Packet(data));
    r := Act(q, MbReceive(Packet(data)));
    ReachesOneMore(s, q, MbReceive(Packet(data)));
    ReachableReaches(bufCount, cap, packetSize, s, r);
    RightSize(data, packetSize);
    OverIs(r);
  }

  lemma RightSize(data: seq<Byte>, packetSize: nat)
    requires |data| == packetSize
    ensures !Ends(Packet(data), packetSize)
  {
  }

  lemma {:induction false} CanAcceptAll(mems: seq<seq<Byte>>, packetSize: nat, packets: seq<seq<Byte>>)
    returns (r: System)
    requires ValidSetup(mems, packetSize) && |mems| >= 3
    requires forall i :: 0 <= i < |packets| ==> |packets[i]| == packetSize
    ensures Reachable(|mems|, |mems[0]|, packetSize, r) && r.accepted == packets && !IsOver(r)
    decreases |packets|
  {
    if packets == [] {
      r := Start(mems, packetSize);
      assert Execute(r, []) == r;
    } else {
      var last := packets[|packets| - 1];
      r := CanAcceptAll(mems, packetSize, packets[..|packets| - 1]);
      r := NextPacketCanBeAccepted(|mems|, |mems[0]|, packetSize, r, last);
    }
    hide Safe, Act, MaxFill;
  }

  /** Whatever packets a device sends, some run inserts exactly them. */
  lemma AnyPacketsGetThrough(mems: seq<seq<Byte>>, packetSize: nat, packets: seq<seq<Byte>>) returns (r: System)
    requires ValidSetup(mems, packetSize) && |mems| >= 3
    requires forall i :: 0 <= i < |packets| ==> |packets[i]| == packetSize
    ensures Reachable(|mems|, |mems[0]|, packetSize, r)
    ensures r.mb.MbDone? && r.accepted == packets && Flatten(r.inserted) == Flatten(packets)
  {
    hide *;
    var q := CanAcceptAll(mems, packetSize, packets);
    r := EveryRunCanBeFinished(|mems|, |mems[0]|, packetSize, q);
  }
}
