/**
 The bulk producer MbPipeThroughputTest of src/DataHandlers/ModbusWithPostgres/Modbus.c, which pushes
 a whole file through the pipe. Here its loop runs on the writer's view of the pipe alone: an arena to fill
 and two calls that publish it. ProducerRun is about the same loop on the concurrent pipe.
 */
module BulkProducer {
  import opened Bytes

  /** The writer's view of the pipe; every arena has the same capacity. */
  class WriterView {
    const cap: nat
    var current: seq<Byte>          // Mem[..Cur] of the arena the writer fills
    var published: seq<seq<Byte>>   // what the reader gets, arena by arena

    ghost predicate Valid()
      reads this
    {
      |current| <= cap
    }

    constructor (cap: nat)
      ensures Valid() && this.cap == cap && current == [] && published == []
    {
      this.cap := cap;
      current, published := [], [];
    }

    /** SdbArenaPush and the copy into the pushed block. */
    method Push(data: seq<Byte>) returns (ok: bool)
      requires Valid()
      modifies this
      ensures Valid() && published == old(published)
      ensures ok == (|old(current)| + |data| <= cap)
      ensures current == if ok then old(current) + data else old(current)
    {
      ok := |current| + |data| <= cap;
      if ok {
        current := current + data;
      }
    }

    /** SdPipeGetWriteBuffer: publishes the current arena, even an empty one, and returns an empty one. */
    method GetWriteBuffer()
      requires Valid()
      modifies this
      ensures Valid() && current == [] && published == old(published) + [old(current)]
    {
      published := published + [current];
      current := [];
    }

    /** SdPipeFlush: publishes the current arena only when something is in it. */
    method Flush()
      requires Valid()
      modifies this
      ensures Valid() && current == []
      ensures published == if old(current) == [] then old(published) else old(published) + [old(current)]
    {
      if |current| > 0 {
        published := published + [current];
        current := [];
      }
    }
  }

  /** The file cut into chunks of `maxFill` bytes, the last one possibly shorter. */
  function Chunks(file: seq<Byte>, maxFill: nat): (chunks: seq<seq<Byte>>)
    requires maxFill > 0
    decreases |file|
  {
    if file == [] then []
    else if |file| <= maxFill then [file]
    else [file[..maxFill]] + Chunks(file[maxFill..], maxFill)
  }

  /** Cutting loses nothing, leaves no empty chunk and none above the limit. */
  lemma {:induction false} ChunksTileTheFile(file: seq<Byte>, maxFill: nat)
    requires maxFill > 0
    ensures Flatten(Chunks(file, maxFill)) == file
    ensures forall i :: 0 <= i < |Chunks(file, maxFill)| ==> 0 < |Chunks(file, maxFill)[i]| <= maxFill
    ensures forall i :: 0 <= i < |Chunks(file, maxFill)| - 1 ==> |Chunks(file, maxFill)[i]| == maxFill
    decreases |file|
  {
    if file == [] {
    } else if |file| <= maxFill {
      assert Flatten([file]) == Flatten([]) + file;
    } else {
      ChunksTileTheFile(file[maxFill..], maxFill);
      FlattenCons(file[..maxFill], Chunks(file[maxFill..], maxFill));
      assert file == file[..maxFill] + file[maxFill..];
    }
  }

  /** What is still to be sent, given how many bytes remain; nothing once the count is used up. */
  function Pending(file: seq<Byte>, maxFill: nat, remaining: int): seq<seq<Byte>>
    requires maxFill > 0 && remaining <= |file|
  {
    if remaining > 0 then Chunks(file[|file| - remaining..], maxFill) else []
  }

  /** The chunk the producer copies while `remaining` bytes are left. */
  function NextChunk(file: seq<Byte>, maxFill: nat, remaining: int): (chunk: seq<Byte>)
    requires maxFill > 0 && 0 < remaining <= |file|
    ensures 0 < |chunk| <= maxFill
  {
    var size := if remaining < maxFill then remaining else maxFill;
    var from := |file| - remaining;
    file[from..from + size]
  }

  /** One round of the producer sends the first pending chunk. */
  lemma PendingStep(file: seq<Byte>, maxFill: nat, remaining: int, sent: seq<seq<Byte>>)
    requires maxFill > 0 && 0 < remaining <= |file|
    ensures sent + Pending(file, maxFill, remaining) ==
            sent + [NextChunk(file, maxFill, remaining)] + Pending(file, maxFill, remaining - maxFill)
  {
    var rest := file[|file| - remaining..];
    if remaining <= maxFill {
      assert NextChunk(file, maxFill, remaining) == rest;
    } else {
      assert rest[maxFill..] == file[|file| - (remaining - maxFill)..];
      assert rest[..maxFill] == NextChunk(file, maxFill, remaining);
    }
  }

  /**
   The producer's loop. `remaining` goes below zero on the last round when the file is not a multiple
   of the limit, as in the source. The final flush finds an empty arena and publishes nothing.
   */
  method ThroughputTest(pipe: WriterView, file: seq<Byte>, maxFill: nat)
    requires pipe.Valid() && pipe.current == [] && pipe.published == []
    requires 0 < maxFill <= pipe.cap
    modifies pipe
    ensures pipe.Valid() && pipe.current == []
    ensures pipe.published == Chunks(file, maxFill)
  {
    var remaining: int := |file|;
    ghost var all := Chunks(file, maxFill);
    assert file[|file| - remaining..] == file;
    assert [] + all == all;
    while remaining > 0
      invariant remaining <= |file| && pipe.Valid() && pipe.current == []
      invariant all == pipe.published + Pending(file, maxFill, remaining)
      decreases remaining
    {
      PendingStep(file, maxFill, remaining, pipe.published);
      var chunk := NextChunk(file, maxFill, remaining);
      var pushed := pipe.Push(chunk);
      assert [] + chunk == chunk;
      pipe.GetWriteBuffer();
      remaining := remaining - maxFill;
    }
    pipe.Flush();
  }
}
