/**
 The circular buffer of poc/Metrics/CircularBuffer.c, one call at a time: copies that wrap around the end
 of the memory, against a first-in-first-out sequence of bytes.
 */
module CircularBuffer {
  import opened Sequences
  import opened Bytes

  /** A position that may have run past the end once. */
  function Wrap(i: nat, size: nat): nat {
    if i < size then i else i - size
  }

  lemma WrapIsRemainder(i: nat, size: nat)
    requires size > 0 && i < 2 * size
    ensures i % size == Wrap(i, size)
  {
    DivisionIsUnique(i, if i < size then 0 else 1, Wrap(i, size), size);
  }

  /** `count` bytes from `tail` on, continued at the start of the memory. */
  function Circular(m: seq<Byte>, tail: nat, count: nat): (s: seq<Byte>)
    requires tail <= |m| && count <= |m|
    ensures |s| == count
  {
    if tail + count <= |m| then m[tail..tail + count] else m[tail..] + m[..tail + count - |m|]
  }

  function Slot(m: seq<Byte>, tail: nat, k: nat): Byte
    requires tail < |m| && k < |m|
  {
    m[Wrap(tail + k, |m|)]
  }

  lemma CircularAt(m: seq<Byte>, tail: nat, count: nat, k: nat)
    requires tail < |m| && k < count <= |m|
    ensures Circular(m, tail, count)[k] == Slot(m, tail, k)
  {
  }

  lemma CircularIs(m: seq<Byte>, tail: nat, bytes: seq<Byte>)
    requires tail < |m| && |bytes| <= |m| && forall k :: 0 <= k < |bytes| ==> Slot(m, tail, k) == bytes[k]
    ensures Circular(m, tail, |bytes|) == bytes
  {
    forall k | 0 <= k < |bytes|
      ensures Circular(m, tail, |bytes|)[k] == bytes[k]
    {
      CircularAt(m, tail, |bytes|, k);
    }
    hide Circular, Slot;
  }

  /** Two memories that agree on the positions of a circular range hold the same bytes there. */
  lemma SameCircular(m: seq<Byte>, r: seq<Byte>, tail: nat, count: nat)
    requires |m| == |r| && tail < |m| && count <= |m|
    requires forall k :: 0 <= k < count ==> Slot(m, tail, k) == Slot(r, tail, k)
    ensures Circular(m, tail, count) == Circular(r, tail, count)
  {
    forall k | 0 <= k < count
      ensures Circular(m, tail, count)[k] == Circular(r, tail, count)[k]
    {
      CircularAt(m, tail, count, k);
      CircularAt(r, tail, count, k);
    }
  }

  /** Going on from a position inside the circle is going on from its start. */
  lemma SlotBehind(m: seq<Byte>, tail: nat, a: nat, k: nat)
    requires tail < |m| && a <= k < |m|
    ensures Wrap(tail + a, |m|) < |m| && Slot(m, Wrap(tail + a, |m|), k - a) == Slot(m, tail, k)
  {
  }

  lemma CircularSplitsAt(m: seq<Byte>, tail: nat, a: nat, b: nat, k: nat)
    requires tail < |m| && k < a + b <= |m|
    ensures Circular(m, tail, a + b)[k] == (Circular(m, tail, a) + Circular(m, Wrap(tail + a, |m|), b))[k]
  {
    hide Circular, Slot;
    CircularAt(m, tail, a + b, k);
    if k < a {
      CircularAt(m, tail, a, k);
    } else {
      SlotBehind(m, tail, a, k);
      CircularAt(m, Wrap(tail + a, |m|), b, k - a);
    }
  }

  /** A circular range is what its first and its other bytes are. */
  lemma CircularSplits(m: seq<Byte>, tail: nat, a: nat, b: nat)
    requires tail < |m| && a + b <= |m|
    ensures Circular(m, tail, a + b) == Circular(m, tail, a) + Circular(m, Wrap(tail + a, |m|), b)
  {
    hide Circular;
    var all, parts := Circular(m, tail, a + b), Circular(m, tail, a) + Circular(m, Wrap(tail + a, |m|), b);
    forall k | 0 <= k < a + b
      ensures all[k] == parts[k]
    {
      CircularSplitsAt(m, tail, a, b, k);
    }
  }

  /** What the two copies of an insertion do: the first fills up to the end of the memory, the second its start. */
  lemma TwoCopies(m: seq<Byte>, r: seq<Byte>, head: nat, bytes: seq<Byte>, first: nat)
    requires |m| == |r| && head < |m| && |bytes| <= |m|
    requires first == if |bytes| < |m| - head then |bytes| else |m| - head
    requires var once := Splice(m, head, bytes[..first]);
             r == if first < |bytes| then Splice(once, 0, bytes[first..]) else once
    ensures Circular(r, head, |bytes|) == bytes
    ensures forall k :: |bytes| <= k < |m| ==> Slot(r, head, k) == Slot(m, head, k)
  {
    assert forall k :: 0 <= k < |bytes| ==> Slot(r, head, k) == bytes[k];
    assert forall k :: |bytes| <= k < |m| ==> Slot(r, head, k) == Slot(m, head, k);
    hide Circular, Slot;
    CircularIs(r, head, bytes);
  }

  /** Writing behind the waiting bytes appends to them. */
  lemma Appended(m: seq<Byte>, r: seq<Byte>, tail: nat, count: nat, head: nat, bytes: seq<Byte>)
    requires |m| == |r| && tail < |m| && count + |bytes| <= |m|
    requires head == Wrap(tail + count, |m|) && head < |m| && Circular(r, head, |bytes|) == bytes
    requires forall k :: |bytes| <= k < |m| ==> Slot(r, head, k) == Slot(m, head, k)
    ensures Circular(r, tail, count + |bytes|) == Circular(m, tail, count) + bytes
  {
    hide Circular;
    var size := |m|;
    forall k | 0 <= k < count
      ensures Slot(m, tail, k) == Slot(r, tail, k)
    {
      KeptBehind(size, tail, count, |bytes|, k);
      assert Slot(m, head, size - count + k) == Slot(r, head, size - count + k);
    }
    SameCircular(m, r, tail, count);
    CircularSplits(r, tail, count, |bytes|);
  }

  class Buffer {
    const data: array<Byte>
    var head: nat
    var tail: nat
    var count: nat
    var full: bool

    ghost predicate Placed()
      reads this
    {
      head < data.Length && tail < data.Length && count <= data.Length && head == Wrap(tail + count, data.Length)
    }

    ghost predicate Valid()
      reads this
    {
      Placed() && (full <==> count == data.Length)
    }

    /** The bytes that wait to be read, oldest first. */
    ghost function Contents(): (s: seq<Byte>)
      requires Placed()
      reads this, data
      ensures |s| == count
    {
      Circular(data[..], tail, count)
    }

    /** CbInit */
    constructor (size: nat)
      requires size > 0
      ensures Valid() && fresh(data) && data.Length == size && Contents() == []
    {
      data := new Byte[size];
      head, tail, count, full := 0, 0, 0, false;
    }

    /** CbIsFull and CbIsEmpty */
    predicate IsFull()
      reads this
    {
      full
    }

    predicate IsEmpty()
      reads this
    {
      !full && head == tail
    }

    lemma FlagsAreRight()
      requires Valid()
      ensures IsFull() <==> |Contents()| == data.Length
      ensures IsEmpty() <==> Contents() == []
    {
    }

    /** The two copies of CbInsert, and where the head then is. */
    method Put(bytes: seq<Byte>)
      requires Placed() && |bytes| <= data.Length
      modifies data, this`head
      ensures head == Wrap(old(head) + |bytes|, data.Length)
      ensures Circular(data[..], old(head), |bytes|) == bytes
      ensures forall k :: |bytes| <= k < data.Length ==> Slot(data[..], old(head), k) == Slot(old(data[..]), old(head), k)
    {
      WrapIsRemainder(head + |bytes|, data.Length);
      ghost var before := data[..];
      var firstChunk := if |bytes| < data.Length - head then |bytes| else data.Length - head;
      Memcpy(data, head, bytes[..firstChunk]);
      var secondChunk := |bytes| - firstChunk;
      if secondChunk > 0 {
        Memcpy(data, 0, bytes[firstChunk..]);
      }
      hide *;
      TwoCopies(before, data[..], head, bytes, firstChunk);
      head := (head + |bytes|) % data.Length;
    }

    /**
     CbInsert on a buffer that is not full, of no more bytes than the memory has. It appends, and keeps
     the buffer valid, exactly when the bytes fit in what is free.
     */
    method Insert(bytes: seq<Byte>)
      requires Valid() && !full && |bytes| <= data.Length
      modifies this, data
      ensures Valid() <==> old(count) + |bytes| <= data.Length
      ensures Valid() ==> Contents() == old(Contents()) + bytes && tail == old(tail)
    {
      ghost var before := data[..];
      hide Circular, Slot;
      Put(bytes);
      if count + |bytes| <= data.Length {
        Appended(before, data[..], tail, count, old(head), bytes);
      }
      count := count + |bytes|;
      full := count == data.Length;
    }

    /** The two copies of CbRead. */
    method Copied(size: nat) returns (bytes: seq<Byte>)
      requires Placed() && size <= data.Length
      ensures bytes == Circular(data[..], tail, size)
    {
      var firstChunk := if size < data.Length - tail then size else data.Length - tail;
      bytes := data[tail..tail + firstChunk];
      var secondChunk := size - firstChunk;
      if secondChunk > 0 {
        bytes := bytes + data[..secondChunk];
      }
    }

    /**
     CbRead, of no more bytes than there are: takes out the oldest ones. It keeps the full flag right
     exactly when something is read or the buffer was not full.
     */
    method Read(size: nat) returns (bytes: seq<Byte>)
      requires Placed() && size <= count
      modifies this
      ensures Placed() && bytes + Contents() == old(Contents()) && |bytes| == size
      ensures Valid() <==> size > 0 || old(count) < data.Length
    {
      bytes := Copied(size);
      hide Circular, Slot;
      CircularSplits(data[..], tail, size, count - size);
      WrapIsRemainder(tail + size, data.Length);
      tail := (tail + size) % data.Length;
      count := count - size;
      full := false;
    }
  }

  /** Positions of waiting bytes are not among those that are written. */
  lemma KeptBehind(size: nat, tail: nat, count: nat, written: nat, k: nat)
    requires tail < size && k < count && count + written <= size
    ensures var head := Wrap(tail + count, size);
            Wrap(tail + k, size) == Wrap(head + (size - count + k), size) && written <= size - count + k < size
  {
  }

  /** Reading nothing from a full buffer makes it look empty. */
  method EmptyReadHidesBytes(byte: Byte) returns (b: Buffer)
    ensures b.Placed() && b.Contents() == [byte] && b.IsEmpty() && !b.Valid()
  {
    b := new Buffer(1);
    b.Insert([byte]);
    var nothing := b.Read(0);
    assert nothing == [] && [] + b.Contents() == b.Contents();
  }

  datatype Op = InsertOp(bytes: seq<Byte>) | ReadOp(size: nat)

  /**
   Any sequence of calls, of which those are made that need not wait and fit: what was in the buffer and
   what was inserted is what was read and what is in the buffer now, in order.
   */
  method RunAll(b: Buffer, ops: seq<Op>) returns (inserted: seq<Byte>, read: seq<Byte>)
    requires b.Valid()
    modifies b, b.data
    ensures b.Valid() && old(b.Contents()) + inserted == read + b.Contents()
  {
    ghost var start := b.Contents();
    inserted, read := [], [];
    hide Circular;
    NothingAdded(start);
    for i := 0 to |ops|
      invariant b.Valid() && start + inserted == read + b.Contents()
    {
      ghost var contents := b.Contents();
      match ops[i]
      case InsertOp(bytes) =>
        if !b.IsFull() && b.count + |bytes| <= b.data.Length {
          b.Insert(bytes);
          Assoc(start, inserted, bytes);
          Assoc(read, contents, bytes);
          inserted := inserted + bytes;
        }
      case ReadOp(size) =>
        if 0 < size <= b.count {
          var bytes := b.Read(size);
          Assoc(read, bytes, b.Contents());
          read := read + bytes;
        }
    }
  }
}
