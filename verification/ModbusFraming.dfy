/**
 Modbus TCP frames: how src/CommProtocols/Modbus.c takes them out of a byte stream that arrives in
 pieces, and how src/DevUtils/ModbusTestServer.c puts them in.
 */
module ModbusFraming {
  import opened Options
  import opened Bytes

  const HEADER_LEN := 7
  const PDU_MAX := 253
  const FRAME_MAX := 260

  /** The receiving end of a connection: the bytes still to come. It ends when there are none left. */
  class Socket {
    var incoming: seq<Byte>

    constructor (stream: seq<Byte>)
      ensures incoming == stream
    {
      incoming := stream;
    }

    /** recv: any positive number of the next bytes up to `max`, or none at the end of the stream. */
    method Recv(frame: array<Byte>, at: nat, max: nat) returns (n: int)
      requires 0 < max && at + max <= frame.Length
      modifies this, frame
      ensures n <= 0 <==> old(incoming) == []
      ensures n <= 0 ==> incoming == [] && frame[..] == old(frame[..])
      ensures n > 0 ==> n <= max && n <= |old(incoming)| && incoming == old(incoming)[n..]
      ensures n > 0 ==> frame[..at + n] == old(frame[..at]) + old(incoming)[..n]
    {
      if incoming == [] {
        return 0;
      }
      var k: nat :| 1 <= k <= |incoming| && k <= max;
      forall i | 0 <= i < k {
        frame[at + i] := incoming[i];
      }
      incoming := incoming[k..];
      n := k;
    }
  }

  /** What one receive call makes of the bytes that arrive. */
  datatype Outcome =
    | Frame(bytes: seq<Byte>, rest: seq<Byte>)
    | Closed
    | TooLarge(rest: seq<Byte>)

  function LengthField(bytes: seq<Byte>): (n: nat)
    requires |bytes| >= 6
    ensures n < 0x1_0000
  {
    256 * (bytes[4] as int) + bytes[5]
  }

  function Receive(stream: seq<Byte>, bufferSize: nat): Outcome {
    if |stream| < HEADER_LEN then Closed
    else
      var total := HEADER_LEN + LengthField(stream);
      if total > bufferSize then TooLarge(stream[HEADER_LEN..])
      else if |stream| < total then Closed
      else Frame(stream[..total], stream[total..])
  }

  /** Reads until `target` bytes are there; false when the stream ends before. */
  method ReadUpTo(socket: Socket, frame: array<Byte>, start: nat, target: nat, ghost stream: seq<Byte>)
    returns (complete: bool)
    requires start <= target <= frame.Length && start <= |stream|
    requires socket.incoming == stream[start..] && frame[..start] == stream[..start]
    modifies socket, frame
    ensures complete <==> target <= |stream|
    ensures complete ==> socket.incoming == stream[target..] && frame[..target] == stream[..target]
    ensures !complete ==> socket.incoming == []
  {
    var totalBytesRead := start;
    while totalBytesRead < target
      invariant start <= totalBytesRead <= target && totalBytesRead <= |stream|
      invariant socket.incoming == stream[totalBytesRead..] && frame[..totalBytesRead] == stream[..totalBytesRead]
      decreases target - totalBytesRead
    {
      var bytesRead := socket.Recv(frame, totalBytesRead, target - totalBytesRead);
      if bytesRead <= 0 {
        return false;
      }
      assert stream[..totalBytesRead + bytesRead] == stream[..totalBytesRead] + stream[totalBytesRead..][..bytesRead];
      totalBytesRead := totalBytesRead + bytesRead;
    }
    complete := true;
  }

  /** MbReceiveTcpFrame: however the stream is split into pieces, the result is that of Receive. */
  method ReceiveTcpFrame(socket: Socket, frame: array<Byte>, bufferSize: nat) returns (n: int)
    requires HEADER_LEN <= bufferSize <= frame.Length
    modifies socket, frame
    ensures match Receive(old(socket.incoming), bufferSize)
            case Frame(bytes, rest) => n == |bytes| && frame[..n] == bytes && socket.incoming == rest
            case Closed => n <= 0 && socket.incoming == []
            case TooLarge(rest) => n == -1 && socket.incoming == rest
  {
    ghost var stream := socket.incoming;
    var complete := ReadUpTo(socket, frame, 0, HEADER_LEN, stream);
    if !complete {
      return 0;
    }
    assert frame[4] == frame[..HEADER_LEN][4] == stream[4] && frame[5] == frame[..HEADER_LEN][5] == stream[5];
    var length := 256 * (frame[4] as int) + frame[5];
    var totalFrameSize := HEADER_LEN + length;
    if totalFrameSize > bufferSize {
      return -1;
    }
    complete := ReadUpTo(socket, frame, HEADER_LEN, totalFrameSize, stream);
    if !complete {
      return 0;
    }
    n := totalFrameSize;
  }

  datatype Message = Message(unitId: Byte, data: seq<Byte>)

  /** The buffer holds a frame that was received whole. */
  predicate HoldsFrame(frame: seq<Byte>) {
    |frame| >= 9 && HEADER_LEN + LengthField(frame) <= |frame|
  }

  /** What MbParseTcpFrame finds in such a buffer. */
  function Parse(frame: seq<Byte>): Option<Message>
    requires HoldsFrame(frame)
  {
    if LengthField(frame) != 3 + (frame[8] as int) then None else Some(Message(frame[6], frame[9..9 + (frame[8] as int)]))
  }

  /** MbParseTcpFrame, with the copy its caller makes of the data it points to. */
  method ParseTcpFrame(frame: array<Byte>) returns (r: Option<Message>)
    requires HoldsFrame(frame[..])
    ensures r == Parse(frame[..])
  {
    var length := 256 * (frame[4] as int) + frame[5];
    var dataLength: int := frame[8];
    if length != dataLength + 3 {
      return None;
    }
    r := Some(Message(frame[6], frame[9..9 + dataLength]));
  }

  // ---- The sending side ----

  /** The header both builders write. */
  function FrameHeader(transactionId: nat, protocolId: nat, length: nat, unitId: Byte, functionCode: nat, dataLength: nat)
    : (h: seq<Byte>)
    ensures |h| == 9
  {
    [transactionId / 256 % 256, transactionId % 256, protocolId / 256 % 256, protocolId % 256,
     length / 256 % 256, length % 256, unitId, functionCode % 256, dataLength % 256]
  }

  /** Where the fields of the header are: three words of two bytes, high byte first, and three single bytes. */
  lemma HeaderFieldsAreInPlace(
      transactionId: nat, protocolId: nat, length: nat, unitId: Byte, functionCode: nat, dataLength: nat)
    requires transactionId < 0x1_0000 && protocolId < 0x1_0000 && length < 0x1_0000
    requires functionCode < 256 && dataLength < 256
    ensures var h := FrameHeader(transactionId, protocolId, length, unitId, functionCode, dataLength);
            && 256 * (h[0] as int) + h[1] == transactionId && 256 * (h[2] as int) + h[3] == protocolId
            && 256 * (h[4] as int) + h[5] == length
            && h[6] == unitId && h[7] == functionCode && h[8] == dataLength
  {
  }

  /** The bytes of a sent frame: transaction 1, protocol 0, unit 1, function 16, the data and one zero byte. */
  lemma SentBytes(payload: seq<Byte>)
    requires |payload| <= 250
    ensures FrameOf(payload) == [0, 1, 0, 0, 0, |payload| + 3, 1, 16, |payload|] + payload + [0]
  {
  }

  /** The frame SendModbusData sends for a payload: one zero byte follows the data. */
  function FrameOf(payload: seq<Byte>): (f: seq<Byte>)
    ensures |f| == |payload| + 10
  {
    FrameHeader(1, 0, |payload| + 3, 1, 0x10, |payload|) + payload + [0]
  }

  /** SendModbusData: nothing is sent when the frame would be larger than a frame may be. */
  method SendModbusData(payload: seq<Byte>) returns (sent: Option<seq<Byte>>)
    requires |payload| + 3 < 0x1_0000
    ensures sent == if |payload| <= PDU_MAX - 3 then Some(FrameOf(payload)) else None
  {
    var length := |payload| + 3;
    if length > FRAME_MAX - HEADER_LEN {
      return None;
    }
    var frame := new Byte[FRAME_MAX];
    forall k | 0 <= k < FRAME_MAX {
      frame[k] := 0;
    }
    WriteHeader(frame, 1, 0, length, 1, 0x10, |payload|);
    var pos := 9;
    if pos + |payload| > FRAME_MAX {
      return None;
    }
    assert frame[9..][|payload|] == 0;
    assert frame[pos + |payload|..HEADER_LEN + length] == [0];
    CopyData(frame, pos, payload);
    var totalSize := HEADER_LEN + length;
    assert frame[..totalSize] == frame[..pos + |payload|] + frame[pos + |payload|..totalSize];
    sent := Some(frame[..totalSize]);
  }

  /** The nine header bytes, written one by one. */
  method WriteHeader(
      buffer: array<Byte>, transactionId: nat, protocolId: nat, length: nat, unitId: Byte, functionCode: nat,
      dataLength: nat)
    requires buffer.Length >= 9
    modifies buffer
    ensures buffer[..9] == FrameHeader(transactionId, protocolId, length, unitId, functionCode, dataLength)
    ensures buffer[9..] == old(buffer[9..])
  {
    buffer[0], buffer[1] := transactionId / 256 % 256, transactionId % 256;
    buffer[2], buffer[3] := protocolId / 256 % 256, protocolId % 256;
    buffer[4], buffer[5] := length / 256 % 256, length % 256;
    buffer[6], buffer[7], buffer[8] := unitId, functionCode % 256, dataLength % 256;
  }

  method CopyData(buffer: array<Byte>, at: nat, data: seq<Byte>)
    requires at + |data| <= buffer.Length
    modifies buffer
    ensures buffer[..at + |data|] == old(buffer[..at]) + data
    ensures forall k :: at + |data| <= k < buffer.Length ==> buffer[k] == old(buffer[k])
  {
    forall k | 0 <= k < |data| {
      buffer[at + k] := data[k];
    }
  }

  /** GenerateModbusTcpFrame */
  method GenerateModbusTcpFrame(
      buffer: array<Byte>, transactionId: nat, protocolId: nat, length: nat, unitId: Byte, functionCode: nat,
      data: seq<Byte>)
    requires 9 + |data| <= buffer.Length
    modifies buffer
    ensures buffer[..] == FrameHeader(transactionId, protocolId, length, unitId, functionCode, |data|) + data +
                          old(buffer[9 + |data|..])
  {
    ghost var behind := buffer[9 + |data|..];
    WriteHeader(buffer, transactionId, protocolId, length, unitId, functionCode, |data|);
    assert buffer[9 + |data|..] == buffer[9..][|data|..];
    assert behind == old(buffer[9..])[|data|..];
    CopyData(buffer, 9, data);
    assert buffer[..] == buffer[..9 + |data|] + buffer[9 + |data|..];
  }

  /** A generated frame is parsed back if and only if its length field is three more than the data. */
  lemma GeneratedFrameParses(
      transactionId: nat, protocolId: nat, length: nat, unitId: Byte, functionCode: nat, data: seq<Byte>, tail: seq<Byte>)
    requires |data| <= 250 && length < 0x1_0000 && HEADER_LEN + length <= 9 + |data| + |tail|
    ensures var frame := FrameHeader(transactionId, protocolId, length, unitId, functionCode, |data|) + data + tail;
            HoldsFrame(frame) && Parse(frame) == if length == |data| + 3 then Some(Message(unitId, data)) else None
  {
    var frame := FrameHeader(transactionId, protocolId, length, unitId, functionCode, |data|) + data + tail;
    assert LengthField(frame) == length && frame[8] == |data| && frame[6] == unitId;
    assert frame[9..9 + |data|] == data;
  }

  // ---- Staying in step ----

  /** A frame at the front of the stream is received whole and leaves the rest. */
  lemma ReceiveOne(payload: seq<Byte>, rest: seq<Byte>)
    requires |payload| <= 250
    ensures Receive(FrameOf(payload) + rest, FRAME_MAX) == Frame(FrameOf(payload), rest)
  {
    var stream := FrameOf(payload) + rest;
    assert LengthField(stream) == |payload| + 3;
    assert stream[..|payload| + 10] == FrameOf(payload) && stream[|payload| + 10..] == rest;
  }

  lemma ParseOne(payload: seq<Byte>, buffer: seq<Byte>)
    requires |payload| <= 250 && |buffer| == FRAME_MAX && buffer[..|payload| + 10] == FrameOf(payload)
    ensures HoldsFrame(buffer) && Parse(buffer) == Some(Message(1, payload))
  {
    var tail := [0] + buffer[|payload| + 10..];
    assert buffer == FrameHeader(1, 0, |payload| + 3, 1, 0x10, |payload|) + payload + tail;
    GeneratedFrameParses(1, 0, |payload| + 3, 1, 0x10, payload, tail);
  }

  /**
   A frame without the padding byte, as the standard counts it, makes the receiver take one byte of the next,
   and the last one is never complete.
   */
  lemma StandardFrameLosesStep(payload: seq<Byte>, rest: seq<Byte>)
    requires |payload| <= 250
    ensures var standard := FrameHeader(1, 0, |payload| + 3, 1, 0x10, |payload|) + payload;
            Receive(standard + rest, FRAME_MAX) ==
            if rest == [] then Closed else Frame(standard + [rest[0]], rest[1..])
  {
    var stream := FrameHeader(1, 0, |payload| + 3, 1, 0x10, |payload|) + payload + rest;
    assert LengthField(stream) == |payload| + 3;
  }

  /**
   The length a frame must have here: bytes with a header are received whole, whatever follows them, if and
   only if there are seven more of them than their length field says. By the standard there are six more.
   */
  lemma ReceivedWholeExactlyWhenPadded(frame: seq<Byte>)
    requires 6 <= |frame| <= FRAME_MAX
    ensures (forall rest :: Receive(frame + rest, FRAME_MAX) == Frame(frame, rest)) <==>
            |frame| == HEADER_LEN + LengthField(frame)
  {
    if |frame| == HEADER_LEN + LengthField(frame) {
      forall rest
        ensures Receive(frame + rest, FRAME_MAX) == Frame(frame, rest)
      {
        LengthFieldOfFront(frame, rest);
      }
    } else {
      LengthFieldOfFront(frame, [0]);
      assert Receive(frame + [0], FRAME_MAX) != Frame(frame, [0]);
    }
  }

  lemma LengthFieldOfFront(frame: seq<Byte>, rest: seq<Byte>)
    requires |frame| >= 6
    ensures LengthField(frame + rest) == LengthField(frame)
    ensures (frame + rest)[..|frame|] == frame && (frame + rest)[|frame|..] == rest
  {
  }

  function FramesOf(payloads: seq<seq<Byte>>): seq<Byte> {
    if payloads == [] then [] else FrameOf(payloads[0]) + FramesOf(payloads[1..])
  }

  /**
   Receiving and parsing again and again returns exactly the payloads that were sent, in order, whatever
   follows them and however the stream is split, and leaves the stream at the next frame.
   */
  method ReceivePayloads(socket: Socket, ghost payloads: seq<seq<Byte>>, count: nat, ghost rest: seq<Byte>)
    returns (received: seq<seq<Byte>>)
    requires count == |payloads| && forall i :: 0 <= i < count ==> |payloads[i]| <= 250
    requires socket.incoming == FramesOf(payloads) + rest
    modifies socket
    ensures received == payloads && socket.incoming == rest
  {
    received := [];
    var frame := new Byte[FRAME_MAX];
    assert payloads[0..] == payloads;
    for i := 0 to count
      invariant received == payloads[..i] && socket.incoming == FramesOf(payloads[i..]) + rest
    {
      var behind := FramesOf(payloads[i..][1..]) + rest;
      assert FramesOf(payloads[i..]) + rest == FrameOf(payloads[i]) + behind;
      assert payloads[i..][1..] == payloads[i + 1..];
      ReceiveOne(payloads[i], behind);
      var n := ReceiveTcpFrame(socket, frame, FRAME_MAX);
      ParseOne(payloads[i], frame[..]);
      var message := ParseTcpFrame(frame);
      if message.Some? {
        received := received + [message.value.data];
      }
    }
  }

  /** What is sent for payloads of the size SendModbusData accepts is what FramesOf says, one after the other. */
  method SendAll(payloads: seq<seq<Byte>>) returns (stream: seq<Byte>)
    requires forall i :: 0 <= i < |payloads| ==> |payloads[i]| <= 250
    ensures stream == FramesOf(payloads)
  {
    stream := [];
    assert payloads[0..] == payloads;
    for i := 0 to |payloads|
      invariant stream + FramesOf(payloads[i..]) == FramesOf(payloads)
    {
      assert payloads[i..][1..] == payloads[i + 1..];
      var sent := SendModbusData(payloads[i]);
      stream := stream + sent.value;
    }
  }

  /** What is sent and then received, however the stream is split on the way. */
  method Exchange(payloads: seq<seq<Byte>>) returns (received: seq<seq<Byte>>)
    requires forall i :: 0 <= i < |payloads| ==> |payloads[i]| <= 250
    ensures received == payloads
  {
    var stream := SendAll(payloads);
    var socket := new Socket(stream);
    assert stream == stream + [];
    received := ReceivePayloads(socket, payloads, |payloads|, []);
  }
}
