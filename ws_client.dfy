/** The current connection wrapper, `src/utils/client.rs`: the `Client`
    record (stream, optional user id, random token), its senders, and
    `read_t`, which reads frames until one whole application message has been
    reassembled, enforcing the server-side rules of RFC 6455 (client frames
    must be masked, control frames are short and unfragmented, unknown
    opcodes fail the connection) and answering control frames on the way. */
module WsClient {
  import opened Wrappers
  import opened Types
  import opened Bytes
  import opened Frames
  import Utf8
  import opened Transport

  /** Close code 1002, protocol error (RFC 6455, section 7.4.1). */
  const ProtocolError: u16 := 1002
  /** Close code 1000, normal closure, echoed when a Close carries no code. */
  const NormalClosure: u16 := 1000

  /** Why `read_t` fails the connection with 1002; the reason is the text
      of its `send_close`. */
  datatype Refusal = NotMasked | ControlTooLarge | ControlFragmented | UnknownOpcode

  /** The reason text of each refusal, as ASCII bytes. */
  function RefusalReason(why: Refusal): (r: seq<byte>)
    ensures |r| <= 123
  {
    match why
    case NotMasked => Ascii("Client frames must be masked")
    case ControlTooLarge => Ascii("Control frame too large")
    case ControlFragmented => Ascii("Control frames must not be fragmented")
    case UnknownOpcode => Ascii("Unsupported opcode")
  }

  /** What `read_t` writes back while reading: a 1002 Close, the echo of a
      Close it received, or the Pong for a Ping. */
  datatype Reply = Refuse(why: Refusal) | EchoClose(body: seq<byte>) | AnswerPing(payload: seq<byte>)

  /** The code of a received Close: its first two payload bytes, big-endian,
      or 1000 when the payload is shorter. */
  function CloseCode(payload: seq<byte>): u16 {
    if |payload| >= 2 then
      assert Pow256(|payload[..2]|) == 0x1_0000;
      FromBigEndian(payload[..2])
    else NormalClosure
  }

  /** The reason of a received Close: the bytes after the code, through
      `String::from_utf8_lossy`. */
  function CloseReason(payload: seq<byte>): seq<byte> {
    if |payload| > 2 then Utf8.Lossy(payload[2..]) else []
  }

  /** The frame a reply is sent as: `send_close(1002, reason)`,
      `send_close(code, reason)` or `send_pong(payload)`; `None` when the
      sender refuses it for being over 125 bytes. */
  function ReplyFrame(reply: Reply): Option<seq<byte>> {
    match reply
    case Refuse(why) => CloseFrame(ProtocolError, RefusalReason(why))
    case EchoClose(body) => CloseFrame(CloseCode(body), CloseReason(body))
    case AnswerPing(payload) => PongFrame(payload)
  }

  /** What a best-effort send (`let _ = self.send_close(..)`) adds to the
      output: the frame, unless the sender refused it or the write failed. */
  function Emit(writeFault: Option<IoErrorKind>, frame: Option<seq<byte>>): seq<byte> {
    if writeFault.None? && frame.Some? then frame.value else []
  }

  /** The bytes a sequence of replies puts on the wire. */
  function Transmit(writeFault: Option<IoErrorKind>, replies: seq<Reply>): seq<byte> {
    if replies == [] then []
    else Emit(writeFault, ReplyFrame(replies[0])) + Transmit(writeFault, replies[1..])
  }

  /** Transmitting two batches of replies writes one after the other. */
  lemma {:induction false} TransmitAppend(writeFault: Option<IoErrorKind>, a: seq<Reply>, b: seq<Reply>)
    ensures Transmit(writeFault, a + b) == Transmit(writeFault, a) + Transmit(writeFault, b)
    decreases |a|
  {
    if a == [] {
      assert a + b == b;
    } else {
      assert (a + b)[1..] == a[1..] + b;
      TransmitAppend(writeFault, a[1..], b);
      AppendAssoc(Emit(writeFault, ReplyFrame(a[0])), Transmit(writeFault, a[1..]), Transmit(writeFault, b));
    }
  }

  /** How a read ends: a whole message, the connection closed (`Ok(None)`),
      or an error. */
  datatype Status = Done(payload: seq<byte>) | Closed | Failed(error: Failure)

  /** A read's end state: how it ended, where the cursor stopped, and every
      reply written to the peer. */
  datatype Outcome = Outcome(status: Status, pos: nat, replies: seq<Reply>)

  /** One turn of the loop of `read_t`: either the read ends here, or it
      goes on at `pos` with `acc` reassembled so far; `reply` is what the
      turn wrote to the peer. */
  datatype Step =
    | Stop(status: Status, pos: nat, reply: seq<Reply>)
    | Next(pos: nat, acc: seq<byte>, reply: seq<Reply>)

  /** One frame of `read_t`, from its header at cursor `pos`. */
  function FrameStep(input: seq<byte>, pos: nat, readFault: IoErrorKind, acc: seq<byte>): (s: Step)
    requires pos <= |input|
    ensures s.Stop? ==> pos <= s.pos <= |input|
    ensures s.Next? ==> pos < s.pos <= |input|
  {
    match ReadHead(input, pos)
    case HeaderShort =>
      Stop(if readFault == UnexpectedEof || readFault == BrokenPipe then Closed else Failed(Io(readFault)), |input|, [])
    case ExtShort => Stop(Failed(Io(readFault)), |input|, [])
    case HeadOk(h, p) => FrameBody(input, h, p, readFault, acc)
  }

  /** The rest of a frame once its header `h` is read and the cursor is at
      `p`: the mask check, the key, the control-frame checks, the payload,
      then the answer by opcode. */
  function FrameBody(input: seq<byte>, h: Head, p: nat, readFault: IoErrorKind, acc: seq<byte>): (s: Step)
    requires p <= |input|
    ensures p <= s.pos <= |input|
  {
    if !h.masked then Stop(Closed, p, [Refuse(NotMasked)])
    else if p + 4 > |input| then Stop(Failed(Io(readFault)), |input|, [])
    else if IsControl(h.opcode) && h.len > 125 then Stop(Closed, p + 4, [Refuse(ControlTooLarge)])
    else if IsControl(h.opcode) && !h.fin then Stop(Closed, p + 4, [Refuse(ControlFragmented)])
    else if p + 4 + h.len > |input| then Stop(Failed(Io(readFault)), |input|, [])
    else
      var payload := Unmask(input[p + 4..p + 4 + h.len], input[p..p + 4]);
      Dispatch(h, payload, p + 4 + h.len, acc)
  }

  /** What `read_t` does with an unmasked payload, by opcode. */
  function Dispatch(h: Head, payload: seq<byte>, next: nat, acc: seq<byte>): (s: Step)
    ensures s.pos == next
  {
    if IsData(h.opcode) then
      if h.fin then Stop(Done(acc + payload), next, [])
      else Next(next, acc + payload, [])
    else if h.opcode == 0x8 then Stop(Closed, next, [EchoClose(payload)])
    else if h.opcode == 0x9 then Next(next, acc, [AnswerPing(payload)])
    else if h.opcode == 0xA then Next(next, acc, [])
    else Stop(Closed, next, [Refuse(UnknownOpcode)])
  }

  /** The loop of `read_t`, frame by frame, from cursor `pos` with `acc`
      reassembled so far and `sent` replied so far: one turn, then what
      that turn leads to. */
  function ReadLoop(input: seq<byte>, pos: nat, readFault: IoErrorKind, acc: seq<byte>, sent: seq<Reply>): (o: Outcome)
    requires pos <= |input|
    ensures pos <= o.pos <= |input|
    decreases |input| - pos, 1
  {
    Resume(input, pos, readFault, FrameStep(input, pos, readFault, acc), sent)
  }

  /** After the turn `step` taken at `pos`: a turn that stops decides the
      outcome, one that goes on hands over to the next frame. */
  function Resume(input: seq<byte>, pos: nat, readFault: IoErrorKind, step: Step, sent: seq<Reply>): (o: Outcome)
    requires pos <= |input|
    requires step.Stop? ==> pos <= step.pos <= |input|
    requires step.Next? ==> pos < step.pos <= |input|
    ensures pos <= o.pos <= |input|
    decreases |input| - pos, 0
  {
    match step
    case Stop(status, next, reply) => Outcome(status, next, sent + reply)
    case Next(next, acc', reply) => ReadLoop(input, next, readFault, acc', sent + reply)
  }

  /** A turn that stops decides the outcome of `ReadLoop`. */
  lemma ReadLoopStop(input: seq<byte>, pos: nat, readFault: IoErrorKind, acc: seq<byte>, sent: seq<Reply>,
                     status: Status, next: nat, reply: seq<Reply>)
    requires pos <= |input| && FrameStep(input, pos, readFault, acc) == Stop(status, next, reply)
    ensures ReadLoop(input, pos, readFault, acc, sent) == Outcome(status, next, sent + reply)
  {
  }

  /** A turn that goes on hands `ReadLoop` over to the next frame. */
  lemma ReadLoopNext(input: seq<byte>, pos: nat, readFault: IoErrorKind, acc: seq<byte>, sent: seq<Reply>,
                     next: nat, acc': seq<byte>, reply: seq<Reply>)
    requires pos <= |input| && FrameStep(input, pos, readFault, acc) == Next(next, acc', reply)
    ensures next <= |input|
    ensures ReadLoop(input, pos, readFault, acc, sent) == ReadLoop(input, next, readFault, acc', sent + reply)
  {
  }

  /** What `read_t` returns for each way the loop ends. */
  function Report<T>(status: Status, parse: seq<byte> -> Option<T>): Result<Option<WsMessage<T>>, Failure> {
    match status
    case Done(payload) => Ok(Some(Classify(payload, parse)))
    case Closed => Ok(None)
    case Failed(e) => Err(e)
  }

  /** The header part of the loop of `read_t`: two bytes, then the 16- or
      64-bit extended length when the 7-bit length is 126 or 127. */
  method ReadHeader(stream: Stream) returns (r: HeadRead)
    requires stream.Valid()
    modifies stream`pos
    ensures stream.Valid()
    ensures r == ReadHead(stream.input, old(stream.pos))
    ensures r.HeadOk? ==> stream.pos == r.next
    ensures !r.HeadOk? ==> stream.pos == |stream.input|
  {
    var header := stream.ReadExact(2);
    if header.Err? {
      return HeaderShort;
    }
    var fin := Fin(header.value[0]);
    var opcode := Opcode(header.value[0]);
    var masked := MaskBit(header.value[1]);
    var payloadLen := Len7(header.value[1]);
    if payloadLen == 126 {
      var ext := stream.ReadExact(2);
      if ext.Err? {
        return ExtShort;
      }
      payloadLen := FromBigEndian(ext.value);
    } else if payloadLen == 127 {
      var ext := stream.ReadExact(8);
      if ext.Err? {
        return ExtShort;
      }
      payloadLen := FromBigEndian(ext.value);
    }
    return HeadOk(Head(fin, opcode, masked, payloadLen), stream.pos);
  }

  /** The payload part of the loop of `read_t`: a zeroed buffer of the
      announced length, filled by `read_exact` (skipped when empty) and
      unmasked in place. */
  method ReadPayload(stream: Stream, len: nat, mask: seq<byte>) returns (r: Result<seq<byte>, IoErrorKind>)
    requires stream.Valid() && |mask| == 4
    modifies stream`pos
    ensures stream.Valid()
    ensures old(stream.pos) + len <= |stream.input| ==>
      r == Ok(Unmask(stream.input[old(stream.pos)..old(stream.pos) + len], mask)) && stream.pos == old(stream.pos) + len
    ensures old(stream.pos) + len > |stream.input| ==> r == Err(stream.readFault) && stream.pos == |stream.input|
  {
    var buffer := new byte[len](i => 0);
    if len > 0 {
      var bytes := stream.ReadExact(len);
      if bytes.Err? {
        return Err(bytes.error);
      }
      forall i | 0 <= i < len {
        buffer[i] := bytes.value[i];
      }
      assert buffer[..] == bytes.value;
      UnmaskInPlace(buffer, mask);
      assert buffer[..] == Unmask(bytes.value, mask);
    } else {
      assert stream.input[stream.pos..stream.pos] == [];
      assert buffer[..] == Unmask([], mask);
    }
    return Ok(buffer[..]);
  }

  /** The body of `send` in both codecs: the header `Vec` (0x81, then the
      length field), written, then the payload bytes. */
  method WriteText(stream: Stream, payload: seq<byte>) returns (r: Result<(), Failure>)
    modifies stream`output
    ensures stream.writeFault.None? ==> r == Ok(()) && stream.output == old(stream.output) + TextFrame(payload)
    ensures stream.writeFault.Some? ==> r == Err(Io(stream.writeFault.value)) && stream.output == old(stream.output)
  {
    var len := |payload|;
    var header := [0x81];
    if len < 126 {
      header := header + [len];
    } else if len <= 65535 {
      header := header + [126] + BigEndian(len, 2);
      assert header == [0x81] + ([126] + BigEndian(len, 2));
    } else {
      header := header + [127] + BigEndian(len % TwoTo64, 8);
      assert header == [0x81] + ([127] + BigEndian(len % TwoTo64, 8));
    }
    assert header == [0x81] + LengthField(len);
    var w := stream.WriteAll(header);
    if w.Err? {
      return Err(Io(w.error));
    }
    w := stream.WriteAll(payload);
    if w.Err? {
      // the stream refuses either every write or none
      assert false;
    }
    assert stream.output == old(stream.output) + TextFrame(payload) by {
      AppendAssoc(old(stream.output), header, payload);
    }
    return Ok(());
  }

  /** `utils::client::Client(TcpStream, Option<String>, u64)`. */
  class Client {
    /** The TCP stream; clones of a client share it. */
    const stream: Stream
    /** The authenticated user id, once set. */
    var uuid: Option<string>
    /** The random per-connection token that decides equality and hashing. */
    const token: u64

    /** `Client::new` after the handshake: no user id yet, and the token
        `rand::random()` drew. */
    constructor (stream: Stream, token: u64)
      ensures this.stream == stream && this.token == token && uuid == None
    {
      this.stream := stream;
      this.token := token;
      uuid := None;
    }

    /** `send_close`: refuses a body over 125 bytes, else writes one
        unmasked Close frame. */
    method SendClose(code: u16, reason: seq<byte>) returns (r: Result<(), Failure>)
      modifies stream`output
      ensures stream.output == old(stream.output) + Emit(stream.writeFault, CloseFrame(code, reason))
      ensures r == if CloseFrame(code, reason).None? then Err(CloseReasonTooLong)
                   else if stream.writeFault.Some? then Err(Io(stream.writeFault.value))
                   else Ok(())
    {
      var payload := BigEndian(code, 2) + reason;
      if |payload| > 125 {
        return Err(CloseReasonTooLong);
      }
      var frame := [0x88, |payload|] + payload;
      var w := stream.WriteAll(frame);
      if w.Err? {
        return Err(Io(w.error));
      }
      return Ok(());
    }

    /** `send_pong`: refuses a payload over 125 bytes, else writes one
        unmasked Pong frame carrying it. */
    method SendPong(payload: seq<byte>) returns (r: Result<(), Failure>)
      modifies stream`output
      ensures stream.output == old(stream.output) + Emit(stream.writeFault, PongFrame(payload))
      ensures r == if PongFrame(payload).None? then Err(PongPayloadTooLong)
                   else if stream.writeFault.Some? then Err(Io(stream.writeFault.value))
                   else Ok(())
    {
      if |payload| > 125 {
        return Err(PongPayloadTooLong);
      }
      var frame := [0x8A, |payload|] + payload;
      var w := stream.WriteAll(frame);
      if w.Err? {
        return Err(Io(w.error));
      }
      return Ok(());
    }

    /** `send`: writes the serialised message as one unmasked text frame,
        header first, then the payload. */
    method Send(payload: seq<byte>) returns (r: Result<(), Failure>)
      modifies stream`output
      ensures stream.writeFault.None? ==> r == Ok(()) && stream.output == old(stream.output) + TextFrame(payload)
      ensures stream.writeFault.Some? ==> r == Err(Io(stream.writeFault.value)) && stream.output == old(stream.output)
    {
      r := WriteText(stream, payload);
    }

    /** One turn of the loop of `read_t`: the header, then the rest of the
        frame. `status` is how the read ends here, or `None` when it goes on
        with `acc'`. */
    method ReadFrame(acc: seq<byte>) returns (status: Option<Status>, acc': seq<byte>, ghost step: Step)
      requires stream.Valid()
      modifies stream`pos, stream`output
      ensures stream.Valid()
      ensures step == FrameStep(stream.input, old(stream.pos), stream.readFault, acc)
      ensures stream.pos == step.pos && stream.output == old(stream.output) + Transmit(stream.writeFault, step.reply)
      ensures step.Stop? ==> status == Some(step.status)
      ensures step.Next? ==> status == None && acc' == step.acc
    {
      acc' := acc;
      var head := ReadHeader(stream);
      if head.HeaderShort? {
        if stream.readFault == UnexpectedEof || stream.readFault == BrokenPipe {
          status := Some(Closed);
        } else {
          status := Some(Failed(Io(stream.readFault)));
        }
        step := Stop(status.value, stream.pos, []);
      } else if head.ExtShort? {
        status := Some(Failed(Io(stream.readFault)));
        step := Stop(status.value, stream.pos, []);
      } else {
        status, acc', step := ReadBody(head.head, acc);
      }
    }

    /** The rest of one turn once the header `h` is read: the mask check,
        the key, the control-frame checks, the payload, then the answer by
        opcode. */
    method ReadBody(h: Head, acc: seq<byte>) returns (status: Option<Status>, acc': seq<byte>, ghost step: Step)
      requires stream.Valid()
      modifies stream`pos, stream`output
      ensures stream.Valid()
      ensures step == FrameBody(stream.input, h, old(stream.pos), stream.readFault, acc)
      ensures stream.pos == step.pos && stream.output == old(stream.output) + Transmit(stream.writeFault, step.reply)
      ensures step.Stop? ==> status == Some(step.status)
      ensures step.Next? ==> status == None && acc' == step.acc
    {
      acc' := acc;
      if !h.masked {
        status, step := RefuseFrame(NotMasked);
        return;
      }
      var mask := stream.ReadExact(4);
      if mask.Err? {
        status := Some(Failed(Io(mask.error)));
        step := Stop(status.value, stream.pos, []);
        return;
      }

      if IsControl(h.opcode) {
        if h.len > 125 {
          status, step := RefuseFrame(ControlTooLarge);
          return;
        }
        if !h.fin {
          status, step := RefuseFrame(ControlFragmented);
          return;
        }
      }

      var payload := ReadPayload(stream, h.len, mask.value);
      if payload.Err? {
        status := Some(Failed(Io(payload.error)));
        step := Stop(status.value, stream.pos, []);
        return;
      }
      status, acc', step := Answer(h, payload.value, acc);
    }

    /** `let _ = self.send_close(1002, reason); return Ok(None)`: the read
        ends with the connection closed after one refusal. */
    method RefuseFrame(why: Refusal) returns (status: Option<Status>, ghost step: Step)
      modifies stream`output
      ensures status == Some(Closed) && step == Stop(Closed, stream.pos, [Reply.Refuse(why)])
      ensures stream.output == old(stream.output) + Transmit(stream.writeFault, step.reply)
    {
      var ignored := SendClose(ProtocolError, RefusalReason(why));
      status := Some(Closed);
      step := Stop(Closed, stream.pos, [Reply.Refuse(why)]);
      assert Transmit(stream.writeFault, step.reply) == Emit(stream.writeFault, ReplyFrame(Reply.Refuse(why))) + [];
    }

    /** The end of one turn of `read_t`: a data frame extends the message
        (and ends the read when FIN is set), a Close is echoed, a Ping
        answered with a Pong, a Pong ignored, any other opcode refused. */
    method Answer(h: Head, payload: seq<byte>, acc: seq<byte>) returns (status: Option<Status>, acc': seq<byte>, ghost step: Step)
      modifies stream`output
      ensures step == Dispatch(h, payload, stream.pos, acc)
      ensures stream.output == old(stream.output) + Transmit(stream.writeFault, step.reply)
      ensures step.Stop? ==> status == Some(step.status)
      ensures step.Next? ==> status == None && acc' == step.acc
    {
      acc' := acc;
      if IsData(h.opcode) {
        acc' := acc + payload;
        if h.fin {
          status := Some(Done(acc'));
          step := Stop(Done(acc'), stream.pos, []);
        } else {
          status := None;
          step := Next(stream.pos, acc', []);
        }
      } else if h.opcode == 0x8 {
        var code := CloseCode(payload);
        var reason := CloseReason(payload);
        var ignored := SendClose(code, reason);
        status := Some(Closed);
        step := Stop(Closed, stream.pos, [EchoClose(payload)]);
        assert Transmit(stream.writeFault, step.reply) == Emit(stream.writeFault, ReplyFrame(EchoClose(payload))) + [];
      } else if h.opcode == 0x9 {
        var ignored := SendPong(payload);
        status := None;
        step := Next(stream.pos, acc', [AnswerPing(payload)]);
        assert Transmit(stream.writeFault, step.reply) == Emit(stream.writeFault, ReplyFrame(AnswerPing(payload))) + [];
      } else if h.opcode == 0xA {
        status := None;
        step := Next(stream.pos, acc', []);
      } else {
        status, step := RefuseFrame(UnknownOpcode);
      }
    }

    /** `read_t` (and `read`, its instance at `ClientMessage`): the loop of
        `ReadLoop` over the stream, then the classification of the payload.
        The replies the loop makes are written to the stream as they come. */
    method ReadT<T>(parse: seq<byte> -> Option<T>) returns (r: Result<Option<WsMessage<T>>, Failure>)
      requires stream.Valid()
      modifies stream
      ensures stream.Valid()
      ensures var o := ReadLoop(stream.input, old(stream.pos), stream.readFault, [], []);
        && stream.pos == o.pos
        && stream.output == old(stream.output) + Transmit(stream.writeFault, o.replies)
        && r == Report(o.status, parse)
    {
      ghost var goal := ReadLoop(stream.input, stream.pos, stream.readFault, [], []);
      ghost var sent: seq<Reply> := [];
      ghost var before := stream.output;
      var messagePayload: seq<byte> := [];
      while true
        invariant stream.Valid()
        invariant ReadLoop(stream.input, stream.pos, stream.readFault, messagePayload, sent) == goal
        invariant stream.output == before + Transmit(stream.writeFault, sent)
        decreases |stream.input| - stream.pos
      {
        ghost var pos := stream.pos;
        var status, acc, step := ReadFrame(messagePayload);
        TransmitAppend(stream.writeFault, sent, step.reply);
        AppendAssoc(before, Transmit(stream.writeFault, sent), Transmit(stream.writeFault, step.reply));
        if status.Some? {
          ReadLoopStop(stream.input, pos, stream.readFault, messagePayload, sent, step.status, step.pos, step.reply);
          return Report(status.value, parse);
        }
        ReadLoopNext(stream.input, pos, stream.readFault, messagePayload, sent, step.pos, step.acc, step.reply);
        messagePayload := acc;
        sent := sent + step.reply;
      }
    }

    /** `get_uuid`: the user id once set, else an error naming the token. */
    function GetUuid(): (r: Result<string, Failure>)
      reads this
      ensures r.Ok? <==> uuid.Some?
      ensures r.Ok? ==> r.value == uuid.value
      ensures r.Err? ==> r.error == UuidNotSet(token)
    {
      match uuid
      case Some(v) => Ok(v)
      case None => Err(UuidNotSet(token))
    }

    /** `set_uuid`: records the user id; `get_uuid` then returns it. */
    method SetUuid(id: string)
      modifies this`uuid
      ensures uuid == Some(id)
      ensures GetUuid() == Ok(id)
    {
      uuid := Some(id);
    }

    /** `PartialEq`: two clients are the same connection when their tokens
        agree, whatever their streams and user ids. */
    function Equals(other: Client): (r: bool)
      ensures r <==> HashKey() == other.HashKey()
    {
      token == other.token
    }

    /** `Hash`: only the token is fed to the hasher. */
    function HashKey(): u64 {
      token
    }
  }
}
