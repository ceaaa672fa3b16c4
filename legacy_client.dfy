/** The earlier connection wrapper, `src/client.rs`: the same framing as the
    current codec with a laxer policy. Masking is optional, Close ends the
    read without an answer, Ping and Pong are skipped without an answer,
    only an unknown opcode is an error, and a failure to read a header is
    taken for a closed connection. */
module LegacyClient {
  import opened Wrappers
  import opened Types
  import opened Bytes
  import opened Frames
  import opened Transport
  import opened WsClient

  /** One turn of the loop of the legacy `read`: the read ends here with
      `status`, or goes on at `pos` with `acc` reassembled so far. */
  datatype Turn = End(status: Status, pos: nat) | More(pos: nat, acc: seq<byte>)

  /** How a legacy read ends, and where the cursor stopped. */
  datatype Ending = Ending(status: Status, pos: nat)

  /** One frame of the legacy `read`, from its header at cursor `pos`. */
  function LegacyFrame(input: seq<byte>, pos: nat, readFault: IoErrorKind, acc: seq<byte>): (t: Turn)
    requires pos <= |input|
    ensures t.End? ==> pos <= t.pos <= |input|
    ensures t.More? ==> pos < t.pos <= |input|
  {
    match ReadHead(input, pos)
    case HeaderShort => End(Closed, |input|)
    case ExtShort => End(Failed(Io(readFault)), |input|)
    case HeadOk(h, p) => LegacyBody(input, h, p, readFault, acc)
  }

  /** The rest of a legacy frame once its header `h` is read and the cursor
      is at `p`: with the mask bit set, the 4-byte key and the payload it
      unmasks; without it, the payload as it stands. Then the answer by
      opcode. */
  function LegacyBody(input: seq<byte>, h: Head, p: nat, readFault: IoErrorKind, acc: seq<byte>): (t: Turn)
    requires p <= |input|
    ensures p <= t.pos <= |input|
  {
    if h.masked then
      if p + 4 + h.len > |input| then End(Failed(Io(readFault)), |input|)
      else LegacyDispatch(h, Unmask(input[p + 4..p + 4 + h.len], input[p..p + 4]), p + 4 + h.len, acc)
    else
      if p + h.len > |input| then End(Failed(Io(readFault)), |input|)
      else LegacyDispatch(h, input[p..p + h.len], p + h.len, acc)
  }

  /** What the legacy `read` does with a payload, by opcode. */
  function LegacyDispatch(h: Head, payload: seq<byte>, next: nat, acc: seq<byte>): (t: Turn)
    ensures t.pos == next
  {
    if IsData(h.opcode) then
      if h.fin then End(Done(acc + payload), next) else More(next, acc + payload)
    else if h.opcode == 0x8 then End(Closed, next)
    else if h.opcode == 0x9 || h.opcode == 0xA then More(next, acc)
    else End(Failed(UnsupportedOpcode(h.opcode)), next)
  }

  /** The `match` on the opcode in the legacy `read`: data is added to the
      message (and ends it when FIN is set), Close and an unknown opcode end
      the read, Ping and Pong are skipped. */
  method Answer(h: Head, payload: seq<byte>, next: nat, acc: seq<byte>)
    returns (exit: Option<Status>, acc': seq<byte>, final: bool, ghost t: Turn)
    ensures t == LegacyDispatch(h, payload, next, acc)
    ensures exit.Some? ==> t == End(exit.value, next)
    ensures exit.None? && final ==> t == End(Done(acc'), next)
    ensures exit.None? && !final ==> t == More(next, acc')
  {
    acc', final := acc, false;
    if IsData(h.opcode) {
      exit, acc', final := None, acc + payload, h.fin;
      t := if h.fin then End(Done(acc'), next) else More(next, acc');
    } else if h.opcode == 0x8 {
      exit := Some(Closed);
      t := End(Closed, next);
    } else if h.opcode == 0x9 || h.opcode == 0xA {
      exit := None;
      t := More(next, acc);
    } else {
      exit := Some(Failed(UnsupportedOpcode(h.opcode)));
      t := End(exit.value, next);
    }
  }

  /** The loop of the legacy `read`, frame by frame, from cursor `pos` with
      `acc` reassembled so far. */
  function LegacyLoop(input: seq<byte>, pos: nat, readFault: IoErrorKind, acc: seq<byte>): (e: Ending)
    requires pos <= |input|
    ensures pos <= e.pos <= |input|
    decreases |input| - pos, 1
  {
    LegacyResume(input, pos, readFault, LegacyFrame(input, pos, readFault, acc))
  }

  /** After the turn `t` taken at `pos`: a turn that ends decides the
      result, one that goes on hands over to the next frame. */
  function LegacyResume(input: seq<byte>, pos: nat, readFault: IoErrorKind, t: Turn): (e: Ending)
    requires pos <= |input|
    requires t.End? ==> pos <= t.pos <= |input|
    requires t.More? ==> pos < t.pos <= |input|
    ensures pos <= e.pos <= |input|
    decreases |input| - pos, 0
  {
    match t
    case End(status, next) => Ending(status, next)
    case More(next, acc') => LegacyLoop(input, next, readFault, acc')
  }

  /** A turn that ends decides the outcome of `LegacyLoop`. */
  lemma LegacyLoopEnd(input: seq<byte>, pos: nat, readFault: IoErrorKind, acc: seq<byte>, status: Status, next: nat)
    requires pos <= |input| && LegacyFrame(input, pos, readFault, acc) == End(status, next)
    ensures LegacyLoop(input, pos, readFault, acc) == Ending(status, next)
  {
  }

  /** A turn that goes on hands `LegacyLoop` over to the next frame. */
  lemma LegacyLoopMore(input: seq<byte>, pos: nat, readFault: IoErrorKind, acc: seq<byte>, next: nat, acc': seq<byte>)
    requires pos <= |input| && LegacyFrame(input, pos, readFault, acc) == More(next, acc')
    ensures next <= |input|
    ensures LegacyLoop(input, pos, readFault, acc) == LegacyLoop(input, next, readFault, acc')
  {
  }

  /** The address `peer_addr()` reports for a socket. */
  datatype SocketAddr = SocketAddr(ip: seq<byte>, port: u16)

  /** `client::Client(TcpStream)`. */
  class LegacyClient {
    /** The TCP stream; clones of a client share it. */
    const stream: Stream
    /** What `peer_addr()` reports for the stream. */
    const peer: SocketAddr

    /** `Client::new` after the handshake. */
    constructor (stream: Stream, peer: SocketAddr)
      ensures this.stream == stream && this.peer == peer
    {
      this.stream := stream;
      this.peer := peer;
    }

    /** `send`: the same unmasked text frame as the current codec. */
    method Send(payload: seq<byte>) returns (r: Result<(), Failure>)
      modifies stream`output
      ensures stream.writeFault.None? ==> r == Ok(()) && stream.output == old(stream.output) + TextFrame(payload)
      ensures stream.writeFault.Some? ==> r == Err(Io(stream.writeFault.value)) && stream.output == old(stream.output)
    {
      r := WriteText(stream, payload);
    }

    /** One turn of the loop of `read`. `exit` is an early return
        (`Ok(None)` or an error); otherwise the turn leaves `acc'` and
        `final`, the FIN bit when the frame was a data frame. */
    method ReadFrame(acc: seq<byte>) returns (exit: Option<Status>, acc': seq<byte>, final: bool, ghost t: Turn)
      requires stream.Valid()
      modifies stream`pos
      ensures stream.Valid()
      ensures t == LegacyFrame(stream.input, old(stream.pos), stream.readFault, acc) && stream.pos == t.pos
      ensures exit.Some? ==> t == End(exit.value, t.pos)
      ensures exit.None? && final ==> t == End(Done(acc'), t.pos)
      ensures exit.None? && !final ==> t == More(t.pos, acc')
    {
      var head := ReadHeader(stream);
      if head.HeaderShort? {
        exit, acc', final := Some(Closed), acc, false;
        t := End(Closed, stream.pos);
        return;
      }
      if head.ExtShort? {
        exit, acc', final := Some(Failed(Io(stream.readFault))), acc, false;
        t := End(exit.value, stream.pos);
        return;
      }
      exit, acc', final, t := ReadRest(head.head, acc);
    }

    /** The rest of one turn once the header `h` is read: the key when the
        mask bit is set, the payload, the unmasking, then the answer by
        opcode. */
    method ReadRest(h: Head, acc: seq<byte>) returns (exit: Option<Status>, acc': seq<byte>, final: bool, ghost t: Turn)
      requires stream.Valid()
      modifies stream`pos
      ensures stream.Valid()
      ensures t == LegacyBody(stream.input, h, old(stream.pos), stream.readFault, acc) && stream.pos == t.pos
      ensures exit.Some? ==> t == End(exit.value, t.pos)
      ensures exit.None? && final ==> t == End(Done(acc'), t.pos)
      ensures exit.None? && !final ==> t == More(t.pos, acc')
    {
      ghost var p := stream.pos;
      acc', final := acc, false;
      var payload: seq<byte>;
      if h.masked {
        var mask := stream.ReadExact(4);
        if mask.Err? {
          exit := Some(Failed(Io(mask.error)));
          t := End(exit.value, stream.pos);
          return;
        }
        var bytes := ReadPayload(stream, h.len, mask.value);
        if bytes.Err? {
          exit := Some(Failed(Io(bytes.error)));
          t := End(exit.value, stream.pos);
          return;
        }
        payload := bytes.value;
      } else {
        var bytes := stream.ReadExact(h.len);
        if bytes.Err? {
          exit := Some(Failed(Io(bytes.error)));
          t := End(exit.value, stream.pos);
          return;
        }
        payload := bytes.value;
      }
      exit, acc', final, t := Answer(h, payload, stream.pos, acc);
    }

    /** `read`: frames until a data frame with FIN set, then the
        classification of the payload. It never writes to the peer. */
    method Read<T>(parse: seq<byte> -> Option<T>) returns (r: Result<Option<WsMessage<T>>, Failure>)
      requires stream.Valid()
      modifies stream`pos
      ensures stream.Valid()
      ensures var e := LegacyLoop(stream.input, old(stream.pos), stream.readFault, []);
        stream.pos == e.pos && r == Report(e.status, parse)
      ensures stream.output == old(stream.output)
    {
      ghost var goal := LegacyLoop(stream.input, stream.pos, stream.readFault, []);
      var messagePayload: seq<byte> := [];
      var finalFrame := false;
      while !finalFrame
        invariant stream.Valid()
        invariant !finalFrame ==> LegacyLoop(stream.input, stream.pos, stream.readFault, messagePayload) == goal
        invariant finalFrame ==> goal == Ending(Done(messagePayload), stream.pos)
        decreases |stream.input| - stream.pos, !finalFrame
      {
        ghost var pos := stream.pos;
        var exit, acc, fin, t := ReadFrame(messagePayload);
        if exit.Some? {
          LegacyLoopEnd(stream.input, pos, stream.readFault, messagePayload, exit.value, t.pos);
          return Report(exit.value, parse);
        }
        if fin {
          LegacyLoopEnd(stream.input, pos, stream.readFault, messagePayload, Done(acc), t.pos);
        } else {
          LegacyLoopMore(stream.input, pos, stream.readFault, messagePayload, t.pos, acc);
        }
        messagePayload := acc;
        finalFrame := fin;
      }
      return Ok(Some(Classify(messagePayload, parse)));
    }

    /** `PartialEq`: two clients are the same when their streams report the
        same peer address. */
    function Equals(other: LegacyClient): (r: bool)
      ensures r <==> HashKey() == other.HashKey()
    {
      peer == other.peer
    }

    /** `Hash`: only the peer address is fed to the hasher. */
    function HashKey(): SocketAddr {
      peer
    }
  }
}
