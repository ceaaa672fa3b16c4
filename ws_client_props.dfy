/** Properties of the current reader, `read_t` in `src/utils/client.rs`:
    how it refuses protocol violations, how it echoes a Close, that it only
    ever writes control frames, and that fragmentation and interleaved pings
    do not change the message it returns. */
module WsClientProperties {
  import opened Wrappers
  import opened Types
  import opened Bytes
  import opened Frames
  import Utf8
  import opened WsClient

  // ----- refusals -----

  /** An unmasked frame from the client ends the read with a refusal, before
      the key or payload is read. */
  lemma UnmaskedFrameRefused(input: seq<byte>, pos: nat, readFault: IoErrorKind, acc: seq<byte>, sent: seq<Reply>)
    requires pos <= |input|
    requires ReadHead(input, pos).HeadOk? && !ReadHead(input, pos).head.masked
    ensures ReadLoop(input, pos, readFault, acc, sent)
         == Outcome(Closed, ReadHead(input, pos).next, sent + [Refuse(NotMasked)])
  {
  }

  /** A control frame announcing more than 125 bytes ends the read with a
      refusal once its key is read; its payload is not read. */
  lemma OversizedControlRefused(input: seq<byte>, pos: nat, readFault: IoErrorKind, acc: seq<byte>, sent: seq<Reply>)
    requires pos <= |input|
    requires ReadHead(input, pos).HeadOk?
    requires var h := ReadHead(input, pos).head;
      h.masked && IsControl(h.opcode) && h.len > 125
    requires ReadHead(input, pos).next + 4 <= |input|
    ensures ReadLoop(input, pos, readFault, acc, sent)
         == Outcome(Closed, ReadHead(input, pos).next + 4, sent + [Refuse(ControlTooLarge)])
  {
  }

  /** A control frame without FIN ends the read with a refusal once its key
      is read; its payload is not read. */
  lemma FragmentedControlRefused(input: seq<byte>, pos: nat, readFault: IoErrorKind, acc: seq<byte>, sent: seq<Reply>)
    requires pos <= |input|
    requires ReadHead(input, pos).HeadOk?
    requires var h := ReadHead(input, pos).head;
      h.masked && IsControl(h.opcode) && h.len <= 125 && !h.fin
    requires ReadHead(input, pos).next + 4 <= |input|
    ensures ReadLoop(input, pos, readFault, acc, sent)
         == Outcome(Closed, ReadHead(input, pos).next + 4, sent + [Refuse(ControlFragmented)])
  {
  }

  /** A frame whose opcode is neither data (0, 1, 2) nor control (8, 9, 10)
      is read in full, then the read ends with a refusal. */
  lemma UnknownOpcodeRefused(input: seq<byte>, pos: nat, readFault: IoErrorKind, acc: seq<byte>, sent: seq<Reply>)
    requires pos <= |input|
    requires ReadHead(input, pos).HeadOk?
    requires var h := ReadHead(input, pos).head;
      h.masked && !IsControl(h.opcode) && !IsData(h.opcode)
    requires ReadHead(input, pos).next + 4 + ReadHead(input, pos).head.len <= |input|
    ensures ReadLoop(input, pos, readFault, acc, sent)
         == Outcome(Closed, ReadHead(input, pos).next + 4 + ReadHead(input, pos).head.len, sent + [Refuse(UnknownOpcode)])
  {
  }

  /** A frame the server itself sends (unmasked text) is refused when it
      comes from a client. */
  lemma ServerFrameRefused(input: seq<byte>, pos: nat, payload: seq<byte>, readFault: IoErrorKind,
                           acc: seq<byte>, sent: seq<Reply>)
    requires |payload| < TwoTo64
    requires pos + |TextFrame(payload)| <= |input| && input[pos..pos + |TextFrame(payload)|] == TextFrame(payload)
    ensures var o := ReadLoop(input, pos, readFault, acc, sent);
      o.status == Closed && o.replies == sent + [Refuse(NotMasked)]
  {
    ReadHeadOfTextFrame(input, pos, payload);
    UnmaskedFrameRefused(input, pos, readFault, acc, sent);
  }

  /** When fewer than two bytes remain, the read ends with nothing written:
      a peer that hung up (end of file, broken pipe) is a close, any other
      failure an error. */
  lemma PeerGone(input: seq<byte>, pos: nat, readFault: IoErrorKind, acc: seq<byte>, sent: seq<Reply>)
    requires pos <= |input| < pos + 2
    ensures var o := ReadLoop(input, pos, readFault, acc, sent);
      && o.pos == |input| && o.replies == sent
      && (o.status == Closed <==> readFault == UnexpectedEof || readFault == BrokenPipe)
      && (o.status != Closed ==> o.status == Failed(Io(readFault)))
  {
    assert sent + [] == sent;
  }

  /** A transmitted refusal is one Close frame with code 1002 and the
      refusal's reason, or nothing when writing fails. */
  lemma RefusalOnWire(writeFault: Option<IoErrorKind>, why: Refusal)
    ensures var t := Transmit(writeFault, [Refuse(why)]);
      && (writeFault.Some? ==> t == [])
      && (writeFault.None? ==>
            && |t| == 4 + |RefusalReason(why)| && t[0] == 0x88 && t[1] == 2 + |RefusalReason(why)|
            && FromBigEndian(t[2..4]) == ProtocolError && t[4..] == RefusalReason(why))
  {
    TransmitOne(writeFault, Refuse(why));
    CloseFrameFields(ProtocolError, RefusalReason(why));
  }

  /** Transmitting a single reply sends its frame. */
  lemma TransmitOne(writeFault: Option<IoErrorKind>, reply: Reply)
    ensures Transmit(writeFault, [reply]) == Emit(writeFault, ReplyFrame(reply))
  {
    assert Emit(writeFault, ReplyFrame(reply)) + [] == Emit(writeFault, ReplyFrame(reply));
  }

  // ----- one well-formed frame -----

  /** A masked frame that passes the control-frame checks and is all there
      reaches the answer by opcode with its unmasked payload. */
  lemma StepOfHead(input: seq<byte>, pos: nat, h: Head, p: nat, readFault: IoErrorKind, acc: seq<byte>)
    requires pos <= |input| && ReadHead(input, pos) == HeadOk(h, p)
    requires h.masked && (IsControl(h.opcode) ==> h.fin && h.len <= 125) && p + 4 + h.len <= |input|
    ensures FrameStep(input, pos, readFault, acc)
         == Dispatch(h, Unmask(input[p + 4..p + 4 + h.len], input[p..p + 4]), p + 4 + h.len, acc)
  {
  }

  /** A well-formed client frame that passes the control-frame checks
      reaches the answer by opcode with its own payload, and the next frame
      starts right after it. */
  lemma StepOfClientFrame(input: seq<byte>, pos: nat, f: ClientFrame, readFault: IoErrorKind, acc: seq<byte>)
    requires WellFormed(f) && (IsControl(f.opcode) ==> f.fin && |f.payload| <= 125)
    requires FrameIn(input, pos, f)
    ensures pos + Size(f) <= |input|
    ensures FrameStep(input, pos, readFault, acc)
         == Dispatch(Head(f.fin, f.opcode, true, |f.payload|), f.payload, pos + Size(f), acc)
  {
    var h := Head(f.fin, f.opcode, true, |f.payload|);
    var p := pos + 1 + |LengthField(|f.payload|)|;
    FrameInParts(input, pos, f);
    StepOfHead(input, pos, h, p, readFault, acc);
  }

  // ----- Close handshake -----

  /** A Close frame from the client. */
  function CloseFrom(mask: seq<byte>, body: seq<byte>): ClientFrame {
    ClientFrame(true, 0x8, mask, body)
  }

  /** A Close of at most 125 bytes ends the read, right after it, with its
      echo as the last reply. */
  lemma CloseEchoed(input: seq<byte>, pos: nat, mask: seq<byte>, body: seq<byte>, readFault: IoErrorKind,
                    acc: seq<byte>, sent: seq<Reply>)
    requires |mask| == 4 && |body| <= 125
    requires var e := EncodeClient(CloseFrom(mask, body));
      pos + |e| <= |input| && input[pos..pos + |e|] == e
    ensures ReadLoop(input, pos, readFault, acc, sent)
         == Outcome(Closed, pos + |EncodeClient(CloseFrom(mask, body))|, sent + [EchoClose(body)])
  {
    var f := CloseFrom(mask, body);
    SliceFrameIn(input, pos, f);
    EncodeClientSize(f);
    StepOfClientFrame(input, pos, f, readFault, acc);
  }

  /** A Close with a code and a well-formed UTF-8 reason is echoed byte for
      byte: same code, same reason. */
  lemma CloseMirrored(body: seq<byte>)
    requires 2 <= |body| <= 125 && Utf8.Valid(body[2..])
    ensures ReplyFrame(EchoClose(body)) == Some(ControlFrame(0x88, body))
  {
    assert Pow256(|body[..2]|) == 0x1_0000;
    FromBigEndianRoundTrip(body[..2]);
    var code := CloseCode(body);
    assert BigEndian(code as nat, 2) == body[..2];
    if |body| > 2 {
      Utf8.LossyOfValid(body[2..]);
    }
    assert CloseReason(body) == body[2..];
    assert BigEndian(code as nat, 2) + CloseReason(body) == body;
  }

  /** A Close without a code (empty, or a lone byte) is answered with the
      normal-closure code 1000 and no reason. */
  lemma CloseWithoutCode(body: seq<byte>)
    requires |body| < 2
    ensures ReplyFrame(EchoClose(body)) == Some([0x88, 2, 0x03, 0xE8])
  {
    assert CloseCode(body) == 1000 && CloseReason(body) == [];
    assert BigEndian(1000, 2) == [0x03, 0xE8];
    assert BigEndian(1000, 2) + [] == [0x03, 0xE8];
    assert ControlFrame(0x88, [0x03, 0xE8]) == [0x88, 2, 0x03, 0xE8];
  }

  /** The echo of a Close is written exactly when the write succeeds and
      the lossy reason fits in 123 bytes; when it does not fit,
      `send_close` refuses it and nothing is written. */
  lemma CloseEchoWrittenIff(writeFault: Option<IoErrorKind>, body: seq<byte>)
    ensures Transmit(writeFault, [EchoClose(body)]) == [] <==> writeFault.Some? || |CloseReason(body)| > 123
  {
    TransmitOne(writeFault, EchoClose(body));
  }

  /** The echo is dropped when the lossy reason no longer fits: a Close
      whose 42-byte reason is all 0xFF (invalid UTF-8) fits in a control
      frame, but each byte becomes a three-byte U+FFFD, `send_close` refuses
      the 128-byte body, and nothing is written. */
  lemma CloseEchoDropped(writeFault: Option<IoErrorKind>)
    ensures var body: seq<byte> := [0x03, 0xE8] + seq(42, _ => 0xFF);
      |body| <= 125 && Transmit(writeFault, [EchoClose(body)]) == []
  {
    var body: seq<byte> := [0x03, 0xE8] + seq(42, _ => 0xFF);
    assert body[2..] == seq(42, _ => 0xFF);
    Utf8.LossyOfStrayBytes(body[2..]);
    assert |CloseReason(body)| == 126;
    CloseEchoWrittenIff(writeFault, body);
  }

  // ----- what a read writes -----

  /** Every reply is sent as a whole Close or Pong frame. */
  lemma ReplyIsControl(writeFault: Option<IoErrorKind>, reply: Reply)
    ensures ControlStream(Emit(writeFault, ReplyFrame(reply)))
  {
    match reply
    case Refuse(why) => RepliesAreControl(ProtocolError, RefusalReason(why), []);
    case EchoClose(body) => RepliesAreControl(CloseCode(body), CloseReason(body), []);
    case AnswerPing(payload) => RepliesAreControl(NormalClosure, [], payload);
  }

  /** Whatever replies a read makes, the bytes it writes are whole Close and
      Pong frames, each with a one-byte length of at most 125: it never
      writes a data frame, and never a partial frame. */
  lemma {:induction false} TransmitIsControl(writeFault: Option<IoErrorKind>, replies: seq<Reply>)
    ensures ControlStream(Transmit(writeFault, replies))
    decreases |replies|
  {
    if replies != [] {
      ReplyIsControl(writeFault, replies[0]);
      TransmitIsControl(writeFault, replies[1..]);
      ControlStreamAppend(Emit(writeFault, ReplyFrame(replies[0])), Transmit(writeFault, replies[1..]));
    }
  }

  // ----- reassembly -----

  /** A frame that may come before the last one of a message: a non-final
      data frame, or a final Ping or Pong small enough to be a control
      frame. */
  predicate Interleavable(f: ClientFrame) {
    (IsData(f.opcode) && !f.fin) || ((f.opcode == 0x9 || f.opcode == 0xA) && f.fin && |f.payload| <= 125)
  }

  /** A message as a client may send it: well-formed frames, the last a
      final data frame, every earlier one interleavable. */
  predicate Run(frames: seq<ClientFrame>) {
    && |frames| >= 1
    && WellFormed(frames[0])
    && if |frames| == 1 then IsData(frames[0].opcode) && frames[0].fin
       else Interleavable(frames[0]) && Run(frames[1..])
  }

  /** How many bytes a client frame takes on the wire: two header bytes,
      the extended length, the key and the payload. */
  function Size(f: ClientFrame): nat {
    (if |f.payload| < 126 then 2 else if |f.payload| <= 65535 then 4 else 10) + 4 + |f.payload|
  }

  lemma EncodeClientSize(f: ClientFrame)
    requires WellFormed(f)
    ensures |EncodeClient(f)| == Size(f)
  {
  }

  /** A frame's encoding lies in the input from `at` on. */
  predicate FrameIn(input: seq<byte>, at: nat, f: ClientFrame)
    requires WellFormed(f)
  {
    && at + Size(f) <= |input|
    && forall i {:trigger EncodeClient(f)[i]} | 0 <= i < Size(f) :: input[at + i] == EncodeClient(f)[i]
  }

  /** How many bytes a sequence of client frames takes on the wire. */
  function Span(frames: seq<ClientFrame>): nat {
    if frames == [] then 0 else Size(frames[0]) + Span(frames[1..])
  }

  /** The frames' encodings lie back to back in the input from `pos` on. */
  predicate Placed(input: seq<byte>, pos: nat, frames: seq<ClientFrame>)
    decreases |frames|
  {
    frames == [] || (WellFormed(frames[0]) && FrameIn(input, pos, frames[0]) && Placed(input, pos + Size(frames[0]), frames[1..]))
  }

  lemma FrameInSlice(input: seq<byte>, at: nat, f: ClientFrame)
    requires WellFormed(f) && FrameIn(input, at, f)
    ensures at + Size(f) <= |input| && input[at..at + |EncodeClient(f)|] == EncodeClient(f)
  {
    var e := EncodeClient(f);
    EncodeClientSize(f);
    forall i | 0 <= i < |e|
      ensures input[at..at + |e|][i] == e[i]
    {
      assert e[i] == e[i];
    }
  }

  lemma SliceFrameIn(input: seq<byte>, at: nat, f: ClientFrame)
    requires WellFormed(f)
    requires at + |EncodeClient(f)| <= |input| && input[at..at + |EncodeClient(f)|] == EncodeClient(f)
    ensures FrameIn(input, at, f)
  {
    var e := EncodeClient(f);
    EncodeClientSize(f);
    forall i | 0 <= i < |e|
      ensures input[at + i] == e[i]
    {
      assert input[at..at + |e|][i] == e[i];
    }
  }

  /** A client frame found in place reads back as its header, then its key,
      then the bytes its key unmasks into its payload. */
  lemma FrameInParts(input: seq<byte>, at: nat, f: ClientFrame)
    requires WellFormed(f) && FrameIn(input, at, f)
    ensures var p := at + 1 + |LengthField(|f.payload|)|;
      && ReadHead(input, at) == HeadOk(Head(f.fin, f.opcode, true, |f.payload|), p)
      && p + 4 + |f.payload| == at + Size(f) <= |input|
      && Unmask(input[p + 4..p + 4 + |f.payload|], input[p..p + 4]) == f.payload
  {
    FrameInSlice(input, at, f);
    ReadHeadOfClientFrame(input, at, f);
  }

  /** The data a frame adds to the message being read. */
  function Carried(f: ClientFrame): seq<byte> {
    if IsData(f.opcode) then f.payload else []
  }

  /** The reply a frame that does not end the read draws: a Pong for a Ping. */
  function Answered(f: ClientFrame): seq<Reply> {
    if f.opcode == 0x9 then [AnswerPing(f.payload)] else []
  }

  /** The data carried by a run: the payloads of its data frames, in order. */
  function Data(frames: seq<ClientFrame>): seq<byte> {
    if frames == [] then [] else Carried(frames[0]) + Data(frames[1..])
  }

  /** The Pongs a run draws: one for each Ping, with the Ping's payload. */
  function Pings(frames: seq<ClientFrame>): seq<Reply> {
    if frames == [] then [] else Answered(frames[0]) + Pings(frames[1..])
  }

  /** The answer by opcode to a frame of a run: the last frame ends the
      read with the message, any other adds its data or its Pong. */
  lemma DispatchInRun(f: ClientFrame, last: bool, next: nat, acc: seq<byte>)
    requires if last then IsData(f.opcode) && f.fin else Interleavable(f)
    ensures Dispatch(Head(f.fin, f.opcode, true, |f.payload|), f.payload, next, acc)
         == if last then Stop(Done(acc + f.payload), next, []) else Next(next, acc + Carried(f), Answered(f))
  {
    assert acc + [] == acc;
  }

  /** A frame of a run, found in place, is read in one turn. */
  lemma RunFrameStep(input: seq<byte>, at: nat, f: ClientFrame, last: bool, readFault: IoErrorKind, acc: seq<byte>)
    requires WellFormed(f) && (if last then IsData(f.opcode) && f.fin else Interleavable(f))
    requires FrameIn(input, at, f)
    ensures at + Size(f) <= |input|
    ensures FrameStep(input, at, readFault, acc)
         == if last then Stop(Done(acc + f.payload), at + Size(f), []) else Next(at + Size(f), acc + Carried(f), Answered(f))
  {
    StepOfClientFrame(input, at, f, readFault, acc);
    DispatchInRun(f, last, at + Size(f), acc);
  }

  /** The read loop takes a frame of a run in one turn: the last frame ends
      it with the message, any other hands on to the next frame. */
  lemma RunTurn(input: seq<byte>, at: nat, f: ClientFrame, last: bool, readFault: IoErrorKind,
                acc: seq<byte>, sent: seq<Reply>)
    requires WellFormed(f) && (if last then IsData(f.opcode) && f.fin else Interleavable(f))
    requires FrameIn(input, at, f)
    ensures at + Size(f) <= |input|
    ensures ReadLoop(input, at, readFault, acc, sent)
         == if last then Outcome(Done(acc + f.payload), at + Size(f), sent)
            else ReadLoop(input, at + Size(f), readFault, acc + Carried(f), sent + Answered(f))
  {
    RunFrameStep(input, at, f, last, readFault, acc);
    if last {
      ReadLoopStop(input, at, readFault, acc, sent, Done(acc + f.payload), at + Size(f), []);
      assert sent + [] == sent;
    } else {
      ReadLoopNext(input, at, readFault, acc, sent, at + Size(f), acc + Carried(f), Answered(f));
    }
  }

  /** Reading a run placed in the input returns the concatenation of its
      data payloads, stops right after its last frame, and answers every
      Ping with a Pong, in order. */
  lemma {:induction false} ReassembleRun(input: seq<byte>, pos: nat, frames: seq<ClientFrame>, readFault: IoErrorKind,
                                         acc: seq<byte>, sent: seq<Reply>)
    requires Run(frames) && Placed(input, pos, frames) && pos <= |input|
    ensures ReadLoop(input, pos, readFault, acc, sent)
         == Outcome(Done(acc + Data(frames)), pos + Span(frames), sent + Pings(frames))
    decreases |frames|
  {
    var f, rest := frames[0], frames[1..];
    var last := |frames| == 1;
    RunTurn(input, pos, f, last, readFault, acc, sent);
    if last {
      assert rest == [];
      assert Span(frames) == Size(f);
      assert Data(frames) == f.payload + [] == f.payload;
      assert Pings(frames) == [] + [] == [];
      assert sent + [] == sent;
    } else {
      ReassembleRun(input, pos + Size(f), rest, readFault, acc + Carried(f), sent + Answered(f));
      AppendAssoc(acc, Carried(f), Data(rest));
      AppendAssoc(sent, Answered(f), Pings(rest));
    }
  }

  /** Fragmentation is invisible: a run reads as the same message as one
      final text frame carrying all its data at once, wherever each is
      placed, and both reads end right after what they read. */
  lemma FragmentationInvisible(frames: seq<ClientFrame>, mask: seq<byte>, input: seq<byte>, pos: nat,
                               input': seq<byte>, pos': nat, readFault: IoErrorKind)
    requires Run(frames) && |mask| == 4 && |Data(frames)| < TwoTo64
    requires pos <= |input| && Placed(input, pos, frames)
    requires pos' <= |input'| && Placed(input', pos', [ClientFrame(true, 0x1, mask, Data(frames))])
    ensures var o, o' := ReadLoop(input, pos, readFault, [], []), ReadLoop(input', pos', readFault, [], []);
      && o.status == o'.status == Done(Data(frames))
      && o.pos == pos + Span(frames)
      && o'.pos == pos' + Size(ClientFrame(true, 0x1, mask, Data(frames)))
  {
    var whole := [ClientFrame(true, 0x1, mask, Data(frames))];
    ReassembleRun(input, pos, frames, readFault, [], []);
    ReassembleRun(input', pos', whole, readFault, [], []);
    assert Data(whole) == Data(frames) + Data([]);
    assert Span(whole) == Size(whole[0]) + Span([]);
  }
}
