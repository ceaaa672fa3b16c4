/** Properties of the legacy reader, `read` in `src/client.rs`, each set
    beside what the current reader does with the same bytes: both agree on
    every message a well-behaved client sends, and differ on the frames the
    current reader refuses. */
module LegacyProperties {
  import opened Types
  import opened Bytes
  import opened Frames
  import opened WsClient
  import opened WsClientProperties
  import opened LegacyClient

  // ----- one well-formed frame -----

  /** A frame that is all there and has its mask bit set reaches the answer
      by opcode with the payload its key unmasks. */
  lemma LegacyStepOfHead(input: seq<byte>, pos: nat, h: Head, p: nat, readFault: IoErrorKind, acc: seq<byte>)
    requires pos <= |input| && ReadHead(input, pos) == HeadOk(h, p)
    requires h.masked && p + 4 + h.len <= |input|
    ensures LegacyFrame(input, pos, readFault, acc)
         == LegacyDispatch(h, Unmask(input[p + 4..p + 4 + h.len], input[p..p + 4]), p + 4 + h.len, acc)
  {
  }

  /** A well-formed client frame found in place reaches the answer by opcode
      with its own payload, whatever its opcode, FIN bit or length, and the
      next frame starts right after it. */
  lemma LegacyStepOfClientFrame(input: seq<byte>, pos: nat, f: ClientFrame, readFault: IoErrorKind, acc: seq<byte>)
    requires WellFormed(f) && FrameIn(input, pos, f)
    ensures pos + Size(f) <= |input|
    ensures LegacyFrame(input, pos, readFault, acc)
         == LegacyDispatch(Head(f.fin, f.opcode, true, |f.payload|), f.payload, pos + Size(f), acc)
  {
    var h := Head(f.fin, f.opcode, true, |f.payload|);
    var p := pos + 1 + |LengthField(|f.payload|)|;
    FrameInParts(input, pos, f);
    LegacyStepOfHead(input, pos, h, p, readFault, acc);
  }

  // ----- where the two readers part -----

  /** A frame the server itself sends (unmasked text) is accepted as a whole
      message by the legacy reader, while the current reader refuses it. */
  lemma ServerFrameSplitsReaders(input: seq<byte>, pos: nat, payload: seq<byte>, readFault: IoErrorKind,
                                 acc: seq<byte>, sent: seq<Reply>)
    requires |payload| < TwoTo64
    requires pos + |TextFrame(payload)| <= |input| && input[pos..pos + |TextFrame(payload)|] == TextFrame(payload)
    ensures LegacyLoop(input, pos, readFault, acc) == Ending(Done(acc + payload), pos + |TextFrame(payload)|)
    ensures var o := ReadLoop(input, pos, readFault, acc, sent);
      o.status == Closed && o.replies == sent + [Refuse(NotMasked)]
  {
    ReadHeadOfTextFrame(input, pos, payload);
    ServerFrameRefused(input, pos, payload, readFault, acc, sent);
  }

  /** When fewer than two bytes remain, the legacy reader reports a close
      whatever the failure was; the current reader does so only for a peer
      that hung up. */
  lemma HeaderLossSplitsReaders(input: seq<byte>, pos: nat, readFault: IoErrorKind, acc: seq<byte>, sent: seq<Reply>)
    requires pos <= |input| < pos + 2
    ensures LegacyLoop(input, pos, readFault, acc) == Ending(Closed, |input|)
    ensures ReadLoop(input, pos, readFault, acc, sent).status == Closed
        <==> readFault == UnexpectedEof || readFault == BrokenPipe
  {
    PeerGone(input, pos, readFault, acc, sent);
  }

  /** A frame cut short after its first two bytes (in the extended length,
      the key or the payload) is an I/O error for the legacy reader, and the
      cursor ends at the end of the input. */
  lemma LegacyTruncatedFrame(input: seq<byte>, pos: nat, readFault: IoErrorKind, acc: seq<byte>)
    requires pos <= |input|
    requires var r := ReadHead(input, pos);
      r.ExtShort? || (r.HeadOk? && r.next + (if r.head.masked then 4 else 0) + r.head.len > |input|)
    ensures LegacyLoop(input, pos, readFault, acc) == Ending(Failed(Io(readFault)), |input|)
  {
  }

  /** A Close from the client ends the legacy read at once, whatever its
      length or FIN bit, with nothing to answer; the current reader echoes a
      well-formed Close instead. */
  lemma LegacyCloseSilent(input: seq<byte>, pos: nat, f: ClientFrame, readFault: IoErrorKind, acc: seq<byte>)
    requires WellFormed(f) && f.opcode == 0x8 && FrameIn(input, pos, f)
    ensures LegacyLoop(input, pos, readFault, acc) == Ending(Closed, pos + Size(f))
  {
    LegacyStepOfClientFrame(input, pos, f, readFault, acc);
  }

  /** A Ping or Pong of any length and FIN bit is skipped by the legacy
      reader, which answers nothing and keeps what it has reassembled. */
  lemma LegacyControlSkipped(input: seq<byte>, pos: nat, f: ClientFrame, readFault: IoErrorKind, acc: seq<byte>)
    requires WellFormed(f) && (f.opcode == 0x9 || f.opcode == 0xA) && FrameIn(input, pos, f)
    ensures pos + Size(f) <= |input|
    ensures LegacyLoop(input, pos, readFault, acc) == LegacyLoop(input, pos + Size(f), readFault, acc)
  {
    LegacyStepOfClientFrame(input, pos, f, readFault, acc);
    LegacyLoopMore(input, pos, readFault, acc, pos + Size(f), acc);
  }

  /** A Ping over 125 bytes: the legacy reader skips it, the current reader
      refuses it with a Close once its key is read. */
  lemma OversizedPingSplitsReaders(input: seq<byte>, pos: nat, f: ClientFrame, readFault: IoErrorKind,
                                   acc: seq<byte>, sent: seq<Reply>)
    requires WellFormed(f) && f.opcode == 0x9 && |f.payload| > 125 && FrameIn(input, pos, f)
    ensures pos + Size(f) <= |input|
    ensures LegacyLoop(input, pos, readFault, acc) == LegacyLoop(input, pos + Size(f), readFault, acc)
    ensures ReadLoop(input, pos, readFault, acc, sent)
         == Outcome(Closed, pos + Size(f) - |f.payload|, sent + [Refuse(ControlTooLarge)])
  {
    LegacyControlSkipped(input, pos, f, readFault, acc);
    FrameInParts(input, pos, f);
    OversizedControlRefused(input, pos, readFault, acc, sent);
  }

  /** A frame with an opcode that is neither data nor Close, Ping or Pong is
      read in full, then the legacy read fails with that opcode; the current
      reader refuses it with a Close instead. */
  lemma UnknownOpcodeSplitsReaders(input: seq<byte>, pos: nat, readFault: IoErrorKind, acc: seq<byte>, sent: seq<Reply>)
    requires pos <= |input|
    requires ReadHead(input, pos).HeadOk?
    requires var h := ReadHead(input, pos).head;
      h.masked && !IsControl(h.opcode) && !IsData(h.opcode)
    requires ReadHead(input, pos).next + 4 + ReadHead(input, pos).head.len <= |input|
    ensures var r := ReadHead(input, pos);
      LegacyLoop(input, pos, readFault, acc)
      == Ending(Failed(UnsupportedOpcode(r.head.opcode)), r.next + 4 + r.head.len)
    ensures ReadLoop(input, pos, readFault, acc, sent).status == Closed
  {
    UnknownOpcodeRefused(input, pos, readFault, acc, sent);
  }

  // ----- where the two readers agree -----

  /** A frame of a run, found in place, is read by the legacy loop in one
      turn. */
  lemma LegacyRunFrameStep(input: seq<byte>, at: nat, f: ClientFrame, last: bool, readFault: IoErrorKind, acc: seq<byte>)
    requires WellFormed(f) && (if last then IsData(f.opcode) && f.fin else Interleavable(f))
    requires FrameIn(input, at, f)
    ensures at + Size(f) <= |input|
    ensures LegacyFrame(input, at, readFault, acc)
         == if last then End(Done(acc + f.payload), at + Size(f)) else More(at + Size(f), acc + Carried(f))
  {
    LegacyStepOfClientFrame(input, at, f, readFault, acc);
    assert acc + [] == acc;
  }

  /** The legacy loop takes a frame of a run in one turn: the last frame
      ends it with the message, any other hands on to the next frame. */
  lemma LegacyRunTurn(input: seq<byte>, at: nat, f: ClientFrame, last: bool, readFault: IoErrorKind, acc: seq<byte>)
    requires WellFormed(f) && (if last then IsData(f.opcode) && f.fin else Interleavable(f))
    requires FrameIn(input, at, f)
    ensures at + Size(f) <= |input|
    ensures LegacyLoop(input, at, readFault, acc)
         == if last then Ending(Done(acc + f.payload), at + Size(f))
            else LegacyLoop(input, at + Size(f), readFault, acc + Carried(f))
  {
    LegacyRunFrameStep(input, at, f, last, readFault, acc);
    if last {
      LegacyLoopEnd(input, at, readFault, acc, Done(acc + f.payload), at + Size(f));
    } else {
      LegacyLoopMore(input, at, readFault, acc, at + Size(f), acc + Carried(f));
    }
  }

  /** The legacy reader reassembles a run into the concatenation of its
      data payloads and stops right after its last frame. */
  lemma {:induction false} LegacyReassembleRun(input: seq<byte>, pos: nat, frames: seq<ClientFrame>,
                                               readFault: IoErrorKind, acc: seq<byte>)
    requires Run(frames) && Placed(input, pos, frames) && pos <= |input|
    ensures LegacyLoop(input, pos, readFault, acc) == Ending(Done(acc + Data(frames)), pos + Span(frames))
    decreases |frames|
  {
    var f, rest := frames[0], frames[1..];
    var last := |frames| == 1;
    LegacyRunTurn(input, pos, f, last, readFault, acc);
    if last {
      assert rest == [];
      assert Span(frames) == Size(f);
      assert Data(frames) == f.payload + [] == f.payload;
    } else {
      LegacyReassembleRun(input, pos + Size(f), rest, readFault, acc + Carried(f));
      AppendAssoc(acc, Carried(f), Data(rest));
    }
  }

  /** On a message a client sends as a run, both readers return the same
      message and stop at the same place; only the current one answers the
      Pings, and the legacy one writes nothing at all. */
  lemma ReadersAgreeOnRuns(input: seq<byte>, pos: nat, frames: seq<ClientFrame>, readFault: IoErrorKind)
    requires Run(frames) && Placed(input, pos, frames) && pos <= |input|
    ensures var o, e := ReadLoop(input, pos, readFault, [], []), LegacyLoop(input, pos, readFault, []);
      && o.status == e.status == Done(Data(frames))
      && o.pos == e.pos == pos + Span(frames)
      && o.replies == Pings(frames)
  {
    ReassembleRun(input, pos, frames, readFault, [], []);
    LegacyReassembleRun(input, pos, frames, readFault, []);
  }
}
