/** The frame format of RFC 6455, section 5.2, as both codecs read and write
    it: the two header bytes, the 7-bit, 16-bit or 64-bit payload length, the
    frames the server writes (unmasked text frames and control frames), the
    masked frames a client writes, and the classification of a reassembled
    payload into a `WsMessage`. */
module Frames {
  import opened Wrappers
  import opened Types
  import opened Bytes
  import Utf8

  const TwoTo64: nat := 0x1_0000_0000_0000_0000

  /** FIN, the top bit of the first header byte. */
  function Fin(b0: byte): bool { b0 >= 0x80 }

  /** The opcode, the low four bits of the first header byte. */
  function Opcode(b0: byte): (op: byte)
    ensures op < 16
  {
    b0 % 16
  }

  /** MASK, the top bit of the second header byte. */
  function MaskBit(b1: byte): bool { b1 >= 0x80 }

  /** The 7-bit payload length of the second header byte. */
  function Len7(b1: byte): (n: nat)
    ensures n < 128
  {
    b1 % 128
  }

  lemma Len7Small(b: byte)
    requires b < 0x80
    ensures Len7(b) == b && Len7(b + 0x80) == b && MaskBit(b + 0x80) && !MaskBit(b)
  {
  }

  /** Slices of a slice. */
  lemma SliceOfSlice(input: seq<byte>, pos: nat, t: seq<byte>, i: nat, j: nat)
    requires pos + |t| <= |input| && input[pos..pos + |t|] == t && i <= j <= |t|
    ensures input[pos + i..pos + j] == t[i..j]
  {
    forall k | 0 <= k < j - i
      ensures input[pos + i..pos + j][k] == t[i..j][k]
    {
      assert input[pos + i + k] == input[pos..pos + |t|][i + k];
    }
  }

  /** Close (0x8), Ping (0x9) and Pong (0xA): RFC 6455, section 5.5. */
  predicate IsControl(op: byte) { op == 0x8 || op == 0x9 || op == 0xA }

  /** Continuation (0x0), Text (0x1) and Binary (0x2). */
  predicate IsData(op: byte) { op == 0x0 || op == 0x1 || op == 0x2 }

  /** How many extended-length bytes follow: 2 after 126, 8 after 127. */
  function ExtWidth(len7: nat): (w: nat)
    ensures w == 0 || w == 2 || w == 8
  {
    if len7 == 126 then 2 else if len7 == 127 then 8 else 0
  }

  /** The payload length a 7-bit length and its extension denote. */
  function PayloadLength(len7: nat, ext: seq<byte>): nat
    requires |ext| == ExtWidth(len7)
  {
    if ExtWidth(len7) == 0 then len7 else FromBigEndian(ext)
  }

  /** A decoded frame header. */
  datatype Head = Head(fin: bool, opcode: byte, masked: bool, len: nat)

  /** Outcome of reading a header at a cursor: the header and the position
      after it, or which `read_exact` fell short. */
  datatype HeadRead = HeadOk(head: Head, next: nat) | HeaderShort | ExtShort

  /** Reads the two header bytes and, when the 7-bit length is 126 or 127,
      the big-endian extended length. Shared by both codecs. */
  function ReadHead(input: seq<byte>, pos: nat): (r: HeadRead)
    requires pos <= |input|
    ensures r.HeaderShort? <==> pos + 2 > |input|
    ensures r.HeadOk? ==> pos + 2 <= r.next <= |input| && r.head.opcode < 16
  {
    if pos + 2 > |input| then HeaderShort
    else
      var b0, b1 := input[pos], input[pos + 1];
      var w := ExtWidth(Len7(b1));
      if pos + 2 + w > |input| then ExtShort
      else HeadOk(Head(Fin(b0), Opcode(b0), MaskBit(b1), PayloadLength(Len7(b1), input[pos + 2..pos + 2 + w])), pos + 2 + w)
  }

  // ----- frames the server writes -----

  /** The length field of a server frame (mask bit clear): one byte below
      126, else 126 and a 16-bit length, else 127 and a 64-bit length
      (`len as u64`, so a length beyond 64 bits wraps). */
  function LengthField(len: nat): (r: seq<byte>)
    ensures len < 126 ==> r == [len]
    ensures 126 <= len <= 65535 ==> |r| == 3 && r[0] == 126 && FromBigEndian(r[1..]) == len
    ensures 65535 < len ==> |r| == 9 && r[0] == 127 && FromBigEndian(r[1..]) == len % TwoTo64
  {
    if len < 126 then [len]
    else if len <= 65535 then
      FromBigEndianRoundTrip1(len, 2);
      [126] + BigEndian(len, 2)
    else
      FromBigEndianRoundTrip1(len % TwoTo64, 8);
      [127] + BigEndian(len % TwoTo64, 8)
  }

  lemma FromBigEndianRoundTrip1(n: nat, width: nat)
    requires width == 2 || width == 8
    requires n < (if width == 2 then 0x1_0000 else TwoTo64)
    ensures FromBigEndian(BigEndian(n, width)) == n
    ensures ([if width == 2 then 126 else 127] + BigEndian(n, width))[1..] == BigEndian(n, width)
  {
    assert Pow256(2) == 0x1_0000;
    assert Pow256(8) == TwoTo64;
    BigEndianRoundTrip(n, width);
  }

  /** Decoding the length field as the reader does gives back every length
      that fits in 64 bits, and the field is exactly as long as the reader
      expects. */
  lemma LengthFieldRoundTrip(len: nat)
    requires len < TwoTo64
    ensures var f := LengthField(len);
      && f[0] < 0x80
      && |f| == 1 + ExtWidth(Len7(f[0]))
      && PayloadLength(Len7(f[0]), f[1..]) == len
  {
    var f := LengthField(len);
    if len < 126 {
      Len7Small(f[0]);
    } else if len <= 65535 {
      Len7Small(126);
    } else {
      Len7Small(127);
    }
  }

  /** `Client::send`: FIN set, opcode Text (0x81), the length field, then the
      payload unmasked. */
  function TextFrame(payload: seq<byte>): seq<byte> {
    [0x81] + LengthField(|payload|) + payload
  }

  /** A server control frame: first byte, a one-byte length, the body. */
  function ControlFrame(first: byte, body: seq<byte>): seq<byte>
    requires |body| <= 125
  {
    [first, |body|] + body
  }

  /** The bytes `send_close(code, reason)` writes: FIN and Close (0x88), then
      the code in two big-endian bytes and the reason; `None` when that body
      is over 125 bytes, which `send_close` refuses. */
  function CloseFrame(code: u16, reason: seq<byte>): (r: Option<seq<byte>>)
    ensures r.Some? <==> |reason| <= 123
  {
    var body := BigEndian(code as nat, 2) + reason;
    if |body| > 125 then None else Some(ControlFrame(0x88, body))
  }

  /** What a peer reads back from a Close frame the server writes: opcode
      Close with FIN, a length byte counting code and reason, the code
      big-endian, then the reason bytes unchanged. */
  lemma CloseFrameFields(code: u16, reason: seq<byte>)
    requires |reason| <= 123
    ensures var f := CloseFrame(code, reason).value;
      && |f| == 4 + |reason| && f[0] == 0x88 && f[1] == 2 + |reason|
      && FromBigEndian(f[2..4]) == code && f[4..] == reason
  {
    var be := BigEndian(code as nat, 2);
    var body := be + reason;
    var f := CloseFrame(code, reason).value;
    assert f == [0x88, |body|] + body;
    assert f[2..4] == be;
    assert Pow256(2) == 0x1_0000;
    BigEndianRoundTrip(code as nat, 2);
    assert f[4..] == reason;
  }

  /** The bytes `send_pong(payload)` writes: FIN and Pong (0x8A), the length,
      the payload unchanged; `None` when the payload is over 125 bytes. */
  function PongFrame(payload: seq<byte>): (r: Option<seq<byte>>)
    ensures r.Some? <==> |payload| <= 125
    ensures r.Some? ==> |r.value| == 2 + |payload| && r.value[0] == 0x8A && r.value[1] == |payload|
    ensures r.Some? ==> r.value[2..] == payload
  {
    if |payload| > 125 then None
    else
      Some(ControlFrame(0x8A, payload))
  }

  /** A sequence of whole server control frames (Close or Pong), each with a
      length byte of at most 125: what a read may write to the peer. */
  predicate ControlStream(s: seq<byte>)
    decreases |s|
  {
    s == [] ||
    (|s| >= 2 && (s[0] == 0x88 || s[0] == 0x8A) && s[1] <= 125 && 2 + s[1] <= |s|
     && ControlStream(s[2 + s[1]..]))
  }

  /** Dropping a prefix of the first part of a concatenation. */
  lemma DropAppend(a: seq<byte>, b: seq<byte>, n: nat)
    requires n <= |a|
    ensures (a + b)[n..] == a[n..] + b
  {
  }

  /** Control streams are closed under concatenation. */
  lemma {:induction false} ControlStreamAppend(a: seq<byte>, b: seq<byte>)
    requires ControlStream(a) && ControlStream(b)
    ensures ControlStream(a + b)
    decreases |a|
  {
    if a != [] {
      var n := 2 + a[1];
      ControlStreamAppend(a[n..], b);
      DropAppend(a, b, n);
    } else {
      assert a + b == b;
    }
  }

  /** Every Close and Pong frame the server can emit is a control stream. */
  lemma RepliesAreControl(code: u16, reason: seq<byte>, payload: seq<byte>)
    ensures CloseFrame(code, reason).Some? ==> ControlStream(CloseFrame(code, reason).value)
    ensures PongFrame(payload).Some? ==> ControlStream(PongFrame(payload).value)
  {
    if CloseFrame(code, reason).Some? {
      CloseFrameFields(code, reason);
      var f := CloseFrame(code, reason).value;
      assert f[2 + f[1]..] == [];
    }
    if PongFrame(payload).Some? {
      var f := PongFrame(payload).value;
      assert f[2 + f[1]..] == [];
    }
  }

  /** A server text frame, read back with the shared header reader, gives FIN,
      opcode Text, mask bit clear and the payload length; the payload follows
      the header. */
  lemma ReadHeadOfTextFrame(input: seq<byte>, pos: nat, payload: seq<byte>)
    requires |payload| < TwoTo64
    requires pos + |TextFrame(payload)| <= |input| && input[pos..pos + |TextFrame(payload)|] == TextFrame(payload)
    ensures var f := LengthField(|payload|);
      && ReadHead(input, pos) == HeadOk(Head(true, 0x1, false, |payload|), pos + 1 + |f|)
      && input[pos + 1 + |f|..pos + |TextFrame(payload)|] == payload
  {
    var t := TextFrame(payload);
    var f := LengthField(|payload|);
    LengthFieldRoundTrip(|payload|);
    Len7Small(f[0]);
    assert input[pos] == t[0] && input[pos + 1] == t[1] == f[0];
    SliceOfSlice(input, pos, t, 2, 1 + |f|);
    assert t[2..1 + |f|] == f[1..];
    SliceOfSlice(input, pos, t, 1 + |f|, |t|);
    assert t[1 + |f|..] == payload;
  }

  // ----- frames a client writes -----

  /** One frame as a client sends it: FIN, opcode, the 4-byte masking key and
      the payload before masking. */
  datatype ClientFrame = ClientFrame(fin: bool, opcode: byte, mask: seq<byte>, payload: seq<byte>)

  predicate WellFormed(f: ClientFrame) {
    f.opcode < 16 && |f.mask| == 4 && |f.payload| < TwoTo64
  }

  /** The header of a client frame: FIN and opcode, then the length field
      with the mask bit set. */
  function ClientHeader(f: ClientFrame): (r: seq<byte>)
    requires WellFormed(f)
    ensures |r| == 1 + |LengthField(|f.payload|)|
  {
    var lf := LengthField(|f.payload|);
    [(if f.fin then 0x80 else 0x00) + f.opcode, lf[0] + 0x80] + lf[1..]
  }

  /** The wire bytes of a client frame: header, key, masked payload
      (RFC 6455, section 5.3). */
  function EncodeClient(f: ClientFrame): (r: seq<byte>)
    requires WellFormed(f)
    ensures |r| == 1 + |LengthField(|f.payload|)| + 4 + |f.payload|
  {
    ClientHeader(f) + f.mask + Unmask(f.payload, f.mask)
  }

  lemma FirstByte(fin: bool, opcode: byte)
    requires opcode < 16
    ensures var b0: byte := (if fin then 0x80 else 0x00) + opcode;
      Fin(b0) == fin && Opcode(b0) == opcode
  {
  }

  /** Where each part of an encoded client frame sits. */
  lemma EncodeClientParts(f: ClientFrame)
    requires WellFormed(f)
    ensures var e, lf := EncodeClient(f), LengthField(|f.payload|);
      && e[0] == (if f.fin then 0x80 else 0x00) + f.opcode
      && e[1] == lf[0] + 0x80
      && e[2..1 + |lf|] == lf[1..]
      && e[1 + |lf|..1 + |lf| + 4] == f.mask
      && e[1 + |lf| + 4..] == Unmask(f.payload, f.mask)
  {
    var h := ClientHeader(f);
    var e := EncodeClient(f);
    var lf := LengthField(|f.payload|);
    assert e[..|h|] == h;
    assert e[2..1 + |lf|] == h[2..];
  }

  /** The header of an encoded client frame reads back as FIN, opcode, mask
      bit set and the payload length. */
  lemma ReadHeadOfClientHeader(input: seq<byte>, pos: nat, f: ClientFrame)
    requires WellFormed(f)
    requires pos + |EncodeClient(f)| <= |input| && input[pos..pos + |EncodeClient(f)|] == EncodeClient(f)
    ensures ReadHead(input, pos) == HeadOk(Head(f.fin, f.opcode, true, |f.payload|), pos + 1 + |LengthField(|f.payload|)|)
  {
    var e := EncodeClient(f);
    var lf := LengthField(|f.payload|);
    EncodeClientParts(f);
    LengthFieldRoundTrip(|f.payload|);
    Len7Small(lf[0]);
    FirstByte(f.fin, f.opcode);
    var b0, b1 := input[pos], input[pos + 1];
    assert b0 == e[0] by { SliceOfSlice(input, pos, e, 0, 1); assert e[0..1][0] == e[0]; }
    assert b1 == e[1] by { SliceOfSlice(input, pos, e, 1, 2); assert e[1..2][0] == e[1]; }
    var w := ExtWidth(Len7(b1));
    assert w == |lf| - 1;
    SliceOfSlice(input, pos, e, 2, 1 + |lf|);
    assert input[pos + 2..pos + 2 + w] == lf[1..];
    assert PayloadLength(Len7(b1), input[pos + 2..pos + 2 + w]) == |f.payload|;
  }

  /** Reading a client frame back: the header gives FIN, opcode, mask bit set
      and the length; the next four bytes are the key; unmasking the bytes
      after it gives back the payload. */
  lemma ReadHeadOfClientFrame(input: seq<byte>, pos: nat, f: ClientFrame)
    requires WellFormed(f)
    requires pos + |EncodeClient(f)| <= |input| && input[pos..pos + |EncodeClient(f)|] == EncodeClient(f)
    ensures var p := pos + 1 + |LengthField(|f.payload|)|;
      && ReadHead(input, pos) == HeadOk(Head(f.fin, f.opcode, true, |f.payload|), p)
      && input[p..p + 4] == f.mask
      && p + 4 + |f.payload| == pos + |EncodeClient(f)|
      && Unmask(input[p + 4..p + 4 + |f.payload|], f.mask) == f.payload
  {
    var e := EncodeClient(f);
    var lf := LengthField(|f.payload|);
    ReadHeadOfClientHeader(input, pos, f);
    EncodeClientParts(f);
    SliceOfSlice(input, pos, e, 1 + |lf|, 1 + |lf| + 4);
    SliceOfSlice(input, pos, e, 1 + |lf| + 4, |e|);
    UnmaskInvolution(f.payload, f.mask);
  }

  // ----- classification of a reassembled payload -----

  /** The final match of both readers: well-formed UTF-8 that `parse` (the
      JSON decoder) accepts becomes `Message`, other well-formed UTF-8 becomes
      `String`, anything else `Binary`. It never fails, and no byte is lost. */
  function Classify<T>(payload: seq<byte>, parse: seq<byte> -> Option<T>): (r: WsMessage<T>)
    ensures r.Message? <==> Utf8.Valid(payload) && parse(payload).Some?
    ensures r.Message? ==> parse(payload) == Some(r.message)
    ensures r.String? <==> Utf8.Valid(payload) && parse(payload).None?
    ensures r.String? ==> r.text == payload
    ensures r.Binary? <==> !Utf8.Valid(payload)
    ensures r.Binary? ==> r.bytes == payload
  {
    if Utf8.Valid(payload) then
      match parse(payload)
      case Some(m) => Message(m)
      case None => String(payload)
    else Binary(payload)
  }
}
