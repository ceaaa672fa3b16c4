# voxa-server protocol engine, modelled in Dafny

This project models the core of voxa-server, a chat relay that speaks
WebSocket (RFC 6455) over plain TCP and carries JSON messages. It covers:

- **The current connection wrapper** (`src/utils/client.rs`):
  - the opening handshake of section 4.2.1 of RFC 6455: method check, header table, Upgrade/Connection/Version checks, and the answer;
  - `send`: one unmasked text frame with the 7-, 16- or 64-bit length field of section 5.2 of RFC 6455;
  - `send_close` and `send_pong`, which refuse bodies over 125 bytes;
  - `read_t`:
    - frames until one application message is reassembled;
    - client frames must be masked;
    - control frames must be short and unfragmented;
    - unknown opcodes are refused with Close 1002;
    - Ping is answered with Pong and Close is echoed;
    - the message is then classified as JSON, text or binary;
  - the client's user id and its token-based equality.
- **The earlier wrapper** (`src/client.rs`):
  - its laxer `read`: unmasked frames are accepted, control frames are skipped silently, and an unknown opcode is an error;
  - the same `send`;
  - a handshake that only looks for the key line;
  - equality by peer address.
- **The request layer** (`src/requests`):
  - `call_request` routes each application message to its handler;
  - `message::send` rejects empty messages, stores the message and sends it to every registered client;
  - `edit` and `delete` are stubs.

The TCP stream is a `Transport.Stream`: an input byte sequence consumed by a
cursor, an output sequence that writes append to, and fixed read and write
faults. Reading is modelled twice: a method that works on the stream
step by step, as the Rust loop does, and a pure function of the input that
it is proved equal to. Properties are proved about the function.

- `wrappers.dfy`, `types.dfy`: `Option`/`Result`, and the values that cross the core's boundaries.
- `bytes.dfy`: bytes, big-endian integers, XOR masking.
- `utf8.dfy`: UTF-8 well-formedness and `String::from_utf8_lossy`.
- `transport.dfy`: the stream.
- `frames.dfy`: frame headers, length fields, the frames the server writes, payload classification.
- `ws_client.dfy`, `ws_client_props.dfy`: the current client and its properties.
- `legacy_client.dfy`, `legacy_props.dfy`: the earlier client, and how it differs from the current one.
- `handshake.dfy`: both handshakes.
- `messages.dfy`, `requests.dfy`: the handlers and the router.

## Model

| member | source | states |
|---|---|---|
| Bytes.BigEndianRoundTrip | src/utils/client.rs:177-185 | a length written as `to_be_bytes` at a width it fits in reads back as itself with `from_be_bytes` |
| Bytes.FromBigEndianRoundTrip | src/utils/client.rs:224-230 | re-encoding a decoded extended length at the same width gives back the bytes read |
| Bytes.XorTwice | src/utils/client.rs:259 | XOR with the same key byte twice restores the byte |
| Bytes.UnmaskInvolution | src/utils/client.rs:258-260 | `payload[i] ^= mask[i % 4]` applied twice with the same key gives back the payload |
| Bytes.UnmaskInPlace | src/utils/client.rs:255-261 | the in-place XOR loop over the payload buffer leaves exactly the unmasked payload in it |
| Frames.ReadHead | src/utils/client.rs:207-231 | the two header bytes and the extended length: the header is missing exactly when fewer than two bytes remain; a header read in full ends inside the input, past its two bytes, with an opcode under 16 |
| Frames.LengthField | src/utils/client.rs:177-185 | under 126: one byte equal to the length; up to 65535: 126 and two big-endian bytes; above: 127 and eight big-endian bytes of the length modulo 2^64 |
| Frames.LengthFieldRoundTrip | src/utils/client.rs:220-231 | the length field `send` writes is decoded by `read_t`'s header rules back to the same length, with the mask bit clear |
| Frames.CloseFrame | src/utils/client.rs:133-143 | `send_close` writes a frame exactly when the code and reason fit in 125 bytes |
| Frames.CloseFrameFields | src/utils/client.rs:133-143 | the Close frame is 0x88, the body length, the code big-endian, then the reason unchanged |
| Frames.PongFrame | src/utils/client.rs:154-160 | `send_pong` refuses a payload over 125 bytes, and otherwise writes 0x8A, the length and the payload unchanged |
| Frames.RepliesAreControl | src/utils/client.rs:136-160 | every Close or Pong frame the server can write is a whole control frame whose length byte is at most 125 |
| Frames.ControlStreamAppend | src/utils/client.rs:136-160 | back-to-back control frames still form a stream of whole control frames |
| Frames.ReadHeadOfTextFrame | src/utils/client.rs:174-188 | a frame `send` writes reads back as FIN, Text, unmasked, its payload length, with the payload right after the header |
| Frames.ReadHeadOfClientFrame | src/utils/client.rs:217-260 | a masked client frame reads back as its FIN bit, opcode and length, then its key, then bytes that unmask to its payload |
| Frames.Classify | src/utils/client.rs:306-312 | `Message` exactly when the bytes are UTF-8 and parse; `String` when UTF-8 that does not parse; `Binary` otherwise; no byte is lost |
| Transport.Stream.ReadExact | src/utils/client.rs:224-225 | `read_exact` takes exactly n bytes and moves the cursor past them, or fails with the stream's read error |
| Transport.Stream.WriteAll | src/utils/client.rs:187-188 | `write_all` appends every byte, or fails and writes nothing |
| Utf8.LossyOfValid | src/utils/client.rs:278 | `from_utf8_lossy` leaves well-formed UTF-8 unchanged |
| Utf8.LossyIsValid | src/utils/client.rs:278 | `from_utf8_lossy` always yields well-formed UTF-8 |
| Utf8.LossyOfStrayBytes | src/utils/client.rs:278 | bytes that cannot start a character each become one U+FFFD, which triples the length |
| WsClient.RefusalReason | src/utils/client.rs:238-249 | every refusal reason fits in a Close frame (at most 123 bytes) |
| WsClient.TransmitAppend | src/utils/client.rs:238-299 | replies made one after the other are written one after the other |
| WsClient.FrameStep | src/utils/client.rs:206-302 | one turn of the read loop never moves the cursor back, and moves it forward when the loop goes on |
| WsClient.ReadLoop | src/utils/client.rs:206-303 | the whole read loop ends with the cursor inside the input |
| WsClient.ReadLoopStop | src/utils/client.rs:263-302 | a frame that ends the read decides its outcome |
| WsClient.ReadLoopNext | src/utils/client.rs:263-302 | a frame that does not end the read hands the loop on to the next frame with what it has reassembled |
| WsClient.ReadHeader | src/utils/client.rs:207-231 | reading the header from the stream gives what `ReadHead` gives on the input |
| WsClient.ReadPayload | src/utils/client.rs:254-261 | reads `len` bytes and returns them unmasked, or fails with the stream's read error at the end of input |
| WsClient.WriteText | src/utils/client.rs:174-190 | writes header then payload, which is one text frame, or returns the write error |
| WsClient.Client.constructor | src/utils/client.rs:107-110 | a new client has no user id and the token drawn for it |
| WsClient.Client.SendClose | src/utils/client.rs:129-148 | over 125 bytes: nothing written and `close reason too long`; else the Close frame, or the write error |
| WsClient.Client.SendPong | src/utils/client.rs:151-164 | over 125 bytes: nothing written and `pong payload too long`; else the Pong frame, or the write error |
| WsClient.Client.Send | src/utils/client.rs:167-191 | appends one text frame of the serialised message, or returns the write error |
| WsClient.Client.ReadFrame | src/utils/client.rs:206-302 | one turn on the stream is one `FrameStep` on the input: same cursor, and its replies are written |
| WsClient.Client.ReadBody | src/utils/client.rs:233-302 | the key, the control-frame checks, the payload and the answer by opcode, as `FrameBody` |
| WsClient.Client.RefuseFrame | src/utils/client.rs:238-239 | a refusal writes Close 1002 with its reason and ends the read with `None` |
| WsClient.Client.Answer | src/utils/client.rs:263-302 | the answer by opcode on the stream is `Dispatch`, and its replies are written |
| WsClient.Client.ReadT | src/utils/client.rs:199-315 | `read_t` on the stream ends where `ReadLoop` on the input ends, writes the replies it makes, and returns the classification of what it reassembled |
| WsClient.Client.GetUuid | src/utils/client.rs:327-332 | the user id once set, else the error naming the token |
| WsClient.Client.SetUuid | src/utils/client.rs:334-336 | sets the user id, which `get_uuid` then returns |
| WsClient.Client.Equals | src/utils/client.rs:354-366 | two clients are equal exactly when their hash keys (the tokens) are equal |
| WsClientProperties.UnmaskedFrameRefused | src/utils/client.rs:233-240 | an unmasked frame ends the read with Close 1002 before its key or payload is read |
| WsClientProperties.OversizedControlRefused | src/utils/client.rs:243-247 | a control frame over 125 bytes ends the read with Close 1002 once its key is read |
| WsClientProperties.FragmentedControlRefused | src/utils/client.rs:248-251 | a control frame without FIN ends the read with Close 1002 once its key is read |
| WsClientProperties.UnknownOpcodeRefused | src/utils/client.rs:298-301 | an opcode outside 0, 1, 2, 8, 9, 10 ends the read with Close 1002 after its payload |
| WsClientProperties.ServerFrameRefused | src/utils/client.rs:233-240 | a frame as the server writes it (unmasked) is refused when a client sends it |
| WsClientProperties.PeerGone | src/utils/client.rs:208-215 | a missing header gives `None` for UnexpectedEof and BrokenPipe, otherwise the I/O error, and writes nothing |
| WsClientProperties.RefusalOnWire | src/utils/client.rs:238-249 | a refusal on the wire is one Close frame with code 1002 and the reason, or nothing if writing fails |
| WsClientProperties.TransmitOne | src/utils/client.rs:238-299 | one reply writes its one frame |
| WsClientProperties.StepOfHead | src/utils/client.rs:233-263 | a masked frame that passes the control checks reaches the opcode match with its unmasked payload |
| WsClientProperties.StepOfClientFrame | src/utils/client.rs:206-263 | a client frame in the input reaches the opcode match with its own payload, and the next frame starts right after it |
| WsClientProperties.CloseEchoed | src/utils/client.rs:273-287 | a Close ends the read with `None` right after it, and its echo is the last reply |
| WsClientProperties.CloseMirrored | src/utils/client.rs:275-286 | a Close with a code and a UTF-8 reason is echoed with the same code and reason |
| WsClientProperties.CloseWithoutCode | src/utils/client.rs:283-286 | a Close body under two bytes is answered with code 1000 and no reason |
| WsClientProperties.CloseEchoWrittenIff | src/utils/client.rs:278-286 | the echo of a Close is written exactly when the write succeeds and its reason after `from_utf8_lossy` fits in 123 bytes |
| WsClientProperties.CloseEchoDropped | src/utils/client.rs:278-286 | a Close of 44 bytes, which fits in a control frame, whose reason is 42 bytes of 0xFF grows under `from_utf8_lossy` to a 128-byte body and gets no echo |
| WsClientProperties.ReplyIsControl | src/utils/client.rs:286-291 | every reply is written as a whole Close or Pong frame |
| WsClientProperties.TransmitIsControl | src/utils/client.rs:206-303 | a read writes only whole control frames: never a data frame and never a partial frame |
| WsClientProperties.EncodeClientSize | src/utils/client.rs:217-257 | a client frame takes two header bytes, its extended length, the key and the payload |
| WsClientProperties.FrameInParts | src/utils/client.rs:217-260 | a client frame found in the input reads back as its header, key and payload |
| WsClientProperties.DispatchInRun | src/utils/client.rs:263-297 | the final data frame of a message ends the read with it; an earlier one adds its data; a Ping adds a Pong |
| WsClientProperties.RunFrameStep | src/utils/client.rs:206-297 | each frame of a message is read in one turn |
| WsClientProperties.RunTurn | src/utils/client.rs:206-297 | the read loop takes each frame of a message in one turn |
| WsClientProperties.ReassembleRun | src/utils/client.rs:264-297 | a fragmented message with interleaved Pings and Pongs reads as its data payloads concatenated, with one Pong per Ping carrying the Ping's payload, in order |
| WsClientProperties.FragmentationInvisible | src/utils/client.rs:264-272 | a message sent in fragments reads the same as the same data sent in one frame |
| LegacyClient.LegacyFrame | src/client.rs:94-142 | one turn of the legacy loop never moves the cursor back, and moves it forward when the loop goes on |
| LegacyClient.LegacyLoop | src/client.rs:93-143 | the legacy read loop ends with the cursor inside the input |
| LegacyClient.LegacyLoopEnd | src/client.rs:131-142 | a frame that ends the legacy read decides its outcome |
| LegacyClient.LegacyLoopMore | src/client.rs:131-142 | a frame that does not end the legacy read hands the loop on |
| LegacyClient.Answer | src/client.rs:131-142 | the legacy answer by opcode: data is added and FIN ends the read; Close ends it; Ping and Pong are skipped; others are errors |
| LegacyClient.LegacyClient.constructor | src/client.rs:60-63 | a new legacy client holds its stream and its peer address |
| LegacyClient.LegacyClient.Send | src/client.rs:158-182 | the same text frame as the current `send`, or the write error |
| LegacyClient.LegacyClient.ReadFrame | src/client.rs:94-142 | one turn on the stream is one `LegacyFrame` on the input |
| LegacyClient.LegacyClient.ReadRest | src/client.rs:115-142 | the optional key, the payload, the optional unmasking and the answer by opcode, as `LegacyBody` |
| LegacyClient.LegacyClient.Read | src/client.rs:88-155 | the legacy `read` ends where `LegacyLoop` ends, returns the classification of what it reassembled, and writes nothing |
| LegacyClient.LegacyClient.Equals | src/client.rs:72-84 | two legacy clients are equal exactly when their peer addresses (the hash keys) are equal |
| LegacyProperties.LegacyStepOfHead | src/client.rs:115-131 | a masked frame reaches the opcode match with its unmasked payload |
| LegacyProperties.LegacyStepOfClientFrame | src/client.rs:94-131 | a client frame in the input reaches the opcode match with its payload, and the next frame starts right after it |
| LegacyProperties.ServerFrameSplitsReaders | src/client.rs:115-129 | an unmasked text frame is a whole message to the legacy reader, and is refused by the current one |
| LegacyProperties.HeaderLossSplitsReaders | src/client.rs:94-97 | a missing header is `None` for the legacy reader whatever the error; the current reader returns `None` only for UnexpectedEof and BrokenPipe |
| LegacyProperties.LegacyTruncatedFrame | src/client.rs:105-123 | a frame cut short after its header is an I/O error for the legacy reader |
| LegacyProperties.LegacyCloseSilent | src/client.rs:136 | a Close ends the legacy read with `None` right after it |
| LegacyProperties.LegacyControlSkipped | src/client.rs:137-138 | a Ping or Pong of any length and FIN bit is skipped with no reply, and the reassembled data is kept |
| LegacyProperties.OversizedPingSplitsReaders | src/client.rs:137 | a Ping over 125 bytes is skipped by the legacy reader, and refused with Close 1002 by the current one |
| LegacyProperties.UnknownOpcodeSplitsReaders | src/client.rs:139 | an unknown opcode is an error for the legacy reader, and a Close 1002 with `None` for the current one |
| LegacyProperties.LegacyRunFrameStep | src/client.rs:131-142 | each frame of a message is read by the legacy loop in one turn |
| LegacyProperties.LegacyRunTurn | src/client.rs:131-142 | the legacy loop takes each frame of a message in one turn |
| LegacyProperties.LegacyReassembleRun | src/client.rs:131-143 | the legacy reader reassembles a fragmented message into its data payloads concatenated |
| LegacyProperties.ReadersAgreeOnRuns | src/client.rs:88-155 | on a well-formed fragmented message both readers return the same data and stop at the same place; only the current one answers Pings |
| Handshake.TrimStart | src/utils/client.rs:44 | `trim_start` leaves the suffix that starts with non-whitespace after only whitespace |
| Handshake.TrimEnd | src/utils/client.rs:44 | `trim_end` leaves the prefix that ends with non-whitespace before only whitespace |
| Handshake.TrimPadded | src/utils/client.rs:44 | trimming text padded with whitespace gives back the text |
| Handshake.FindFrom | src/utils/client.rs:43 | the first occurrence of a character at or after an index, or none |
| Handshake.SplitOnce | src/utils/client.rs:43 | `split_once(':')` splits at the first colon, and fails exactly when there is none |
| Handshake.LineEnd | src/utils/client.rs:26-39 | `read_line` stops right after the first line feed, or at the end of the text |
| Handshake.LineEndAt | src/utils/client.rs:39 | a line with its only line feed at its end is exactly what `read_line` returns |
| Handshake.LastHeaderWins | src/utils/client.rs:43-44 | when several lines give a header, the table holds the value of the last one |
| Handshake.UnnamedHeaderKept | src/utils/client.rs:43-44 | a header no line gives stays as it was in the table |
| Handshake.ReadHeaders | src/utils/client.rs:35-46 | the header loop stops at a bare CR LF line or the end of input, and builds the table `Collect` describes |
| Handshake.Check | src/utils/client.rs:28-78 | accepted exactly when the request line starts with GET, the key is present, Upgrade lowercases to `websocket`, Connection lowercased contains `upgrade` and any version is 13; a bad method is refused first; the key is returned |
| Handshake.Fields | src/utils/client.rs:88-95 | the header lines of the answer, `Name: value` each, in order |
| Handshake.FieldReads | src/utils/client.rs:43-44 | a header line of the answer is read back as its lowercased name and its value |
| Handshake.HeaderLinesOfFields | src/utils/client.rs:37-42 | the header lines of an answer are read one by one up to the empty line |
| Handshake.FieldsReadBack | src/utils/client.rs:37-46 | header lines followed by the empty line produce the table that holds each value under its lowercased name |
| Handshake.ResponseWellFormed | src/utils/client.rs:88-95 | the header names and values of the answer are printable, and the names lowercase to the keys a reader uses |
| Handshake.ResponseIsAscii | src/utils/client.rs:88-97 | both answers are ASCII, so their bytes are their characters |
| Handshake.ResponseReadsBack | src/utils/client.rs:88-95 | the answer, read with the server's own header rules, gives back Upgrade `websocket`, Connection `Upgrade`, the accept value unchanged and version 13 |
| Handshake.Accept | src/utils/client.rs:23-100 | a refused request writes nothing; an accepted one writes the 101 answer with the accept value of the key, or returns the write error |
| Handshake.TextLines | src/client.rs:26-27 | `lines` gives no line for empty text only, and no line it gives holds a line feed |
| Handshake.TextLinesOfLine | src/client.rs:26-27 | text without a line feed is one line, kept as it stands |
| Handshake.TextLinesCons | src/client.rs:26-27 | the text before the first line feed, less one carriage return at its end, is the first line, and the lines of the rest follow |
| Handshake.FindKeyLine | src/client.rs:26-28 | the first line that lowercases to a `sec-websocket-key` prefix, or none |
| Handshake.BareKeyLinePanics | src/client.rs:33 | a request whose key line has no colon makes the legacy handshake panic |
| Handshake.BareKeyLineExample | src/client.rs:33 | the request made of the line `Sec-WebSocket-Key` alone panics the legacy handshake |
| Handshake.KeyInLines | src/client.rs:26-33 | the repaired key lookup fails only with `Missing Sec-WebSocket-Key` |
| Handshake.KeyInLinesFound | src/client.rs:26-33 | the key is the trimmed text after the first colon of the first key line |
| Handshake.LegacyKeyOnFirstLine | src/client.rs:26-33 | when the request's first line is the key line, the key is the trimmed text after its first colon, whatever lines follow |
| Handshake.KeyInLinesMissing | src/client.rs:26-33 | there is no key exactly when no line is a key line or the first key line has no colon |
| Handshake.LegacyRepairOnlyRemovesPanic | src/client.rs:26-40 | the repaired legacy handshake agrees with the code wherever the code does not panic, and refuses where it panics |
| Handshake.LegacyAccept | src/client.rs:21-54 | a request without a usable key line writes nothing; otherwise the legacy 101 answer (no version header) with the accept value of the key is written, or the write error returned |
| Messages.NewRecord | src/database.rs:39-51 | the stored row has the next id and exactly the given channel, author, contents and time |
| Messages.Storage.Insert | src/database.rs:39-51 | a successful insert appends that one row; a failed insert leaves the table unchanged |
| Messages.Faults | src/requests/message.rs:35-37 | the registry's send faults, client by client, in order |
| Messages.Served | src/requests/message.rs:35-37 | the broadcast reaches every client before the first one whose send fails, and stops at that one |
| Messages.ServedIsFirstFault | src/requests/message.rs:35-37 | the number of clients reached is exactly the index of the first failing send |
| Messages.BroadcastResult | src/requests/message.rs:35-39 | the broadcast succeeds exactly when no send fails, and otherwise returns the error of the first client whose send fails |
| Messages.Send | src/requests/message.rs:7-40 | empty contents: one `InvalidRequest` reply to the sender only, with no insert. Otherwise one insert of (channel, `idk`, contents, now); if it fails, its error and no sends, not even to the sender; if it succeeds, the sender's stream is untouched unless it is registered, and `MessageCreate` of the new row to the clients in registry order, up to and not past the first failing send, whose error is returned |
| Messages.Edit | src/requests/message.rs:42-53 | the stub returns `Ok` and, having no frame, changes nothing |
| Messages.Delete | src/requests/message.rs:55-63 | the stub returns `Ok` and, having no frame, changes nothing |
| Requests.Route | src/requests/mod.rs:17-45 | each kind of application message goes to its own handler; raw text and binary go only to the log |
| Requests.RouteKeepsArguments | src/requests/mod.rs:18-35 | a handler receives the fields of the request unchanged |
| Requests.CallRequest | src/requests/mod.rs:12-48 | `SendMessage` has exactly the effect and result of `message::send`; every other message returns `Ok` and changes nothing |

## Left out

- SHA-1 and Base64 of the accept value are library calls. They are the parameter `digest`, applied to the key followed by the GUID `258EAFA5-E914-47DA-95CA-C5AB0DC85B11`. The sample key of section 1.3 of RFC 6455 is therefore not checked.
- JSON (serde_json) is two parameters: `parse` turns bytes into a message or nothing, and `encode` turns an outgoing value into bytes.
- The serde tagging in `src/types.rs` is left out.
- `message::send` calls `ResponseError::InvalidRequest` as a tuple variant and wraps the row count of `insert` in `MessageCreate`. The model sends `InvalidRequest` with the message text, and `MessageCreate` carries the row just stored.
- `wrap_err` is not part of this model. Handler errors are passed up unchanged.
- Logging (`LOGGER.info`) is left out. So are the mutex around the registry and its locking: the registry is a plain sequence.
- Registration in and removal from the registry happen outside these files and are left out.
- `try_clone`, `flush` and the timeouts of `with_timeouts` are left out. A write either succeeds whole or fails whole, by the stream's fixed write fault.
- A failed `read_exact` ends the input in the model. The bytes left are not read later.
- The current handshake is modelled on the request as text.
  - How many bytes its `BufReader` takes from the socket, and so loses to the frame reader, is not modelled.
  - Neither is the `InvalidData` error `read_line` gives on bytes that are not UTF-8.
  - A request whose lines end in a bare line feed is read up to the end of the input, as in the code.
- The legacy handshake is modelled on the text of its one read. The 1024-byte buffer and the `from_utf8_lossy` decoding of it are not modelled.
- Handshake.Lower: `to_lowercase` is modelled for ASCII letters only. Characters such as U+212A KELVIN SIGN, which Unicode lowercases to `k`, are kept unchanged.
- Errors built with `anyhow!` are the variants of `Types.Failure`. Their message text is not modelled.
- The panics of `peer_addr().unwrap()` in the legacy `eq` and `hash` are left out: the peer address is a field. So is the `expect` in `clone`.
- A 64-bit payload length is a natural number in the model. The failure to allocate a buffer that large is left out.
- The deprecated `addr` is left out.
- Messages.Send: requires that no two registry entries write to the same stream, one entry per connection. The code does not check this.
- Requests.CallRequest: carries the same registry condition as `Messages.Send`.
- `?` returns at the first failing send of a broadcast, and later clients get nothing (`Messages.Send`, `Messages.Served`).

## Findings

| source | as written | input that shows it | evidently intended | confidence | as-written member | corrected member |
|---|---|---|---|---|---|---|
| src/client.rs:33 | `splitn(2, ':').nth(1).unwrap()` panics when the first key line has no colon | a request whose only key line is `Sec-WebSocket-Key` | refuse the request with `Missing Sec-WebSocket-Key`, as the current handshake does | not executed | Handshake.BareKeyLineExample | Handshake.KeyInLinesMissing |
