/** The values that cross the core's boundaries: the JSON envelopes of the
    application protocol, the stored message record, the envelope a read
    produces, and the errors the Rust code returns through `crate::Result`
    and `std::io::Result`. */
module Types {
  import opened Bytes

  /** Rust's `u16`. */
  type u16 = x: int | 0 <= x < 0x1_0000

  /** Rust's `u64`. */
  type u64 = x: int | 0 <= x < 0x1_0000_0000_0000_0000

  /** `types::data::Message`: the record storage keeps and clients receive. */
  datatype Record = Record(id: int, channelId: string, from: string, contents: string, timestamp: int)

  /** `types::ClientMessage`: what a client asks of the server. */
  datatype ClientMessage =
    | SendMessage(channelId: string, contents: string)
    | EditMessage(channelId: string, messageId: string, newContents: string)
    | DeleteMessage(channelId: string, messageId: string)

  /** `types::ServerMessage`: what the server pushes to clients. */
  datatype ServerMessage =
    | Authenticated(userId: string)
    | Error()
    | MessageCreate(message: Record)
    | MessageUpdate(message: Record)
    | MessageDelete(channelId: string, messageId: string)
    | PresenceUpdate(userId: string, status: string)
    | Typing(userId: string, channelId: string)

  /** `types::data::ResponseError`: the error replies a handler may send. */
  datatype ResponseError =
    | InvalidRequest(message: string)
    | Unauthorized(message: string)
    | NotFound(message: string)
    | InternalError(message: string)

  /** The values handed to `Client::send`, which serialises them to JSON. */
  datatype Outgoing = Push(message: ServerMessage) | Reject(error: ResponseError)

  /** `types::WsMessage<T>`: one reassembled application message. `String`
      holds the bytes of a well-formed UTF-8 text. */
  datatype WsMessage<T> = Message(message: T) | Binary(bytes: seq<byte>) | String(text: seq<byte>)

  /** The `std::io::ErrorKind`s the core tells apart. */
  datatype IoErrorKind = UnexpectedEof | BrokenPipe | ConnectionReset | TimedOut | WouldBlock | Other

  /** The error of `crate::Result`, one variant per way the core fails. */
  datatype Failure =
    | Io(kind: IoErrorKind)
    | CloseReasonTooLong
    | PongPayloadTooLong
    | UuidNotSet(token: u64)
    | UnsupportedOpcode(opcode: byte)
    | StorageFailed
}
