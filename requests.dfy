/** The request router, `src/requests/mod.rs`: `Server::call_request`
    hands each application message to its handler and only logs raw text
    and binary messages. */
module Requests {
  import opened Wrappers
  import opened Types
  import opened Bytes
  import opened Messages
  import opened WsClient

  /** Where `call_request` sends a message, with the arguments it passes. */
  datatype Handler =
    | SendHandler(channelId: string, contents: string)
    | EditHandler(channelId: string, messageId: string, newContents: string)
    | DeleteHandler(channelId: string, messageId: string)
    | LogOnly

  /** The handler of each message: an application message goes to the
      handler of its kind, a raw text or binary message only to the log. */
  function Route(req: WsMessage<ClientMessage>): (h: Handler)
    ensures h.LogOnly? <==> !req.Message?
    ensures h.SendHandler? <==> req.Message? && req.message.SendMessage?
    ensures h.EditHandler? <==> req.Message? && req.message.EditMessage?
    ensures h.DeleteHandler? <==> req.Message? && req.message.DeleteMessage?
  {
    match req
    case Message(SendMessage(channelId, contents)) => SendHandler(channelId, contents)
    case Message(EditMessage(channelId, messageId, newContents)) => EditHandler(channelId, messageId, newContents)
    case Message(DeleteMessage(channelId, messageId)) => DeleteHandler(channelId, messageId)
    case Binary(_) => LogOnly
    case String(_) => LogOnly
  }

  /** The request a handler call stands for. */
  function Request(h: Handler): (m: ClientMessage)
    requires !h.LogOnly?
  {
    match h
    case SendHandler(channelId, contents) => SendMessage(channelId, contents)
    case EditHandler(channelId, messageId, newContents) => EditMessage(channelId, messageId, newContents)
    case DeleteHandler(channelId, messageId) => DeleteMessage(channelId, messageId)
  }

  /** The handlers receive the request's fields unchanged: routing an
      application message and reading the request back from the handler
      call gives the message itself. */
  lemma RouteKeepsArguments(m: ClientMessage)
    ensures !Route(Message(m)).LogOnly? && Request(Route(Message(m))) == m
  {
  }

  /** `Server::call_request`: runs the handler `Route` picks and returns its
      error unchanged; the stubs and the log-only messages return `Ok` and
      change nothing. */
  method CallRequest(server: Server, req: WsMessage<ClientMessage>, client: Client,
                     encode: Outgoing -> seq<byte>, now: int) returns (r: Result<(), Failure>)
    requires server.Valid()
    modifies server.storage`records, client.stream`output, server.Streams()`output
    ensures Route(req).SendHandler? ==>
      MessageSent(server, client, Route(req).channelId, Route(req).contents, encode, now, r)
    ensures !Route(req).SendHandler? ==>
      && r == Ok(())
      && server.storage.records == old(server.storage.records)
      && client.stream.output == old(client.stream.output)
      && forall j | 0 <= j < |server.clients| :: server.clients[j].stream.output == old(server.clients[j].stream.output)
  {
    match Route(req)
    case SendHandler(channelId, contents) =>
      r := Messages.Send(server, client, channelId, contents, encode, now);
    case EditHandler(channelId, messageId, newContents) =>
      r := Edit(server, client, channelId, messageId, newContents);
    case DeleteHandler(channelId, messageId) =>
      r := Delete(server, client, channelId, messageId);
    case LogOnly =>
      r := Ok(());
  }
}
