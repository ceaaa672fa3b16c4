/** The message handlers, `src/requests/message.rs`: `send` checks the
    contents, stores the message and broadcasts it to every registered
    client; `edit` and `delete` are stubs. Storage is an append-only sequence
    of records that an insert may fail to extend; the registry is the
    server's sequence of clients, each writing to its own stream. */
module Messages {
  import opened Wrappers
  import opened Types
  import opened Bytes
  import opened Frames
  import opened Transport
  import opened WsClient

  /** The message storage: the rows of the `chat` table, in insertion order.
      `fault` says whether inserts fail. */
  class Storage {
    var records: seq<Record>
    const fault: bool

    constructor (records: seq<Record>, fault: bool)
      ensures this.records == records && this.fault == fault
    {
      this.records := records;
      this.fault := fault;
    }

    /** `MessagesDb::insert`: adds one row, whose id is the next one the
        table hands out, or fails and leaves the table as it was. */
    method Insert(channelId: string, from: string, contents: string, timestamp: int) returns (r: Result<Record, Failure>)
      modifies this`records
      ensures fault ==> r == Err(StorageFailed) && records == old(records)
      ensures !fault ==> r == Ok(NewRecord(old(records), channelId, from, contents, timestamp))
                         && records == old(records) + [r.value]
    {
      if fault {
        return Err(StorageFailed);
      }
      var record := NewRecord(records, channelId, from, contents, timestamp);
      records := records + [record];
      return Ok(record);
    }
  }

  /** The row an insert adds after `records`: the next id of an
      autoincrementing key. */
  function NewRecord(records: seq<Record>, channelId: string, from: string, contents: string, timestamp: int): (r: Record)
    ensures r.id == |records| + 1
    ensures r.channelId == channelId && r.from == from && r.contents == contents && r.timestamp == timestamp
  {
    Record(|records| + 1, channelId, from, contents, timestamp)
  }

  /** The server state the handlers use: the storage and the registry. */
  class Server {
    const storage: Storage
    /** The registered clients, in iteration order. */
    var clients: seq<Client>

    constructor (storage: Storage, clients: seq<Client>)
      ensures this.storage == storage && this.clients == clients
    {
      this.storage := storage;
      this.clients := clients;
    }

    /** Every connection is registered once: no two entries write to the
        same stream. */
    predicate Valid()
      reads this
    {
      forall i, j | 0 <= i < j < |clients| :: clients[i].stream != clients[j].stream
    }

    /** The streams of the registered clients. */
    function Streams(): set<Stream>
      reads this
    {
      set j | 0 <= j < |clients| :: clients[j].stream
    }
  }

  /** The author `send` stores with every message. */
  const Author := "idk"

  /** The error reply to a message without contents. */
  const EmptyMessage := InvalidRequest("Invalid message: empty message")

  /** Whether sending to each client fails, in registry order. */
  function Faults(clients: seq<Client>): (faults: seq<Option<IoErrorKind>>)
    ensures |faults| == |clients|
    ensures forall j | 0 <= j < |clients| :: faults[j] == clients[j].stream.writeFault
  {
    seq(|clients|, j requires 0 <= j < |clients| => clients[j].stream.writeFault)
  }

  /** How many clients a broadcast reaches: all of those before the first
      whose send fails. */
  function Served(faults: seq<Option<IoErrorKind>>): (n: nat)
    ensures n <= |faults|
    ensures forall j | 0 <= j < n :: faults[j].None?
    ensures n < |faults| ==> faults[n].Some?
  {
    if faults == [] || faults[0].Some? then 0 else 1 + Served(faults[1..])
  }

  /** What a broadcast returns: the error of the first client whose send
      fails, if any. */
  function BroadcastResult(faults: seq<Option<IoErrorKind>>): (r: Result<(), Failure>)
    ensures r.Ok? <==> forall j | 0 <= j < |faults| :: faults[j].None?
    ensures r.Err? ==> exists n | 0 <= n < |faults| :: && faults[n].Some? && r.error == Io(faults[n].value)
                                                        && forall j | 0 <= j < n :: faults[j].None?
  {
    var n := Served(faults);
    if n < |faults| then Err(Io(faults[n].value)) else Ok(())
  }

  /** The first `n` clients received `frame`, the rest nothing. */
  twostate predicate Delivered(clients: seq<Client>, frame: seq<byte>, n: nat)
    reads set j | 0 <= j < |clients| :: clients[j].stream
  {
    forall j | 0 <= j < |clients| ::
      clients[j].stream.output == old(clients[j].stream.output) + (if j < n then frame else [])
  }

  /** The sender's connection is not in the registry. */
  predicate Unregistered(clients: seq<Client>, client: Client) {
    forall j | 0 <= j < |clients| :: clients[j].stream != client.stream
  }

  /** The whole effect of `send`, and its result. */
  twostate predicate MessageSent(server: Server, client: Client, channelId: string, contents: string,
                                 encode: Outgoing -> seq<byte>, now: int, new r: Result<(), Failure>)
    reads server, server.storage, client.stream, server.Streams()
  {
    var clients := old(server.clients);
    && server.clients == clients
    && if contents == [] then
      && server.storage.records == old(server.storage.records)
      && (forall j | 0 <= j < |clients| && clients[j].stream != client.stream ::
            clients[j].stream.output == old(clients[j].stream.output))
      && (client.stream.writeFault.None? ==>
            r == Ok(()) && client.stream.output == old(client.stream.output) + TextFrame(encode(Reject(EmptyMessage))))
      && (client.stream.writeFault.Some? ==>
            r == Err(Io(client.stream.writeFault.value)) && client.stream.output == old(client.stream.output))
    else if server.storage.fault then
      && r == Err(StorageFailed)
      && server.storage.records == old(server.storage.records)
      && Delivered(clients, [], 0)
      && client.stream.output == old(client.stream.output)
    else
      var record := NewRecord(old(server.storage.records), channelId, Author, contents, now);
      && server.storage.records == old(server.storage.records) + [record]
      && (Unregistered(clients, client) ==> client.stream.output == old(client.stream.output))
      && Delivered(clients, TextFrame(encode(Push(MessageCreate(record)))), Served(Faults(clients)))
      && r == BroadcastResult(Faults(clients))
  }

  /** `message::send`: an empty message gets one error reply, to the sender
      only; otherwise the message is stored and sent to every registered
      client in turn, stopping at the first send that fails. `now` is the
      clock reading and `encode` the JSON serialisation. */
  method Send(server: Server, client: Client, channelId: string, contents: string,
              encode: Outgoing -> seq<byte>, now: int) returns (r: Result<(), Failure>)
    requires server.Valid()
    modifies server.storage`records, client.stream`output, server.Streams()`output
    ensures MessageSent(server, client, channelId, contents, encode, now, r)
  {
    if contents == [] {
      r := client.Send(encode(Reject(EmptyMessage)));
      return;
    }
    var inserted := server.storage.Insert(channelId, Author, contents, now);
    if inserted.Err? {
      return Err(inserted.error);
    }
    var frame := TextFrame(encode(Push(MessageCreate(inserted.value))));
    var clients := server.clients;
    var i := 0;
    while i < |clients|
      invariant i <= |clients|
      invariant server.storage.records == old(server.storage.records) + [inserted.value]
      invariant forall j | 0 <= j < i :: clients[j].stream.writeFault.None?
      invariant forall j | 0 <= j < |clients| ::
        clients[j].stream.output == old(clients[j].stream.output) + (if j < i then frame else [])
      invariant Unregistered(clients, client) ==> client.stream.output == old(client.stream.output)
    {
      r := clients[i].Send(encode(Push(MessageCreate(inserted.value))));
      if r.Err? {
        ServedIsFirstFault(Faults(clients), i);
        return;
      }
      i := i + 1;
    }
    ServedIsFirstFault(Faults(clients), i);
    return Ok(());
  }

  /** `message::edit`: a stub that only logs. */
  method Edit(server: Server, client: Client, channelId: string, messageId: string, newContents: string)
    returns (r: Result<(), Failure>)
    ensures r == Ok(())
  {
    return Ok(());
  }

  /** `message::delete`: a stub that only logs. */
  method Delete(server: Server, client: Client, channelId: string, messageId: string)
    returns (r: Result<(), Failure>)
    ensures r == Ok(())
  {
    return Ok(());
  }

  /** A broadcast reaches every client exactly when no send fails, and
      otherwise it stops at the first failing client: those before it got
      the message, it and those after it did not. */
  lemma {:induction false} ServedIsFirstFault(faults: seq<Option<IoErrorKind>>, n: nat)
    requires n <= |faults|
    requires forall j | 0 <= j < n :: faults[j].None?
    requires n < |faults| ==> faults[n].Some?
    ensures Served(faults) == n
  {
    if n > 0 {
      ServedIsFirstFault(faults[1..], n - 1);
    }
  }
}
