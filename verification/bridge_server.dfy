/**
 The bridge's connection server: registers clients as they connect, answers
 their three commands, forgets them when they close, and fans reader events
 out to them. Every handler returns the new server state and the messages
 it queues, each addressed to one client.

 Whether a client's transport is currently open is owned by the transport,
 not by the server; handlers take it as the set `open` of client ids whose
 socket reports OPEN.
 */
module BridgeServer {
  import opened Wrappers
  import opened ClientRegistry
  import NfcReader

  /** Messages the server sends (their JSON `type` in the comment). */
  datatype ServerMsg =
    | Connected(clientId: ClientId, reader: NfcReader.ReaderInfo)      // "connected"
    | DeviceInfo(info: NfcReader.ReaderInfo)                           // "deviceInfo"
    | ScanningStarted                                                  // "scanningStarted"
    | ScanningStopped                                                  // "scanningStopped"
    | CardScanned(uid: string, atr: string, timestamp: int)            // "cardScanned"
    | CardGone                                                         // "cardRemoved"
    | ReaderAttached(deviceName: string)                               // "readerConnected"
    | ReaderDetached(deviceName: string)                               // "readerDisconnected"

  /** A message queued for one client. */
  datatype Delivery = Delivery(to: ClientId, msg: ServerMsg)

  /** An inbound frame after JSON parsing: its `type` field when it is a string, or a parse failure. */
  datatype Inbound = Parsed(typeField: Option<string>) | Unparseable

  datatype Command = GetDeviceInfo | StartScanning | StopScanning | Ignored

  datatype Server = Server(registry: Registry)

  datatype Outcome = Outcome(server: Server, outbox: seq<Delivery>)

  /** What `Stop` leaves behind, and the clients whose sockets it closes, in order. */
  datatype Stopped = Stopped(server: Server, closing: seq<ClientId>)

  const Empty: Server := Server([])

  /** The server's state invariant: no id is registered twice. */
  predicate Valid(s: Server) {
    UniqueIds(s.registry)
  }

  /** Recognizes the three commands by their `type`; every other frame is ignored. */
  function Classify(frame: Inbound): (c: Command)
    ensures c == GetDeviceInfo <==> frame == Parsed(Some("getDeviceInfo"))
    ensures c == StartScanning <==> frame == Parsed(Some("startScanning"))
    ensures c == StopScanning <==> frame == Parsed(Some("stopScanning"))
  {
    match frame
    case Unparseable => Ignored
    case Parsed(None) => Ignored
    case Parsed(Some(t)) =>
      if t == "getDeviceInfo" then GetDeviceInfo
      else if t == "startScanning" then StartScanning
      else if t == "stopScanning" then StopScanning
      else Ignored
  }

  /** Queues `msg` for the client only while its socket is open; otherwise drops it silently. */
  function Send(c: Client, msg: ServerMsg, open: set<ClientId>): (out: seq<Delivery>)
    ensures forall d :: d in out ==> d == Delivery(c.id, msg)
    ensures |out| == (if c.id in open then 1 else 0)
  {
    if c.id in open then [Delivery(c.id, msg)] else []
  }

  /** A client receives a broadcast: its socket is open and, for scanning-only messages, it is scanning. */
  predicate Receives(c: Client, scanningOnly: bool, open: set<ClientId>) {
    c.id in open && (!scanningOnly || c.isScanning)
  }

  /**
   Queues `msg` for every registered client in registry order, skipping
   clients that are not scanning when `scanningOnly` holds and clients whose
   socket is not open.
   */
  function Broadcast(r: Registry, msg: ServerMsg, scanningOnly: bool, open: set<ClientId>): (out: seq<Delivery>)
    ensures |out| <= |r|
    ensures forall d :: d in out ==> d.msg == msg && exists c :: c in r && c.id == d.to && Receives(c, scanningOnly, open)
    ensures forall c :: c in r && Receives(c, scanningOnly, open) ==> Delivery(c.id, msg) in out
    ensures UniqueIds(r) ==> forall i, j :: 0 <= i < j < |out| ==> out[i].to != out[j].to
  {
    if r == [] then []
    else
      var rest := Broadcast(r[1..], msg, scanningOnly, open);
      BroadcastStepSound(r, msg, scanningOnly, open, rest);
      BroadcastStepComplete(r, msg, scanningOnly, open, rest);
      BroadcastStepDistinct(r, msg, scanningOnly, open, rest);
      HeadDelivery(r[0], msg, scanningOnly, open) + rest
  }

  /** What a broadcast sends to one client: the message iff it receives it. */
  function HeadDelivery(c: Client, msg: ServerMsg, scanningOnly: bool, open: set<ClientId>): (out: seq<Delivery>)
    ensures out == (if Receives(c, scanningOnly, open) then [Delivery(c.id, msg)] else [])
  {
    if !scanningOnly || c.isScanning then Send(c, msg, open) else []
  }

  /** Adding the head's delivery keeps every delivery addressed to a receiving client of the registry. */
  lemma BroadcastStepSound(r: Registry, msg: ServerMsg, scanningOnly: bool, open: set<ClientId>, rest: seq<Delivery>)
    requires r != []
    requires forall d :: d in rest ==> d.msg == msg && exists c :: c in r[1..] && c.id == d.to && Receives(c, scanningOnly, open)
    ensures forall d :: d in HeadDelivery(r[0], msg, scanningOnly, open) + rest ==>
      d.msg == msg && exists c :: c in r && c.id == d.to && Receives(c, scanningOnly, open)
  {
    forall d | d in HeadDelivery(r[0], msg, scanningOnly, open) + rest
      ensures d.msg == msg && exists c :: c in r && c.id == d.to && Receives(c, scanningOnly, open)
    {
      if d in rest {
        var c :| c in r[1..] && c.id == d.to && Receives(c, scanningOnly, open);
        assert c in r;
      } else {
        assert r[0] in r;
      }
    }
  }

  /** Adding the head's delivery reaches every receiving client of the registry. */
  lemma BroadcastStepComplete(r: Registry, msg: ServerMsg, scanningOnly: bool, open: set<ClientId>, rest: seq<Delivery>)
    requires r != []
    requires forall c :: c in r[1..] && Receives(c, scanningOnly, open) ==> Delivery(c.id, msg) in rest
    ensures forall c :: c in r && Receives(c, scanningOnly, open) ==>
      Delivery(c.id, msg) in HeadDelivery(r[0], msg, scanningOnly, open) + rest
  {
    forall c | c in r && Receives(c, scanningOnly, open)
      ensures Delivery(c.id, msg) in HeadDelivery(r[0], msg, scanningOnly, open) + rest
    {
      if c != r[0] {
        var k :| 0 <= k < |r| && r[k] == c;
        assert r[1..][k - 1] == c;
      }
    }
  }

  /** With unique ids the head's id is not among the tail's recipients, so no recipient repeats. */
  lemma BroadcastStepDistinct(r: Registry, msg: ServerMsg, scanningOnly: bool, open: set<ClientId>, rest: seq<Delivery>)
    requires r != []
    requires forall d :: d in rest ==> exists c :: c in r[1..] && c.id == d.to
    requires UniqueIds(r[1..]) ==> forall i, j :: 0 <= i < j < |rest| ==> rest[i].to != rest[j].to
    ensures UniqueIds(r) ==> var out := HeadDelivery(r[0], msg, scanningOnly, open) + rest;
      forall i, j :: 0 <= i < j < |out| ==> out[i].to != out[j].to
  {
    if UniqueIds(r) {
      assert UniqueIds(r[1..]) by {
        forall i, j | 0 <= i < j < |r[1..]| ensures r[1..][i].id != r[1..][j].id {
          assert r[1..][i] == r[i + 1] && r[1..][j] == r[j + 1];
        }
      }
      forall d | d in rest ensures d.to != r[0].id {
        var c :| c in r[1..] && c.id == d.to;
        var k :| 0 <= k < |r[1..]| && r[1..][k] == c;
        assert r[k + 1] == c;
      }
      var head := HeadDelivery(r[0], msg, scanningOnly, open);
      var out := head + rest;
      forall i, j | 0 <= i < j < |out| ensures out[i].to != out[j].to {
        if i >= |head| {
          assert out[i] == rest[i - |head|] && out[j] == rest[j - |head|];
        } else {
          assert out[j] == rest[j - |head|];
          assert out[j] in rest;
        }
      }
    }
  }

  /**
   A new connection under a fresh id: registered as not scanning, and
   greeted with its id and the reader snapshot before anything else.
   */
  function HandleConnection(s: Server, id: ClientId, reader: NfcReader.ReaderInfo, open: set<ClientId>): (o: Outcome)
    requires !Registered(s.registry, id)
    ensures Valid(s) ==> Valid(o.server)
    ensures o.server.registry == s.registry + [Client(id, false)]
    ensures o.outbox == (if id in open then [Delivery(id, Connected(id, reader))] else [])
  {
    var c := Client(id, false);
    Outcome(Server(Add(s.registry, c)), Send(c, Connected(id, reader), open))
  }

  /** The client with this id, if registered. */
  function Lookup(r: Registry, id: ClientId): (c: Option<Client>)
    ensures c.Some? <==> Registered(r, id)
    ensures c.Some? ==> c.value in r && c.value.id == id
  {
    if r == [] then None
    else if r[0].id == id then Some(r[0])
    else Lookup(r[1..], id)
  }

  /**
   One inbound frame from client `id`. Only the sender's own flag can change
   and only the sender gets a reply; an ignored frame, or a frame from a
   client no longer registered, changes nothing and sends nothing.
   */
  function HandleMessage(s: Server, id: ClientId, frame: Inbound, reader: NfcReader.ReaderInfo, open: set<ClientId>): (o: Outcome)
    ensures forall d :: d in o.outbox ==> d.to == id
    ensures |o.outbox| <= 1
    ensures id !in open ==> o.outbox == []
    ensures Ids(o.server.registry) == Ids(s.registry)
    ensures forall i :: 0 <= i < |s.registry| && s.registry[i].id != id ==> o.server.registry[i] == s.registry[i]
    ensures Classify(frame) == Ignored || !Registered(s.registry, id) ==> o == Outcome(s, [])
    ensures Classify(frame) == GetDeviceInfo ==> o.server == s
    ensures Registered(s.registry, id) && id in open ==> o.outbox == match Classify(frame)
      case GetDeviceInfo => [Delivery(id, DeviceInfo(reader))]
      case StartScanning => [Delivery(id, ScanningStarted)]
      case StopScanning => [Delivery(id, ScanningStopped)]
      case Ignored => []
    ensures Classify(frame) == StartScanning ==>
      forall i :: 0 <= i < |s.registry| && s.registry[i].id == id ==> o.server.registry[i].isScanning
    ensures Classify(frame) == StopScanning ==>
      forall i :: 0 <= i < |s.registry| && s.registry[i].id == id ==> !o.server.registry[i].isScanning
  {
    match Lookup(s.registry, id)
    case None => Outcome(s, [])
    case Some(c) =>
      match Classify(frame)
      case GetDeviceInfo => Outcome(s, Send(c, DeviceInfo(reader), open))
      case StartScanning => Outcome(Server(SetScanning(s.registry, id, true)), Send(c, ScanningStarted, open))
      case StopScanning => Outcome(Server(SetScanning(s.registry, id, false)), Send(c, ScanningStopped, open))
      case Ignored => Outcome(s, [])
  }

  /** The client's socket closed: it is forgotten; closing an unknown id is a no-op. */
  function HandleClose(s: Server, id: ClientId): (s': Server)
    ensures !Registered(s'.registry, id)
    ensures forall c :: c in s'.registry <==> c in s.registry && c.id != id
    ensures Valid(s) ==> Valid(s')
    ensures !Registered(s.registry, id) ==> s' == s
  {
    Server(Remove(s.registry, id))
  }

  /** Card events go to scanning clients only; reader events go to everyone. */
  predicate ScanningOnly(e: NfcReader.NfcEvent) {
    e.CardInserted? || e.CardRemoved?
  }

  /** The message a reader event is forwarded as; the ready signal is not forwarded. */
  function MessageFor(e: NfcReader.NfcEvent, timestamp: int): ServerMsg
    requires !e.Ready?
  {
    match e
    case CardInserted(uid, atr) => CardScanned(uid, atr, timestamp)
    case CardRemoved => CardGone
    case ReaderConnected(name) => ReaderAttached(name)
    case ReaderDisconnected(name) => ReaderDetached(name)
  }

  /**
   Routes one reader event as a broadcast of its message: card events reach
   every open scanning client, reader events every open client, each once;
   the ready signal reaches no one. Routing never changes the registry.
   */
  function OnReaderEvent(s: Server, e: NfcReader.NfcEvent, timestamp: int, open: set<ClientId>): (out: seq<Delivery>)
    ensures e.Ready? ==> out == []
    ensures !e.Ready? ==> forall d :: d in out ==> d.msg == MessageFor(e, timestamp)
    ensures forall d :: d in out ==> exists c :: c in s.registry && c.id == d.to && Receives(c, ScanningOnly(e), open)
    ensures !e.Ready? ==> forall c :: c in s.registry && Receives(c, ScanningOnly(e), open) ==>
      Delivery(c.id, MessageFor(e, timestamp)) in out
    ensures UniqueIds(s.registry) ==> forall i, j :: 0 <= i < j < |out| ==> out[i].to != out[j].to
  {
    match e
    case Ready => []
    case CardInserted(uid, atr) => Broadcast(s.registry, CardScanned(uid, atr, timestamp), true, open)
    case CardRemoved => Broadcast(s.registry, CardGone, true, open)
    case ReaderConnected(name) => Broadcast(s.registry, ReaderAttached(name), false, open)
    case ReaderDisconnected(name) => Broadcast(s.registry, ReaderDetached(name), false, open)
  }

  /** Routes the events of one monitor step, in order: the outbox is the events' broadcasts one after another. */
  function Route(s: Server, events: seq<NfcReader.NfcEvent>, timestamp: int, open: set<ClientId>): (out: seq<Delivery>)
    ensures forall k, d :: 0 <= k < |events| && d in OnReaderEvent(s, events[k], timestamp, open) ==> d in out
    ensures forall d :: d in out ==> exists k :: 0 <= k < |events| && d in OnReaderEvent(s, events[k], timestamp, open)
    ensures forall d :: d in out ==> Registered(s.registry, d.to) && d.to in open
    ensures forall d :: d in out && (d.msg.CardScanned? || d.msg.CardGone?) ==>
      exists c :: c in s.registry && c.id == d.to && c.isScanning
  {
    if events == [] then []
    else
      var first := OnReaderEvent(s, events[0], timestamp, open);
      var rest := Route(s, events[1..], timestamp, open);
      RouteShift(s, events, timestamp, open, rest);
      first + rest
  }

  /** Lifts the tail's routing guarantees, indexed over `events[1..]`, to indices 1.. of `events`. */
  lemma RouteShift(s: Server, events: seq<NfcReader.NfcEvent>, timestamp: int, open: set<ClientId>, rest: seq<Delivery>)
    requires events != []
    requires forall k, d :: 0 <= k < |events[1..]| && d in OnReaderEvent(s, events[1..][k], timestamp, open) ==> d in rest
    requires forall d :: d in rest ==> exists k :: 0 <= k < |events[1..]| && d in OnReaderEvent(s, events[1..][k], timestamp, open)
    ensures forall k, d :: 1 <= k < |events| && d in OnReaderEvent(s, events[k], timestamp, open) ==> d in rest
    ensures forall d :: d in rest ==> exists k :: 1 <= k < |events| && d in OnReaderEvent(s, events[k], timestamp, open)
  {
    forall k, d | 1 <= k < |events| && d in OnReaderEvent(s, events[k], timestamp, open) ensures d in rest {
      assert events[1..][k - 1] == events[k];
    }
    forall d | d in rest ensures exists k :: 1 <= k < |events| && d in OnReaderEvent(s, events[k], timestamp, open) {
      var k :| 0 <= k < |events[1..]| && d in OnReaderEvent(s, events[1..][k], timestamp, open);
      assert events[1..][k] == events[k + 1];
    }
  }

  /** Closes every client's socket and empties the registry. */
  function Stop(s: Server): (r: Stopped)
    ensures r.server == Empty
    ensures r.closing == Ids(s.registry)
  {
    Stopped(Empty, Ids(s.registry))
  }
}
