/**
 The bridge as a whole: one reader monitor and one connection server, where
 every event the monitor emits is routed to clients as soon as it is
 emitted, and clients' greetings and device-info replies carry the
 monitor's current snapshot.
 */
module Bridge {
  import opened Wrappers
  import opened ClientRegistry
  import Apdu
  import NfcReader
  import opened BridgeServer

  datatype System = System(monitor: NfcReader.Monitor, server: Server)

  /** Something that happens to the bridge: a driver notification, or a client connecting, sending or closing. */
  datatype Input =
    | Hardware(notification: NfcReader.Notification, timestamp: int)
    | Opened(id: ClientId)
    | Message(id: ClientId, frame: Inbound)
    | Closed(id: ClientId)

  /** The new system, the messages queued for clients and the calls made on the reader. */
  datatype Output = Output(system: System, outbox: seq<Delivery>, calls: seq<NfcReader.HwCall>)

  /** Applies one input; a connecting client's id must be fresh. */
  function Apply(sys: System, input: Input, open: set<ClientId>): (o: Output)
    requires input.Opened? ==> !Registered(sys.server.registry, input.id)
    ensures Valid(sys.server) ==> Valid(o.system.server)
    ensures !input.Hardware? ==> o.system.monitor == sys.monitor && o.calls == []
    ensures input.Hardware? ==> o.system.server == sys.server
  {
    match input
    case Hardware(n, timestamp) =>
      var step := NfcReader.Handle(sys.monitor, n);
      Output(System(step.monitor, sys.server), Route(sys.server, step.events, timestamp, open), step.calls)
    case Opened(id) =>
      var o := HandleConnection(sys.server, id, NfcReader.GetInfo(sys.monitor), open);
      Output(System(sys.monitor, o.server), o.outbox, [])
    case Message(id, frame) =>
      var o := HandleMessage(sys.server, id, frame, NfcReader.GetInfo(sys.monitor), open);
      Output(System(sys.monitor, o.server), o.outbox, [])
    case Closed(id) =>
      Output(System(sys.monitor, HandleClose(sys.server, id)), [], [])
  }

  /** The scanning flag of a registered client, if registered. */
  function ScanningOf(s: Server, id: ClientId): Option<bool> {
    match Lookup(s.registry, id)
    case None => None
    case Some(c) => Some(c.isScanning)
  }

  /** Input `input` is client `id` asking to start or stop scanning. */
  predicate TogglesScanning(input: Input, id: ClientId) {
    input.Message? && input.id == id && Classify(input.frame) in {StartScanning, StopScanning}
  }

  /** The flag of a client in a valid registry is the flag of its entry. */
  lemma ScanningOfEntry(s: Server, i: int)
    requires Valid(s) && 0 <= i < |s.registry|
    ensures ScanningOf(s, s.registry[i].id) == Some(s.registry[i].isScanning)
  {
    LookupFirst(s.registry, s.registry[i].id, i);
  }

  /** In a registry without duplicate ids, Lookup finds the one entry with that id. */
  lemma {:induction false} LookupFirst(r: Registry, id: ClientId, i: int)
    requires UniqueIds(r) && 0 <= i < |r| && r[i].id == id
    ensures Lookup(r, id) == Some(r[i])
  {
    if i > 0 {
      assert r[0].id != id;
      assert r[1..][i - 1] == r[i];
      LookupFirst(r[1..], id, i - 1);
    }
  }

  /**
   A client's scanning flag starts false and is changed only by that
   client's own startScanning or stopScanning: every other input leaves it
   as it was (or, for the connection that registers it, sets it false).
   */
  lemma ScanningOnlyByOwnCommand(sys: System, input: Input, open: set<ClientId>, id: ClientId)
    requires Valid(sys.server)
    requires input.Opened? ==> !Registered(sys.server.registry, input.id)
    requires !TogglesScanning(input, id)
    ensures var after := ScanningOf(Apply(sys, input, open).system.server, id);
      after == ScanningOf(sys.server, id) || (input.Opened? && input.id == id && after == Some(false)) || after == None
  {
    var s := sys.server;
    match input
    case Hardware(_, _) =>
    case Opened(newId) =>
      if newId != id {
        OpenKeepsScanning(s, newId, NfcReader.GetInfo(sys.monitor), open, id);
      }
    case Message(from, frame) =>
      MessageKeepsScanning(s, from, frame, NfcReader.GetInfo(sys.monitor), open, id);
    case Closed(closedId) =>
      CloseKeepsScanning(s, closedId, id);
  }

  /** A new connection leaves every other client's flag as it was. */
  lemma OpenKeepsScanning(s: Server, newId: ClientId, info: NfcReader.ReaderInfo, open: set<ClientId>, id: ClientId)
    requires Valid(s) && !Registered(s.registry, newId) && newId != id
    ensures ScanningOf(HandleConnection(s, newId, info, open).server, id) == ScanningOf(s, id)
  {
    var s' := HandleConnection(s, newId, info, open).server;
    if Registered(s'.registry, id) {
      var i :| 0 <= i < |s'.registry| && s'.registry[i].id == id;
      ScanningOfEntry(s', i);
      assert i < |s.registry|;
      ScanningOfEntry(s, i);
    }
  }

  /** A message that is not the client's own start or stop leaves its flag as it was. */
  lemma MessageKeepsScanning(s: Server, from: ClientId, frame: Inbound, info: NfcReader.ReaderInfo, open: set<ClientId>, id: ClientId)
    requires from == id ==> Classify(frame) !in {StartScanning, StopScanning}
    ensures ScanningOf(HandleMessage(s, from, frame, info, open).server, id) == ScanningOf(s, id)
  {
    if Lookup(s.registry, from).Some? && Classify(frame) in {StartScanning, StopScanning} {
      ToggleSetsScanning(s, from, frame, info, open);
      LookupPastSetScanning(s.registry, from, Classify(frame) == StartScanning, id);
    } else {
      OtherFramesKeepServer(s, from, frame, info, open);
    }
  }

  /** A frame that is not a registered client's start or stop leaves the server as it was. */
  lemma OtherFramesKeepServer(s: Server, from: ClientId, frame: Inbound, info: NfcReader.ReaderInfo, open: set<ClientId>)
    requires !(Lookup(s.registry, from).Some? && Classify(frame) in {StartScanning, StopScanning})
    ensures HandleMessage(s, from, frame, info, open).server == s
  {
  }

  /** A registered client's start or stop sets that client's flag in the registry, and nothing else. */
  lemma ToggleSetsScanning(s: Server, from: ClientId, frame: Inbound, info: NfcReader.ReaderInfo, open: set<ClientId>)
    requires Lookup(s.registry, from).Some? && Classify(frame) in {StartScanning, StopScanning}
    ensures HandleMessage(s, from, frame, info, open).server
      == Server(SetScanning(s.registry, from, Classify(frame) == StartScanning))
  {
  }

  /** Setting one client's flag does not change what a lookup of another id finds. */
  lemma {:induction false} LookupPastSetScanning(r: Registry, from: ClientId, scanning: bool, id: ClientId)
    requires from != id
    ensures Lookup(SetScanning(r, from, scanning), id) == Lookup(r, id)
  {
    if r != [] {
      LookupPastSetScanning(r[1..], from, scanning, id);
      assert SetScanning(r, from, scanning)[1..] == SetScanning(r[1..], from, scanning);
    }
  }

  /** Closing a connection leaves the flag of every client still registered as it was. */
  lemma CloseKeepsScanning(s: Server, closedId: ClientId, id: ClientId)
    requires Valid(s)
    ensures var after := ScanningOf(HandleClose(s, closedId), id);
      after == ScanningOf(s, id) || after == None
  {
    var s' := HandleClose(s, closedId);
    if Registered(s'.registry, id) {
      var i :| 0 <= i < |s'.registry| && s'.registry[i].id == id;
      ScanningOfEntry(s', i);
      var c' := s'.registry[i];
      assert c' in s.registry;
      var j :| 0 <= j < |s.registry| && s.registry[j] == c';
      ScanningOfEntry(s, j);
    }
  }

  /**
   Whatever the hardware does, card messages reach only clients that are
   registered, scanning and open, and nothing reaches a client that is not
   registered.
   */
  lemma CardMessagesOnlyToScanning(sys: System, n: NfcReader.Notification, timestamp: int, open: set<ClientId>)
    ensures var o := Apply(sys, Hardware(n, timestamp), open);
      forall d :: d in o.outbox ==>
        && Registered(sys.server.registry, d.to) && d.to in open
        && (d.msg.CardScanned? || d.msg.CardGone? ==>
              exists c :: c in sys.server.registry && c.id == d.to && c.isScanning)
  {
  }

  /**
   A client that has closed receives nothing from any later reader event,
   while every other client that would have received the event still does:
   every open client for reader events, every open scanning client for card
   events.
   */
  lemma ClosedClientSkipped(s: Server, id: ClientId, e: NfcReader.NfcEvent, timestamp: int, open: set<ClientId>)
    ensures forall d :: d in OnReaderEvent(HandleClose(s, id), e, timestamp, open) ==> d.to != id
    ensures !e.Ready? ==> forall c :: c in s.registry && c.id != id && Receives(c, ScanningOnly(e), open) ==>
      Delivery(c.id, MessageFor(e, timestamp)) in OnReaderEvent(HandleClose(s, id), e, timestamp, open)
  {
  }

  /** After stop no reader event reaches anyone. */
  lemma StopSilencesEvents(s: Server, e: NfcReader.NfcEvent, timestamp: int, open: set<ClientId>)
    ensures OnReaderEvent(Stop(s).server, e, timestamp, open) == []
  {
  }

  const ScannerId: ClientId := "scanner"
  const IdleId: ClientId := "idle"
  const ExampleReader: NfcReader.Reader := NfcReader.Reader("ACR122U")

  /** A monitor with a reader attached and no card recorded. */
  const Waiting: NfcReader.Monitor :=
    NfcReader.Monitor(true, true, Some(ExampleReader), Some(ExampleReader.name), false, None)

  /** One client scanning, one that never asked to. */
  const TwoClients: Server := Server([Client(ScannerId, true), Client(IdleId, false)])

  /** A card arriving on the reader and answering AA BB 90 00. */
  const GoodTap: NfcReader.Notification :=
    NfcReader.StatusChanged(0, NfcReader.Status(0x20, None), NfcReader.Response([0xAA, 0xBB, 0x90, 0x00]))

  /**
   A card answering AA BB 90 00 is announced as "AABB" to the scanning
   client only, after connect, transmit and disconnect.
   */
  lemma {:induction false} ScanReachesOnlyScanningClient(timestamp: int)
    ensures var o := Apply(System(Waiting, TwoClients), Hardware(GoodTap, timestamp), {ScannerId, IdleId});
      && o.outbox == [Delivery(ScannerId, CardScanned("AABB", "", timestamp))]
      && o.calls == NfcReader.ExchangeCalls
      && o.system.monitor.cardPresent && o.system.monitor.lastUid == Some("AABB")
  {
    ExampleInsertStep();
    ExampleRoute(timestamp);
    HardwareApply(System(Waiting, TwoClients), GoodTap, timestamp, {ScannerId, IdleId});
  }

  /** The server's side of the example: the inserted card is routed to the scanning client only. */
  lemma ExampleRoute(timestamp: int)
    ensures Route(TwoClients, [NfcReader.CardInserted("AABB", "")], timestamp, {ScannerId, IdleId})
      == [Delivery(ScannerId, CardScanned("AABB", "", timestamp))]
  {
    var open := {ScannerId, IdleId};
    var msg := CardScanned("AABB", "", timestamp);
    RouteOne(TwoClients, NfcReader.CardInserted("AABB", ""), timestamp, open);
    InsertedIsBroadcast(TwoClients, "AABB", "", timestamp, open);
    ExampleBroadcast(msg, open);
  }

  /** An inserted card is broadcast as cardScanned on the scanning-only channel. */
  lemma InsertedIsBroadcast(s: Server, uid: string, atr: string, timestamp: int, open: set<ClientId>)
    ensures OnReaderEvent(s, NfcReader.CardInserted(uid, atr), timestamp, open)
      == Broadcast(s.registry, CardScanned(uid, atr, timestamp), true, open)
  {
  }

  /** A hardware input steps the monitor and routes what it emits. */
  lemma HardwareApply(sys: System, n: NfcReader.Notification, timestamp: int, open: set<ClientId>)
    ensures var step := NfcReader.Handle(sys.monitor, n);
      Apply(sys, Hardware(n, timestamp), open)
        == Output(System(step.monitor, sys.server), Route(sys.server, step.events, timestamp, open), step.calls)
  {
  }

  /** Routing a single event is broadcasting it. */
  lemma RouteOne(s: Server, e: NfcReader.NfcEvent, timestamp: int, open: set<ClientId>)
    ensures Route(s, [e], timestamp, open) == OnReaderEvent(s, e, timestamp, open)
  {
    assert [e][1..] == [];
  }

  /** The monitor's side of the example: the rising edge reads "AABB". */
  lemma ExampleInsertStep()
    ensures NfcReader.Handle(Waiting, GoodTap)
      == NfcReader.Step(Waiting.(cardPresent := true, lastUid := Some("AABB")), [NfcReader.CardInserted("AABB", "")], NfcReader.ExchangeCalls)
  {
    Apdu.ExampleResponses();
    assert NfcReader.Handle(Waiting, GoodTap)
      == NfcReader.OnStatus(Waiting, 0, NfcReader.Status(0x20, None), NfcReader.Response([0xAA, 0xBB, 0x90, 0x00]));
  }

  /** The server's side of the example: a scanning-only message reaches the scanning client only. */
  lemma ExampleBroadcast(msg: ServerMsg, open: set<ClientId>)
    requires ScannerId in open
    ensures Broadcast(TwoClients.registry, msg, true, open) == [Delivery(ScannerId, msg)]
  {
    assert TwoClients.registry[1..] == [Client(IdleId, false)];
    assert [Client(IdleId, false)][1..] == [];
    assert Broadcast([Client(IdleId, false)], msg, true, open) == [];
  }

  /** A card arriving on the reader that answers GET DATA with AA BB 6A 82 (file not found). */
  const BadTap: NfcReader.Notification :=
    NfcReader.StatusChanged(0, NfcReader.Status(0x20, None), NfcReader.Response([0xAA, 0xBB, 0x6A, 0x82]))

  /** A card answering AA BB 6A 82 is announced to no one, though the reader is still disconnected. */
  lemma {:induction false} FailedReadReachesNoOne(timestamp: int)
    ensures var o := Apply(System(Waiting, TwoClients), Hardware(BadTap, timestamp), {ScannerId, IdleId});
      && o.outbox == []
      && o.calls == NfcReader.ExchangeCalls
      && o.system.monitor.cardPresent && o.system.monitor.lastUid == None
  {
    ExampleFailedStep();
    HardwareApply(System(Waiting, TwoClients), BadTap, timestamp, {ScannerId, IdleId});
  }

  /** The monitor's side of the failed read: the card is marked present, nothing is emitted, the exchange still runs. */
  lemma ExampleFailedStep()
    ensures NfcReader.Handle(Waiting, BadTap) == NfcReader.Step(Waiting.(cardPresent := true), [], NfcReader.ExchangeCalls)
  {
    Apdu.ExampleResponses();
    assert NfcReader.Handle(Waiting, BadTap)
      == NfcReader.OnStatus(Waiting, 0, NfcReader.Status(0x20, None), NfcReader.Response([0xAA, 0xBB, 0x6A, 0x82]));
  }

  /** A new client's first message is its greeting with its id and the reader snapshot. */
  lemma GreetingFirst(sys: System, id: ClientId, open: set<ClientId>)
    requires !Registered(sys.server.registry, id) && id in open
    ensures var o := Apply(sys, Opened(id), open);
      o.outbox == [Delivery(id, Connected(id, NfcReader.GetInfo(sys.monitor)))]
      && ScanningOf(o.system.server, id) == Some(false)
  {
    var s' := Apply(sys, Opened(id), open).system.server;
    LookupLast(sys.server.registry, Client(id, false));
  }

  /** Lookup finds an entry appended under a fresh id. */
  lemma {:induction false} LookupLast(r: Registry, c: Client)
    requires !Registered(r, c.id)
    ensures Lookup(r + [c], c.id) == Some(c)
  {
    if r != [] {
      assert (r + [c])[1..] == r[1..] + [c];
      assert r[0] in r;
      assert !Registered(r[1..], c.id) by {
        forall x | x in r[1..] ensures x.id != c.id { assert x in r; }
      }
      LookupLast(r[1..], c);
    }
  }
}
