# NFC bridge server — a Dafny model of its event pipeline

The bridge connects a PC/SC smart-card reader to WebSocket clients. Two small
state machines make up its logic, and both are modelled here as pure
transition functions over immutable state:

* the **reader monitor** (`src/nfc-reader.ts`). It turns driver notifications into
  `readerConnected`, `readerDisconnected`, `cardInserted` and `cardRemoved` events.
  Card presence is found by XOR-ing the previous and new state bitmasks and testing
  the present bit (`0x20`). The card's UID is read with the PC/SC GET DATA
  pseudo-command `FF CA 00 00 00`. The two trailing response bytes are the
  ISO/IEC 7816-4 status word (section 5.1), and only `90 00` yields a UID. The UID
  is the remaining bytes in upper-case hex. Every handler returns the new monitor
  state, the emitted events and the calls made on the reader (connect, transmit,
  disconnect, close).
* the **connection server** (`src/websocket-server.ts`). It keeps a registry of clients
  and their `isScanning` flags, in insertion order like the source's `Map`. It
  handles the three inbound commands (`getDeviceInfo`, `startScanning`,
  `stopScanning`) and ignores everything else. It routes card events to scanning
  clients only and reader events to every client. Every handler returns the new
  registry and the outbox of messages, each addressed to one client.

Files:

| file | module | contents |
|---|---|---|
| `wrappers.dfy` | `Wrappers` | `Option`, `Result` |
| `hex.dfy` | `Hex` | hex rendering of byte strings (upper or lower case) and its decoder |
| `apdu.dfy` | `Apdu` | the GET DATA command, the status word, UID extraction |
| `nfc_reader.dfy` | `NfcReader` | monitor state, the handlers, `GetInfo`, `Shutdown`, runs of notifications |
| `client_registry.dfy` | `ClientRegistry` | the ordered client registry |
| `bridge_server.dfy` | `BridgeServer` | connection, message and close handlers, `Send`, `Broadcast`, event routing, `Stop` |
| `bridge.dfy` | `Bridge` | monitor and server composed; end-to-end properties and scenarios |

Inputs that stand in for the runtime:

* The previous reader state bitmask (`reader.state`) arrives with each status notification.
* The outcome of the card exchange arrives the same way: connect failed, transmit failed, or the response bytes.
* The result of loading the driver binding is passed to `Initialize`.
* Whether a client's socket reports OPEN is the set `open` of client ids.
* The new client's id and the `Date.now()` timestamp are parameters.

## Model

| member | source | states |
|---|---|---|
| Hex.Encode | src/nfc-reader.ts:73 | the rendering of n bytes is 2n characters, all hex digits of the requested case; byte i is written high nibble first, at positions 2i and 2i+1 |
| Hex.DecodeEncode | src/nfc-reader.ts:73 | decoding the rendering of any byte string gives that byte string back (either case) |
| Hex.EncodeDecode | src/nfc-reader.ts:73 | conversely, a decodable string of digits of one case is exactly the rendering of what it decodes to |
| Hex.EncodeInjective | src/nfc-reader.ts:73 | different UID bytes never render to the same UID text |
| Apdu.StatusWord | src/nfc-reader.ts:71 | the status word is below 0x10000, its high byte is the second-to-last response byte and its low byte the last |
| Apdu.ExtractUid | src/nfc-reader.ts:70-73 | a UID exists iff the response has at least 2 bytes and ends in 90 00; it then has 2(n-2) upper-case digits and decodes to the bytes before the status word |
| Apdu.ExampleResponses | src/nfc-reader.ts:70-73 | AA BB 90 00 gives "AABB" and 12 AB 90 00 gives "12AB" (high nibble first); AA BB 6A 82 and a 1-byte response give nothing |
| NfcReader.Initialize | src/nfc-reader.ts:14-35 | no-op once initialized; a missing-module or "bindings" error still ends initialized and ready (no driver); any other error propagates with its message and no state change |
| NfcReader.InitializeIdempotent | src/nfc-reader.ts:15 | after a successful initialize, a second one does nothing, whatever the driver would do |
| NfcReader.DegradedStartup | src/nfc-reader.ts:26-31 | without the binding the monitor emits ready and reports "No reader", disconnected, no card |
| NfcReader.OnReader | src/nfc-reader.ts:37-41 | the reader becomes current, its name is remembered, readerConnected(name) is emitted; every other field, card state and initialized/driver flags included, is unchanged |
| NfcReader.OnEnd | src/nfc-reader.ts:58-61 | readerDisconnected(name) is emitted and the reader dropped; name, cardPresent and lastUID are kept |
| NfcReader.AtrText | src/nfc-reader.ts:75 | the ATR is its lower-case hex rendering (decodes back to the ATR), or "" when absent |
| NfcReader.ReadCard | src/nfc-reader.ts:64-81 | connect is attempted iff a reader is held; no reader means no calls; a failed connect means no transmit; disconnect happens iff a transmit happened; only a 90 00 response records lastUID and emits exactly cardInserted(uid, atr); otherwise the state is unchanged |
| NfcReader.OnStatus | src/nfc-reader.ts:43-56 | nothing happens unless the present bit changed; a rising edge without cardPresent marks the card present and then reads it exactly as ReadCard does, so with a reader held it connects, and a 90 00 response emits cardInserted(uid, atr); a falling edge with cardPresent clears it and lastUID and emits only cardRemoved; every other case changes nothing |
| NfcReader.StatusEdges | src/nfc-reader.ts:43-56 | consequences over all inputs: a notification agreeing with cardPresent is silent; cardPresent follows the present bit after a change; only the card fields change; cardRemoved appears iff removing; calls and cardInserted only when inserting, with the UID recorded; no event means the UID is unchanged |
| NfcReader.OnlyPresentBitMatters | src/nfc-reader.ts:44-46 | two notifications whose bitmasks agree on the present bit behave identically |
| NfcReader.RunNeverInsertsTwice | src/nfc-reader.ts:43-56 | over any sequence of notifications, no cardInserted follows another without a cardRemoved between, and an open cycle has cardPresent set |
| NfcReader.StableRunIsSilent | src/nfc-reader.ts:44-55 | status notifications whose present bit agrees with cardPresent emit nothing, call nothing and change nothing |
| NfcReader.GetInfo | src/nfc-reader.ts:83-85 | connected iff a reader is held; name is "No reader" iff the last attached reader's name is absent, empty or itself "No reader", and otherwise is that name; card fields copied |
| NfcReader.EndKeepsSnapshot | src/nfc-reader.ts:58-61 | after end the snapshot says disconnected with the same name, presence and UID |
| NfcReader.AttachShowsReader | src/nfc-reader.ts:38-39 | after a reader with a non-empty name attaches, the snapshot says connected under that name |
| NfcReader.Shutdown | src/nfc-reader.ts:87-91 | never fails; makes no call other than the two closes, closing the reader iff held and the driver iff open (so exactly that many calls); only the initialized flag changes |
| ClientRegistry.Add | src/websocket-server.ts:50 | appends the client under its fresh id, keeps ids unique and the earlier entries in place |
| ClientRegistry.SetScanning | src/websocket-server.ts:58-59 | same ids in the same order; only entries with that id change, and they get the flag; absent id is a no-op |
| ClientRegistry.Remove | src/websocket-server.ts:63 | exactly the entries with that id disappear; the survivors keep their order (the result is a subsequence of the input); uniqueness is kept; absent id is a no-op |
| ClientRegistry.RemoveIdempotent | src/websocket-server.ts:63 | removing twice equals removing once |
| BridgeServer.Classify | src/websocket-server.ts:56-59 | each command is recognized iff the parsed type field is exactly its name; all else is ignored |
| BridgeServer.Send | src/websocket-server.ts:75-77 | one delivery to that client iff its socket is open, none otherwise |
| BridgeServer.Broadcast | src/websocket-server.ts:79-83 | every delivery carries the message to a registered open client that is scanning when scanning-only; every such client gets it; no client twice when ids are unique |
| BridgeServer.HandleConnection | src/websocket-server.ts:48-52 | registers the fresh id as not scanning, keeps ids unique, and queues only the connected greeting with id and snapshot |
| BridgeServer.HandleMessage | src/websocket-server.ts:54-61 | replies only to the sender, at most once, and not at all when its socket is not open; only the sender's flag can change (set by start, cleared by stop); getDeviceInfo changes nothing; ignored frames and unregistered senders change nothing and send nothing |
| BridgeServer.HandleClose | src/websocket-server.ts:63 | the id is no longer registered, all other clients remain, a no-op when absent |
| BridgeServer.OnReaderEvent | src/websocket-server.ts:66-73 | every delivery carries the one message the event maps to; card events reach exactly the open scanning clients, reader events every open client, ready reaches no one; nothing reaches an unregistered id; no client gets it twice when ids are unique |
| BridgeServer.Route | src/websocket-server.ts:66-73 | routing a step's events delivers exactly the union of each event's deliveries: every one of them is included and nothing else is sent; so only registered open clients, card messages only scanning ones |
| BridgeServer.Stop | src/websocket-server.ts:85-87 | the registry is empty and every registered client's socket is closed, in registry order |
| Bridge.Apply | src/websocket-server.ts:47-73 | the registry invariant is kept; client inputs never touch the monitor or the reader, hardware inputs never touch the registry |
| Bridge.ScanningOnlyByOwnCommand | src/websocket-server.ts:49-59 | a client's scanning flag starts false and only its own startScanning/stopScanning change it |
| Bridge.CardMessagesOnlyToScanning | src/websocket-server.ts:67-70 | card messages from any hardware notification reach only registered, open, scanning clients |
| Bridge.ClosedClientSkipped | src/websocket-server.ts:63 | after close, no event's broadcast reaches the closed id, and every other registered open client that the event is for (every one for reader events, scanning ones for card events) still gets the message |
| Bridge.StopSilencesEvents | src/websocket-server.ts:87 | after stop no reader event reaches anyone |
| Bridge.ScanReachesOnlyScanningClient | src/nfc-reader.ts:70-78 | AA BB 90 00 on a rising edge sends cardScanned "AABB" to the scanning client only, after connect, transmit, disconnect |
| Bridge.FailedReadReachesNoOne | src/nfc-reader.ts:70-78 | AA BB 6A 82 sends nothing but still disconnects; the card stays marked present with no UID |
| Bridge.GreetingFirst | src/websocket-server.ts:48-52 | a new open client's whole outbox is its greeting, and it starts not scanning |

## Left out

* Module loading, the driver's callback plumbing and the asynchronous ordering of connect, transmit and disconnect are left out. Each handler is one atomic step; concurrency between hardware events and socket handlers is not modelled.
* The `pcsc` `error` event (re-emitted as `error`) is left out; it carries no state.
* JSON parsing and serialisation are left out. An inbound frame is its parsed `type` field or a parse failure; outbound messages are datatype values.
* The HTTP routes (`/health`, `/`), HTTPS selection and `listen`/`close` of the servers are left out as network plumbing.
* Configuration, logging and process startup/signal handling (`src/config.ts`, `src/logger.ts`, `src/index.ts`) are not part of this model.
* Random id generation is left out. A connecting client's id is a parameter and must be fresh, because the source's `Map.set` would silently replace an existing entry.
* A frame from a client that is no longer registered is a no-op. In the source, the closure's detached client object is mutated but no longer in the map, and its socket is no longer OPEN.
* `SCARD_STATE_PRESENT` is fixed at pcsc-lite's value `0x20` rather than read from the reader object.
* NfcReader.RunNeverInsertsTwice: a cardRemoved can follow another cardRemoved with no cardInserted between. A read that fails still marks the card present, so the next falling edge announces a removal nobody saw inserted.

## Where the code departs from its documented intent

The system's description states four expectations that the code does not meet. The model follows the code in each case.

* Expected: "CardInserted always precedes any subsequent CardRemoved for that same presence cycle". The code sets `cardPresent` before the read, so a failed read leaves the card marked present with no announcement. The next falling edge then announces a removal. `NfcReader.RunNeverInsertsTwice` states the ordering that does hold.
* Expected: a reader detach returns the monitor to `{Idle}`, the state with no reader and no card. The `end` handler clears only the reader: `cardPresent` and `lastUID` survive (`NfcReader.OnEnd`, `NfcReader.EndKeepsSnapshot`).
* Expected: `shutdown()` is a "best-effort close of any open reader/driver handles", ending in a terminal state. The code's `shutdown` clears only the initialized flag. The reader and driver handles stay set, so the snapshot can still say connected (`NfcReader.Shutdown`).
* Expected: the snapshot carries the attached reader's name. The code uses `readerName || "No reader"`, so an empty reader name also reads as "No reader" (`NfcReader.GetInfo`).
