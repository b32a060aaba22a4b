/**
 The card-reader monitor. It turns the PC/SC driver's notifications into
 semantic events: a reader attaching or going away, and a card arriving
 (identified by the UID read from it) or leaving. Each notification handler
 is a pure transition that returns the new monitor state, the events it
 emits, and the calls it makes on the hardware reader.
 */
module NfcReader {
  import opened Wrappers
  import Hex
  import Apdu

  /** The "card present" bit of a reader state bitmask (pcsc-lite's value). */
  const ScardStatePresent: bv32 := 0x20

  /** Shown by `GetInfo` when no reader name is known. */
  const NoReaderName: string := "No reader"

  /** An attached reader; the monitor uses only its name. */
  datatype Reader = Reader(name: string)

  /**
   The monitor's fields: whether initialize has completed, whether a driver
   context is held, the current reader, the last reader name seen, the
   card-presence flag and the last UID read.
   */
  datatype Monitor = Monitor(
    initialized: bool,
    driverOpen: bool,
    reader: Option<Reader>,
    readerName: Option<string>,
    cardPresent: bool,
    lastUid: Option<string>)

  /** The state of a freshly constructed monitor. */
  const Initial: Monitor := Monitor(false, false, None, None, false, None)

  /** What the monitor emits to its listeners. */
  datatype NfcEvent =
    | Ready
    | ReaderConnected(name: string)
    | ReaderDisconnected(name: string)
    | CardInserted(uid: string, atr: string)
    | CardRemoved

  /** Calls made on the hardware reader or driver context. */
  datatype HwCall =
    | Connect                                        // shared mode
    | Transmit(command: seq<bv8>, responseLimit: nat)
    | Disconnect                                     // leave the card in place
    | CloseReader
    | CloseDriver

  /** How the card exchange went, as reported by the driver's callbacks. */
  datatype Exchange =
    | ConnectFailed
    | TransmitFailed
    | Response(data: seq<bv8>)

  /** A status notification: the new state bitmask and the card's ATR, if any. */
  datatype Status = Status(state: bv32, atr: Option<seq<bv8>>)

  /** The result of a transition. */
  datatype Step = Step(monitor: Monitor, events: seq<NfcEvent>, calls: seq<HwCall>)

  /** What loading the driver binding produced; a failure carries the error's message, if it has one. */
  datatype DriverLoad = Loaded | LoadFailed(message: Option<string>)

  /** An error that `Initialize` lets propagate to its caller. */
  datatype InitError = InitError(message: Option<string>)

  /** The snapshot answered to clients. */
  datatype ReaderInfo = ReaderInfo(name: string, connected: bool, cardPresent: bool, lastUid: Option<string>)

  /** `t` occurs in `s` as a contiguous substring. */
  predicate Contains(s: string, t: string) {
    t <= s || (s != [] && Contains(s[1..], t))
  }

  /** The error means the native binding is missing, so the monitor degrades instead of failing. */
  predicate BindingUnavailable(message: Option<string>) {
    message.Some? && (Contains(message.value, "Cannot find module") || Contains(message.value, "bindings"))
  }

  /**
   Opens the driver context once. A missing binding still leaves the monitor
   initialized and ready (with no driver, so no hardware notification will
   ever arrive); any other error propagates and changes nothing.
   */
  function Initialize(m: Monitor, load: DriverLoad): (r: Result<Step, InitError>)
    ensures m.initialized ==> r == Success(Step(m, [], []))
    ensures r.Failure? <==> !m.initialized && load.LoadFailed? && !BindingUnavailable(load.message)
    ensures r.Failure? ==> r.error.message == load.message
    ensures r.Success? ==> r.value.monitor.initialized && r.value.calls == []
    ensures r.Success? && !m.initialized ==> r.value.events == [Ready]
    ensures r.Success? ==> r.value.monitor.driverOpen == (m.driverOpen || (!m.initialized && load.Loaded?))
    ensures r.Success? ==> r.value.monitor.(initialized := m.initialized, driverOpen := m.driverOpen) == m
  {
    if m.initialized then Success(Step(m, [], []))
    else match load
      case Loaded => Success(Step(m.(initialized := true, driverOpen := true), [Ready], []))
      case LoadFailed(message) =>
        if BindingUnavailable(message) then Success(Step(m.(initialized := true), [Ready], []))
        else Failure(InitError(message))
  }

  /** A new reader becomes the current one and is announced. */
  function OnReader(m: Monitor, reader: Reader): (r: Step)
    ensures r.monitor.reader == Some(reader) && r.monitor.readerName == Some(reader.name)
    ensures r.monitor.(reader := m.reader, readerName := m.readerName) == m
    ensures r.events == [ReaderConnected(reader.name)] && r.calls == []
  {
    Step(m.(reader := Some(reader), readerName := Some(reader.name)), [ReaderConnected(reader.name)], [])
  }

  /** A reader's session ended: it is announced and forgotten, but its name is kept. */
  function OnEnd(m: Monitor, reader: Reader): (r: Step)
    ensures r.monitor.reader == None
    ensures r.monitor.(reader := m.reader) == m
    ensures r.events == [ReaderDisconnected(reader.name)] && r.calls == []
  {
    Step(m.(reader := None), [ReaderDisconnected(reader.name)], [])
  }

  /** The ATR in lower-case hexadecimal, or "" when the notification carried none. */
  function AtrText(atr: Option<seq<bv8>>): (s: string)
    ensures atr.None? ==> s == ""
    ensures atr.Some? ==> Hex.Decode(s) == Some(atr.value) && Hex.AllDigits(s, false)
  {
    match atr
    case None => ""
    case Some(bytes) => Hex.DecodeEncode(bytes, false); Hex.Encode(bytes, false)
  }

  /** The calls of one read attempt that got past connecting. */
  const ExchangeCalls: seq<HwCall> := [Connect, Transmit(Apdu.GetUidCommand, Apdu.ResponseLimit), Disconnect]

  /**
   One attempt to read the card's UID: connect, send GET DATA, disconnect.
   Nothing happens without a reader; nothing is transmitted when connecting
   fails; once something was transmitted the reader is always disconnected.
   Only a response ending in 90 00 records a UID and announces the card.
   */
  function ReadCard(m: Monitor, atr: Option<seq<bv8>>, exchange: Exchange): (r: Step)
    ensures m.reader.None? ==> r.calls == []
    ensures Connect in r.calls <==> m.reader.Some?
    ensures r.calls == [] || r.calls == [Connect] || r.calls == ExchangeCalls
    ensures Transmit(Apdu.GetUidCommand, Apdu.ResponseLimit) in r.calls <==> m.reader.Some? && !exchange.ConnectFailed?
    ensures Disconnect in r.calls <==> Transmit(Apdu.GetUidCommand, Apdu.ResponseLimit) in r.calls
    ensures r.events == [] ==> r.monitor == m
    ensures r.events != [] <==> m.reader.Some? && exchange.Response? && Apdu.Succeeded(exchange.data)
    ensures r.events != [] ==>
      && var uid := Apdu.ExtractUid(exchange.data).value;
      && r.events == [CardInserted(uid, AtrText(atr))]
      && r.monitor == m.(lastUid := Some(uid))
  {
    if m.reader.None? then Step(m, [], [])
    else match exchange
      case ConnectFailed => Step(m, [], [Connect])
      case TransmitFailed => Step(m, [], ExchangeCalls)
      case Response(data) =>
        match Apdu.ExtractUid(data)
        case None => Step(m, [], ExchangeCalls)
        case Some(uid) => Step(m.(lastUid := Some(uid)), [CardInserted(uid, AtrText(atr))], ExchangeCalls)
  }

  /** The present bit differs between two state bitmasks. */
  predicate PresenceChanged(previous: bv32, next: bv32) {
    (previous ^ next) & ScardStatePresent != 0
  }

  /** The present bit is set in a state bitmask. */
  predicate PresentIn(state: bv32) {
    state & ScardStatePresent != 0
  }

  /** The notification is a rising edge of the present bit while no card is recorded. */
  predicate Inserting(m: Monitor, previous: bv32, status: Status) {
    PresenceChanged(previous, status.state) && PresentIn(status.state) && !m.cardPresent
  }

  /** The notification is a falling edge of the present bit while a card is recorded. */
  predicate Removing(m: Monitor, previous: bv32, status: Status) {
    PresenceChanged(previous, status.state) && !PresentIn(status.state) && m.cardPresent
  }

  /**
   A status notification for a reader whose previous state bitmask was
   `previous`. Only a change of the present bit matters: a rising edge while
   no card is recorded marks the card present and attempts a read, a falling
   edge while a card is recorded forgets it and announces its removal.
   */
  function OnStatus(m: Monitor, previous: bv32, status: Status, exchange: Exchange): (r: Step)
    ensures !PresenceChanged(previous, status.state) ==> r == Step(m, [], [])
    ensures Inserting(m, previous, status) ==> r == ReadCard(m.(cardPresent := true), status.atr, exchange)
    ensures Inserting(m, previous, status) && m.reader.Some? ==> Connect in r.calls
    ensures Inserting(m, previous, status) && m.reader.Some? && exchange.Response? && Apdu.Succeeded(exchange.data) ==>
      r.events == [CardInserted(Apdu.ExtractUid(exchange.data).value, AtrText(status.atr))]
    ensures Removing(m, previous, status) ==> r == Step(m.(cardPresent := false, lastUid := None), [CardRemoved], [])
    ensures !Inserting(m, previous, status) && !Removing(m, previous, status) ==> r == Step(m, [], [])
  {
    if !PresenceChanged(previous, status.state) then Step(m, [], [])
    else
      var inserted := PresentIn(status.state);
      if inserted && !m.cardPresent then ReadCard(m.(cardPresent := true), status.atr, exchange)
      else if !inserted && m.cardPresent then Step(m.(cardPresent := false, lastUid := None), [CardRemoved], [])
      else Step(m, [], [])
  }

  /** The monitor's answer to a snapshot request. */
  function GetInfo(m: Monitor): (info: ReaderInfo)
    ensures info.connected <==> m.reader.Some?
    ensures info.name == NoReaderName <==> m.readerName.None? || m.readerName.value in {"", NoReaderName}
    ensures info.name != NoReaderName ==> m.readerName == Some(info.name)
    ensures info.cardPresent == m.cardPresent && info.lastUid == m.lastUid
  {
    var name := if m.readerName.Some? && m.readerName.value != "" then m.readerName.value else NoReaderName;
    ReaderInfo(name, m.reader.Some?, m.cardPresent, m.lastUid)
  }

  /**
   Best-effort close of the reader and the driver context; failures while
   closing are swallowed, so shutdown always completes. The handles
   themselves are not dropped; only the initialized flag is cleared.
   */
  function Shutdown(m: Monitor): (r: Step)
    ensures r.monitor == m.(initialized := false) && r.events == []
    ensures CloseReader in r.calls <==> m.reader.Some?
    ensures CloseDriver in r.calls <==> m.driverOpen
    ensures forall c :: c in r.calls ==> c == CloseReader || c == CloseDriver
    ensures |r.calls| == (if m.reader.Some? then 1 else 0) + (if m.driverOpen then 1 else 0)
  {
    var closeReader := if m.reader.Some? then [CloseReader] else [];
    var closeDriver := if m.driverOpen then [CloseDriver] else [];
    Step(m.(initialized := false), [], closeReader + closeDriver)
  }

  /** The present bit changed exactly when it is set in one bitmask and clear in the other. */
  lemma PresenceChangedIff(previous: bv32, next: bv32)
    ensures PresenceChanged(previous, next) <==> PresentIn(previous) != PresentIn(next)
  {
  }

  /** Bits other than the present bit, in either bitmask, make no difference to a status notification. */
  lemma OnlyPresentBitMatters(m: Monitor, p1: bv32, s1: bv32, p2: bv32, s2: bv32, atr: Option<seq<bv8>>, exchange: Exchange)
    requires PresentIn(p1) == PresentIn(p2) && PresentIn(s1) == PresentIn(s2)
    ensures OnStatus(m, p1, Status(s1, atr), exchange) == OnStatus(m, p2, Status(s2, atr), exchange)
  {
    PresenceChangedIff(p1, s1);
    PresenceChangedIff(p2, s2);
  }

  /**
   What any status notification can do: nothing while the present bit
   agrees with the recorded presence; afterwards the recorded presence
   follows the present bit; the only events are one CardRemoved (exactly on
   a falling edge with a card recorded, clearing the UID) or one
   CardInserted (only on a rising edge without a card recorded, carrying the
   UID now recorded); hardware calls only on such a rising edge; and without
   an event the UID is unchanged.
   */
  lemma StatusEdges(m: Monitor, previous: bv32, status: Status, exchange: Exchange)
    ensures var r := OnStatus(m, previous, status, exchange);
      && (m.cardPresent == PresentIn(status.state) ==> r == Step(m, [], []))
      && r.monitor.cardPresent == (if PresenceChanged(previous, status.state) then PresentIn(status.state) else m.cardPresent)
      && r.monitor.(cardPresent := m.cardPresent, lastUid := m.lastUid) == m
      && (r.events == [] || r.events == [CardRemoved] || (|r.events| == 1 && r.events[0].CardInserted?))
      && (CardRemoved in r.events <==> Removing(m, previous, status))
      && (r.calls != [] ==> Inserting(m, previous, status))
      && (r.events != [] && r.events[0].CardInserted? ==>
           && Inserting(m, previous, status)
           && r.monitor.lastUid == Some(r.events[0].uid)
           && exchange.Response? && Apdu.ExtractUid(exchange.data) == Some(r.events[0].uid))
      && (r.events == [] ==> r.monitor.lastUid == m.lastUid)
  {
    PresenceChangedIff(previous, status.state);
  }

  /** A notification delivered by the driver. */
  datatype Notification =
    | Attached(reader: Reader)
    | StatusChanged(previous: bv32, status: Status, exchange: Exchange)
    | Ended(reader: Reader)

  function Handle(m: Monitor, n: Notification): Step {
    match n
    case Attached(reader) => OnReader(m, reader)
    case StatusChanged(previous, status, exchange) => OnStatus(m, previous, status, exchange)
    case Ended(reader) => OnEnd(m, reader)
  }

  /** Handles notifications in order, collecting their events and calls. */
  function Run(m: Monitor, ns: seq<Notification>): Step
    decreases |ns|
  {
    if ns == [] then Step(m, [], [])
    else
      var first := Handle(m, ns[0]);
      var rest := Run(first.monitor, ns[1..]);
      Step(rest.monitor, first.events + rest.events, first.calls + rest.calls)
  }

  /**
   Follows the card events of `evs` from inside a presence cycle or not:
   CardInserted opens a cycle and CardRemoved closes one. None when a
   CardInserted arrives inside an open cycle; otherwise whether a cycle is
   open at the end.
   */
  function Track(evs: seq<NfcEvent>, inCycle: bool): Option<bool>
  {
    if evs == [] then Some(inCycle)
    else match evs[0]
      case CardInserted(_, _) => if inCycle then None else Track(evs[1..], true)
      case CardRemoved => Track(evs[1..], false)
      case _ => Track(evs[1..], inCycle)
  }

  lemma {:induction false} TrackAppend(a: seq<NfcEvent>, b: seq<NfcEvent>, inCycle: bool)
    ensures Track(a + b, inCycle) == (if Track(a, inCycle).Some? then Track(b, Track(a, inCycle).value) else None)
  {
    if a != [] {
      assert (a + b)[1..] == a[1..] + b;
      match a[0]
      case CardInserted(_, _) => if !inCycle { TrackAppend(a[1..], b, true); }
      case CardRemoved => TrackAppend(a[1..], b, false);
      case _ => TrackAppend(a[1..], b, inCycle);
    } else {
      assert a + b == b;
    }
  }

  /**
   Over any run of notifications, a card is never announced twice without a
   removal in between, and an open cycle always has the card marked present.
   */
  lemma {:induction false} RunNeverInsertsTwice(m: Monitor, ns: seq<Notification>, inCycle: bool)
    requires inCycle ==> m.cardPresent
    ensures Track(Run(m, ns).events, inCycle).Some?
    ensures Track(Run(m, ns).events, inCycle).value ==> Run(m, ns).monitor.cardPresent
    decreases |ns|
  {
    if ns != [] {
      var first := Handle(m, ns[0]);
      var next := Track(first.events, inCycle);
      assert next.Some? && (next.value ==> first.monitor.cardPresent) by {
        match ns[0]
        case Attached(reader) =>
          assert Track(first.events, inCycle) == Track([], inCycle);
        case Ended(reader) =>
          assert Track(first.events, inCycle) == Track([], inCycle);
        case StatusChanged(previous, status, exchange) =>
          var r := OnStatus(m, previous, status, exchange);
          if r.events == [CardRemoved] {
            assert Track(r.events, inCycle) == Track([], false);
          } else if r.events != [] {
            assert r.events == [r.events[0]] && r.events[0].CardInserted?;
            assert !inCycle;
            assert Track(r.events, inCycle) == Track([], true);
          }
      }
      RunNeverInsertsTwice(first.monitor, ns[1..], next.value);
      TrackAppend(first.events, Run(first.monitor, ns[1..]).events, inCycle);
    }
  }

  /** While the present bit agrees with the recorded presence, notifications emit nothing and change nothing. */
  lemma {:induction false} StableRunIsSilent(m: Monitor, ns: seq<Notification>)
    requires forall i :: 0 <= i < |ns| ==> ns[i].StatusChanged? && PresentIn(ns[i].status.state) == m.cardPresent
    ensures Run(m, ns) == Step(m, [], [])
    decreases |ns|
  {
    if ns != [] {
      assert Handle(m, ns[0]) == Step(m, [], []);
      StableRunIsSilent(m, ns[1..]);
    }
  }

  /** Once initialize has succeeded, calling it again does nothing, whatever the driver would do. */
  lemma InitializeIdempotent(m: Monitor, load: DriverLoad, again: DriverLoad)
    requires Initialize(m, load).Success?
    ensures Initialize(Initialize(m, load).value.monitor, again) == Success(Step(Initialize(m, load).value.monitor, [], []))
  {
  }

  /** Without the native binding the monitor still comes up ready, reporting no reader. */
  lemma DegradedStartup(message: string)
    requires Contains(message, "Cannot find module") || Contains(message, "bindings")
    ensures Initialize(Initial, LoadFailed(Some(message))).Success?
    ensures var r := Initialize(Initial, LoadFailed(Some(message))).value;
      && r.events == [Ready]
      && !r.monitor.driverOpen
      && GetInfo(r.monitor) == ReaderInfo(NoReaderName, false, false, None)
  {
  }

  /** After a reader's session ends the snapshot shows it disconnected but keeps its name and the card fields. */
  lemma EndKeepsSnapshot(m: Monitor, reader: Reader)
    ensures var info := GetInfo(OnEnd(m, reader).monitor);
      && !info.connected
      && info.name == GetInfo(m).name
      && info.cardPresent == m.cardPresent
      && info.lastUid == m.lastUid
  {
  }

  /** After a reader with a non-empty name attaches, the snapshot shows it connected under that name. */
  lemma AttachShowsReader(m: Monitor, reader: Reader)
    requires reader.name != ""
    ensures GetInfo(OnReader(m, reader).monitor).connected
    ensures GetInfo(OnReader(m, reader).monitor).name == reader.name
  {
  }
}
