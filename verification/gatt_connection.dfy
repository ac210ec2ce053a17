/** `GattConnection` (GattConnection.kt): the older GATT session driven directly by
    the callbacks of the Bluetooth stack. It connects (retrying twice when the link
    drops early), reads manufacturer, model and firmware one after the other,
    reports them, and when logs were asked for and the firmware passes the legacy
    check, subscribes to the Nordic UART service; each heartbeat then (re)sends the
    read command, and data frames are accumulated until the end marker.

    The session's fields are specified as a value (`Session`) and every handler by
    a step function on that value; requests to the Bluetooth stack and listener
    callbacks are recorded in `trace`. Whether a service or characteristic exists,
    whether `connectGatt` returned a connection and whether a write was accepted
    are parameters. */
module LegacyGatt {
  import opened Primitives
  import opened ByteArrayExt
  import opened GattLog
  import opened FirmwareGate

  /** `MAX_CONNECT_RETRY`. */
  const MAX_CONNECT_RETRY: int := 3

  /** Every field of a connection, as a value; `hasGatt` tells whether the
      `lateinit` connection has been set. */
  datatype Session = Session(
    syncFrom: Option<int>,
    listener: Option<nat>,
    logs: seq<LogReading>,
    manufacturer: string,
    model: string,
    firmware: string,
    shouldReadLogs: bool,
    shouldGetFw: bool,
    shouldFinish: bool,
    retryConnectionCounter: int,
    isConnected: bool,
    syncedPoints: int,
    hasGatt: bool,
    trace: seq<Effect>)

  /** Readings with distinct time stamps, never more of them than synced points, a
      start time that is a Long and a retry counter that only counts up from 0. */
  predicate SessionValid(s: Session)
  {
    && UniqueDates(s.logs)
    && |s.logs| <= s.syncedPoints
    && (s.syncFrom.Some? ==> IsInt64(s.syncFrom.value))
    && s.retryConnectionCounter >= 0
  }

  /** `connect(context, fromDate)`: a log session from the given date, with an
      empty batch. */
  function ConnectStep(s: Session, fromDate: Option<int>, gattCreated: bool): Session
  {
    s.(shouldReadLogs := true, shouldFinish := false, logs := [], syncFrom := fromDate, syncedPoints := 0,
       hasGatt := s.hasGatt || gattCreated, trace := s.trace + [ConnectRequest])
  }

  /** `getFwVersion(context)`: a session that only reads the device information. */
  function VersionStep(s: Session, gattCreated: bool): Session
  {
    s.(shouldReadLogs := false, shouldGetFw := true, shouldFinish := false, logs := [],
       hasGatt := s.hasGatt || gattCreated, trace := s.trace + [ConnectRequest])
  }

  /** `onConnectionStateChange` with STATE_DISCONNECTED: while the session is not
      finishing and the incremented retry counter is below MAX_CONNECT_RETRY, it
      reconnects through `connect(context, syncFrom)`; otherwise it reports
      `connected(false)` and closes. The counter is incremented only when the
      session is not finishing. */
  function DisconnectStep(s: Session, gattCreated: bool): Session
  {
    if !s.shouldFinish && s.retryConnectionCounter + 1 < MAX_CONNECT_RETRY then
      ConnectStep(s.(retryConnectionCounter := s.retryConnectionCounter + 1), s.syncFrom, gattCreated)
    else
      s.(retryConnectionCounter := if s.shouldFinish then s.retryConnectionCounter else s.retryConnectionCounter + 1,
         trace := s.trace + Tell(s.listener, Connected(false)) + [CloseRequest])
  }

  /** `writeRXCharacteristic(value)` as effects: the write is issued only when the
      RX characteristic exists. */
  function WriteRxEffects(value: seq<Byte>, rxAvailable: bool): seq<Effect>
  {
    if rxAvailable then [WriteRx(value)] else []
  }

  /** `readLog()`: the session is finishing from now on; the read command goes to
      RX, and a write that could not be issued or was refused disconnects. */
  function ReadLogStep(s: Session, nowMillis: int, rxAvailable: bool, writeAccepted: bool): Session
    requires IsInt64(nowMillis) && (s.syncFrom.Some? ==> IsInt64(s.syncFrom.value))
  {
    s.(shouldFinish := true,
       trace := s.trace + WriteRxEffects(ReadCommand(nowMillis, s.syncFrom), rxAvailable)
         + (if rxAvailable && writeAccepted then [] else [DisconnectRequest]))
  }

  /** The end marker: the all-zero readings are removed, the batch delivered and
      the link disconnected. */
  function EndOfStream(s: Session): Session
  {
    s.(logs := RemoveAllZero(s.logs),
       trace := s.trace + Tell(s.listener, DataReady(RemoveAllZero(s.logs))) + [DisconnectRequest])
  }

  /** A data frame accumulated without the null sentinel. */
  function FrameStep(s: Session, address: string, data: seq<Byte>): Session
    requires |data| >= 11
  {
    var a := Accumulate(Batch(s.logs, s.syncedPoints), address, data, false);
    s.(logs := a.batch.logs, syncedPoints := a.batch.syncedPoints,
       trace := s.trace + (if a.created then Tell(s.listener, SyncProgress(a.batch.syncedPoints)) else []))
  }

  /** A heartbeat: reported as hex and, in a log session, followed by `readLog()`. */
  function HeartbeatStep(s: Session, data: seq<Byte>, nowMillis: int, rxAvailable: bool, writeAccepted: bool): Session
    requires IsInt64(nowMillis) && (s.syncFrom.Some? ==> IsInt64(s.syncFrom.value))
  {
    var t := s.(trace := s.trace + Tell(s.listener, Heartbeat(ToHexString(data))));
    if s.shouldReadLogs then ReadLogStep(t, nowMillis, rxAvailable, writeAccepted) else t
  }

  /** The state after a notification, and whether the handler threw. */
  datatype Outcome = Outcome(state: Session, thrown: bool)

  /** `onCharacteristicChanged`: a null or empty value throws at `data[0]`. A
      heartbeat is passed on as hex and, in a log session, the read command is
      (re)sent. Any other frame first ends the stream when it carries the end
      marker, and is then parsed as a data frame whatever it was: fewer than 11
      bytes throw at `copyOfRange`. */
  function Changed(s: Session, address: string, data: Option<seq<Byte>>, nowMillis: int,
                   rxAvailable: bool, writeAccepted: bool): Outcome
    requires IsInt64(nowMillis) && (s.syncFrom.Some? ==> IsInt64(s.syncFrom.value))
  {
    if data.None? || |data.value| == 0 then Outcome(s, true)
    else if IsHeartbeat(data.value) then Outcome(HeartbeatStep(s, data.value, nowMillis, rxAvailable, writeAccepted), false)
    else
      var t := if IsEndMarker(data.value) then EndOfStream(s) else s;
      if |data.value| < 11 then Outcome(t, true) else Outcome(FrameStep(t, address, data.value), false)
  }

  /** The firmware read of `onCharacteristicRead`: the text from its first digit on
      is stored; when the legacy check passes, the device information is reported
      with true and the session subscribes to TX (or disconnects when TX is
      missing); otherwise the session finishes, reports false and disconnects. */
  function FirmwareStep(s: Session, value: string, txAvailable: bool): Session
  {
    var g := LegacyGate(s.shouldReadLogs, value);
    if g.readLogs then
      s.(firmware := g.shownFirmware, trace := s.trace + Tell(s.listener, DeviceInfo(s.model, g.shownFirmware, true))
        + (if txAvailable then [EnableNotifications, WriteNotificationDescriptor] else [DisconnectRequest]))
    else
      s.(firmware := g.shownFirmware, shouldFinish := true,
        trace := s.trace + Tell(s.listener, DeviceInfo(s.model, g.shownFirmware, false)) + [DisconnectRequest])
  }

  /** A connection as constructed: no listener, a log session by default, nothing
      read and no retry spent. */
  const FRESH_SESSION: Session := Session(None, None, [], "", "", "", true, false, false, 0, false, 0, false, [])

  class GattConnection {
    /** `device.address`. */
    const address: string
    var syncFrom: Option<int>
    var listener: Option<nat>
    var logs: seq<LogReading>
    var manufacturer: string
    var model: string
    var firmware: string
    var shouldReadLogs: bool
    var shouldGetFw: bool
    var shouldFinish: bool
    var retryConnectionCounter: int
    var isConnected: bool
    var syncedPoints: int
    var hasGatt: bool
    var trace: seq<Effect>

    function State(): Session
      reads this
    {
      Session(syncFrom, listener, logs, manufacturer, model, firmware, shouldReadLogs, shouldGetFw,
        shouldFinish, retryConnectionCounter, isConnected, syncedPoints, hasGatt, trace)
    }

    predicate Valid()
      reads this
    {
      && UniqueDates(logs)
      && |logs| <= syncedPoints
      && (syncFrom.Some? ==> IsInt64(syncFrom.value))
      && retryConnectionCounter >= 0
    }

    constructor (address: string)
      ensures Valid() && this.address == address
      ensures State() == FRESH_SESSION
    {
      this.address := address;
      syncFrom, listener, logs := None, None, [];
      manufacturer, model, firmware := "", "", "";
      shouldReadLogs, shouldGetFw, shouldFinish := true, false, false;
      retryConnectionCounter, isConnected, syncedPoints := 0, false, 0;
      hasGatt, trace := false, [];
    }

    method SetOnRuuviGattUpdate(listener: nat)
      modifies this
      ensures State() == old(State()).(listener := Some(listener))
    {
      this.listener := Some(listener);
    }

    /** `resetState()`: the retry counter starts again and the connection is
        closed. Before any `connect` the `lateinit` connection is unset, and the
        call throws after the counter is reset. */
    method ResetState() returns (thrown: bool)
      modifies this
      ensures thrown <==> !old(hasGatt)
      ensures State() == old(State()).(retryConnectionCounter := 0,
        trace := if thrown then old(trace) else old(trace) + [CloseRequest])
    {
      retryConnectionCounter := 0;
      if !hasGatt {
        return true;
      }
      trace := trace + [CloseRequest];
      thrown := false;
    }

    /** `writeRXCharacteristic(value)`: false when the RX service or characteristic
        is missing, otherwise what the write request returned. */
    method WriteRxCharacteristic(value: seq<Byte>, rxAvailable: bool, writeAccepted: bool) returns (ok: bool)
      requires hasGatt
      modifies this
      ensures ok <==> rxAvailable && writeAccepted
      ensures State() == old(State()).(trace := old(trace) + WriteRxEffects(value, rxAvailable))
    {
      if !rxAvailable {
        return false;
      }
      trace := trace + [WriteRx(value)];
      ok := writeAccepted;
    }

    /** `readCharacteristic(infoService, c)`: a missing service or characteristic
        disconnects. */
    method ReadCharacteristic(c: InfoCharacteristic, available: bool)
      requires hasGatt
      modifies this
      ensures State() == old(State()).(trace := old(trace) + [if available then ReadRequest(c) else DisconnectRequest])
    {
      if !available {
        trace := trace + [DisconnectRequest];
        return;
      }
      trace := trace + [ReadRequest(c)];
    }

    /** `registerToNordicRxTx()`: enables notifications on TX and writes its
        client configuration descriptor, or disconnects when TX is missing. */
    method RegisterToNordicRxTx(txAvailable: bool)
      requires hasGatt
      modifies this
      ensures State() == old(State()).(trace := old(trace)
        + (if txAvailable then [EnableNotifications, WriteNotificationDescriptor] else [DisconnectRequest]))
    {
      if !txAvailable {
        trace := trace + [DisconnectRequest];
        return;
      }
      trace := trace + [EnableNotifications, WriteNotificationDescriptor];
    }

    method ReadLog(nowMillis: int, rxAvailable: bool, writeAccepted: bool)
      requires hasGatt && Valid() && IsInt64(nowMillis)
      modifies this
      ensures Valid()
      ensures State() == ReadLogStep(old(State()), nowMillis, rxAvailable, writeAccepted)
    {
      shouldFinish := true;
      var msg := ReadCommand(nowMillis, syncFrom);
      var ok := WriteRxCharacteristic(msg, rxAvailable, writeAccepted);
      if !ok {
        trace := trace + [DisconnectRequest];
      }
    }

    /** `connect(context, fromDate)`: true when a connection object was created. */
    method Connect(fromDate: Option<int>, gattCreated: bool) returns (r: bool)
      requires fromDate.Some? ==> IsInt64(fromDate.value)
      requires Valid()
      modifies this
      ensures Valid() && (r <==> gattCreated)
      ensures State() == old(State()).(shouldReadLogs := true, shouldFinish := false, logs := [], syncFrom := fromDate,
        syncedPoints := 0, hasGatt := old(hasGatt) || gattCreated, trace := old(trace) + [ConnectRequest])
    {
      shouldReadLogs, shouldFinish, logs, syncFrom, syncedPoints := true, false, [], fromDate, 0;
      trace, hasGatt := trace + [ConnectRequest], hasGatt || gattCreated;
      r := gattCreated;
    }

    /** `getFwVersion(context)`: true when a connection object was created. */
    method GetFwVersion(gattCreated: bool) returns (r: bool)
      requires Valid()
      modifies this
      ensures Valid() && (r <==> gattCreated)
      ensures State() == old(State()).(shouldReadLogs := false, shouldGetFw := true, shouldFinish := false, logs := [],
        hasGatt := old(hasGatt) || gattCreated, trace := old(trace) + [ConnectRequest])
    {
      shouldReadLogs := false;
      shouldGetFw := true;
      shouldFinish := false;
      logs := [];
      trace := trace + [ConnectRequest];
      hasGatt := hasGatt || gattCreated;
      r := gattCreated;
    }

    /** `disconnect()`: the session is finishing, so the coming disconnection is not
        retried. Before any `connect` the `lateinit` connection is unset, and the
        call throws after setting the flag. */
    method Disconnect() returns (thrown: bool)
      modifies this
      ensures thrown <==> !old(hasGatt)
      ensures State() == old(State()).(shouldFinish := true,
        trace := if thrown then old(trace) else old(trace) + [DisconnectRequest])
    {
      shouldFinish := true;
      if !hasGatt {
        return true;
      }
      trace := trace + [DisconnectRequest];
      thrown := false;
    }

    /** `onConnectionStateChange` with STATE_CONNECTED: unless the session is
        finishing, reports `connected(true)` and discovers the services; a finishing
        session disconnects again. */
    method OnConnected()
      requires hasGatt
      modifies this
      ensures State() == old(State()).(isConnected := true, trace := old(trace)
        + (if old(shouldFinish) then [DisconnectRequest] else Tell(old(listener), Connected(true)) + [DiscoverServices]))
    {
      isConnected := true;
      if !shouldFinish {
        trace := trace + Tell(listener, Connected(true)) + [DiscoverServices];
      } else {
        trace := trace + [DisconnectRequest];
      }
    }

    method OnDisconnected(gattCreated: bool)
      requires Valid()
      modifies this
      ensures Valid()
      ensures State() == DisconnectStep(old(State()), gattCreated)
    {
      var retry := false;
      if !shouldFinish {
        retryConnectionCounter := retryConnectionCounter + 1;
        retry := retryConnectionCounter < MAX_CONNECT_RETRY;
      }
      if retry {
        var _ := Connect(syncFrom, gattCreated);
      } else {
        trace := trace + Tell(listener, Connected(false)) + [CloseRequest];
      }
    }

    /** The timer 1500 ms after a disconnection: the tag counts as disconnected. */
    method OnDisconnectSettled()
      modifies this
      ensures State() == old(State()).(isConnected := false)
    {
      isConnected := false;
    }

    /** `onServicesDiscovered`: on success, the manufacturer is read. */
    method OnServicesDiscovered(success: bool, infoAvailable: bool)
      requires hasGatt
      modifies this
      ensures State() == old(State()).(trace := old(trace)
        + (if !success then [] else if infoAvailable then [ReadRequest(Manufacturer)] else [DisconnectRequest]))
    {
      if success {
        ReadCharacteristic(Manufacturer, infoAvailable);
      }
    }

    /** `onCharacteristicRead`: a failed read disconnects. Manufacturer and model
        are stored and the next characteristic read; the firmware is handled by
        `OnFirmwareRead`. A characteristic of another kind (`which` None) is
        ignored. `nextAvailable` tells whether the next characteristic read or
        written exists. */
    method OnCharacteristicRead(success: bool, which: Option<InfoCharacteristic>, value: string, nextAvailable: bool)
      requires hasGatt
      modifies this
      ensures var s := old(State());
        if !success then State() == s.(trace := s.trace + [DisconnectRequest])
        else if which == Some(Manufacturer) then
          State() == s.(manufacturer := value, trace := s.trace + [if nextAvailable then ReadRequest(Model) else DisconnectRequest])
        else if which == Some(Model) then
          State() == s.(model := value, trace := s.trace + [if nextAvailable then ReadRequest(Firmware) else DisconnectRequest])
        else if which == Some(Firmware) then State() == FirmwareStep(s, value, nextAvailable)
        else State() == s
    {
      if !success {
        trace := trace + [DisconnectRequest];
        return;
      }
      match which {
        case None =>
        case Some(Manufacturer) =>
          manufacturer := value;
          ReadCharacteristic(Model, nextAvailable);
        case Some(Model) =>
          model := value;
          ReadCharacteristic(Firmware, nextAvailable);
        case Some(Firmware) =>
          OnFirmwareRead(value, nextAvailable);
      }
    }

    /** The firmware read: the text goes through the legacy check. */
    method OnFirmwareRead(value: string, nextAvailable: bool)
      requires hasGatt
      modifies this
      ensures State() == FirmwareStep(old(State()), value, nextAvailable)
    {
      var g := LegacyGate(shouldReadLogs, value);
      firmware := g.shownFirmware;
      if g.readLogs {
        trace := trace + Tell(listener, DeviceInfo(model, firmware, true));
        RegisterToNordicRxTx(nextAvailable);
      } else {
        shouldFinish := true;
        trace := trace + Tell(listener, DeviceInfo(model, firmware, false)) + [DisconnectRequest];
      }
    }

    method OnCharacteristicChanged(data: Option<seq<Byte>>, nowMillis: int, rxAvailable: bool, writeAccepted: bool)
      returns (thrown: bool)
      requires hasGatt && Valid() && IsInt64(nowMillis)
      modifies this
      ensures Valid()
      ensures var o := Changed(old(State()), address, data, nowMillis, rxAvailable, writeAccepted);
        State() == o.state && thrown == o.thrown
    {
      if data.None? || |data.value| == 0 {
        return true;
      }
      var d := data.value;
      thrown := false;
      if IsHeartbeat(d) {
        OnHeartbeat(d, nowMillis, rxAvailable, writeAccepted);
        return;
      }
      if IsEndMarker(d) {
        DeliverLogs();
      }
      if |d| < 11 {
        return true;
      }
      AccumulateFrame(d);
    }

    method OnHeartbeat(d: seq<Byte>, nowMillis: int, rxAvailable: bool, writeAccepted: bool)
      requires hasGatt && Valid() && IsInt64(nowMillis)
      modifies this
      ensures Valid()
      ensures State() == HeartbeatStep(old(State()), d, nowMillis, rxAvailable, writeAccepted)
    {
      trace := trace + Tell(listener, Heartbeat(ToHexString(d)));
      if shouldReadLogs {
        ReadLog(nowMillis, rxAvailable, writeAccepted);
      }
    }

    /** The end of the stream. */
    method DeliverLogs()
      requires Valid()
      modifies this
      ensures Valid()
      ensures State() == EndOfStream(old(State()))
    {
      RemoveAllZeroKeepsDatesUnique(logs);
      logs := RemoveAllZero(logs);
      trace := trace + Tell(listener, DataReady(logs)) + [DisconnectRequest];
    }

    /** A data frame of at least 11 bytes. */
    method AccumulateFrame(d: seq<Byte>)
      requires Valid() && |d| >= 11
      modifies this
      ensures Valid()
      ensures State() == FrameStep(old(State()), address, d)
    {
      var a := Accumulate(Batch(logs, syncedPoints), address, d, false);
      AccumulateShape(Batch(logs, syncedPoints), address, d, false);
      AccumulateKeepsDatesUnique(Batch(logs, syncedPoints), address, d, false);
      logs := a.batch.logs;
      syncedPoints := a.batch.syncedPoints;
      if a.created {
        trace := trace + Tell(listener, SyncProgress(syncedPoints));
      }
    }
  }

  // ---- properties of the step functions ----

  lemma EndOfStreamKeepsValid(s: Session)
    requires SessionValid(s)
    ensures SessionValid(EndOfStream(s))
  {
    RemoveAllZeroKeepsDatesUnique(s.logs);
  }

  lemma FrameStepKeepsValid(s: Session, address: string, data: seq<Byte>)
    requires SessionValid(s) && |data| >= 11
    ensures SessionValid(FrameStep(s, address, data))
  {
    AccumulateShape(Batch(s.logs, s.syncedPoints), address, data, false);
    AccumulateKeepsDatesUnique(Batch(s.logs, s.syncedPoints), address, data, false);
  }

  /** Every notification keeps the session valid. */
  lemma ChangedKeepsValid(s: Session, address: string, data: Option<seq<Byte>>, nowMillis: int,
                          rxAvailable: bool, writeAccepted: bool)
    requires SessionValid(s) && IsInt64(nowMillis)
    ensures SessionValid(Changed(s, address, data, nowMillis, rxAvailable, writeAccepted).state)
  {
    if data.Some? && |data.value| > 0 && !IsHeartbeat(data.value) {
      var t := if IsEndMarker(data.value) then EndOfStream(s) else s;
      if IsEndMarker(data.value) {
        EndOfStreamKeepsValid(s);
      }
      if |data.value| >= 11 {
        FrameStepKeepsValid(t, address, data.value);
      }
    }
  }

  /** The handler throws exactly on a missing or empty value and on a frame that is
      neither a heartbeat nor 11 bytes long; a throw after the end marker keeps the
      delivered batch, any other throw changes nothing. */
  lemma ChangedThrows(s: Session, address: string, data: Option<seq<Byte>>, nowMillis: int,
                      rxAvailable: bool, writeAccepted: bool)
    requires IsInt64(nowMillis) && (s.syncFrom.Some? ==> IsInt64(s.syncFrom.value))
    ensures var o := Changed(s, address, data, nowMillis, rxAvailable, writeAccepted);
      && (o.thrown <==> data.None? || |data.value| == 0 || (!IsHeartbeat(data.value) && |data.value| < 11))
      && (o.thrown && !(data.Some? && |data.value| > 0 && IsEndMarker(data.value)) ==> o.state == s)
  {
  }

  /** The effects of a heartbeat, for any command: the command is written exactly
      when logs are read and RX exists. */
  lemma HeartbeatEffects(told: seq<Effect>, e: Event, cmd: seq<Byte>, reading: bool, rxAvailable: bool, writeAccepted: bool)
    requires told == [] || told == [Notified(e)]
    ensures var tail := if reading then WriteRxEffects(cmd, rxAvailable) + (if rxAvailable && writeAccepted then [] else [DisconnectRequest]) else [];
      WriteRx(cmd) in told + tail <==> reading && rxAvailable
  {
  }

  /** A heartbeat in a log session sends the read command again each time it
      arrives (when RX exists); in a version session it only reports the
      heartbeat. The batch is left alone. */
  lemma HeartbeatSendsCommand(s: Session, data: seq<Byte>, nowMillis: int, rxAvailable: bool, writeAccepted: bool)
    requires IsInt64(nowMillis) && (s.syncFrom.Some? ==> IsInt64(s.syncFrom.value))
    ensures var n := HeartbeatStep(s, data, nowMillis, rxAvailable, writeAccepted);
      && |s.trace| <= |n.trace| && n.logs == s.logs
      && (WriteRx(ReadCommand(nowMillis, s.syncFrom)) in n.trace[|s.trace|..] <==> s.shouldReadLogs && rxAvailable)
      && (s.shouldReadLogs ==> n.shouldFinish)
  {
    var n := HeartbeatStep(s, data, nowMillis, rxAvailable, writeAccepted);
    var cmd := ReadCommand(nowMillis, s.syncFrom);
    var e := Heartbeat(ToHexString(data));
    var told := Tell(s.listener, e);
    var tail := if s.shouldReadLogs then
      WriteRxEffects(cmd, rxAvailable) + (if rxAvailable && writeAccepted then [] else [DisconnectRequest])
      else [];
    assert n.trace == s.trace + (told + tail);
    assert n.trace[|s.trace|..] == told + tail;
    HeartbeatEffects(told, e, cmd, s.shouldReadLogs, rxAvailable, writeAccepted);
  }

  // ---- retries ----

  /** The number of connection requests among some effects. */
  function ConnectCount(t: seq<Effect>): nat
  {
    if t == [] then 0 else ConnectCount(t[..|t| - 1]) + (if t[|t| - 1] == ConnectRequest then 1 else 0)
  }

  lemma {:induction false} ConnectCountAppend(a: seq<Effect>, b: seq<Effect>)
    ensures ConnectCount(a + b) == ConnectCount(a) + ConnectCount(b)
  {
    if b != [] {
      assert (a + b)[..|a + b| - 1] == a + b[..|b| - 1];
      ConnectCountAppend(a, b[..|b| - 1]);
    } else {
      assert a + b == a;
    }
  }

  /** The link dropping k times in a row. */
  function Disconnections(s: Session, k: nat, gattCreated: bool): Session
    decreases k
  {
    if k == 0 then s else Disconnections(DisconnectStep(s, gattCreated), k - 1, gattCreated)
  }

  /** How many reconnections a counter value still allows. */
  function RetriesLeft(counter: int): nat
  {
    if counter + 1 < MAX_CONNECT_RETRY then MAX_CONNECT_RETRY - 1 - counter else 0
  }

  /** One drop reconnects at most while retries are left, and uses one up when it
      does. */
  lemma DisconnectStepSpendsRetry(s: Session, gattCreated: bool)
    requires s.retryConnectionCounter >= 0
    ensures var n := DisconnectStep(s, gattCreated);
      && n.retryConnectionCounter >= s.retryConnectionCounter
      && ConnectCount(n.trace) + RetriesLeft(n.retryConnectionCounter) <= ConnectCount(s.trace) + RetriesLeft(s.retryConnectionCounter)
  {
    if !s.shouldFinish && s.retryConnectionCounter + 1 < MAX_CONNECT_RETRY {
      ConnectCountAppend(s.trace, [ConnectRequest]);
    } else {
      ConnectCountAppend(s.trace + Tell(s.listener, Connected(false)), [CloseRequest]);
      ConnectCountAppend(s.trace, Tell(s.listener, Connected(false)));
    }
  }

  /** However often the link drops, a session reconnects at most
      MAX_CONNECT_RETRY - 1 times from a fresh counter. */
  lemma {:induction false} RetriesAreBounded(s: Session, k: nat, gattCreated: bool)
    requires s.retryConnectionCounter >= 0
    decreases k
    ensures ConnectCount(Disconnections(s, k, gattCreated).trace) <= ConnectCount(s.trace) + RetriesLeft(s.retryConnectionCounter)
  {
    if k > 0 {
      var n := DisconnectStep(s, gattCreated);
      DisconnectStepSpendsRetry(s, gattCreated);
      RetriesAreBounded(n, k - 1, gattCreated);
    }
  }

  /** Once the retries are used up, or when the session was finishing anyway, a
      drop is final: the listener hears `connected(false)` and the connection is
      closed. */
  lemma DropAfterRetriesIsFinal(s: Session, gattCreated: bool)
    requires s.shouldFinish || s.retryConnectionCounter + 1 >= MAX_CONNECT_RETRY
    ensures var n := DisconnectStep(s, gattCreated);
      && n.trace == s.trace + Tell(s.listener, Connected(false)) + [CloseRequest]
      && n.logs == s.logs && n.shouldReadLogs == s.shouldReadLogs
  {
  }

  // ---- the retry of a version session ----

  /** A retry goes through `connect`, which sets `shouldReadLogs`: a version session
      whose link drops early turns into a log session, and after the firmware is
      read it streams the logs if the firmware passes the check, although only the
      version was asked for. */
  lemma VersionRetryReadsLogs(s: Session, gattCreated: bool, raw: string)
    requires !s.shouldReadLogs && !s.shouldFinish && s.retryConnectionCounter + 1 < MAX_CONNECT_RETRY
    ensures DisconnectStep(s, gattCreated).shouldReadLogs
    ensures LegacyGate(DisconnectStep(s, gattCreated).shouldReadLogs, raw) == LegacyGate(true, raw)
    ensures !LegacyGate(s.shouldReadLogs, raw).readLogs
  {
  }

  /** The retry that keeps the kind of session: a log session reconnects as by
      `connect(context, syncFrom)`, a version session as by `getFwVersion`. */
  function RetryStep(s: Session, gattCreated: bool): Session
  {
    if !s.shouldFinish && s.retryConnectionCounter + 1 < MAX_CONNECT_RETRY then
      var t := s.(retryConnectionCounter := s.retryConnectionCounter + 1);
      if s.shouldReadLogs then ConnectStep(t, s.syncFrom, gattCreated) else VersionStep(t, gattCreated)
    else DisconnectStep(s, gattCreated)
  }

  /** With that retry a dropped link never changes whether logs are read, and
      otherwise it behaves as the handler does. */
  lemma RetryKeepsSessionKind(s: Session, gattCreated: bool)
    ensures RetryStep(s, gattCreated).shouldReadLogs == s.shouldReadLogs
    ensures s.shouldReadLogs ==> RetryStep(s, gattCreated) == DisconnectStep(s, gattCreated)
    ensures !s.shouldReadLogs ==> RetryStep(s, gattCreated).trace == DisconnectStep(s, gattCreated).trace
  {
  }

  // ---- the end marker ----

  /** A data frame whose time is new appends one reading for that time. */
  lemma FrameStepOfNewTime(t: Session, address: string, data: seq<Byte>)
    requires |data| >= 11
    requires forall j :: 0 <= j < |t.logs| ==> t.logs[j].date != FrameTime(data)
    ensures var n := FrameStep(t, address, data);
      && |n.logs| == |t.logs| + 1 && n.logs[|t.logs|].date == FrameTime(data)
      && n.syncedPoints == t.syncedPoints + 1
  {
    AccumulateMissing(Batch(t.logs, t.syncedPoints), address, data, false);
  }

  /** The end marker is parsed as a data frame after the batch is delivered: an
      11-byte end marker whose time stamp (all ones) is new appends a reading for
      2^32 - 1 seconds and reports one more synced point after `dataReady`. */
  lemma EndMarkerAlsoAccumulated(s: Session, address: string, data: seq<Byte>, nowMillis: int,
                                 rxAvailable: bool, writeAccepted: bool)
    requires IsInt64(nowMillis) && (s.syncFrom.Some? ==> IsInt64(s.syncFrom.value))
    requires |data| == 11 && !IsHeartbeat(data) && IsEndMarker(data)
    requires forall j :: 0 <= j < |s.logs| ==> s.logs[j].date != (TWO_32 - 1) * 1000
    ensures var o := Changed(s, address, Some(data), nowMillis, rxAvailable, writeAccepted);
      && !o.thrown
      && |o.state.logs| == |RemoveAllZero(s.logs)| + 1
      && o.state.logs[|o.state.logs| - 1].date == (TWO_32 - 1) * 1000
      && o.state.syncedPoints == s.syncedPoints + 1
  {
    var e := EndOfStream(s);
    AllOnesTime(data);
    forall j | 0 <= j < |e.logs|
      ensures e.logs[j].date != FrameTime(data)
    {
      assert e.logs[j] in s.logs;
    }
    assert Changed(s, address, Some(data), nowMillis, rxAvailable, writeAccepted) == Outcome(FrameStep(e, address, data), false);
    FrameStepOfNewTime(e, address, data);
  }

  /** The time of a frame whose last eight bytes are all ones. */
  lemma AllOnesTime(data: seq<Byte>)
    requires |data| == 11 && IsEndMarker(data)
    ensures FrameTime(data) == (TWO_32 - 1) * 1000
  {
    assert data[3..7] == [0xFF, 0xFF, 0xFF, 0xFF];
    FourByteValue(data[3..7]);
  }
}
