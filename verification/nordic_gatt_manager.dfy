/** `NordicGattManager` (gatt/NordicGattManager.kt): a GATT session built on a
    request queue. It connects, reads firmware, model and manufacturer from the
    device-information service, reports them, and when the firmware can stream its
    history and logs were asked for, subscribes to the Nordic UART service and
    sends the read command; the tag then streams heartbeats, data frames and an
    end marker.

    Requests to the Bluetooth stack are recorded in `trace` (they are queued, and
    their outcome arrives later as a call of one of the handlers below); the
    listener callbacks are recorded there too. */
module NordicGatt {
  import opened Primitives
  import opened ByteArrayExt
  import opened GattLog
  import opened FirmwareGate

  /** `ActionType`: GET_LOGS or GET_VERSION. */
  datatype ActionType = FetchLogs | FetchVersion

  /** Every field of a session, as a value. */
  datatype ManagerState = ManagerState(
    callback: Option<nat>,
    actionType: ActionType,
    readLogsFrom: Option<int>,
    logs: seq<LogReading>,
    syncedPoints: int,
    model: Option<string>,
    firmware: Option<string>,
    manufacturer: Option<string>,
    trace: seq<Effect>)

  /** `executeDisconnect()`: a disconnect request, then `connected(false)`. */
  function DisconnectEffects(callback: Option<nat>): (r: seq<Effect>)
    ensures |r| >= 1 && r[0] == DisconnectRequest
    ensures forall e :: e in r ==> !e.WriteRx?
  {
    [DisconnectRequest] + Tell(callback, Connected(false))
  }

  /** `registerToNordicRxTx()` and `startReadingLogs()`: enable notifications on
      the TX characteristic, then write the read command to RX. */
  function StreamRequests(nowMillis: int, readLogsFrom: Option<int>): (r: seq<Effect>)
    requires IsInt64(nowMillis) && (readLogsFrom.Some? ==> IsInt64(readLogsFrom.value))
    ensures |r| == 3 && r[2] == WriteRx(ReadCommand(nowMillis, readLogsFrom))
  {
    [WriteNotificationDescriptor, EnableNotifications, WriteRx(ReadCommand(nowMillis, readLogsFrom))]
  }

  /** No log read command among some effects. */
  predicate NoLogRequest(effects: seq<Effect>)
  {
    forall e :: e in effects ==> !e.WriteRx?
  }

  /** A manager as constructed: no listener, no session, nothing read. */
  const FRESH_MANAGER: ManagerState := ManagerState(None, FetchLogs, None, [], 0, None, None, None, [])

  /** `getLogs(from)`: the state cleared, a log session from the given start time,
      and a connection requested. */
  function LogSession(s: ManagerState, from: Option<int>): ManagerState
  {
    s.(actionType := FetchLogs, readLogsFrom := from, logs := [], syncedPoints := 0,
       model := None, firmware := None, manufacturer := None, trace := s.trace + [ConnectRequest])
  }

  /** `getVersion()`: the state cleared, a version-only session, and a connection
      requested. */
  function VersionSession(s: ManagerState): ManagerState
  {
    s.(actionType := FetchVersion, readLogsFrom := None, logs := [], syncedPoints := 0,
       model := None, firmware := None, manufacturer := None, trace := s.trace + [ConnectRequest])
  }

  class NordicGattManager {
    /** The device address (`device.address`). */
    const address: string
    var callback: Option<nat>
    var actionType: ActionType
    var readLogsFrom: Option<int>
    var logs: seq<LogReading>
    var syncedPoints: int
    var model: Option<string>
    var firmware: Option<string>
    var manufacturer: Option<string>
    var trace: seq<Effect>

    function State(): ManagerState
      reads this
    {
      ManagerState(callback, actionType, readLogsFrom, logs, syncedPoints, model, firmware, manufacturer, trace)
    }

    /** The readings of a batch have distinct time stamps, and the synced count is
        never below the number of readings (it counts every time stamp seen, and the
        end of the stream may remove readings). A start time is a Long. */
    predicate Valid()
      reads this
    {
      && UniqueDates(logs)
      && |logs| <= syncedPoints
      && (readLogsFrom.Some? ==> IsInt64(readLogsFrom.value))
    }

    constructor (address: string)
      ensures Valid() && this.address == address
      ensures State() == FRESH_MANAGER
    {
      this.address := address;
      callback := None;
      actionType := FetchLogs;
      readLogsFrom := None;
      logs := [];
      syncedPoints := 0;
      model, firmware, manufacturer := None, None, None;
      trace := [];
    }

    method SetCallBack(listener: nat)
      modifies this
      ensures State() == old(State()).(callback := Some(listener))
    {
      callback := Some(listener);
    }

    /** `clearState()`: a new batch and no device information. */
    method ClearState()
      modifies this
      ensures State() == old(State()).(logs := [], syncedPoints := 0, model := None, firmware := None, manufacturer := None)
    {
      logs := [];
      syncedPoints := 0;
      model := None;
      firmware := None;
      manufacturer := None;
    }

    /** `getLogs(readLogsFrom)`: a fresh log session from the given start time. */
    method GetLogs(from: Option<int>)
      requires from.Some? ==> IsInt64(from.value)
      modifies this
      ensures Valid()
      ensures State() == LogSession(old(State()), from)
    {
      ClearState();
      actionType := FetchLogs;
      readLogsFrom := from;
      trace := trace + [ConnectRequest];
    }

    /** `getVersion()`: a fresh session that only reads the device information. */
    method GetVersion()
      modifies this
      ensures Valid()
      ensures State() == VersionSession(old(State()))
    {
      ClearState();
      actionType := FetchVersion;
      readLogsFrom := None;
      trace := trace + [ConnectRequest];
    }

    /** `executeDisconnect()`, also what every failed request (connect, a
        characteristic read, the descriptor or command write) leads to. */
    method ExecuteDisconnect()
      modifies this
      ensures State() == old(State()).(trace := old(trace) + DisconnectEffects(callback))
    {
      trace := trace + DisconnectEffects(callback);
    }

    /** `isRequiredServiceSupported`: reports `connected(true)` and accepts the
        device when it offers both the Nordic UART and the device-information
        service. */
    method IsRequiredServiceSupported(hasRxService: bool, hasInfoService: bool) returns (r: bool)
      modifies this
      ensures r <==> hasRxService && hasInfoService
      ensures State() == old(State()).(trace := old(trace) + Tell(callback, Connected(true)))
    {
      trace := trace + Tell(callback, Connected(true));
      r := hasRxService && hasInfoService;
    }

    /** `initialize()` / `readFromInfoService()`: queues the reads of firmware, model
        and manufacturer, in that order. */
    method Initialize()
      modifies this
      ensures State() == old(State()).(trace := old(trace) + [ReadRequest(Firmware), ReadRequest(Model), ReadRequest(Manufacturer)])
    {
      trace := trace + [ReadRequest(Firmware), ReadRequest(Model), ReadRequest(Manufacturer)];
    }

    /** `checkIfInfoCollected()`: once all three strings are known, reports them with
        the firmware check and then streams the logs (a log session whose firmware
        passes) or disconnects. */
    method CheckIfInfoCollected(nowMillis: int)
      requires Valid() && IsInt64(nowMillis)
      modifies this
      ensures Valid()
      ensures var s := old(State());
        if s.firmware.Some? && s.model.Some? && s.manufacturer.Some? then
          var gate := CanReadLogs(s.firmware);
          State() == s.(trace := s.trace + Tell(s.callback, DeviceInfo(s.model.value, s.firmware.value, gate))
            + (if gate && s.actionType == FetchLogs then StreamRequests(nowMillis, s.readLogsFrom)
               else DisconnectEffects(s.callback)))
        else State() == s
      ensures old(actionType) == FetchVersion ==> NoLogRequest(trace[|old(trace)|..])
    {
      if firmware.Some? && model.Some? && manufacturer.Some? {
        var gate := CanReadLogs(firmware);
        trace := trace + Tell(callback, DeviceInfo(model.value, firmware.value, gate));
        if gate && actionType == FetchLogs {
          trace := trace + StreamRequests(nowMillis, readLogsFrom);
        } else {
          ExecuteDisconnect();
        }
      }
    }

    /** A successful read of one device-information characteristic: the string is
        stored and the collection checked. */
    method OnInfoRead(which: InfoCharacteristic, value: string, nowMillis: int)
      requires Valid() && IsInt64(nowMillis)
      modifies this
      ensures Valid()
      ensures var s := old(State());
        var t := match which
          case Firmware => s.(firmware := Some(value))
          case Model => s.(model := Some(value))
          case Manufacturer => s.(manufacturer := Some(value));
        if t.firmware.Some? && t.model.Some? && t.manufacturer.Some? then
          var gate := CanReadLogs(t.firmware);
          State() == t.(trace := t.trace + Tell(t.callback, DeviceInfo(t.model.value, t.firmware.value, gate))
            + (if gate && t.actionType == FetchLogs then StreamRequests(nowMillis, t.readLogsFrom)
               else DisconnectEffects(t.callback)))
        else State() == t
    {
      match which {
        case Firmware => firmware := Some(value);
        case Model => model := Some(value);
        case Manufacturer => manufacturer := Some(value);
      }
      CheckIfInfoCollected(nowMillis);
    }

    /** The notification handler `processData`. A null value is ignored. An empty
        frame, and a data frame shorter than 11 bytes, throw before anything
        changes (`thrown`). A heartbeat (first byte 5) is passed on as hex. The end
        marker drops the all-zero readings, delivers the batch and disconnects. Any
        other frame is accumulated, with the all-ones sentinel read as null. */
    method ProcessData(data: Option<seq<Byte>>) returns (thrown: bool)
      requires Valid()
      modifies this
      ensures Valid()
      ensures thrown <==> (data.Some? &&
        (|data.value| == 0 || (!IsHeartbeat(data.value) && !IsEndMarker(data.value) && |data.value| < 11)))
      ensures thrown || data.None? ==> State() == old(State())
      ensures !thrown && data.Some? && IsHeartbeat(data.value) ==>
        State() == old(State()).(trace := old(trace) + Tell(callback, Heartbeat(ToHexString(data.value))))
      ensures !thrown && data.Some? && !IsHeartbeat(data.value) && IsEndMarker(data.value) ==>
        State() == old(State()).(logs := RemoveAllZero(old(logs)),
          trace := old(trace) + Tell(callback, DataReady(RemoveAllZero(old(logs)))) + DisconnectEffects(callback))
      ensures !thrown && data.Some? && !IsHeartbeat(data.value) && !IsEndMarker(data.value) ==>
        var a := Accumulate(Batch(old(logs), old(syncedPoints)), address, data.value, true);
        State() == old(State()).(logs := a.batch.logs, syncedPoints := a.batch.syncedPoints,
          trace := old(trace) + (if a.created then Tell(callback, SyncProgress(a.batch.syncedPoints)) else []))
      ensures old(syncedPoints == |logs|) && !(data.Some? && |data.value| > 0 && !IsHeartbeat(data.value) && IsEndMarker(data.value))
        ==> syncedPoints == |logs|
    {
      thrown := false;
      if data.None? {
        return;
      }
      var d := data.value;
      if |d| == 0 {
        return true;
      }
      if IsHeartbeat(d) {
        trace := trace + Tell(callback, Heartbeat(ToHexString(d)));
      } else if IsEndMarker(d) {
        RemoveAllZeroKeepsDatesUnique(logs);
        logs := RemoveAllZero(logs);
        trace := trace + Tell(callback, DataReady(logs));
        ExecuteDisconnect();
      } else if |d| < 11 {
        return true;
      } else {
        var a := Accumulate(Batch(logs, syncedPoints), address, d, true);
        AccumulateShape(Batch(logs, syncedPoints), address, d, true);
        AccumulateKeepsDatesUnique(Batch(logs, syncedPoints), address, d, true);
        logs := a.batch.logs;
        syncedPoints := a.batch.syncedPoints;
        if a.created {
          trace := trace + Tell(callback, SyncProgress(syncedPoints));
        }
      }
    }
  }

  // ---- properties of a session ----

  /** Logs are streamed exactly when the firmware passes the check in a log
      session: the read command is the last effect in that case and absent in the
      other. */
  lemma StreamsIffGatePasses(s: ManagerState, nowMillis: int)
    requires IsInt64(nowMillis) && (s.readLogsFrom.Some? ==> IsInt64(s.readLogsFrom.value))
    requires s.firmware.Some? && s.model.Some?
    ensures var gate := CanReadLogs(s.firmware);
      var effects := Tell(s.callback, DeviceInfo(s.model.value, s.firmware.value, gate))
        + (if gate && s.actionType == FetchLogs then StreamRequests(nowMillis, s.readLogsFrom)
           else DisconnectEffects(s.callback));
      (gate && s.actionType == FetchLogs <==> !NoLogRequest(effects))
  {
    var gate := CanReadLogs(s.firmware);
    var info := Tell(s.callback, DeviceInfo(s.model.value, s.firmware.value, gate));
    if gate && s.actionType == FetchLogs {
      var effects := info + StreamRequests(nowMillis, s.readLogsFrom);
      assert effects[|effects| - 1].WriteRx?;
    }
  }
}
