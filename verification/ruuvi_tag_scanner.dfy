/** `RuuviTagScanner` (RuuviTagScanner.kt): the current scanner. It forwards every
    parsed advertisement to the tag listener, skipping repeats of a measurement
    sequence number, remembers the devices that advertise a name (those can be
    connected to), and keeps one GATT session manager per address.

    The advertisement parser (`LeScanResult.parse`, not part of this model), the
    adapter's readiness (`canScan`) and a manager's `isConnected` (answered by the
    Nordic BLE library) are parameters. */
module TagScanner {
  import opened Primitives
  import opened FoundRuuviTagValidation
  import opened NordicGatt

  /** A platform scan result, as far as the scanner reads it: the device address,
      the signal strength, the raw advertisement, and whether the scan record
      carries a device name. */
  datatype ScanResult = ScanResult(address: string, rssi: int, scanData: Option<seq<Byte>>, named: bool)

  /** `LeScanResult`: the device (by address), its signal strength and raw data. */
  datatype LeScan = LeScan(address: string, rssi: int, scanData: Option<seq<Byte>>)

  /** Requests to the platform scanner and calls of the tag listener. */
  datatype ScanEffect =
    | StartScan
    | StopScan
    | TagFound(listener: nat, tag: TagValues)

  /** `tagListener?.onTagFound(tag)`. */
  function Found(listener: Option<nat>, tag: TagValues): seq<ScanEffect>
  {
    if listener.Some? then [TagFound(listener.value, tag)] else []
  }

  /** `sendDataToListener` delivers a tag unless it carries a sequence number equal
      to the one last delivered for its id. A tag without an id is looked up under
      null, where nothing is ever stored. */
  function ShouldDeliver(sequences: map<string, int>, tag: TagValues): (r: bool)
    ensures tag.measurementSequenceNumber.None? ==> r
    ensures tag.id.None? ==> r
    ensures tag.id.Some? && tag.id.value !in sequences ==> r
  {
    match tag.measurementSequenceNumber
    case None => true
    case Some(n) =>
      match tag.id
      case None => true
      case Some(id) => id !in sequences || sequences[id] != n
  }

  /** The sequence map after `sendDataToListener`: it changes only when a tag is
      delivered, and then only the entry of that tag's id. */
  function Remembered(sequences: map<string, int>, tag: TagValues): (r: map<string, int>)
    ensures r != sequences ==> ShouldDeliver(sequences, tag) && tag.id.Some? && tag.measurementSequenceNumber.Some?
    ensures forall k :: k in sequences && (tag.id.None? || k != tag.id.value) ==> k in r && r[k] == sequences[k]
    ensures forall k :: k in r ==> k in sequences || tag.id == Some(k)
  {
    if ShouldDeliver(sequences, tag) && tag.id.Some? && tag.measurementSequenceNumber.Some?
    then sequences[tag.id.value := tag.measurementSequenceNumber.value]
    else sequences
  }

  /** `connectable`: the scan record has a name, or a manager exists for the
      address and reports that it is connected. */
  function Connectable(result: ScanResult, hasManager: bool, managerConnected: bool): bool
  {
    result.named || (hasManager && managerConnected)
  }

  /** Every field of a scanner, as a value; the managers are objects with states of
      their own. */
  datatype ScannerState = ScannerState(
    tagListener: Option<nat>,
    devices: map<string, LeScan>,
    gattManagers: map<string, NordicGattManager>,
    isScanning: bool,
    sequenceMap: map<string, int>,
    trace: seq<ScanEffect>)

  class RuuviTagScanner {
    var tagListener: Option<nat>
    var devices: map<string, LeScan>
    var gattManagers: map<string, NordicGattManager>
    var isScanning: bool
    var sequenceMap: map<string, int>
    var trace: seq<ScanEffect>

    function State(): ScannerState
      reads this
    {
      ScannerState(tagListener, devices, gattManagers, isScanning, sequenceMap, trace)
    }

    /** Each device and each manager is stored under its own address, and every
        manager is in a consistent state. */
    predicate Valid()
      reads this, gattManagers.Values
    {
      && (forall a :: a in devices ==> devices[a].address == a)
      && (forall a :: a in gattManagers ==> gattManagers[a].address == a && gattManagers[a].Valid())
    }

    constructor ()
      ensures Valid()
      ensures State() == ScannerState(None, map[], map[], false, map[], [])
    {
      tagListener := None;
      devices := map[];
      gattManagers := map[];
      isScanning := false;
      sequenceMap := map[];
      trace := [];
    }

    /** `startScanning(listener)`: canScan says whether the adapter is ready,
        directly or after the scanner is initialised again. Nothing happens when it
        is not, or when a scan runs already; otherwise the listener is kept and a
        scan started. */
    method StartScanning(listener: nat, canScan: bool)
      modifies this
      ensures State() == if !canScan || old(isScanning) then old(State())
        else old(State()).(isScanning := true, tagListener := Some(listener), trace := old(trace) + [StartScan])
    {
      if !canScan {
        return;
      }
      if isScanning {
        return;
      }
      isScanning := true;
      tagListener := Some(listener);
      trace := trace + [StartScan];
    }

    /** `stopScanning()`: nothing when the adapter is not ready (the flag stays
        set); otherwise the scan is stopped and the flag cleared. */
    method StopScanning(canScan: bool)
      modifies this
      ensures State() == if !canScan then old(State())
        else old(State()).(isScanning := false, trace := old(trace) + [StopScan])
    {
      if !canScan {
        return;
      }
      trace := trace + [StopScan];
      isScanning := false;
    }

    /** `connect(mac, readLogsFrom, listener)`: for a known device, the manager of
        the address (a new one when there is none) gets the listener and starts a
        log session. The answer is whether the device is known. */
    method Connect(mac: string, from: Option<int>, listener: nat) returns (r: bool)
      requires Valid() && (from.Some? ==> IsInt64(from.value))
      modifies this, if mac in gattManagers then {gattManagers[mac]} else {}
      ensures Valid()
      ensures r <==> mac in old(devices)
      ensures State() == old(State()).(gattManagers := gattManagers)
      ensures !r ==> gattManagers == old(gattManagers)
      ensures !r && mac in gattManagers ==> gattManagers[mac].State() == old(gattManagers[mac].State())
      ensures r && mac in old(gattManagers) ==>
        gattManagers == old(gattManagers) && gattManagers[mac].State() == LogSession(old(gattManagers[mac].State()).(callback := Some(listener)), from)
      ensures r && mac !in old(gattManagers) ==>
        && mac in gattManagers && fresh(gattManagers[mac])
        && gattManagers == old(gattManagers)[mac := gattManagers[mac]]
        && gattManagers[mac].State() == LogSession(FRESH_MANAGER.(callback := Some(listener)), from)
    {
      if mac !in devices {
        return false;
      }
      var manager := ManagerFor(mac);
      manager.SetCallBack(listener);
      manager.GetLogs(from);
      r := true;
    }

    /** `getFwVersion(mac, listener)`: as `connect`, with a session that only reads
        the device information. */
    method GetFwVersion(mac: string, listener: nat) returns (r: bool)
      requires Valid()
      modifies this, if mac in gattManagers then {gattManagers[mac]} else {}
      ensures Valid()
      ensures r <==> mac in old(devices)
      ensures State() == old(State()).(gattManagers := gattManagers)
      ensures !r ==> gattManagers == old(gattManagers)
      ensures !r && mac in gattManagers ==> gattManagers[mac].State() == old(gattManagers[mac].State())
      ensures r && mac in old(gattManagers) ==>
        gattManagers == old(gattManagers) && gattManagers[mac].State() == VersionSession(old(gattManagers[mac].State()).(callback := Some(listener)))
      ensures r && mac !in old(gattManagers) ==>
        && mac in gattManagers && fresh(gattManagers[mac])
        && gattManagers == old(gattManagers)[mac := gattManagers[mac]]
        && gattManagers[mac].State() == VersionSession(FRESH_MANAGER.(callback := Some(listener)))
    {
      if mac !in devices {
        return false;
      }
      var manager := ManagerFor(mac);
      manager.SetCallBack(listener);
      manager.GetVersion();
      r := true;
    }

    /** The manager of an address, created and stored when there is none. */
    method ManagerFor(mac: string) returns (manager: NordicGattManager)
      requires Valid()
      modifies this
      ensures Valid() && mac in gattManagers && manager == gattManagers[mac] && manager.address == mac
      ensures State() == old(State()).(gattManagers := gattManagers)
      ensures mac in old(gattManagers) ==> gattManagers == old(gattManagers)
      ensures mac !in old(gattManagers) ==>
        fresh(manager) && gattManagers == old(gattManagers)[mac := manager] && manager.State() == FRESH_MANAGER
    {
      if mac in gattManagers {
        manager := gattManagers[mac];
      } else {
        manager := new NordicGattManager(mac);
        gattManagers := gattManagers[mac := manager];
      }
    }

    /** `disconnect(mac)`: the manager of the address, if any, disconnects; none is
        created. The answer is whether there was one. */
    method Disconnect(mac: string) returns (r: bool)
      modifies if mac in gattManagers then {gattManagers[mac]} else {}
      ensures r <==> mac in gattManagers
      ensures r ==> (var m := old(gattManagers[mac].State());
        gattManagers[mac].State() == m.(trace := m.trace + DisconnectEffects(m.callback)))
    {
      if mac in gattManagers {
        gattManagers[mac].ExecuteDisconnect();
        return true;
      }
      return false;
    }

    /** `onScanResult`: a result that is absent or does not parse changes nothing.
        Otherwise a named result is stored as the device of its address, and the
        parsed tag, marked connectable or not, goes to `sendDataToListener`. */
    method OnScanResult(result: Option<ScanResult>, parsed: Option<TagValues>, managerConnected: bool)
      requires Valid()
      modifies this
      ensures Valid()
      ensures result.None? || parsed.None? ==> State() == old(State())
      ensures result.Some? && parsed.Some? ==>
        var res := result.value;
        var tag := parsed.value.(connectable := Some(Connectable(res, res.address in old(gattManagers), managerConnected)));
        State() == old(State()).(
          devices := if res.named then old(devices)[res.address := LeScan(res.address, res.rssi, res.scanData)] else old(devices),
          sequenceMap := Remembered(old(sequenceMap), tag),
          trace := old(trace) + (if ShouldDeliver(old(sequenceMap), tag) then Found(tagListener, tag) else []))
    {
      if result.None? || parsed.None? {
        return;
      }
      var res := result.value;
      var connectable := res.named;
      if connectable {
        devices := devices[res.address := LeScan(res.address, res.rssi, res.scanData)];
      } else if res.address in gattManagers && managerConnected {
        connectable := true;
      }
      var tag := parsed.value.(connectable := Some(connectable));
      SendDataToListener(tag);
    }

    /** `sendDataToListener(tag)`. */
    method SendDataToListener(tag: TagValues)
      modifies this
      ensures State() == old(State()).(sequenceMap := Remembered(old(sequenceMap), tag),
        trace := old(trace) + (if ShouldDeliver(old(sequenceMap), tag) then Found(tagListener, tag) else []))
    {
      if tag.measurementSequenceNumber.Some? {
        var last: Option<int> := if tag.id.Some? && tag.id.value in sequenceMap then Some(sequenceMap[tag.id.value]) else None;
        if last.None? || tag.measurementSequenceNumber.value != last.value {
          trace := trace + Found(tagListener, tag);
          if tag.id.Some? {
            sequenceMap := sequenceMap[tag.id.value := tag.measurementSequenceNumber.value];
          }
        }
      } else {
        trace := trace + Found(tagListener, tag);
      }
    }
  }

  // ---- properties ----

  /** Once a tag with an id and a sequence number is delivered, a later tag with
      the same id is delivered exactly when it has no sequence number or a
      different one. */
  lemma DeliveredUntilSequenceChanges(sequences: map<string, int>, first: TagValues, next: TagValues)
    requires first.id.Some? && first.measurementSequenceNumber.Some? && ShouldDeliver(sequences, first)
    requires next.id == first.id
    ensures ShouldDeliver(Remembered(sequences, first), next) <==>
      next.measurementSequenceNumber.None? || next.measurementSequenceNumber != first.measurementSequenceNumber
  {
  }

  /** A suppressed tag leaves the sequence map as it was, so a repeat stays
      suppressed however often it comes. */
  lemma SuppressedChangesNothing(sequences: map<string, int>, tag: TagValues)
    requires !ShouldDeliver(sequences, tag)
    ensures Remembered(sequences, tag) == sequences
    ensures tag.id.Some? && tag.measurementSequenceNumber.Some?
    ensures tag.id.value in sequences && sequences[tag.id.value] == tag.measurementSequenceNumber.value
  {
  }

  function TagWith(id: string, sequence: int): TagValues
  {
    TagValues(Some(id), None, None, None, None, None, None, None, None, None, None, None, Some(sequence), None)
  }

  /** Sequence numbers 10 then 10 deliver only the first; 10 then 11 deliver
      both. */
  lemma SequenceExamples(id: string)
    ensures ShouldDeliver(map[], TagWith(id, 10))
    ensures !ShouldDeliver(Remembered(map[], TagWith(id, 10)), TagWith(id, 10))
    ensures ShouldDeliver(Remembered(map[], TagWith(id, 10)), TagWith(id, 11))
  {
    DeliveredUntilSequenceChanges(map[], TagWith(id, 10), TagWith(id, 10));
    DeliveredUntilSequenceChanges(map[], TagWith(id, 10), TagWith(id, 11));
  }
}
