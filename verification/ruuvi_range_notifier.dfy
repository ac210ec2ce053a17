/** `RuuviRangeNotifier` (RuuviRangeNotifier.kt): the legacy scanner. It forwards
    every parsed advertisement, without de-duplication, keeps a list of the named
    devices with one entry per address, and opens a new legacy GATT connection for
    every successful `connect`. It owns a crash resolver, started with the scan.

    As for the current scanner, the advertisement parser and the adapter's
    readiness are parameters. */
module RangeNotifier {
  import opened Primitives
  import opened FoundRuuviTagValidation
  import opened TagScanner
  import opened LegacyGatt
  import opened CrashResolver

  /** `indexOfFirst { it.device.address == address }`: the index of the first
      device with the address, or -1. */
  function IndexOfAddress(devices: seq<LeScan>, address: string): (r: int)
    ensures -1 <= r < |devices|
    ensures r >= 0 ==> devices[r].address == address
    ensures r >= 0 ==> forall j :: 0 <= j < r ==> devices[j].address != address
    ensures r == -1 <==> forall j :: 0 <= j < |devices| ==> devices[j].address != address
  {
    if |devices| == 0 then -1
    else if devices[0].address == address then 0
    else
      var k := IndexOfAddress(devices[1..], address);
      if k == -1 then -1 else k + 1
  }

  /** No two devices in the list share an address. */
  predicate UniqueAddresses(devices: seq<LeScan>)
  {
    forall i, j :: 0 <= i < j < |devices| ==> devices[i].address != devices[j].address
  }

  /** The list after a named result: the entry with the same address replaced in
      place, or the result appended when there is none. */
  function Upserted(devices: seq<LeScan>, d: LeScan): seq<LeScan>
  {
    var idx := IndexOfAddress(devices, d.address);
    if idx != -1 then devices[idx := d] else devices + [d]
  }

  /** Every field of a range notifier, as a value; the connections and the crash
      resolver are objects with states of their own. */
  datatype NotifierState = NotifierState(
    tagListener: Option<nat>,
    tagConnections: seq<GattConnection>,
    bluetoothDevices: seq<LeScan>,
    isScanning: bool,
    trace: seq<ScanEffect>)

  class RuuviRangeNotifier {
    var tagListener: Option<nat>
    var tagConnections: seq<GattConnection>
    var bluetoothDevices: seq<LeScan>
    var isScanning: bool
    var trace: seq<ScanEffect>
    const crashResolver: BluetoothCrashResolver

    function State(): NotifierState
      reads this
    {
      NotifierState(tagListener, tagConnections, bluetoothDevices, isScanning, trace)
    }

    predicate Valid()
      reads this, crashResolver
    {
      UniqueAddresses(bluetoothDevices) && crashResolver.Valid()
    }

    /** The notifier starts with no devices, and its crash resolver loads the state
        file the app left. */
    constructor (stateFile: Option<seq<string>>)
      ensures Valid() && fresh(crashResolver)
      ensures State() == NotifierState(None, [], [], false, [])
      ensures crashResolver.State() == WithPersisted(INITIAL.(stateFile := stateFile),
        if stateFile.Some? then Loaded(PersistedOf(INITIAL), stateFile.value) else PersistedOf(INITIAL))
    {
      tagListener := None;
      tagConnections := [];
      bluetoothDevices := [];
      isScanning := false;
      trace := [];
      crashResolver := new BluetoothCrashResolver(stateFile);
    }

    /** `startScanning(listener)`: canScan says whether adapter and scanner exist,
        directly or after the scanner is initialised again. Nothing happens when
        they do not, or when a scan runs already; otherwise the listener is kept,
        a scan started and the crash resolver started. */
    method StartScanning(listener: nat, canScan: bool)
      modifies this, crashResolver
      ensures State() == if !canScan || old(isScanning) then old(State())
        else old(State()).(isScanning := true, tagListener := Some(listener), trace := old(trace) + [StartScan])
      ensures crashResolver.State() == if !canScan || old(isScanning) then old(crashResolver.State())
        else old(crashResolver.State()).(trace := old(crashResolver.trace) + [RegisterReceiver])
    {
      if !canScan {
        return;
      }
      if isScanning {
        return;
      }
      isScanning := true;
      tagListener := Some(listener);
      trace := trace + [StartScan];
      crashResolver.Start();
    }

    /** `stopScanning()`: nothing when adapter or scanner is missing (the flag stays
        set); otherwise the scan is stopped and the flag cleared. The crash resolver
        keeps running. */
    method StopScanning(canScan: bool)
      modifies this
      ensures State() == if !canScan then old(State())
        else old(State()).(isScanning := false, trace := old(trace) + [StopScan])
    {
      if !canScan {
        return;
      }
      trace := trace + [StopScan];
      isScanning := false;
    }

    /** `connect(mac, readLogsFrom, listener)`: for a device in the list, a new
        connection to its address with the listener set is appended, even when one
        for that address exists. The answer is whether the device is in the list. */
    method Connect(mac: string, listener: nat) returns (r: bool)
      modifies this
      ensures r <==> exists j :: 0 <= j < |old(bluetoothDevices)| && old(bluetoothDevices)[j].address == mac
      ensures !r ==> State() == old(State())
      ensures r ==> (|tagConnections| == |old(tagConnections)| + 1
        && State() == old(State()).(tagConnections := old(tagConnections) + [tagConnections[|tagConnections| - 1]]))
      ensures r ==> var c := tagConnections[|tagConnections| - 1];
        fresh(c) && c.address == mac && c.State() == FRESH_SESSION.(listener := Some(listener))
    {
      var idx := IndexOfAddress(bluetoothDevices, mac);
      if idx == -1 {
        return false;
      }
      var gatt := new GattConnection(bluetoothDevices[idx].address);
      gatt.SetOnRuuviGattUpdate(listener);
      tagConnections := tagConnections + [gatt];
      r := true;
    }

    /** `onScanResult`: a result that is absent or does not parse changes nothing.
        Otherwise a named result is upserted into the device list, and the tag,
        connectable exactly when named, goes to the listener. */
    method OnScanResult(result: Option<ScanResult>, parsed: Option<TagValues>)
      requires Valid()
      modifies this
      ensures Valid()
      ensures result.None? || parsed.None? ==> State() == old(State())
      ensures result.Some? && parsed.Some? ==>
        var res := result.value;
        State() == old(State()).(
          bluetoothDevices := if res.named then Upserted(old(bluetoothDevices), LeScan(res.address, res.rssi, res.scanData))
            else old(bluetoothDevices),
          trace := old(trace) + Found(tagListener, parsed.value.(connectable := Some(res.named))))
    {
      if result.None? || parsed.None? {
        return;
      }
      var res := result.value;
      var connectable := res.named;
      if connectable {
        var d := LeScan(res.address, res.rssi, res.scanData);
        var idx := IndexOfAddress(bluetoothDevices, d.address);
        if idx != -1 {
          bluetoothDevices := bluetoothDevices[idx := d];
        } else {
          bluetoothDevices := bluetoothDevices + [d];
        }
        UpsertKeepsAddressesUnique(old(bluetoothDevices), d);
      }
      trace := trace + Found(tagListener, parsed.value.(connectable := Some(connectable)));
    }
  }

  // ---- properties ----

  /** The upsert keeps addresses unique. */
  lemma {:induction false} UpsertKeepsAddressesUnique(devices: seq<LeScan>, d: LeScan)
    requires UniqueAddresses(devices)
    ensures UniqueAddresses(Upserted(devices, d))
  {
    var idx := IndexOfAddress(devices, d.address);
    var u := Upserted(devices, d);
    if idx != -1 {
      forall i, j | 0 <= i < j < |u|
        ensures u[i].address != u[j].address
      {
        if i == idx {
          assert u[i].address == devices[idx].address;
        } else if j == idx {
          assert u[j].address == devices[idx].address;
        }
      }
    }
  }

  /** After the upsert the device is in the list at the index of the old entry for
      its address, or at the end; every other entry is kept at its index. */
  lemma UpsertPlacesDevice(devices: seq<LeScan>, d: LeScan)
    ensures var u := Upserted(devices, d);
      && IndexOfAddress(u, d.address) != -1
      && u[IndexOfAddress(u, d.address)] == d
      && (IndexOfAddress(devices, d.address) == -1 ==> u == devices + [d])
      && (IndexOfAddress(devices, d.address) != -1 ==> |u| == |devices| && IndexOfAddress(u, d.address) == IndexOfAddress(devices, d.address))
      && forall j :: 0 <= j < |devices| && devices[j].address != d.address ==> u[j] == devices[j]
  {
    var u := Upserted(devices, d);
    var idx := IndexOfAddress(devices, d.address);
    if idx == -1 {
      assert u[|devices|] == d;
    } else {
      assert u[idx] == d;
      assert forall j :: 0 <= j < idx ==> u[j] == devices[j];
    }
  }

  /** Repeating a named result changes nothing more: the upsert is idempotent. */
  lemma UpsertIdempotent(devices: seq<LeScan>, d: LeScan)
    ensures Upserted(Upserted(devices, d), d) == Upserted(devices, d)
  {
    UpsertPlacesDevice(devices, d);
  }
}
