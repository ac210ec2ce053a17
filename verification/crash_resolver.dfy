/** `BluetoothCrashResolver` (BluetoothCrashResolver.java): watches the Bluetooth
    adapter for signs that the Bluetooth service crashed (too many distinct device
    addresses, or the adapter coming back on very soon after it went off) and then
    starts a recovery: a short discovery that makes the stack forget old addresses.
    It keeps counters of crashes and recovery attempts in an app-private text file,
    one value per line, followed by the addresses seen.

    The clock (`SystemClock.elapsedRealtime`) is a parameter, and so are the
    answers of the adapter; the state file is a field holding its lines. */
module CrashResolver {
  import opened Primitives
  import opened Strings

  /** `getCrashRiskDeviceCount()`: 1990 addresses crash Bluedroid, and about 400
      are assumed to be tracked already. */
  const CRASH_RISK_DEVICE_COUNT: int := 1990 - 400
  const SUSPICIOUSLY_SHORT_BLUETOOTH_OFF_INTERVAL_MILLIS: int := 600
  const MIN_TIME_BETWEEN_STATE_SAVES_MILLIS: int := 60000
  /** The first API level with Bluetooth LE. */
  const BLE_API_LEVEL: int := 18

  /** Requests the resolver makes of the platform, and its notifier callback. */
  datatype PlatformEffect =
    | DataUpdated
    | StartDiscovery
    | CancelDiscovery
    | RegisterReceiver
    | UnregisterReceiver

  /** What the platform answers during an operation: the API level, whether the
      adapter is discovering when recovery starts, and whether it still is after
      the five seconds `cancelDiscovery` waits. */
  datatype Platform = Platform(sdkInt: int, discovering: bool, discoveringAfterWait: bool)

  /** The `EXTRA_STATE` of an ACTION_STATE_CHANGED broadcast; `StateError` stands
      for ERROR and for any value the switch does not name. */
  datatype AdapterState = StateError | StateOff | StateTurningOff | StateOn | StateTurningOn

  /** A reading of `SystemClock.elapsedRealtime()`: milliseconds since boot, a
      Long that is never negative. */
  predicate IsClock(t: int)
  {
    0 <= t && IsInt64(t)
  }

  /** The difference of two clock readings is itself a Long, so the resolver's
      `long` subtractions never wrap. */
  lemma ClockDifferenceIsLong(a: int, b: int)
    requires IsClock(a) && IsClock(b)
    ensures IsInt64(a - b) && -TWO_63 < a - b < TWO_63
  {
  }

  /** A 32-bit `int` incremented with wrap-around. */
  function Inc32(n: int): (r: int)
    requires IsInt32(n)
    ensures IsInt32(r) && (r - (n + 1)) % TWO_32 == 0
    ensures n < TWO_31 - 1 ==> r == n + 1
  {
    if n == TWO_31 - 1 then -TWO_31 else n + 1
  }

  // ---- the state file ----

  /** The values the state file keeps. */
  datatype Persisted = Persisted(crashTime: int, crashCount: int, attempts: int, succeeded: bool, macs: set<string>)

  /** The first four lines `saveState` writes. */
  function Header(p: Persisted): seq<string>
  {
    [IntToDecimal(p.crashTime), IntToDecimal(p.crashCount), IntToDecimal(p.attempts), if p.succeeded then "1" else "0"]
  }

  predicate Distinct(order: seq<string>)
  {
    forall i, j :: 0 <= i < j < |order| ==> order[i] != order[j]
  }

  /** order lists every address of macs once, in some order (the iteration order
      of the `HashSet`). */
  ghost predicate Enumerates(order: seq<string>, macs: set<string>)
  {
    Distinct(order) && forall m :: m in order <==> m in macs
  }

  /** The lines of a state file written for p. */
  ghost predicate SavedAs(lines: seq<string>, p: Persisted)
  {
    |lines| >= 4 && lines[..4] == Header(p) && Enumerates(lines[4..], p.macs)
  }

  /** The addresses on the lines from index 4 on. */
  function MacLines(lines: seq<string>): set<string>
  {
    set i | 4 <= i < |lines| :: lines[i]
  }

  /** The outcome of reading the four header lines of the state file. */
  datatype HeaderRead = HeaderRead(values: Persisted, complete: bool)

  /** The header part of `loadState()` over the lines of the file, starting from
      the values p: the crash time (a Long), the crash count and the attempt count
      (Ints), the success flag ("1" for true, anything else false). A line that
      does not parse as a number stops the reading with the values read before it
      kept; a file that ends early keeps what it had. complete says whether the
      reading goes on to the addresses. */
  function LoadedHeader(p: Persisted, lines: seq<string>): HeaderRead
  {
    if |lines| == 0 then HeaderRead(p, false)
    else match ParseLong(lines[0])
      case None => HeaderRead(p, false)
      case Some(t) =>
        var p1 := p.(crashTime := t);
        if |lines| == 1 then HeaderRead(p1, false)
        else match ParseInt(lines[1])
          case None => HeaderRead(p1, false)
          case Some(c) =>
            var p2 := p1.(crashCount := c);
            if |lines| == 2 then HeaderRead(p2, false)
            else match ParseInt(lines[2])
              case None => HeaderRead(p2, false)
              case Some(a) =>
                var p3 := p2.(attempts := a);
                if |lines| == 3 then HeaderRead(p3, false)
                else HeaderRead(p3.(succeeded := lines[3] == "1"), true)
  }

  /** `loadState()` over the lines of the file, starting from the values p: the
      header, then, when the header was read whole, one address per line added
      to the set. */
  function Loaded(p: Persisted, lines: seq<string>): Persisted
  {
    var h := LoadedHeader(p, lines);
    if h.complete then h.values.(macs := h.values.macs + MacLines(lines)) else h.values
  }

  /** Every field of a resolver, as a value. */
  datatype ResolverState = ResolverState(
    recoveryInProgress: bool,
    discoveryStartConfirmed: bool,
    lastBluetoothOffTime: int,
    lastBluetoothTurningOnTime: int,
    lastBluetoothCrashDetectionTime: int,
    detectedCrashCount: int,
    recoveryAttemptCount: int,
    lastRecoverySucceeded: bool,
    lastStateSaveTime: int,
    updateNotifier: Option<nat>,
    distinctBluetoothAddresses: set<string>,
    stateFile: Option<seq<string>>,
    trace: seq<PlatformEffect>)

  function PersistedOf(s: ResolverState): Persisted
  {
    Persisted(s.lastBluetoothCrashDetectionTime, s.detectedCrashCount, s.recoveryAttemptCount,
      s.lastRecoverySucceeded, s.distinctBluetoothAddresses)
  }

  function WithPersisted(s: ResolverState, p: Persisted): ResolverState
  {
    s.(lastBluetoothCrashDetectionTime := p.crashTime, detectedCrashCount := p.crashCount,
       recoveryAttemptCount := p.attempts, lastRecoverySucceeded := p.succeeded, distinctBluetoothAddresses := p.macs)
  }

  /** Times are Longs and counters Ints; the times the resolver takes from the
      clock itself are clock readings. */
  predicate ResolverValid(s: ResolverState)
  {
    && IsClock(s.lastBluetoothOffTime)
    && IsClock(s.lastBluetoothTurningOnTime)
    && IsInt64(s.lastBluetoothCrashDetectionTime)
    && IsClock(s.lastStateSaveTime)
    && IsInt32(s.detectedCrashCount)
    && IsInt32(s.recoveryAttemptCount)
  }

  /** n is s after `saveState()` at time now: the save time is now and the file
      holds the persisted values of n. */
  ghost predicate SavedFrom(n: ResolverState, s: ResolverState, now: int)
  {
    && n.(stateFile := None) == s.(lastStateSaveTime := now, stateFile := None)
    && n.stateFile.Some? && SavedAs(n.stateFile.value, PersistedOf(n))
  }

  /** n is s after `processStateChange()` at time now: the notifier hears of the
      change, and the state is saved when the last save is more than a minute
      old. */
  ghost predicate Processed(n: ResolverState, s: ResolverState, now: int)
  {
    var t := s.(trace := s.trace + (if s.updateNotifier.Some? then [DataUpdated] else []));
    if now - s.lastStateSaveTime > MIN_TIME_BETWEEN_STATE_SAVES_MILLIS then SavedFrom(n, t, now) else n == t
  }

  /** `startRecovery()`: every attempt is counted; unless the adapter is already
      discovering, a recovery is in progress, a discovery is started and, after
      the wait, cancelled if it still runs. */
  function RecoveryStep(s: ResolverState, platform: Platform): ResolverState
    requires IsInt32(s.recoveryAttemptCount)
  {
    var counted := s.(recoveryAttemptCount := Inc32(s.recoveryAttemptCount));
    if platform.discovering then counted
    else counted.(recoveryInProgress := true, discoveryStartConfirmed := false,
      trace := s.trace + [StartDiscovery] + (if platform.discoveringAfterWait then [CancelDiscovery] else []))
  }

  /** The part of `crashDetected()` before its state change is processed: the time
      and count of the crash, and a recovery unless one is in progress. */
  function CrashStep(s: ResolverState, now: int, platform: Platform): ResolverState
    requires IsInt32(s.detectedCrashCount) && IsInt32(s.recoveryAttemptCount)
  {
    var c := s.(lastBluetoothCrashDetectionTime := now, detectedCrashCount := Inc32(s.detectedCrashCount));
    if c.recoveryInProgress then c else RecoveryStep(c, platform)
  }

  /** The scan that `notifyScannedDevice` reports puts the resolver at risk: more
      than 1590 distinct addresses with no recovery running. */
  predicate RecoveryDue(s: ResolverState)
  {
    |s.distinctBluetoothAddresses| > CRASH_RISK_DEVICE_COUNT && !s.recoveryInProgress
  }

  const INITIAL: ResolverState :=
    ResolverState(false, false, 0, 0, 0, 0, 0, false, 0, None, {}, None, [])

  class BluetoothCrashResolver {
    var recoveryInProgress: bool
    var discoveryStartConfirmed: bool
    var lastBluetoothOffTime: int
    var lastBluetoothTurningOnTime: int
    var lastBluetoothCrashDetectionTime: int
    var detectedCrashCount: int
    var recoveryAttemptCount: int
    var lastRecoverySucceeded: bool
    var lastStateSaveTime: int
    var updateNotifier: Option<nat>
    var distinctBluetoothAddresses: set<string>
    /** The lines of `BluetoothCrashResolverState.txt`; None when there is no file. */
    var stateFile: Option<seq<string>>
    var trace: seq<PlatformEffect>

    function State(): ResolverState
      reads this
    {
      ResolverState(recoveryInProgress, discoveryStartConfirmed, lastBluetoothOffTime, lastBluetoothTurningOnTime,
        lastBluetoothCrashDetectionTime, detectedCrashCount, recoveryAttemptCount, lastRecoverySucceeded,
        lastStateSaveTime, updateNotifier, distinctBluetoothAddresses, stateFile, trace)
    }

    predicate Valid()
      reads this
    {
      && IsClock(lastBluetoothOffTime)
      && IsClock(lastBluetoothTurningOnTime)
      && IsInt64(lastBluetoothCrashDetectionTime)
      && IsClock(lastStateSaveTime)
      && IsInt32(detectedCrashCount)
      && IsInt32(recoveryAttemptCount)
    }

    /** The constructor loads the state file the app left. */
    constructor (stateFile: Option<seq<string>>)
      ensures Valid()
      ensures State() == WithPersisted(INITIAL.(stateFile := stateFile),
        if stateFile.Some? then Loaded(PersistedOf(INITIAL), stateFile.value) else PersistedOf(INITIAL))
    {
      recoveryInProgress, discoveryStartConfirmed := false, false;
      lastBluetoothOffTime, lastBluetoothTurningOnTime, lastBluetoothCrashDetectionTime := 0, 0, 0;
      detectedCrashCount, recoveryAttemptCount, lastRecoverySucceeded := 0, 0, false;
      lastStateSaveTime, updateNotifier, distinctBluetoothAddresses := 0, None, {};
      this.stateFile, trace := stateFile, [];
      new;
      LoadState();
    }

    /** `start()`: the receiver is registered for adapter broadcasts. */
    method Start()
      modifies this
      ensures State() == old(State()).(trace := old(trace) + [RegisterReceiver])
    {
      trace := trace + [RegisterReceiver];
    }

    /** `stop()`: the receiver is unregistered and the state saved. */
    method Stop(now: int)
      requires Valid() && IsClock(now)
      modifies this
      ensures Valid()
      ensures SavedFrom(State(), old(State()).(trace := old(trace) + [UnregisterReceiver]), now)
    {
      trace := trace + [UnregisterReceiver];
      SaveState(now);
    }

    method SetUpdateNotifier(notifier: nat)
      modifies this
      ensures State() == old(State()).(updateNotifier := Some(notifier))
    {
      updateNotifier := Some(notifier);
    }

    /** `notifyScannedDevice`: the address joins the set; above the risk count and
        with no recovery running, a recovery starts and the change is processed. */
    method NotifyScannedDevice(address: string, now: int, platform: Platform)
      requires Valid() && IsClock(now)
      modifies this
      ensures Valid()
      ensures var a := old(State()).(distinctBluetoothAddresses := old(distinctBluetoothAddresses) + {address});
        if RecoveryDue(a) then Processed(State(), RecoveryStep(a, platform), now) else State() == a
    {
      distinctBluetoothAddresses := distinctBluetoothAddresses + {address};
      if |distinctBluetoothAddresses| > CRASH_RISK_DEVICE_COUNT && !recoveryInProgress {
        StartRecovery(platform);
        ProcessStateChange(now);
      }
    }

    /** `crashDetected()`: ignored below API 18; otherwise the crash is recorded, a
        recovery starts unless one is running, and the change is processed. */
    method CrashDetected(now: int, platform: Platform)
      requires Valid() && IsClock(now)
      modifies this
      ensures Valid()
      ensures if platform.sdkInt < BLE_API_LEVEL then State() == old(State())
        else Processed(State(), CrashStep(old(State()), now, platform), now)
    {
      if platform.sdkInt < BLE_API_LEVEL {
        return;
      }
      lastBluetoothCrashDetectionTime := now;
      detectedCrashCount := Inc32(detectedCrashCount);
      if !recoveryInProgress {
        StartRecovery(platform);
      }
      ProcessStateChange(now);
    }

    /** `forceFlush()`: a recovery, then the change processed. */
    method ForceFlush(now: int, platform: Platform)
      requires Valid() && IsClock(now)
      modifies this
      ensures Valid()
      ensures Processed(State(), RecoveryStep(old(State()), platform), now)
    {
      StartRecovery(platform);
      ProcessStateChange(now);
    }

    method ProcessStateChange(now: int)
      requires Valid() && IsClock(now)
      modifies this
      ensures Valid()
      ensures Processed(State(), old(State()), now)
    {
      if updateNotifier.Some? {
        trace := trace + [DataUpdated];
      }
      if now - lastStateSaveTime > MIN_TIME_BETWEEN_STATE_SAVES_MILLIS {
        SaveState(now);
      }
    }

    method StartRecovery(platform: Platform)
      requires Valid()
      modifies this
      ensures Valid()
      ensures State() == RecoveryStep(old(State()), platform)
    {
      recoveryAttemptCount := Inc32(recoveryAttemptCount);
      if !platform.discovering {
        recoveryInProgress := true;
        discoveryStartConfirmed := false;
        trace := trace + [StartDiscovery];
        if platform.discoveringAfterWait {
          trace := trace + [CancelDiscovery];
        }
      }
    }

    /** `finishRecovery()`: the address set is cleared and the recovery is over. */
    method FinishRecovery()
      modifies this
      ensures State() == old(State()).(distinctBluetoothAddresses := {}, recoveryInProgress := false)
    {
      distinctBluetoothAddresses := {};
      recoveryInProgress := false;
    }

    /** The receiver on ACTION_DISCOVERY_FINISHED: the end of a recovery, and
        nothing for a discovery someone else started. */
    method OnDiscoveryFinished()
      modifies this
      ensures State() == if old(recoveryInProgress)
        then old(State()).(distinctBluetoothAddresses := {}, recoveryInProgress := false) else old(State())
    {
      if recoveryInProgress {
        FinishRecovery();
      }
    }

    /** The receiver on ACTION_DISCOVERY_STARTED: confirms a recovery's discovery. */
    method OnDiscoveryStarted()
      modifies this
      ensures State() == if old(recoveryInProgress) then old(State()).(discoveryStartConfirmed := true) else old(State())
    {
      if recoveryInProgress {
        discoveryStartConfirmed := true;
      }
    }

    /** The receiver on ACTION_STATE_CHANGED: OFF and TURNING_ON record the time;
        ON is a crash when the adapter began turning on less than 600 ms after it
        went off. */
    method OnStateChanged(state: AdapterState, now: int, platform: Platform)
      requires Valid() && IsClock(now)
      modifies this
      ensures Valid()
      ensures var s := old(State());
        match state
        case StateOff => State() == s.(lastBluetoothOffTime := now)
        case StateTurningOn => State() == s.(lastBluetoothTurningOnTime := now)
        case StateOn =>
          if s.lastBluetoothTurningOnTime - s.lastBluetoothOffTime < SUSPICIOUSLY_SHORT_BLUETOOTH_OFF_INTERVAL_MILLIS
             && platform.sdkInt >= BLE_API_LEVEL
          then Processed(State(), CrashStep(s, now, platform), now)
          else State() == s
        case _ => State() == s
    {
      match state {
        case StateOff =>
          lastBluetoothOffTime := now;
        case StateTurningOn =>
          lastBluetoothTurningOnTime := now;
        case StateOn =>
          if lastBluetoothTurningOnTime - lastBluetoothOffTime < SUSPICIOUSLY_SHORT_BLUETOOTH_OFF_INTERVAL_MILLIS {
            CrashDetected(now, platform);
          }
        case StateError =>
        case StateTurningOff =>
      }
    }

    /** `saveState()`: the four header lines, then the addresses in the set's
        iteration order. */
    method SaveState(now: int)
      requires Valid() && IsClock(now)
      modifies this
      ensures Valid()
      ensures SavedFrom(State(), old(State()), now)
    {
      lastStateSaveTime := now;
      var lines := Header(PersistedOf(State()));
      var rest := distinctBluetoothAddresses;
      while rest != {}
        invariant rest <= distinctBluetoothAddresses
        invariant |lines| >= 4 && lines[..4] == Header(PersistedOf(State()))
        invariant Distinct(lines[4..])
        invariant forall m :: m in lines[4..] <==> m in distinctBluetoothAddresses && m !in rest
        decreases |rest|
      {
        var mac :| mac in rest;
        assert (lines + [mac])[4..] == lines[4..] + [mac];
        lines := lines + [mac];
        rest := rest - {mac};
      }
      stateFile := Some(lines);
    }

    /** `loadState()`: the values of the file, read over the current ones. */
    method LoadState()
      requires Valid()
      modifies this
      ensures Valid()
      ensures State() == if old(stateFile).None? then old(State())
        else WithPersisted(old(State()), Loaded(PersistedOf(old(State())), old(stateFile).value))
    {
      if stateFile.None? {
        return;
      }
      var lines := stateFile.value;
      var complete := LoadHeader(lines);
      if !complete {
        return;
      }
      ghost var before := State();
      var i := 4;
      while i < |lines|
        invariant 4 <= i <= |lines|
        invariant State() == before.(distinctBluetoothAddresses := before.distinctBluetoothAddresses + set j | 4 <= j < i :: lines[j])
      {
        distinctBluetoothAddresses := distinctBluetoothAddresses + {lines[i]};
        i := i + 1;
      }
    }

    /** The four header lines of `loadState()`. */
    method LoadHeader(lines: seq<string>) returns (complete: bool)
      requires Valid()
      modifies this
      ensures Valid()
      ensures var h := LoadedHeader(PersistedOf(old(State())), lines);
        State() == WithPersisted(old(State()), h.values) && complete == h.complete && (complete ==> |lines| >= 4)
    {
      complete := false;
      if |lines| == 0 {
        return;
      }
      var t := ParseLong(lines[0]);
      if t.None? {
        return;
      }
      lastBluetoothCrashDetectionTime := t.value;
      if |lines| == 1 {
        return;
      }
      var c := ParseInt(lines[1]);
      if c.None? {
        return;
      }
      detectedCrashCount := c.value;
      if |lines| == 2 {
        return;
      }
      var a := ParseInt(lines[2]);
      if a.None? {
        return;
      }
      recoveryAttemptCount := a.value;
      if |lines| == 3 {
        return;
      }
      lastRecoverySucceeded := lines[3] == "1";
      complete := true;
    }
  }

  // ---- properties ----

  /** A file written for values within the Java ranges reads back as those
      values, with its addresses added to the ones already known. */
  lemma SaveLoadRoundTrip(lines: seq<string>, p: Persisted, q: Persisted)
    requires SavedAs(lines, p)
    requires IsInt64(p.crashTime) && IsInt32(p.crashCount) && IsInt32(p.attempts)
    ensures Loaded(q, lines) == p.(macs := q.macs + p.macs)
  {
    HeaderRoundTrip(lines, p, q);
    MacLinesOfSaved(lines, p);
  }

  lemma HeaderRoundTrip(lines: seq<string>, p: Persisted, q: Persisted)
    requires |lines| >= 4 && lines[..4] == Header(p)
    requires IsInt64(p.crashTime) && IsInt32(p.crashCount) && IsInt32(p.attempts)
    ensures LoadedHeader(q, lines) == HeaderRead(p.(macs := q.macs), true)
  {
    HeaderParses(lines, p);
  }

  lemma HeaderParses(lines: seq<string>, p: Persisted)
    requires |lines| >= 4 && lines[..4] == Header(p)
    requires IsInt64(p.crashTime) && IsInt32(p.crashCount) && IsInt32(p.attempts)
    ensures ParseLong(lines[0]) == Some(p.crashTime)
    ensures ParseInt(lines[1]) == Some(p.crashCount)
    ensures ParseInt(lines[2]) == Some(p.attempts)
    ensures lines[3] == "1" <==> p.succeeded
  {
    HeaderLines(lines, p);
    ParseIntegerRoundTrip(p.crashTime, -TWO_63, TWO_63 - 1);
    ParseIntegerRoundTrip(p.crashCount, -TWO_31, TWO_31 - 1);
    ParseIntegerRoundTrip(p.attempts, -TWO_31, TWO_31 - 1);
  }

  lemma HeaderLines(lines: seq<string>, p: Persisted)
    requires |lines| >= 4 && lines[..4] == Header(p)
    ensures lines[0] == IntToDecimal(p.crashTime) && lines[1] == IntToDecimal(p.crashCount)
    ensures lines[2] == IntToDecimal(p.attempts)
    ensures lines[3] == "1" <==> p.succeeded
  {
    assert lines[0] == Header(p)[0] && lines[1] == Header(p)[1];
    assert lines[2] == Header(p)[2] && lines[3] == Header(p)[3];
    assert "0" != "1";
  }

  lemma MacLinesOfSaved(lines: seq<string>, p: Persisted)
    requires SavedAs(lines, p)
    ensures MacLines(lines) == p.macs
  {
    forall m
      ensures m in MacLines(lines) <==> m in p.macs
    {
      if m in p.macs {
        var k :| 0 <= k < |lines[4..]| && lines[4..][k] == m;
        assert lines[k + 4] == m;
      }
    }
  }

  /** What a resolver saved is what a new resolver over that file starts with. */
  lemma SavedStateRestores(n: ResolverState)
    requires ResolverValid(n) && n.stateFile.Some? && SavedAs(n.stateFile.value, PersistedOf(n))
    ensures Loaded(PersistedOf(INITIAL), n.stateFile.value) == PersistedOf(n)
  {
    SaveLoadRoundTrip(n.stateFile.value, PersistedOf(n), PersistedOf(INITIAL));
  }

  /** A crash count that does not parse stops the reading: the crash time read
      before it is kept and nothing after it is read. */
  lemma LoadStopsAtBadNumber(p: Persisted, lines: seq<string>)
    requires |lines| >= 2 && ParseLong(lines[0]).Some? && ParseInt(lines[1]).None?
    ensures Loaded(p, lines) == p.(crashTime := ParseLong(lines[0]).value)
  {
  }

  /** Loading sets the success flag only from a fourth line "1", and changes
      nothing without a valid crash time. */
  lemma LoadedFlag(p: Persisted, lines: seq<string>)
    ensures Loaded(p, lines).succeeded != p.succeeded ==> |lines| >= 4 && (Loaded(p, lines).succeeded <==> lines[3] == "1")
    ensures Loaded(p, lines).succeeded && !p.succeeded ==> lines[3] == "1"
    ensures (|lines| == 0 || ParseLong(lines[0]).None?) ==> Loaded(p, lines) == p
  {
  }

  /** A scan starts a recovery only when at least 1590 other addresses were seen
      before it; reporting an address again never grows the set. */
  lemma RecoveryNeedsManyAddresses(s: ResolverState, address: string)
    requires RecoveryDue(s.(distinctBluetoothAddresses := s.distinctBluetoothAddresses + {address}))
    ensures |s.distinctBluetoothAddresses| >= CRASH_RISK_DEVICE_COUNT
    ensures address in s.distinctBluetoothAddresses ==> RecoveryDue(s)
  {
    var a := s.distinctBluetoothAddresses;
    if address in a {
      assert a + {address} == a;
    } else {
      assert |a + {address}| == |a| + 1;
    }
  }

  /** Every recovery attempt is counted; a recovery is in progress afterwards
      exactly when one was, or the adapter was not discovering. The success flag
      is never touched. */
  lemma RecoveryStepCounts(s: ResolverState, platform: Platform)
    requires IsInt32(s.recoveryAttemptCount) && s.recoveryAttemptCount < TWO_31 - 1
    ensures var n := RecoveryStep(s, platform);
      && n.recoveryAttemptCount == s.recoveryAttemptCount + 1
      && (n.recoveryInProgress <==> s.recoveryInProgress || !platform.discovering)
      && (StartDiscovery in n.trace[|s.trace|..] <==> !platform.discovering)
      && n.lastRecoverySucceeded == s.lastRecoverySucceeded
      && n.distinctBluetoothAddresses == s.distinctBluetoothAddresses
  {
    var n := RecoveryStep(s, platform);
    if !platform.discovering {
      assert n.trace[|s.trace|..][0] == StartDiscovery;
    } else {
      assert n.trace[|s.trace|..] == [];
    }
  }

  /** A crash is counted every time, but starts a recovery only when none is in
      progress; a recovery running already is left as it is. */
  lemma CrashStepCounts(s: ResolverState, now: int, platform: Platform)
    requires IsInt32(s.detectedCrashCount) && IsInt32(s.recoveryAttemptCount)
    requires s.detectedCrashCount < TWO_31 - 1
    ensures var n := CrashStep(s, now, platform);
      && n.detectedCrashCount == s.detectedCrashCount + 1
      && n.lastBluetoothCrashDetectionTime == now
      && (s.recoveryInProgress ==> n.recoveryAttemptCount == s.recoveryAttemptCount && n.trace == s.trace)
      && (!s.recoveryInProgress ==> n.recoveryAttemptCount == Inc32(s.recoveryAttemptCount))
  {
  }
}
