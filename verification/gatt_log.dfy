/** What the two GATT sessions (gatt/NordicGattManager.kt and GattConnection.kt)
    share: the log readings they accumulate, the frames a tag streams over the
    Nordic UART service, the read command they send, and the trace of listener
    callbacks and GATT requests by which the model records what a session did. */
module GattLog {
  import opened Primitives
  import opened ByteArrayExt
  import opened LongExt
  import opened IntExt

  /** `LogReading`: the tag address, the time in milliseconds (a `Date`), and the
      three optional measurements. */
  datatype LogReading = LogReading(
    id: string,
    date: int,
    temperature: Option<real>,
    humidity: Option<real>,
    pressure: Option<real>)

  /** The first byte of a heartbeat frame. */
  const HEARTBEAT: Byte := 5
  /** The type codes of data frames: "3A3010", "3A3110", "3A3210" as bytes. */
  const TEMPERATURE_TYPE: seq<Byte> := [0x3A, 0x30, 0x10]
  const HUMIDITY_TYPE: seq<Byte> := [0x3A, 0x31, 0x10]
  const PRESSURE_TYPE: seq<Byte> := [0x3A, 0x32, 0x10]
  /** "FFFFFFFF" as bytes: the humidity or pressure value the tag sends when it has
      no reading. */
  const NULL_VALUE: seq<Byte> := [0xFF, 0xFF, 0xFF, 0xFF]

  // ---- what a session emits ----

  /** The `IRuuviGattListener` callbacks. */
  datatype Event =
    | Connected(connected: bool)
    | DeviceInfo(model: string, firmware: string, canReadLogs: bool)
    | Heartbeat(raw: string)
    | DataReady(logs: seq<LogReading>)
    | SyncProgress(points: int)

  /** The device-information characteristics a session reads. */
  datatype InfoCharacteristic = Manufacturer | Model | Firmware

  /** One step of a session's outward behaviour: a listener callback, or a request
      to the Bluetooth stack. */
  datatype Effect =
    | Notified(event: Event)
    | ConnectRequest
    | DisconnectRequest
    | CloseRequest
    | DiscoverServices
    | ReadRequest(characteristic: InfoCharacteristic)
    | WriteNotificationDescriptor
    | EnableNotifications
    | WriteRx(frame: seq<Byte>)

  /** `listener?.callback(...)`: nothing happens without a listener. */
  function Tell(listener: Option<nat>, e: Event): (r: seq<Effect>)
    ensures |r| <= 1 && (r != [] <==> listener.Some?)
    ensures r != [] ==> r[0] == Notified(e)
  {
    if listener.Some? then [Notified(e)] else []
  }

  // ---- frames ----

  predicate IsHeartbeat(data: seq<Byte>)
    requires |data| >= 1
  {
    data[0] == HEARTBEAT
  }

  /** `data.toHexString().endsWith("ffffffffffffffff")`, stated on the bytes. */
  predicate IsEndMarker(data: seq<Byte>)
  {
    LastEightFF(data)
  }

  lemma EndMarkerOnText(data: seq<Byte>)
    ensures IsEndMarker(data) <==> EndsWith(ToHexString(data), END_MARKER_HEX)
  {
    EndMarkerIffLastEightFF(data);
  }

  /** The time of a data frame: bytes 3..6 as an unsigned number of seconds, in
      milliseconds. */
  function FrameTime(data: seq<Byte>): (t: int)
    requires |data| >= 11
    ensures t == BeValue(data[3..7]) * 1000
  {
    LongValue(data[3..7]) * 1000
  }

  /** A reading with one frame's value stored: temperature is the signed value / 100,
      humidity the unsigned value / 100 and pressure the unsigned value; with
      nullSentinel, an all-ones humidity or pressure value stores null. Other type
      codes store nothing. */
  function WithValue(r: LogReading, frameType: seq<Byte>, value: seq<Byte>, nullSentinel: bool): LogReading
    requires |value| == 4
  {
    if frameType == TEMPERATURE_TYPE then
      r.(temperature := Some(IntValue(value) as real / 100.0))
    else if frameType == HUMIDITY_TYPE then
      r.(humidity := if nullSentinel && value == NULL_VALUE then None else Some(LongValue(value) as real / 100.0))
    else if frameType == PRESSURE_TYPE then
      r.(pressure := if nullSentinel && value == NULL_VALUE then None else Some(LongValue(value) as real))
    else r
  }

  /** `logs.indexOfFirst { it.date.time == time }`. */
  function FindByDate(logs: seq<LogReading>, time: int): (r: int)
    ensures -1 <= r < |logs|
    ensures r == -1 <==> forall j :: 0 <= j < |logs| ==> logs[j].date != time
    ensures r >= 0 ==> logs[r].date == time && forall j :: 0 <= j < r ==> logs[j].date != time
  {
    if logs == [] then -1
    else if logs[0].date == time then 0
    else
      var k := FindByDate(logs[1..], time);
      if k == -1 then -1 else k + 1
  }

  /** The accumulated readings of a session and the count of distinct time stamps
      it has seen. */
  datatype Batch = Batch(logs: seq<LogReading>, syncedPoints: int)

  /** A data frame applied to a batch: the reading for the frame's time is found or,
      when there is none, appended (counting one more synced point), and the frame's
      value is stored in it. `created` tells whether a reading was appended. */
  datatype Accumulated = Accumulated(batch: Batch, created: bool)

  function Accumulate(b: Batch, address: string, data: seq<Byte>, nullSentinel: bool): Accumulated
    requires |data| >= 11
  {
    var time := FrameTime(data);
    var idx := FindByDate(b.logs, time);
    var created := idx == -1;
    var logs := if created then b.logs + [LogReading(address, time, None, None, None)] else b.logs;
    var i := if created then |b.logs| else idx;
    Accumulated(
      Batch(logs[i := WithValue(logs[i], data[..3], data[7..11], nullSentinel)],
        if created then b.syncedPoints + 1 else b.syncedPoints),
      created)
  }

  /** No two readings share a time stamp. */
  predicate UniqueDates(logs: seq<LogReading>)
  {
    forall i, j :: 0 <= i < j < |logs| ==> logs[i].date != logs[j].date
  }

  /** The shape of an accumulation step: a reading is appended exactly when none has
      the frame's time, the synced count grows with the list, afterwards a reading
      has that time, and readings for other times are untouched. */
  lemma AccumulateShape(b: Batch, address: string, data: seq<Byte>, nullSentinel: bool)
    requires |data| >= 11
    ensures var a := Accumulate(b, address, data, nullSentinel);
      && (a.created <==> forall j :: 0 <= j < |b.logs| ==> b.logs[j].date != FrameTime(data))
      && |a.batch.logs| == |b.logs| + (if a.created then 1 else 0)
      && a.batch.syncedPoints - b.syncedPoints == |a.batch.logs| - |b.logs|
      && (exists j :: 0 <= j < |a.batch.logs| && a.batch.logs[j].date == FrameTime(data))
      && (forall j :: 0 <= j < |b.logs| && b.logs[j].date != FrameTime(data) ==> a.batch.logs[j] == b.logs[j])
  {
    var a := Accumulate(b, address, data, nullSentinel);
    var idx := FindByDate(b.logs, FrameTime(data));
    var i := if idx == -1 then |b.logs| else idx;
    assert a.batch.logs[i].date == FrameTime(data);
  }

  /** Accumulation keeps time stamps unique: the lookup-or-create rule never makes
      a second reading for a time. */
  lemma AccumulateKeepsDatesUnique(b: Batch, address: string, data: seq<Byte>, nullSentinel: bool)
    requires |data| >= 11 && UniqueDates(b.logs)
    ensures UniqueDates(Accumulate(b, address, data, nullSentinel).batch.logs)
  {
    var a := Accumulate(b, address, data, nullSentinel);
    var logs := a.batch.logs;
    forall i, j | 0 <= i < j < |logs|
      ensures logs[i].date != logs[j].date
    {
      if j == |b.logs| {
        assert logs[j].date == FrameTime(data);
      }
    }
  }

  /** The reading for the frame's time after the step, and what it stores. */
  lemma AccumulateStores(b: Batch, address: string, data: seq<Byte>, nullSentinel: bool)
    requires |data| >= 11
    ensures var a := Accumulate(b, address, data, nullSentinel);
      var k := FindByDate(a.batch.logs, FrameTime(data));
      && 0 <= k < |a.batch.logs|
      && a.batch.logs[k] == WithValue(
           if a.created then LogReading(address, FrameTime(data), None, None, None) else b.logs[k],
           data[..3], data[7..11], nullSentinel)
  {
    var a := Accumulate(b, address, data, nullSentinel);
    var time := FrameTime(data);
    var idx := FindByDate(b.logs, time);
    var k := FindByDate(a.batch.logs, time);
    if idx == -1 {
      assert a.batch.logs[|b.logs|].date == time;
      assert k == |b.logs|;
    } else {
      assert a.batch.logs[idx].date == time;
      assert k == idx;
    }
  }

  /** Frames of different types store into different fields, so the order of
      storing does not matter. */
  lemma WithValueCommutes(r: LogReading, t1: seq<Byte>, v1: seq<Byte>, t2: seq<Byte>, v2: seq<Byte>, nullSentinel: bool)
    requires |v1| == 4 && |v2| == 4 && t1 != t2
    ensures WithValue(WithValue(r, t1, v1, nullSentinel), t2, v2, nullSentinel)
         == WithValue(WithValue(r, t2, v2, nullSentinel), t1, v1, nullSentinel)
  {
  }

  /** The step on a batch that already has a reading at index i for the frame's
      time, and on one that has none. */
  lemma AccumulateFound(b: Batch, address: string, data: seq<Byte>, nullSentinel: bool, i: int)
    requires |data| >= 11 && UniqueDates(b.logs)
    requires 0 <= i < |b.logs| && b.logs[i].date == FrameTime(data)
    ensures Accumulate(b, address, data, nullSentinel).batch
         == Batch(b.logs[i := WithValue(b.logs[i], data[..3], data[7..11], nullSentinel)], b.syncedPoints)
  {
  }

  lemma AccumulateMissing(b: Batch, address: string, data: seq<Byte>, nullSentinel: bool)
    requires |data| >= 11
    requires forall j :: 0 <= j < |b.logs| ==> b.logs[j].date != FrameTime(data)
    ensures Accumulate(b, address, data, nullSentinel).batch
         == Batch(b.logs + [WithValue(LogReading(address, FrameTime(data), None, None, None),
                    data[..3], data[7..11], nullSentinel)], b.syncedPoints + 1)
  {
  }

  lemma CommutesOnNewTime(b: Batch, address: string, d1: seq<Byte>, d2: seq<Byte>, nullSentinel: bool)
    requires |d1| >= 11 && |d2| >= 11 && UniqueDates(b.logs)
    requires FrameTime(d1) == FrameTime(d2) && d1[..3] != d2[..3]
    requires forall j :: 0 <= j < |b.logs| ==> b.logs[j].date != FrameTime(d1)
    ensures Accumulate(Accumulate(b, address, d1, nullSentinel).batch, address, d2, nullSentinel).batch
         == Accumulate(Accumulate(b, address, d2, nullSentinel).batch, address, d1, nullSentinel).batch
  {
    var a1 := Accumulate(b, address, d1, nullSentinel).batch;
    var a2 := Accumulate(b, address, d2, nullSentinel).batch;
    var n := |b.logs|;
    AccumulateMissing(b, address, d1, nullSentinel);
    AccumulateMissing(b, address, d2, nullSentinel);
    AccumulateKeepsDatesUnique(b, address, d1, nullSentinel);
    AccumulateKeepsDatesUnique(b, address, d2, nullSentinel);
    AccumulateFound(a1, address, d2, nullSentinel, n);
    AccumulateFound(a2, address, d1, nullSentinel, n);
    WithValueCommutes(LogReading(address, FrameTime(d1), None, None, None),
      d1[..3], d1[7..11], d2[..3], d2[7..11], nullSentinel);
  }

  lemma CommutesOnKnownTime(b: Batch, address: string, d1: seq<Byte>, d2: seq<Byte>, nullSentinel: bool, i: int)
    requires |d1| >= 11 && |d2| >= 11 && UniqueDates(b.logs)
    requires FrameTime(d1) == FrameTime(d2) && d1[..3] != d2[..3]
    requires 0 <= i < |b.logs| && b.logs[i].date == FrameTime(d1)
    ensures Accumulate(Accumulate(b, address, d1, nullSentinel).batch, address, d2, nullSentinel).batch
         == Accumulate(Accumulate(b, address, d2, nullSentinel).batch, address, d1, nullSentinel).batch
  {
    var a1 := Accumulate(b, address, d1, nullSentinel).batch;
    var a2 := Accumulate(b, address, d2, nullSentinel).batch;
    AccumulateFound(b, address, d1, nullSentinel, i);
    AccumulateFound(b, address, d2, nullSentinel, i);
    AccumulateKeepsDatesUnique(b, address, d1, nullSentinel);
    AccumulateKeepsDatesUnique(b, address, d2, nullSentinel);
    AccumulateFound(a1, address, d2, nullSentinel, i);
    AccumulateFound(a2, address, d1, nullSentinel, i);
    WithValueCommutes(b.logs[i], d1[..3], d1[7..11], d2[..3], d2[7..11], nullSentinel);
  }

  /** Values of different types for the same time land in different fields, so
      their frames may arrive in either order: with unique dates, accumulating a
      temperature, a humidity and a pressure frame gives one reading whatever the
      interleaving. */
  lemma AccumulateCommutes(b: Batch, address: string, d1: seq<Byte>, d2: seq<Byte>, nullSentinel: bool)
    requires |d1| >= 11 && |d2| >= 11 && UniqueDates(b.logs)
    requires FrameTime(d1) == FrameTime(d2)
    requires d1[..3] != d2[..3]
    ensures Accumulate(Accumulate(b, address, d1, nullSentinel).batch, address, d2, nullSentinel).batch
         == Accumulate(Accumulate(b, address, d2, nullSentinel).batch, address, d1, nullSentinel).batch
  {
    var idx := FindByDate(b.logs, FrameTime(d1));
    if idx == -1 {
      CommutesOnNewTime(b, address, d1, d2, nullSentinel);
    } else {
      CommutesOnKnownTime(b, address, d1, d2, nullSentinel, idx);
    }
  }

  lemma FourByteValue(s: seq<Byte>)
    requires |s| == 4
    ensures BeValue(s) == s[0] as int * 0x100_0000 + s[1] as int * 0x1_0000 + s[2] as int * 0x100 + s[3] as int
  {
    var s3, s2, s1 := s[..3], s[..3][..2], s[..3][..2][..1];
    assert BeValue(s1) == s[0] by {
      assert s1[..0] == [];
    }
    assert BeValue(s2) == BeValue(s1) * 256 + s[1];
    assert BeValue(s3) == BeValue(s2) * 256 + s[2];
  }

  const TEMPERATURE_FRAME: seq<Byte> := [0x3A, 0x30, 0x10, 0, 0, 0, 100, 0, 0, 0x09, 0xC4]
  const HUMIDITY_FRAME: seq<Byte> := [0x3A, 0x31, 0x10, 0, 0, 0, 100, 0, 0, 0x15, 0x7C]
  const PRESSURE_FRAME: seq<Byte> := [0x3A, 0x32, 0x10, 0, 0, 0, 100, 0, 0x01, 0x8B, 0xCD]

  /** Three frames for the time stamp 100 s with the values 2500, 5500 and 101325
      assemble into one reading: 25.00 degrees, 55.00 % and 101325 Pa. */
  lemma FrameAssemblyExample(address: string)
    ensures Accumulate(Accumulate(Accumulate(Batch([], 0), address, TEMPERATURE_FRAME, true).batch,
              address, HUMIDITY_FRAME, true).batch, address, PRESSURE_FRAME, true).batch
         == Batch([LogReading(address, 100_000, Some(25.0), Some(55.0), Some(101325.0))], 1)
  {
    FourByteValue(TEMPERATURE_FRAME[3..7]);
    FourByteValue(TEMPERATURE_FRAME[7..11]);
    FourByteValue(HUMIDITY_FRAME[3..7]);
    FourByteValue(HUMIDITY_FRAME[7..11]);
    FourByteValue(PRESSURE_FRAME[3..7]);
    FourByteValue(PRESSURE_FRAME[7..11]);
    assert TEMPERATURE_FRAME[..3] == TEMPERATURE_TYPE;
    assert HUMIDITY_FRAME[..3] == HUMIDITY_TYPE;
    assert PRESSURE_FRAME[..3] == PRESSURE_TYPE;
    var r0 := LogReading(address, 100_000, None, None, None);
    var b1 := Batch([r0.(temperature := Some(25.0))], 1);
    AccumulateMissing(Batch([], 0), address, TEMPERATURE_FRAME, true);
    var b2 := Batch([r0.(temperature := Some(25.0), humidity := Some(55.0))], 1);
    AccumulateFound(b1, address, HUMIDITY_FRAME, true, 0);
    AccumulateFound(b2, address, PRESSURE_FRAME, true, 0);
  }

  // ---- the end of the stream ----

  /** `temperature == 0.0 && humidity == 0.0 && pressure == 0.0`: all three present
      and zero (a null compares unequal to 0.0). */
  predicate IsAllZero(r: LogReading)
  {
    r.temperature == Some(0.0) && r.humidity == Some(0.0) && r.pressure == Some(0.0)
  }

  /** `logs.removeAll { all three zero }`. */
  function RemoveAllZero(logs: seq<LogReading>): (r: seq<LogReading>)
    ensures |r| <= |logs|
    ensures forall x :: x in r <==> x in logs && !IsAllZero(x)
  {
    if logs == [] then []
    else if IsAllZero(logs[0]) then RemoveAllZero(logs[1..])
    else [logs[0]] + RemoveAllZero(logs[1..])
  }

  /** Removal works element by element, so the survivors keep their order. */
  lemma {:induction false} RemoveAllZeroAppend(a: seq<LogReading>, c: seq<LogReading>)
    ensures RemoveAllZero(a + c) == RemoveAllZero(a) + RemoveAllZero(c)
  {
    if a == [] {
      assert a + c == c;
    } else {
      assert (a + c)[0] == a[0];
      assert (a + c)[1..] == a[1..] + c;
      RemoveAllZeroAppend(a[1..], c);
    }
  }

  /** Removing twice removes nothing more, and a list with no all-zero reading is
      kept as it is. */
  lemma {:induction false} RemoveAllZeroKeepsClean(logs: seq<LogReading>)
    requires forall x :: x in logs ==> !IsAllZero(x)
    ensures RemoveAllZero(logs) == logs
  {
    if logs != [] {
      assert forall x :: x in logs[1..] ==> x in logs;
      RemoveAllZeroKeepsClean(logs[1..]);
      assert logs == [logs[0]] + logs[1..];
    }
  }

  lemma RemoveAllZeroIdempotent(logs: seq<LogReading>)
    ensures RemoveAllZero(RemoveAllZero(logs)) == RemoveAllZero(logs)
  {
    RemoveAllZeroKeepsClean(RemoveAllZero(logs));
  }

  lemma {:induction false} RemoveAllZeroKeepsDatesUnique(logs: seq<LogReading>)
    requires UniqueDates(logs)
    ensures UniqueDates(RemoveAllZero(logs))
  {
    if logs != [] {
      var rest := RemoveAllZero(logs[1..]);
      RemoveAllZeroKeepsDatesUnique(logs[1..]);
      if !IsAllZero(logs[0]) {
        var r := [logs[0]] + rest;
        forall i, j | 0 <= i < j < |r|
          ensures r[i].date != r[j].date
        {
          if i == 0 {
            assert r[j] in logs[1..];
          }
        }
      }
    }
  }

  /** A batch with one all-zero reading and one real reading keeps only the real
      one. */
  lemma RemoveAllZeroExample(address: string)
    ensures var zero := LogReading(address, 1000, Some(0.0), Some(0.0), Some(0.0));
      var good := LogReading(address, 2000, Some(21.5), Some(40.0), Some(101325.0));
      RemoveAllZero([zero, good]) == [good]
  {
  }

  // ---- the read command ----

  /** `millis / 1000` on a Java Long: the quotient truncated toward zero, so the
      remainder has the sign of the dividend. */
  function Seconds(millis: int): (s: int)
    ensures millis >= 0 ==> 0 <= s && 0 <= millis - s * 1000 < 1000
    ensures millis < 0 ==> s <= 0 && -1000 < millis - s * 1000 <= 0
  {
    if millis >= 0 then millis / 1000 else -((-millis) / 1000)
  }

  /** `readAllBytes + now.toBytes()[4..8] + then.toBytes()[4..8]`: the read-all
      command, the current time and the start of the requested history, both in
      seconds and cut to their low 32 bits; with no start time the tag sends
      everything (a start of 0). */
  function ReadCommand(nowMillis: int, from: Option<int>): (r: seq<Byte>)
    requires IsInt64(nowMillis) && (from.Some? ==> IsInt64(from.value))
    ensures |r| == 11
  {
    var now := Seconds(nowMillis);
    var since := if from.Some? then Seconds(from.value) else 0;
    IntToBytes(0x3A3A11)[1..4] + LongToBytes(now)[4..8] + LongToBytes(since)[4..8]
  }

  /** The command read back: the read-all code, then the two times in seconds
      modulo 2^32, each as a big-endian unsigned number. */
  lemma ReadCommandLayout(nowMillis: int, from: Option<int>)
    requires IsInt64(nowMillis) && (from.Some? ==> IsInt64(from.value))
    ensures var r := ReadCommand(nowMillis, from);
      && r[..3] == [0x3A, 0x3A, 0x11]
      && BeValue(r[3..7]) == Seconds(nowMillis) % TWO_32
      && BeValue(r[7..11]) == (if from.Some? then Seconds(from.value) else 0) % TWO_32
  {
    var now := Seconds(nowMillis);
    var since := if from.Some? then Seconds(from.value) else 0;
    ReadAllPrefix();
    LowFourBytes(now);
    LowFourBytes(since);
    var r := ReadCommand(nowMillis, from);
    assert r[3..7] == LongToBytes(now)[4..8];
    assert r[7..11] == LongToBytes(since)[4..8];
  }
}
