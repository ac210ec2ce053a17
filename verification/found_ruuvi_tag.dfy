/** The measurement record a decoder fills (`FoundRuuviTag`) and its range check
    `validateValues` (decoder/FoundRuuviTag.kt). Doubles are modelled as exact
    reals; a Kotlin null is `None`. */
module FoundRuuviTagValidation {
  import opened Primitives

  const TEMPERATURE_MINIMUM: real := -163.835
  const TEMPERATURE_MAXIMUM: real := 163.835
  const HUMIDITY_MINIMUM: real := 0.0
  const HUMIDITY_MAXIMUM: real := 163.8350
  const PRESSURE_MINIMUM: real := 50000.0
  const PRESSURE_MAXIMUM: real := 115534.0
  const ACCELERATION_MINIMUM: real := -32.767
  const ACCELERATION_MAXIMUM: real := 32.767
  const TX_POWER_MINIMUM: real := -40.0
  const TX_POWER_MAXIMUM: real := 20.0
  const VOLTAGE_MINIMUM: real := 1.600
  const VOLTAGE_MAXIMUM: real := 3.646
  const MOVEMENT_MINIMUM: int := 0
  const MOVEMENT_MAXIMUM: int := 254
  const MEASUREMENT_SEQUENCE_MINIMUM: int := 0
  const MEASUREMENT_SEQUENCE_MAXIMUM: int := 65534

  /** A snapshot of every field of a tag record. */
  datatype TagValues = TagValues(
    id: Option<string>,
    rssi: Option<int>,
    dataFormat: Option<int>,
    temperature: Option<real>,
    humidity: Option<real>,
    pressure: Option<real>,
    accelX: Option<real>,
    accelY: Option<real>,
    accelZ: Option<real>,
    txPower: Option<real>,
    voltage: Option<real>,
    movementCounter: Option<int>,
    measurementSequenceNumber: Option<int>,
    connectable: Option<bool>)

  /** `x?.let { if (it !in lo..hi) null }` for a Double field: the closed range
      keeps both bounds. */
  function KeepReal(x: Option<real>, lo: real, hi: real): (r: Option<real>)
    ensures r.Some? <==> x.Some? && lo <= x.value <= hi
    ensures r.Some? ==> r == x
  {
    if x.Some? && !(lo <= x.value <= hi) then None else x
  }

  /** The same for an Int field. */
  function KeepInt(x: Option<int>, lo: int, hi: int): (r: Option<int>)
    ensures r.Some? <==> x.Some? && lo <= x.value <= hi
    ensures r.Some? ==> r == x
  {
    if x.Some? && !(lo <= x.value <= hi) then None else x
  }

  /** The record `validateValues` leaves behind: each range-checked field on its
      own, the others as they were. */
  function Validated(v: TagValues): TagValues
  {
    v.(temperature := KeepReal(v.temperature, TEMPERATURE_MINIMUM, TEMPERATURE_MAXIMUM),
       humidity := KeepReal(v.humidity, HUMIDITY_MINIMUM, HUMIDITY_MAXIMUM),
       pressure := KeepReal(v.pressure, PRESSURE_MINIMUM, PRESSURE_MAXIMUM),
       accelX := KeepReal(v.accelX, ACCELERATION_MINIMUM, ACCELERATION_MAXIMUM),
       accelY := KeepReal(v.accelY, ACCELERATION_MINIMUM, ACCELERATION_MAXIMUM),
       accelZ := KeepReal(v.accelZ, ACCELERATION_MINIMUM, ACCELERATION_MAXIMUM),
       txPower := KeepReal(v.txPower, TX_POWER_MINIMUM, TX_POWER_MAXIMUM),
       voltage := KeepReal(v.voltage, VOLTAGE_MINIMUM, VOLTAGE_MAXIMUM),
       movementCounter := KeepInt(v.movementCounter, MOVEMENT_MINIMUM, MOVEMENT_MAXIMUM),
       measurementSequenceNumber := KeepInt(v.measurementSequenceNumber,
         MEASUREMENT_SEQUENCE_MINIMUM, MEASUREMENT_SEQUENCE_MAXIMUM))
  }

  predicate RealIn(x: Option<real>, lo: real, hi: real)
  {
    x.Some? ==> lo <= x.value <= hi
  }

  predicate IntIn(x: Option<int>, lo: int, hi: int)
  {
    x.Some? ==> lo <= x.value <= hi
  }

  /** Every range-checked field is null or inside its bounds. */
  predicate InRange(v: TagValues)
  {
    && RealIn(v.temperature, TEMPERATURE_MINIMUM, TEMPERATURE_MAXIMUM)
    && RealIn(v.humidity, HUMIDITY_MINIMUM, HUMIDITY_MAXIMUM)
    && RealIn(v.pressure, PRESSURE_MINIMUM, PRESSURE_MAXIMUM)
    && RealIn(v.accelX, ACCELERATION_MINIMUM, ACCELERATION_MAXIMUM)
    && RealIn(v.accelY, ACCELERATION_MINIMUM, ACCELERATION_MAXIMUM)
    && RealIn(v.accelZ, ACCELERATION_MINIMUM, ACCELERATION_MAXIMUM)
    && RealIn(v.txPower, TX_POWER_MINIMUM, TX_POWER_MAXIMUM)
    && RealIn(v.voltage, VOLTAGE_MINIMUM, VOLTAGE_MAXIMUM)
    && IntIn(v.movementCounter, MOVEMENT_MINIMUM, MOVEMENT_MAXIMUM)
    && IntIn(v.measurementSequenceNumber, MEASUREMENT_SEQUENCE_MINIMUM, MEASUREMENT_SEQUENCE_MAXIMUM)
  }

  /** After validation every checked field is null or in range, and the fields it
      does not check (id, rssi, dataFormat, connectable) are untouched. */
  lemma ValidatedInRange(v: TagValues)
    ensures InRange(Validated(v))
    ensures Validated(v).id == v.id && Validated(v).rssi == v.rssi
    ensures Validated(v).dataFormat == v.dataFormat && Validated(v).connectable == v.connectable
  {
  }

  /** A record already in range is left exactly as it is. */
  lemma ValidatedKeepsInRange(v: TagValues)
    requires InRange(v)
    ensures Validated(v) == v
  {
  }

  /** Validating twice is validating once. */
  lemma ValidatedIdempotent(v: TagValues)
    ensures Validated(Validated(v)) == Validated(v)
  {
    ValidatedInRange(v);
    ValidatedKeepsInRange(Validated(v));
  }

  /** Both bounds are inclusive: the extreme temperatures -163.835 and 163.835
      survive, just past them is cleared, and the integer fields run from 0 to 254
      and from 0 to 65534. */
  lemma BoundaryValues(v: TagValues)
    ensures Validated(v.(temperature := Some(-163.835))).temperature == Some(-163.835)
    ensures Validated(v.(temperature := Some(163.835))).temperature == Some(163.835)
    ensures Validated(v.(temperature := Some(-163.836))).temperature == None
    ensures Validated(v.(temperature := Some(163.836))).temperature == None
    ensures Validated(v.(humidity := Some(0.0))).humidity == Some(0.0)
    ensures Validated(v.(humidity := Some(-0.001))).humidity == None
    ensures Validated(v.(movementCounter := Some(0))).movementCounter == Some(0)
    ensures Validated(v.(movementCounter := Some(-1))).movementCounter == None
    ensures Validated(v.(measurementSequenceNumber := Some(0))).measurementSequenceNumber == Some(0)
    ensures Validated(v.(measurementSequenceNumber := Some(-1))).measurementSequenceNumber == None
    ensures Validated(v.(movementCounter := Some(254))).movementCounter == Some(254)
    ensures Validated(v.(movementCounter := Some(255))).movementCounter == None
    ensures Validated(v.(measurementSequenceNumber := Some(65534))).measurementSequenceNumber == Some(65534)
    ensures Validated(v.(measurementSequenceNumber := Some(65535))).measurementSequenceNumber == None
  {
  }

  /** `FoundRuuviTag`: a record of nullable measurement fields, filled by setters. */
  class FoundRuuviTag {
    var id: Option<string>
    var rssi: Option<int>
    var dataFormat: Option<int>
    var temperature: Option<real>
    var humidity: Option<real>
    var pressure: Option<real>
    var accelX: Option<real>
    var accelY: Option<real>
    var accelZ: Option<real>
    var txPower: Option<real>
    var voltage: Option<real>
    var movementCounter: Option<int>
    var measurementSequenceNumber: Option<int>
    var connectable: Option<bool>

    /** A fresh record: every field null. */
    constructor ()
      ensures Values() == TagValues(None, None, None, None, None, None, None, None, None, None, None, None, None, None)
    {
      id, rssi, dataFormat := None, None, None;
      temperature, humidity, pressure := None, None, None;
      accelX, accelY, accelZ := None, None, None;
      txPower, voltage := None, None;
      movementCounter, measurementSequenceNumber := None, None;
      connectable := None;
    }

    function Values(): TagValues
      reads this
    {
      TagValues(id, rssi, dataFormat, temperature, humidity, pressure, accelX, accelY, accelZ,
        txPower, voltage, movementCounter, measurementSequenceNumber, connectable)
    }

    // The property setters the decoders call: each changes its own field only.

    method SetDataFormat(x: Option<int>)
      modifies this
      ensures Values() == old(Values()).(dataFormat := x)
    {
      dataFormat := x;
    }

    method SetTemperature(x: Option<real>)
      modifies this
      ensures Values() == old(Values()).(temperature := x)
    {
      temperature := x;
    }

    method SetHumidity(x: Option<real>)
      modifies this
      ensures Values() == old(Values()).(humidity := x)
    {
      humidity := x;
    }

    method SetPressure(x: Option<real>)
      modifies this
      ensures Values() == old(Values()).(pressure := x)
    {
      pressure := x;
    }

    method SetAccelX(x: Option<real>)
      modifies this
      ensures Values() == old(Values()).(accelX := x)
    {
      accelX := x;
    }

    method SetAccelY(x: Option<real>)
      modifies this
      ensures Values() == old(Values()).(accelY := x)
    {
      accelY := x;
    }

    method SetAccelZ(x: Option<real>)
      modifies this
      ensures Values() == old(Values()).(accelZ := x)
    {
      accelZ := x;
    }

    method SetTxPower(x: Option<real>)
      modifies this
      ensures Values() == old(Values()).(txPower := x)
    {
      txPower := x;
    }

    method SetVoltage(x: Option<real>)
      modifies this
      ensures Values() == old(Values()).(voltage := x)
    {
      voltage := x;
    }

    method SetMovementCounter(x: Option<int>)
      modifies this
      ensures Values() == old(Values()).(movementCounter := x)
    {
      movementCounter := x;
    }

    method SetMeasurementSequenceNumber(x: Option<int>)
      modifies this
      ensures Values() == old(Values()).(measurementSequenceNumber := x)
    {
      measurementSequenceNumber := x;
    }
  }

  /** `validateValues`: nulls, in place, each field outside its closed range and
      returns the same object. */
  method ValidateValues(tag: FoundRuuviTag) returns (r: FoundRuuviTag)
    modifies tag
    ensures r == tag
    ensures tag.Values() == Validated(old(tag.Values()))
    ensures InRange(tag.Values())
  {
    // each `?.let` block: a null stays null, an out-of-range value becomes null
    tag.SetTemperature(KeepReal(tag.temperature, TEMPERATURE_MINIMUM, TEMPERATURE_MAXIMUM));
    tag.SetHumidity(KeepReal(tag.humidity, HUMIDITY_MINIMUM, HUMIDITY_MAXIMUM));
    tag.SetPressure(KeepReal(tag.pressure, PRESSURE_MINIMUM, PRESSURE_MAXIMUM));
    tag.SetAccelX(KeepReal(tag.accelX, ACCELERATION_MINIMUM, ACCELERATION_MAXIMUM));
    tag.SetAccelY(KeepReal(tag.accelY, ACCELERATION_MINIMUM, ACCELERATION_MAXIMUM));
    tag.SetAccelZ(KeepReal(tag.accelZ, ACCELERATION_MINIMUM, ACCELERATION_MAXIMUM));
    tag.SetTxPower(KeepReal(tag.txPower, TX_POWER_MINIMUM, TX_POWER_MAXIMUM));
    tag.SetVoltage(KeepReal(tag.voltage, VOLTAGE_MINIMUM, VOLTAGE_MAXIMUM));
    tag.SetMovementCounter(KeepInt(tag.movementCounter, MOVEMENT_MINIMUM, MOVEMENT_MAXIMUM));
    tag.SetMeasurementSequenceNumber(KeepInt(tag.measurementSequenceNumber, MEASUREMENT_SEQUENCE_MINIMUM, MEASUREMENT_SEQUENCE_MAXIMUM));
    ValidatedInRange(old(tag.Values()));
    return tag;
  }
}
