/** `DecodeFormatC5.decode` (decoder/DecodeFormatC5.java): the fixed-offset
    decoder for Ruuvi data format 0xC5, followed by rounding and range
    validation. Doubles are modelled as exact reals. */
module DecodeFormatC5 {
  import opened Primitives
  import opened FoundRuuviTagValidation

  function Pow10(p: nat): (r: nat)
    ensures r >= 1
  {
    if p == 0 then 1 else 10 * Pow10(p - 1)
  }

  /** The integer nearest to x, ties away from zero: HALF_UP on a scaled value. */
  function HalfUpUnits(x: real): (n: int)
    ensures -0.5 <= n as real - x <= 0.5
  {
    if x >= 0.0 then (x + 0.5).Floor else -((-x + 0.5).Floor)
  }

  /** Rounding to the nearest multiple of 1/scale, ties away from zero. */
  function RoundToScale(value: real, scale: nat): real
    requires scale >= 1
  {
    HalfUpUnits(value * (scale as real)) as real / (scale as real)
  }

  /** `round(value, places)`: `BigDecimal.setScale(places, HALF_UP)`, rounding to the
      nearest multiple of 10^-places with ties away from zero. */
  function RoundHalfUp(value: real, places: nat): real
  {
    RoundToScale(value, Pow10(places))
  }

  lemma HalfUpOfInteger(n: int)
    ensures HalfUpUnits(n as real) == n
  {
    if n >= 0 {
      assert (n as real + 0.5).Floor == n;
    } else {
      assert (-(n as real) + 0.5).Floor == -n;
    }
  }

  /** r is a whole number of steps of 1/scale. */
  predicate OnGrid(r: real, scale: nat)
  {
    (r * (scale as real)).Floor as real == r * (scale as real)
  }

  /** r is within half a step of 1/scale from value. */
  predicate WithinHalfStep(r: real, value: real, scale: nat)
  {
    -0.5 <= r * (scale as real) - value * (scale as real) <= 0.5
  }

  lemma ScaleBounds(value: real, scale: nat)
    requires scale >= 1
    ensures OnGrid(RoundToScale(value, scale), scale)
    ensures WithinHalfStep(RoundToScale(value, scale), value, scale)
  {
    var n := HalfUpUnits(value * (scale as real));
    assert RoundToScale(value, scale) * (scale as real) == n as real;
    assert (n as real).Floor == n;
  }

  lemma ScaleExact(value: real, scale: nat, n: int)
    requires scale >= 1 && value * (scale as real) == n as real
    ensures RoundToScale(value, scale) == value
  {
    HalfUpOfInteger(n);
  }

  /** Rounding lands on the grid of 10^-places, within half a step of the value. */
  lemma RoundHalfUpBounds(value: real, places: nat)
    ensures OnGrid(RoundHalfUp(value, places), Pow10(places))
    ensures WithinHalfStep(RoundHalfUp(value, places), value, Pow10(places))
  {
    ScaleBounds(value, Pow10(places));
  }

  /** A value with at most `places` decimals is left unchanged by rounding. */
  lemma RoundExact(value: real, places: nat, n: int)
    requires value * (Pow10(places) as real) == n as real
    ensures RoundHalfUp(value, places) == value
  {
    ScaleExact(value, Pow10(places), n);
  }

  /** A Java byte read from the array: the bit pattern reinterpreted as signed. */
  function SignedByte(b: Byte): (r: int)
    ensures -128 <= r < 128 && (r - b) % 256 == 0
  {
    if b >= 128 then b - 256 else b
  }

  /** `(hi & 0xFF) << 8 | lo & 0xFF`: an unsigned big-endian 16-bit value. */
  function U16(hi: Byte, lo: Byte): (r: int)
    ensures 0 <= r < 0x1_0000
  {
    hi * 256 + lo
  }

  /** `data[i] << 8 | data[i+1] & 0xFF`: the high byte is sign-extended, so this is
      the signed big-endian 16-bit value. */
  function S16(hi: Byte, lo: Byte): (r: int)
    ensures -0x8000 <= r < 0x8000
    ensures r == if hi >= 128 then U16(hi, lo) - 0x1_0000 else U16(hi, lo)
  {
    SignedByte(hi) * 256 + lo
  }

  /** The raw integer fields of a C5 payload whose format byte is at `offset`. */
  datatype RawFields = RawFields(temperature: int, humidity: int, pressure: int,
                                 powerInfo: int, movement: int, sequence: int)

  function ReadRaw(data: seq<Byte>, offset: int): RawFields
    requires 0 <= offset + 1 && offset + 12 <= |data|
  {
    RawFields(S16(data[1 + offset], data[2 + offset]),
              U16(data[3 + offset], data[4 + offset]),
              U16(data[5 + offset], data[6 + offset]),
              U16(data[7 + offset], data[8 + offset]),
              data[9 + offset],
              U16(data[10 + offset], data[11 + offset]))
  }

  /** `powerInfo >>> 5`: the top eleven bits, the battery voltage in millivolts
      above 1600. */
  function VoltageBits(powerInfo: int): int { powerInfo / 32 }

  /** `powerInfo & 0b11111`: the low five bits, the transmit power step. */
  function TxPowerBits(powerInfo: int): int { powerInfo % 32 }

  /** A nullable Double read with `?: 0.0`... as `x != null ? x : 0.0`. */
  function OrZero(x: Option<real>): real
  {
    if x.Some? then x.value else 0.0
  }

  /** One "make it pretty" line: the field, or 0.0 when null, rounded. */
  function Pretty(x: Option<real>, places: nat): Option<real>
  {
    Some(RoundHalfUp(OrZero(x), places))
  }

  /** The record after the setters, before rounding: voltage and transmit power are
      set only when their bits are not all ones. */
  function Filled(raw: RawFields): TagValues
  {
    TagValues(
      id := None, rssi := None,
      dataFormat := Some(0xC5),
      temperature := Some(raw.temperature as real / 200.0),
      humidity := Some(raw.humidity as real / 400.0),
      pressure := Some(raw.pressure as real + 50000.0),
      accelX := None, accelY := None, accelZ := None,
      txPower := if TxPowerBits(raw.powerInfo) != 0x1F
        then Some(TxPowerBits(raw.powerInfo) as real * 2.0 - 40.0) else None,
      voltage := if VoltageBits(raw.powerInfo) != 0x7FF
        then Some(VoltageBits(raw.powerInfo) as real / 1000.0 + 1.6) else None,
      movementCounter := Some(raw.movement),
      measurementSequenceNumber := Some(raw.sequence),
      connectable := None)
  }

  /** The rounding pass: every Double field but the transmit power becomes non-null
      and rounded (null counts as 0.0); pressure to two places, the rest to four. */
  function Prettified(v: TagValues): TagValues
  {
    v.(temperature := Pretty(v.temperature, 4),
       humidity := Pretty(v.humidity, 4),
       pressure := Pretty(v.pressure, 2),
       voltage := Pretty(v.voltage, 4),
       accelX := Pretty(v.accelX, 4),
       accelY := Pretty(v.accelY, 4),
       accelZ := Pretty(v.accelZ, 4))
  }

  /** The record as it stands just before `validateValues`. */
  function Unvalidated(raw: RawFields): TagValues
  {
    Prettified(Filled(raw))
  }

  /** What `decode` returns for a payload. */
  function Decoded(data: seq<Byte>, offset: int): TagValues
    requires 0 <= offset + 1 && offset + 12 <= |data|
  {
    Validated(Unvalidated(ReadRaw(data, offset)))
  }

  /** The ranges the raw reads always fall in. */
  predicate RawInRange(raw: RawFields)
  {
    && -0x8000 <= raw.temperature < 0x8000
    && 0 <= raw.humidity < 0x1_0000
    && 0 <= raw.pressure < 0x1_0000
    && 0 <= raw.powerInfo < 0x1_0000
    && 0 <= raw.movement < 0x100
    && 0 <= raw.sequence < 0x1_0000
  }

  lemma TemperatureField(raw: RawFields)
    requires RawInRange(raw)
    ensures Validated(Unvalidated(raw)).temperature ==
      if raw.temperature == -0x8000 then None else Some(raw.temperature as real / 200.0)
  {
    assert Pow10(4) == 10000;
    RoundExact(raw.temperature as real / 200.0, 4, raw.temperature * 50);
  }

  lemma HumidityField(raw: RawFields)
    requires RawInRange(raw)
    ensures Validated(Unvalidated(raw)).humidity ==
      if raw.humidity == 0xFFFF then None else Some(raw.humidity as real / 400.0)
  {
    assert Pow10(4) == 10000;
    RoundExact(raw.humidity as real / 400.0, 4, raw.humidity * 25);
  }

  lemma PressureField(raw: RawFields)
    requires RawInRange(raw)
    ensures Validated(Unvalidated(raw)).pressure ==
      if raw.pressure == 0xFFFF then None else Some(raw.pressure as real + 50000.0)
  {
    assert Pow10(2) == 100;
    RoundExact(raw.pressure as real + 50000.0, 2, (raw.pressure + 50000) * 100);
  }

  lemma VoltageField(raw: RawFields)
    requires RawInRange(raw)
    ensures VoltageBits(raw.powerInfo) <= 0x7FF
    ensures Validated(Unvalidated(raw)).voltage ==
      if VoltageBits(raw.powerInfo) == 0x7FF then None
      else Some(VoltageBits(raw.powerInfo) as real / 1000.0 + 1.6)
  {
    assert Pow10(4) == 10000;
    var bits := VoltageBits(raw.powerInfo);
    if bits != 0x7FF {
      RoundExact(bits as real / 1000.0 + 1.6, 4, bits * 10 + 16000);
    } else {
      RoundExact(0.0, 4, 0);
    }
  }

  lemma AccelerationFields(raw: RawFields)
    ensures Validated(Unvalidated(raw)).accelX == Some(0.0)
    ensures Validated(Unvalidated(raw)).accelY == Some(0.0)
    ensures Validated(Unvalidated(raw)).accelZ == Some(0.0)
  {
    RoundExact(0.0, 4, 0);
  }

  /** Field by field: each measurement is absent exactly at its sentinel raw value
      (temperature -32768, humidity and pressure 0xFFFF, voltage bits 0x7FF, tx power
      bits 31, movement 255, sequence 65535) and otherwise is the scaled raw value;
      the format is always 0xC5 and the accelerations are always 0.0. */
  lemma DecodedFields(data: seq<Byte>, offset: int)
    requires 0 <= offset + 1 && offset + 12 <= |data|
    ensures var raw, d := ReadRaw(data, offset), Decoded(data, offset);
      && d.dataFormat == Some(0xC5)
      && d.temperature == (if raw.temperature == -0x8000 then None else Some(raw.temperature as real / 200.0))
      && d.humidity == (if raw.humidity == 0xFFFF then None else Some(raw.humidity as real / 400.0))
      && d.pressure == (if raw.pressure == 0xFFFF then None else Some(raw.pressure as real + 50000.0))
      && d.voltage == (if VoltageBits(raw.powerInfo) == 0x7FF then None
                       else Some(VoltageBits(raw.powerInfo) as real / 1000.0 + 1.6))
      && d.txPower == (if TxPowerBits(raw.powerInfo) == 0x1F then None
                       else Some(TxPowerBits(raw.powerInfo) as real * 2.0 - 40.0))
      && d.movementCounter == (if raw.movement == 0xFF then None else Some(raw.movement))
      && d.measurementSequenceNumber == (if raw.sequence == 0xFFFF then None else Some(raw.sequence))
      && d.accelX == Some(0.0) && d.accelY == Some(0.0) && d.accelZ == Some(0.0)
  {
    var raw := ReadRaw(data, offset);
    assert RawInRange(raw);
    TemperatureField(raw);
    HumidityField(raw);
    PressureField(raw);
    VoltageField(raw);
    AccelerationFields(raw);
  }

  /** The transmit power, when present, lies in [-40, 20]. */
  lemma TxPowerRange(data: seq<Byte>, offset: int)
    requires 0 <= offset + 1 && offset + 12 <= |data|
    ensures var t := Decoded(data, offset).txPower;
      t.Some? ==> -40.0 <= t.value <= 20.0
  {
    DecodedFields(data, offset);
  }

  /** The sentinel raw values at their extremes: temperature -32768 would be -163.84
      and humidity 0xFFFF would be 163.8375, both outside the valid range. */
  lemma SentinelsOutOfRange()
    ensures -0x8000 as real / 200.0 == -163.84 && -163.84 < TEMPERATURE_MINIMUM
    ensures 0xFFFF as real / 400.0 == 163.8375 && 163.8375 > HUMIDITY_MAXIMUM
    ensures 0xFFFF as real + 50000.0 == 115535.0 && 115535.0 > PRESSURE_MAXIMUM
  {
  }

  /** The setter half of `decode`, given the raw reads: a fresh tag with the format
      and the scaled readings; voltage and transmit power are set only when their
      bits are not all ones. */
  method SetReadings(raw: RawFields) returns (tag: FoundRuuviTag)
    ensures fresh(tag)
    ensures tag.Values() == Filled(raw)
  {
    var voltage: Option<real> := None;
    if VoltageBits(raw.powerInfo) != 0x7FF {
      voltage := Some(VoltageBits(raw.powerInfo) as real / 1000.0 + 1.6);
    }
    var txPower: Option<real> := None;
    if TxPowerBits(raw.powerInfo) != 0x1F {
      txPower := Some(TxPowerBits(raw.powerInfo) as real * 2.0 - 40.0);
    }
    tag := new FoundRuuviTag();
    tag.SetDataFormat(Some(0xC5));
    tag.SetTemperature(Some(raw.temperature as real / 200.0));
    tag.SetHumidity(Some(raw.humidity as real / 400.0));
    tag.SetPressure(Some(raw.pressure as real + 50000.0));
    tag.SetPressure(Some(OrZero(tag.pressure)));
    tag.SetVoltage(voltage);
    tag.SetTxPower(txPower);
    tag.SetMovementCounter(Some(raw.movement));
    tag.SetMeasurementSequenceNumber(Some(raw.sequence));
  }

  /** The "make it pretty" half: rounds each Double field but the transmit power in
      place, a null becoming 0.0 first. */
  method MakePretty(tag: FoundRuuviTag)
    modifies tag
    ensures tag.Values() == Prettified(old(tag.Values()))
  {
    tag.SetTemperature(Pretty(tag.temperature, 4));
    tag.SetHumidity(Pretty(tag.humidity, 4));
    tag.SetPressure(Pretty(tag.pressure, 2));
    tag.SetVoltage(Pretty(tag.voltage, 4));
    tag.SetAccelX(Pretty(tag.accelX, 4));
    tag.SetAccelY(Pretty(tag.accelY, 4));
    tag.SetAccelZ(Pretty(tag.accelZ, 4));
  }

  /** `decode(data, offset)`: fills a fresh tag through its setters, rounds, and
      validates it in place. The bytes offset+1 .. offset+11 must exist; any other
      index throws. */
  method Decode(data: array<Byte>, offset: int) returns (tag: FoundRuuviTag)
    requires 0 <= offset + 1 && offset + 12 <= data.Length
    ensures fresh(tag)
    ensures tag.Values() == Decoded(data[..], offset)
    ensures InRange(tag.Values())
  {
    // the array reads: the format byte at offset is not read again
    var raw := ReadRaw(data[..], offset);
    tag := SetReadings(raw);
    MakePretty(tag);
    tag := ValidateValues(tag);
  }
}
