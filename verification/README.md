# Ruuvi Bluetooth library: a verified model of its byte-level core

This project models the parts of the Ruuvi Android Bluetooth library that do real
work under the Android plumbing, and proves what they promise.

- **Advertisement decoding.** `getActualDataOffset` searches for the
  manufacturer-specific-data header: AD type 0xFF, then the Ruuvi company
  identifier 0x0499 in little-endian order (99 04). `DecodeFormatC5` extracts the
  fields of a C5 payload at fixed offsets, with their sentinel values.
  `validateValues` clears every field outside its closed range.
- **Byte and hex codecs** used by the wire protocol: `toHexString`, `toInt`,
  `toLong`, `Long.toBytes`, `Int.toBytes` and `hexStringToByteArray`.
- **The GATT log-transfer session**, in both variants:
  - `NordicGattManager`, the current one;
  - `GattConnection`, the legacy one, with its retry counter, sequential
    identity reads and debug-firmware override.

  Both variants cover the 11-byte read command, the firmware gate, frame
  classification (heartbeat, end marker, data) and the accumulation of readings
  keyed by time stamp.
- **The scan registries.**
  - `RuuviTagScanner`: de-duplication by measurement sequence number, the
    connectable flag, and the device and manager maps.
  - `RuuviRangeNotifier`: an address-keyed list upsert and a new connection for
    every `connect`.
- **`BluetoothCrashResolver`.** A counter-and-threshold state machine over the
  distinct addresses seen, adapter off/on timing and a recovery flag. It also
  keeps a line-oriented state file, written by `saveState` and read by
  `loadState`.

Every source class whose fields change becomes a Dafny `class` with the same
fields, and methods whose postconditions give the whole new state. The session
and registry classes also have a `State()` snapshot datatype and a `Valid()`
invariant. `FoundRuuviTag` is a plain record of nullable fields: it has a
`Values()` snapshot and no invariant.

The pure parts are functions with lemmas: the codecs, the decoder's arithmetic,
the accumulation step and the file format.

The outside world becomes parameters or a trace:

- Listener callbacks and requests to the Bluetooth stack are appended to a
  `trace` field.
- Clock readings, adapter answers (`connectGatt` returning null, `isDiscovering`,
  a missing service or characteristic, a refused write), the advertisement
  parser's result and a manager's `isConnected` are method parameters.
- Kotlin `null` is `None`. Java `int` and `long` are unbounded integers. Stored
  values are kept within `IsInt32`/`IsInt64`, and wrap-around is written out for
  the byte codecs and the crash resolver's counters (`CrashResolver.Inc32`,
  `ByteArrayExt.ToInt`). Clock readings are never negative (`CrashResolver.IsClock`),
  so the resolver's time differences cannot wrap. Two GATT counters are the
  exception, listed under "Left out". Doubles are exact reals.

Files: one module per source file, plus four helper modules:

- `Primitives`: bytes, Option, big-endian values;
- `Strings`: decimal text, `Long.parseLong` and `Integer.parseInt`;
- `SemVer`: the version parse and precedence the firmware gate relies on;
- `GattLog`: readings, frames, listener events and accumulation, shared by both
  GATT variants.

## Model

| member | source | states |
|---|---|---|
| DecoderUtils.GetActualDataOffset | default_bluetooth_library/src/main/java/com/ruuvi/station/bluetooth/decoder/DecoderUtils.kt:6-32 | the flag loop returns exactly what the three-state automaton (idle, saw FF, saw FF 99) returns at its first completion, and any offset it returns ends an FF 99 04 header; the array is only read |
| DecoderUtils.MarkerOffsetSound | default_bluetooth_library/src/main/java/com/ruuvi/station/bluetooth/decoder/DecoderUtils.kt:12-13 | a reported offset k has FF 99 04 at k-3..k-1 and 3 <= k <= length, so it indexes the data-format byte and may equal the length |
| DecoderUtils.NoHeaderNoOffset | default_bluetooth_library/src/main/java/com/ruuvi/station/bluetooth/decoder/DecoderUtils.kt:6-31 | an advertisement with no complete FF 99 04 gives null |
| DecoderUtils.ShortInputNoOffset | default_bluetooth_library/src/main/java/com/ruuvi/station/bluetooth/decoder/DecoderUtils.kt:6-31 | fewer than three bytes give null |
| DecoderUtils.HeaderAfterNeutralByteFound | default_bluetooth_library/src/main/java/com/ruuvi/station/bluetooth/decoder/DecoderUtils.kt:9-30 | a header at the start, or after a byte that is neither FF nor 99, is always found, at that header or an earlier one |
| DecoderUtils.DoubledFFMissed | default_bluetooth_library/src/main/java/com/ruuvi/station/bluetooth/decoder/DecoderUtils.kt:15-22 | the mismatching byte is not checked again: FF FF 99 04 gives null |
| DecoderUtils.RepeatedPrefixMissed | default_bluetooth_library/src/main/java/com/ruuvi/station/bluetooth/decoder/DecoderUtils.kt:12-16 | FF 99 FF 99 04 gives null as well |
| DecoderUtils.FirstHeaderFrom | default_bluetooth_library/src/main/java/com/ruuvi/station/bluetooth/decoder/DecoderUtils.kt:6-32 | the corrected search from a position: the least k with a header ending at k, and None exactly when there is no header |
| DecoderUtils.FirstHeaderOffset | default_bluetooth_library/src/main/java/com/ruuvi/station/bluetooth/decoder/DecoderUtils.kt:6-32 | the corrected search: a result exactly when some header exists, and it is the first header |
| DecoderUtils.FirstHeaderNotAfterMarker | default_bluetooth_library/src/main/java/com/ruuvi/station/bluetooth/decoder/DecoderUtils.kt:9-30 | wherever the automaton finds a header, the corrected search finds one at or before it; it also finds the headers in FF FF 99 04 and FF 99 FF 99 04 |
| DecodeFormatC5.HalfUpUnits | default_bluetooth_library/src/main/java/com/ruuvi/station/bluetooth/decoder/DecodeFormatC5.java:41-47 | HALF_UP picks an integer within one half of the value |
| DecodeFormatC5.RoundHalfUpBounds | default_bluetooth_library/src/main/java/com/ruuvi/station/bluetooth/decoder/DecodeFormatC5.java:41-47 | `round(value, places)` lands on the grid of 10^-places, within half a step of the value |
| DecodeFormatC5.RoundExact | default_bluetooth_library/src/main/java/com/ruuvi/station/bluetooth/decoder/DecodeFormatC5.java:41-47 | a value with at most `places` decimals is left unchanged by rounding |
| DecodeFormatC5.SignedByte | default_bluetooth_library/src/main/java/com/ruuvi/station/bluetooth/decoder/DecodeFormatC5.java:15 | a Java byte is the bit pattern read as a signed value in -128..127 |
| DecodeFormatC5.U16 | default_bluetooth_library/src/main/java/com/ruuvi/station/bluetooth/decoder/DecodeFormatC5.java:16-17 | `(hi & 0xFF) << 8 \| lo & 0xFF` is an unsigned 16-bit value |
| DecodeFormatC5.S16 | default_bluetooth_library/src/main/java/com/ruuvi/station/bluetooth/decoder/DecodeFormatC5.java:15 | the sign-extended high byte makes the temperature read a signed big-endian 16-bit value |
| DecodeFormatC5.DecodedFields | default_bluetooth_library/src/main/java/com/ruuvi/station/bluetooth/decoder/DecodeFormatC5.java:12-39 | the format is always 0xC5; each measurement is absent exactly at its sentinel (temperature -32768, humidity and pressure 0xFFFF, voltage bits 0x7FF, tx power bits 31, movement 255, sequence 65535) and otherwise equals the scaled raw value; the accelerations are always 0.0 |
| DecodeFormatC5.TemperatureField | default_bluetooth_library/src/main/java/com/ruuvi/station/bluetooth/decoder/DecodeFormatC5.java:15-38 | temperature is the signed raw value / 200, cleared exactly for -32768 |
| DecodeFormatC5.HumidityField | default_bluetooth_library/src/main/java/com/ruuvi/station/bluetooth/decoder/DecodeFormatC5.java:16-38 | humidity is the unsigned raw value / 400, cleared exactly for 0xFFFF |
| DecodeFormatC5.PressureField | default_bluetooth_library/src/main/java/com/ruuvi/station/bluetooth/decoder/DecodeFormatC5.java:17-38 | pressure is the unsigned raw value + 50000, cleared exactly for 0xFFFF |
| DecodeFormatC5.VoltageField | default_bluetooth_library/src/main/java/com/ruuvi/station/bluetooth/decoder/DecodeFormatC5.java:20-38 | voltage is present exactly when the top eleven bits are not 0x7FF, and then equals bits/1000 + 1.6; the sentinel's 0.0 is cleared by validation |
| DecodeFormatC5.AccelerationFields | default_bluetooth_library/src/main/java/com/ruuvi/station/bluetooth/decoder/DecodeFormatC5.java:35-37 | the three accelerations are never absent after decoding: always 0.0 |
| DecodeFormatC5.TxPowerRange | default_bluetooth_library/src/main/java/com/ruuvi/station/bluetooth/decoder/DecodeFormatC5.java:24-26 | a present transmit power lies in [-40, 20] |
| DecodeFormatC5.SentinelsOutOfRange | default_bluetooth_library/src/main/java/com/ruuvi/station/bluetooth/decoder/DecodeFormatC5.java:15-17 | the sentinels scale to -163.84, 163.8375 and 115535, all outside the valid ranges |
| DecodeFormatC5.SetReadings | default_bluetooth_library/src/main/java/com/ruuvi/station/bluetooth/decoder/DecodeFormatC5.java:13-28 | a fresh tag with the format and the scaled readings; voltage and transmit power are set only when their bits are not all ones |
| DecodeFormatC5.MakePretty | default_bluetooth_library/src/main/java/com/ruuvi/station/bluetooth/decoder/DecodeFormatC5.java:30-37 | every Double field but the transmit power is rounded in place, a null becoming 0.0 first |
| DecodeFormatC5.Decode | default_bluetooth_library/src/main/java/com/ruuvi/station/bluetooth/decoder/DecodeFormatC5.java:12-39 | a fresh tag holding the decoded record, with every checked field null or in range; bytes offset+1..offset+11 must exist |
| FoundRuuviTagValidation.KeepReal | default_bluetooth_library/src/main/java/com/ruuvi/station/bluetooth/decoder/FoundRuuviTag.kt:29-31 | a present Double is kept exactly when it lies in the closed range; an absent one stays absent |
| FoundRuuviTagValidation.KeepInt | default_bluetooth_library/src/main/java/com/ruuvi/station/bluetooth/decoder/FoundRuuviTag.kt:61-63 | the same for an Int field |
| FoundRuuviTagValidation.ValidatedInRange | default_bluetooth_library/src/main/java/com/ruuvi/station/bluetooth/decoder/FoundRuuviTag.kt:29-70 | afterwards every checked field is null or inside its bounds, and id, rssi, dataFormat and connectable are untouched |
| FoundRuuviTagValidation.ValidatedKeepsInRange | default_bluetooth_library/src/main/java/com/ruuvi/station/bluetooth/decoder/FoundRuuviTag.kt:29-69 | a record already in range is left exactly as it is |
| FoundRuuviTagValidation.ValidatedIdempotent | default_bluetooth_library/src/main/java/com/ruuvi/station/bluetooth/decoder/FoundRuuviTag.kt:29-69 | validating twice equals validating once |
| FoundRuuviTagValidation.BoundaryValues | default_bluetooth_library/src/main/java/com/ruuvi/station/bluetooth/decoder/FoundRuuviTag.kt:5-27 | both bounds are inclusive: temperature keeps -163.835 and 163.835 and clears -163.836 and 163.836; humidity keeps 0.0 and clears -0.001; movement keeps 0 and 254 and clears -1 and 255; the sequence keeps 0 and 65534 and clears -1 and 65535 |
| FoundRuuviTagValidation.ValidateValues | default_bluetooth_library/src/main/java/com/ruuvi/station/bluetooth/decoder/FoundRuuviTag.kt:29-70 | nulls the out-of-range fields of the passed tag in place and returns the same object |
| FoundRuuviTagValidation.FoundRuuviTag.constructor | default_bluetooth_library/src/main/java/com/ruuvi/station/bluetooth/decoder/DecodeFormatC5.java:13 | a new tag has every field null |
| FoundRuuviTagValidation.FoundRuuviTag.SetDataFormat | default_bluetooth_library/src/main/java/com/ruuvi/station/bluetooth/decoder/DecodeFormatC5.java:14 | the setter changes that field only |
| FoundRuuviTagValidation.FoundRuuviTag.SetTemperature | default_bluetooth_library/src/main/java/com/ruuvi/station/bluetooth/decoder/DecodeFormatC5.java:15 | the setter changes that field only |
| FoundRuuviTagValidation.FoundRuuviTag.SetHumidity | default_bluetooth_library/src/main/java/com/ruuvi/station/bluetooth/decoder/DecodeFormatC5.java:16 | the setter changes that field only |
| FoundRuuviTagValidation.FoundRuuviTag.SetPressure | default_bluetooth_library/src/main/java/com/ruuvi/station/bluetooth/decoder/DecodeFormatC5.java:17-18 | the setter changes that field only |
| FoundRuuviTagValidation.FoundRuuviTag.SetAccelX | default_bluetooth_library/src/main/java/com/ruuvi/station/bluetooth/decoder/DecodeFormatC5.java:35 | the setter changes that field only |
| FoundRuuviTagValidation.FoundRuuviTag.SetAccelY | default_bluetooth_library/src/main/java/com/ruuvi/station/bluetooth/decoder/DecodeFormatC5.java:36 | the setter changes that field only |
| FoundRuuviTagValidation.FoundRuuviTag.SetAccelZ | default_bluetooth_library/src/main/java/com/ruuvi/station/bluetooth/decoder/DecodeFormatC5.java:37 | the setter changes that field only |
| FoundRuuviTagValidation.FoundRuuviTag.SetTxPower | default_bluetooth_library/src/main/java/com/ruuvi/station/bluetooth/decoder/DecodeFormatC5.java:24-26 | the setter changes that field only |
| FoundRuuviTagValidation.FoundRuuviTag.SetVoltage | default_bluetooth_library/src/main/java/com/ruuvi/station/bluetooth/decoder/DecodeFormatC5.java:21-23 | the setter changes that field only |
| FoundRuuviTagValidation.FoundRuuviTag.SetMovementCounter | default_bluetooth_library/src/main/java/com/ruuvi/station/bluetooth/decoder/DecodeFormatC5.java:27 | the setter changes that field only |
| FoundRuuviTagValidation.FoundRuuviTag.SetMeasurementSequenceNumber | default_bluetooth_library/src/main/java/com/ruuvi/station/bluetooth/decoder/DecodeFormatC5.java:28 | the setter changes that field only |
| ByteArrayExt.LowerHexDigit | default_bluetooth_library/src/main/java/com/ruuvi/station/bluetooth/util/extensions/ByteArray.kt:4 | `toString(16)` of a nibble is a lowercase hex digit |
| ByteArrayExt.ToHexString | default_bluetooth_library/src/main/java/com/ruuvi/station/bluetooth/util/extensions/ByteArray.kt:3-4 | the hex text has two characters per byte |
| ByteArrayExt.ToHexStringAt | default_bluetooth_library/src/main/java/com/ruuvi/station/bluetooth/util/extensions/ByteArray.kt:3-4 | characters 2i and 2i+1 are the high and low lowercase digits of byte i, zero padded and in order |
| ByteArrayExt.ToHexStringAppend | default_bluetooth_library/src/main/java/com/ruuvi/station/bluetooth/util/extensions/ByteArray.kt:3-4 | the rendering of a concatenation is the concatenation of the renderings |
| ByteArrayExt.AllFIffAllFF | default_bluetooth_library/src/main/java/com/ruuvi/station/bluetooth/util/extensions/ByteArray.kt:3-4 | eight bytes render as sixteen `f` exactly when all are 0xFF |
| ByteArrayExt.EndMarkerIffLastEightFF | default_bluetooth_library/src/main/java/com/ruuvi/station/bluetooth/util/extensions/ByteArray.kt:3-4 | the text ends in sixteen `f` exactly when there are at least eight bytes and the last eight are 0xFF |
| ByteArrayExt.ToInt | default_bluetooth_library/src/main/java/com/ruuvi/station/bluetooth/util/extensions/ByteArray.kt:6-15 | the loop over the reversed bytes yields the big-endian value read as a signed Int; below four bytes it is non-negative and below 256^n |
| ByteArrayExt.ToLong | default_bluetooth_library/src/main/java/com/ruuvi/station/bluetooth/util/extensions/ByteArray.kt:17-26 | the same into a signed Long; for at most four bytes it is the unsigned big-endian value below 256^n, so 0 for the empty array |
| LongExt.LongToBytes | default_bluetooth_library/src/main/java/com/ruuvi/station/bluetooth/util/extensions/Long.kt:5-7 | always eight bytes |
| LongExt.LongToBytesAt | default_bluetooth_library/src/main/java/com/ruuvi/station/bluetooth/util/extensions/Long.kt:6 | byte i is (n >> 8(7-i)) & 0xFF: big-endian two's complement |
| LongExt.LongRoundTrip | default_bluetooth_library/src/main/java/com/ruuvi/station/bluetooth/util/extensions/Long.kt:5-7 | `toLong(toBytes(n)) == n` for every Long |
| LongExt.LowFourBytes | default_bluetooth_library/src/main/java/com/ruuvi/station/bluetooth/util/extensions/Long.kt:5-7 | bytes 4..8 are the big-endian encoding of n mod 2^32, and `toLong` of them gives n back for 0 <= n < 2^32 |
| IntExt.IntToBytes | default_bluetooth_library/src/main/java/com/ruuvi/station/bluetooth/util/extensions/Int.kt:5-7 | always four bytes |
| IntExt.IntToBytesAt | default_bluetooth_library/src/main/java/com/ruuvi/station/bluetooth/util/extensions/Int.kt:6 | byte i is (n >> 8(3-i)) & 0xFF: big-endian two's complement |
| IntExt.IntRoundTrip | default_bluetooth_library/src/main/java/com/ruuvi/station/bluetooth/util/extensions/Int.kt:5-7 | `toInt(toBytes(n)) == n` for every Int |
| IntExt.ReadAllPrefix | default_bluetooth_library/src/main/java/com/ruuvi/station/bluetooth/util/extensions/Int.kt:5-7 | `0x3A3A11.toBytes()` is 00 3A 3A 11, so bytes 1..4 are the command prefix 3A 3A 11 |
| BluetoothLibrary.HexIndex | default_bluetooth_library/src/main/java/com/ruuvi/station/bluetooth/BluetoothLibrary.kt:29 | `HEX_CHARS.indexOf(c)`: the first position of c in the table, and -1 exactly for characters outside it, lowercase included |
| BluetoothLibrary.ShlOrInvalidSecond | default_bluetooth_library/src/main/java/com/ruuvi/station/bluetooth/BluetoothLibrary.kt:35-38 | an invalid second character makes the byte 0xFF |
| BluetoothLibrary.ShlOrInvalidFirst | default_bluetooth_library/src/main/java/com/ruuvi/station/bluetooth/BluetoothLibrary.kt:35-38 | an invalid first character with a valid second gives 0xF0 \| second |
| BluetoothLibrary.ShlOrDigits | default_bluetooth_library/src/main/java/com/ruuvi/station/bluetooth/BluetoothLibrary.kt:35-38 | two valid characters give 16 * first + second |
| BluetoothLibrary.ShlOrIsOctet | default_bluetooth_library/src/main/java/com/ruuvi/station/bluetooth/BluetoothLibrary.kt:35-38 | the shift-or-toByte agrees with the case analysis on every pair of `indexOf` results |
| BluetoothLibrary.HexDecode | default_bluetooth_library/src/main/java/com/ruuvi/station/bluetooth/BluetoothLibrary.kt:32 | the result has length/2 bytes, so the empty string gives the empty array |
| BluetoothLibrary.HexStringToByteArray | default_bluetooth_library/src/main/java/com/ruuvi/station/bluetooth/BluetoothLibrary.kt:31-43 | the stepped loop fills a fresh array with byte i made from characters 2i and 2i+1; odd length reads past the end, so it is excluded |
| BluetoothLibrary.HexPairRoundTrip | default_bluetooth_library/src/main/java/com/ruuvi/station/bluetooth/BluetoothLibrary.kt:34-38 | the two upper-cased digits of a byte decode back to that byte |
| BluetoothLibrary.HexRoundTrip | default_bluetooth_library/src/main/java/com/ruuvi/station/bluetooth/BluetoothLibrary.kt:31-43 | `hexStringToByteArray(uppercase(toHexString(b))) == b` |
| BluetoothLibrary.TextPairRoundTrip | default_bluetooth_library/src/main/java/com/ruuvi/station/bluetooth/BluetoothLibrary.kt:34-38 | a pair of valid digits re-renders as the same two digits, lower-cased |
| BluetoothLibrary.TextRoundTrip | default_bluetooth_library/src/main/java/com/ruuvi/station/bluetooth/BluetoothLibrary.kt:31-43 | `toHexString(hexStringToByteArray(s)) == lowercase(s)` for even-length uppercase hex s |
| Strings.FirstDigitIndex | default_bluetooth_library/src/main/java/com/ruuvi/station/bluetooth/gatt/NordicGattManager.kt:118 | `indexOfFirst { it.isDigit() }`: the first digit's index, or -1 exactly when there is no digit |
| Strings.NatToDecimal | default_bluetooth_library/src/main/java/com/ruuvi/station/bluetooth/BluetoothCrashResolver.java:375-377 | the decimal text of a number is digits only, with no leading zero except for 0 itself |
| Strings.DecimalRoundTrip | default_bluetooth_library/src/main/java/com/ruuvi/station/bluetooth/BluetoothCrashResolver.java:375-377 | decimal text and its value determine each other |
| Strings.ParseLong | default_bluetooth_library/src/main/java/com/ruuvi/station/bluetooth/BluetoothCrashResolver.java:409 | a successful `Long.parseLong` yields a Long |
| Strings.ParseInt | default_bluetooth_library/src/main/java/com/ruuvi/station/bluetooth/BluetoothCrashResolver.java:413 | a successful `Integer.parseInt` yields an Int |
| Strings.ParseInteger | default_bluetooth_library/src/main/java/com/ruuvi/station/bluetooth/BluetoothCrashResolver.java:409-417 | a parse succeeds only with a value inside the bounds of the target type |
| Strings.ParseIntegerRoundTrip | default_bluetooth_library/src/main/java/com/ruuvi/station/bluetooth/BluetoothCrashResolver.java:409-417 | parsing the decimal text of an in-range value gives the value back |
| Strings.ParseIntegerOutOfRange | default_bluetooth_library/src/main/java/com/ruuvi/station/bluetooth/BluetoothCrashResolver.java:409-417 | the text of an out-of-range value fails to parse |
| Strings.ParseIntegerSound | default_bluetooth_library/src/main/java/com/ruuvi/station/bluetooth/BluetoothCrashResolver.java:409-417 | accepted text is an optional sign followed by the digits of the value |
| Strings.ParseIntegerRejects | default_bluetooth_library/src/main/java/com/ruuvi/station/bluetooth/BluetoothCrashResolver.java:434-435 | the empty line, a lone sign and a non-digit are rejected (the NumberFormatException path) |
| SemVer.ParseNumeric | default_bluetooth_library/src/main/java/com/ruuvi/station/bluetooth/gatt/NordicGattManager.kt:120 | a version number is canonical decimal within Int range |
| SemVer.ParseRender | default_bluetooth_library/src/main/java/com/ruuvi/station/bluetooth/gatt/NordicGattManager.kt:120 | rendering a well-formed version and parsing it gives the version back |
| SemVer.RenderParse | default_bluetooth_library/src/main/java/com/ruuvi/station/bluetooth/gatt/NordicGattManager.kt:120 | whatever parses is the rendering of a well-formed version |
| SemVer.CompareCore | default_bluetooth_library/src/main/java/com/ruuvi/station/bluetooth/gatt/NordicGattManager.kt:121 | the core comparison answers -1, 0 or 1 |
| SemVer.CompareCoreAntisymmetric | default_bluetooth_library/src/main/java/com/ruuvi/station/bluetooth/gatt/NordicGattManager.kt:121 | the core comparison is antisymmetric and is 0 only on equal cores |
| SemVer.AtLeastIsLexicographic | default_bluetooth_library/src/main/java/com/ruuvi/station/bluetooth/gatt/NordicGattManager.kt:121 | `compareTo(release) != -1` is the lexicographic order on (major, minor, patch), with a pre-release losing the tie |
| SemVer.AtLeastTotalOnReleases | default_bluetooth_library/src/main/java/com/ruuvi/station/bluetooth/gatt/NordicGattManager.kt:121 | among releases the order is total |
| SemVer.AtLeastTransitive | default_bluetooth_library/src/main/java/com/ruuvi/station/bluetooth/gatt/NordicGattManager.kt:121 | the order is transitive |
| SemVer.AtLeastIgnoresBuild | default_bluetooth_library/src/main/java/com/ruuvi/station/bluetooth/gatt/NordicGattManager.kt:121 | build metadata never changes precedence, and a pre-release ranks below its release |
| FirmwareGate.CanReadLogsOfVersion | default_bluetooth_library/src/main/java/com/ruuvi/station/bluetooth/gatt/NordicGattManager.kt:115-128 | a digit-free prefix followed by a rendered version passes exactly when the version is at least 3.28.12 |
| FirmwareGate.CanReadLogsNeedsDigits | default_bluetooth_library/src/main/java/com/ruuvi/station/bluetooth/gatt/NordicGattManager.kt:115-128 | no firmware, or firmware without a digit, never reads logs |
| FirmwareGate.LegacyGateShownFirmware | default_bluetooth_library/src/main/java/com/ruuvi/station/bluetooth/GattConnection.kt:205-231 | the legacy check reports the firmware from its first digit on, or the whole text with false when it has no digit (the throw inside the `try`); it never reads logs unless they were asked for |
| FirmwareGate.NordicImpliesLegacy | default_bluetooth_library/src/main/java/com/ruuvi/station/bluetooth/GattConnection.kt:209-215 | every firmware the current check accepts is accepted by the legacy check when logs are wanted |
| FirmwareGate.DebugBuildOnlyLegacy | default_bluetooth_library/src/main/java/com/ruuvi/station/bluetooth/GattConnection.kt:213-215 | the debug override is legacy only: "3.0.0+debug" passes the legacy check and fails the current one |
| GattLog.Tell | default_bluetooth_library/src/main/java/com/ruuvi/station/bluetooth/gatt/NordicGattManager.kt:106 | `listener?.callback(...)`: one notification with a listener, nothing without |
| GattLog.EndMarkerOnText | default_bluetooth_library/src/main/java/com/ruuvi/station/bluetooth/gatt/NordicGattManager.kt:181 | the hex-suffix end test is the "last eight bytes are 0xFF" test |
| GattLog.FrameTime | default_bluetooth_library/src/main/java/com/ruuvi/station/bluetooth/gatt/NordicGattManager.kt:188-190 | a frame's time is bytes 3..6 as an unsigned number of seconds, in milliseconds |
| GattLog.FindByDate | default_bluetooth_library/src/main/java/com/ruuvi/station/bluetooth/gatt/NordicGattManager.kt:191 | the index of the first reading with the time, or -1 exactly when there is none |
| GattLog.AccumulateShape | default_bluetooth_library/src/main/java/com/ruuvi/station/bluetooth/gatt/NordicGattManager.kt:187-200 | a reading is appended exactly when none has the frame's time, the synced count grows with the list, afterwards a reading has that time, and readings for other times are untouched |
| GattLog.AccumulateKeepsDatesUnique | default_bluetooth_library/src/main/java/com/ruuvi/station/bluetooth/gatt/NordicGattManager.kt:187-200 | time stamps stay unique |
| GattLog.AccumulateStores | default_bluetooth_library/src/main/java/com/ruuvi/station/bluetooth/gatt/NordicGattManager.kt:201-223 | the reading for the frame's time stores the value by type: temperature as the signed value / 100, humidity as the unsigned value / 100 and pressure as the unsigned value, with an all-ones value stored as null in the current variant; other types store nothing |
| GattLog.AccumulateFound | default_bluetooth_library/src/main/java/com/ruuvi/station/bluetooth/gatt/NordicGattManager.kt:191-223 | with a reading for the time present, only that reading changes and the count stays |
| GattLog.AccumulateMissing | default_bluetooth_library/src/main/java/com/ruuvi/station/bluetooth/gatt/NordicGattManager.kt:192-200 | with no reading for the time, one is appended and counted |
| GattLog.WithValueCommutes | default_bluetooth_library/src/main/java/com/ruuvi/station/bluetooth/gatt/NordicGattManager.kt:201-223 | frames of different types store into different fields |
| GattLog.AccumulateCommutes | default_bluetooth_library/src/main/java/com/ruuvi/station/bluetooth/gatt/NordicGattManager.kt:187-223 | frames of different types for one time give the same batch in either order |
| GattLog.FrameAssemblyExample | default_bluetooth_library/src/main/java/com/ruuvi/station/bluetooth/gatt/NordicGattManager.kt:187-223 | a temperature, a humidity and a pressure frame for 100 s give one reading of 25.00, 55.00 and 101325 |
| GattLog.RemoveAllZero | default_bluetooth_library/src/main/java/com/ruuvi/station/bluetooth/gatt/NordicGattManager.kt:183 | `removeAll` keeps exactly the readings that are not all zero (a null field is not zero) |
| GattLog.RemoveAllZeroAppend | default_bluetooth_library/src/main/java/com/ruuvi/station/bluetooth/gatt/NordicGattManager.kt:183 | removal works element by element, so the survivors keep their order |
| GattLog.RemoveAllZeroKeepsClean | default_bluetooth_library/src/main/java/com/ruuvi/station/bluetooth/gatt/NordicGattManager.kt:183 | a list with no all-zero reading is kept as it is |
| GattLog.RemoveAllZeroIdempotent | default_bluetooth_library/src/main/java/com/ruuvi/station/bluetooth/gatt/NordicGattManager.kt:183 | removing twice removes nothing more |
| GattLog.RemoveAllZeroKeepsDatesUnique | default_bluetooth_library/src/main/java/com/ruuvi/station/bluetooth/gatt/NordicGattManager.kt:183 | removal keeps time stamps unique |
| GattLog.RemoveAllZeroExample | default_bluetooth_library/src/main/java/com/ruuvi/station/bluetooth/gatt/NordicGattManager.kt:183 | an all-zero reading is dropped and a real one kept |
| GattLog.Seconds | default_bluetooth_library/src/main/java/com/ruuvi/station/bluetooth/gatt/NordicGattManager.kt:229-233 | `millis / 1000` on a Long truncates toward zero |
| GattLog.ReadCommand | default_bluetooth_library/src/main/java/com/ruuvi/station/bluetooth/gatt/NordicGattManager.kt:228-237 | the read command is 11 bytes |
| GattLog.ReadCommandLayout | default_bluetooth_library/src/main/java/com/ruuvi/station/bluetooth/gatt/NordicGattManager.kt:228-237 | bytes 0-2 are 3A 3A 11, bytes 3-6 the current time in seconds and bytes 7-10 the start in seconds (0 when null), each modulo 2^32 and big-endian |
| NordicGatt.StreamRequests | default_bluetooth_library/src/main/java/com/ruuvi/station/bluetooth/gatt/NordicGattManager.kt:143-175 | subscribing ends with writing the read command to RX |
| NordicGatt.DisconnectEffects | default_bluetooth_library/src/main/java/com/ruuvi/station/bluetooth/gatt/NordicGattManager.kt:130-141 | `executeDisconnect` queues a disconnect first and never writes to RX |
| NordicGatt.StreamsIffGatePasses | default_bluetooth_library/src/main/java/com/ruuvi/station/bluetooth/gatt/NordicGattManager.kt:99-113 | logs are streamed exactly when the firmware passes the check in a log session |
| NordicGatt.NordicGattManager.constructor | default_bluetooth_library/src/main/java/com/ruuvi/station/bluetooth/gatt/NordicGattManager.kt:17-33 | no listener, a log session by default, nothing read |
| NordicGatt.NordicGattManager.SetCallBack | default_bluetooth_library/src/main/java/com/ruuvi/station/bluetooth/gatt/NordicGattManager.kt:37-39 | only the listener changes |
| NordicGatt.NordicGattManager.ClearState | default_bluetooth_library/src/main/java/com/ruuvi/station/bluetooth/gatt/NordicGattManager.kt:58-65 | empties the batch and the three identity strings, nothing else |
| NordicGatt.NordicGattManager.GetLogs | default_bluetooth_library/src/main/java/com/ruuvi/station/bluetooth/gatt/NordicGattManager.kt:42-48 | clears the state, starts a log session from the given time and requests a connection; the session stays valid |
| NordicGatt.NordicGattManager.GetVersion | default_bluetooth_library/src/main/java/com/ruuvi/station/bluetooth/gatt/NordicGattManager.kt:50-56 | the same with a version session and no start time |
| NordicGatt.NordicGattManager.ExecuteDisconnect | default_bluetooth_library/src/main/java/com/ruuvi/station/bluetooth/gatt/NordicGattManager.kt:130-141 | a disconnect request, then `connected(false)` on every call |
| NordicGatt.NordicGattManager.IsRequiredServiceSupported | default_bluetooth_library/src/main/java/com/ruuvi/station/bluetooth/gatt/NordicGattManager.kt:286-305 | reports `connected(true)` and accepts exactly when both services exist |
| NordicGatt.NordicGattManager.Initialize | default_bluetooth_library/src/main/java/com/ruuvi/station/bluetooth/gatt/NordicGattManager.kt:239-284 | queues the firmware, model and manufacturer reads, in that order |
| NordicGatt.NordicGattManager.CheckIfInfoCollected | default_bluetooth_library/src/main/java/com/ruuvi/station/bluetooth/gatt/NordicGattManager.kt:99-113 | nothing until all three strings are known; then `deviceInfo(model, raw firmware, gate)`, then streaming (gate and log session) or a disconnect; a version session never sends the read command |
| NordicGatt.NordicGattManager.OnInfoRead | default_bluetooth_library/src/main/java/com/ruuvi/station/bluetooth/gatt/NordicGattManager.kt:242-276 | stores the string read, then checks the collection |
| NordicGatt.NordicGattManager.ProcessData | default_bluetooth_library/src/main/java/com/ruuvi/station/bluetooth/gatt/NordicGattManager.kt:177-226 | a heartbeat only reports; the end marker removes the all-zero readings, delivers the rest and disconnects, without parsing the frame as data; a data frame is accumulated with the null sentinel; the throwing inputs change nothing; the batch invariant holds afterwards |
| LegacyGatt.GattConnection.constructor | default_bluetooth_library/src/main/java/com/ruuvi/station/bluetooth/GattConnection.kt:16-31 | the field initialisers: a log session, nothing read, no retry spent |
| LegacyGatt.GattConnection.SetOnRuuviGattUpdate | default_bluetooth_library/src/main/java/com/ruuvi/station/bluetooth/GattConnection.kt:33-35 | only the listener changes |
| LegacyGatt.GattConnection.ResetState | default_bluetooth_library/src/main/java/com/ruuvi/station/bluetooth/GattConnection.kt:41-44 | the retry counter restarts at 0 and the connection is closed; before any `connect` the unset `lateinit` connection makes the call throw after the counter is reset |
| LegacyGatt.GattConnection.WriteRxCharacteristic | default_bluetooth_library/src/main/java/com/ruuvi/station/bluetooth/GattConnection.kt:46-56 | true exactly when RX exists and the write is accepted; the write is issued only when RX exists |
| LegacyGatt.GattConnection.ReadCharacteristic | default_bluetooth_library/src/main/java/com/ruuvi/station/bluetooth/GattConnection.kt:58-72 | a read request, or a disconnect when the service or characteristic is missing |
| LegacyGatt.GattConnection.RegisterToNordicRxTx | default_bluetooth_library/src/main/java/com/ruuvi/station/bluetooth/GattConnection.kt:74-93 | enables TX notifications and writes the descriptor, or disconnects when TX is missing |
| LegacyGatt.GattConnection.ReadLog | default_bluetooth_library/src/main/java/com/ruuvi/station/bluetooth/GattConnection.kt:95-111 | the session is finishing; the read command goes to RX, and a failed write disconnects; `shouldReadLogs` is not cleared |
| LegacyGatt.GattConnection.Connect | default_bluetooth_library/src/main/java/com/ruuvi/station/bluetooth/GattConnection.kt:113-123 | clears logs and synced points, sets shouldReadLogs and clears shouldFinish, keeps the start date; true exactly when a connection object was created |
| LegacyGatt.GattConnection.GetFwVersion | default_bluetooth_library/src/main/java/com/ruuvi/station/bluetooth/GattConnection.kt:125-133 | clears shouldReadLogs, sets shouldGetFw, leaves syncedPoints untouched |
| LegacyGatt.GattConnection.Disconnect | default_bluetooth_library/src/main/java/com/ruuvi/station/bluetooth/GattConnection.kt:135-138 | the session finishes, so the coming drop is not retried; before any `connect` the unset `lateinit` connection makes the call throw after the flag is set |
| LegacyGatt.GattConnection.OnConnected | default_bluetooth_library/src/main/java/com/ruuvi/station/bluetooth/GattConnection.kt:147-162 | a finishing session disconnects without reporting `connected(true)`; otherwise it reports and discovers services |
| LegacyGatt.GattConnection.OnDisconnected | default_bluetooth_library/src/main/java/com/ruuvi/station/bluetooth/GattConnection.kt:163-174 | the retry rule of the disconnection step; the session stays valid |
| LegacyGatt.GattConnection.OnDisconnectSettled | default_bluetooth_library/src/main/java/com/ruuvi/station/bluetooth/GattConnection.kt:177-179 | the delayed timer clears `isConnected` only |
| LegacyGatt.GattConnection.OnServicesDiscovered | default_bluetooth_library/src/main/java/com/ruuvi/station/bluetooth/GattConnection.kt:183-188 | on success the manufacturer is read first |
| LegacyGatt.GattConnection.OnCharacteristicRead | default_bluetooth_library/src/main/java/com/ruuvi/station/bluetooth/GattConnection.kt:190-236 | identity is read manufacturer, then model, then firmware; any failed read disconnects |
| LegacyGatt.GattConnection.OnFirmwareRead | default_bluetooth_library/src/main/java/com/ruuvi/station/bluetooth/GattConnection.kt:205-231 | the legacy check: on success `deviceInfo(model, stripped firmware, true)` and a subscription; otherwise shouldFinish, `deviceInfo(..., false)` and a disconnect |
| LegacyGatt.GattConnection.OnCharacteristicChanged | default_bluetooth_library/src/main/java/com/ruuvi/station/bluetooth/GattConnection.kt:246-305 | the whole notification handler, as the step `Changed` with its throws; the session stays valid |
| LegacyGatt.GattConnection.OnHeartbeat | default_bluetooth_library/src/main/java/com/ruuvi/station/bluetooth/GattConnection.kt:252-261 | reports the heartbeat and, in a log session, calls `readLog` |
| LegacyGatt.GattConnection.DeliverLogs | default_bluetooth_library/src/main/java/com/ruuvi/station/bluetooth/GattConnection.kt:263-277 | removes all-zero readings, delivers and disconnects |
| LegacyGatt.GattConnection.AccumulateFrame | default_bluetooth_library/src/main/java/com/ruuvi/station/bluetooth/GattConnection.kt:278-303 | accumulates a data frame with no null sentinel for humidity and pressure |
| LegacyGatt.EndOfStreamKeepsValid | default_bluetooth_library/src/main/java/com/ruuvi/station/bluetooth/GattConnection.kt:263-277 | the end of the stream keeps dates unique and the count above the list length |
| LegacyGatt.FrameStepKeepsValid | default_bluetooth_library/src/main/java/com/ruuvi/station/bluetooth/GattConnection.kt:278-303 | a data frame keeps the session invariant |
| LegacyGatt.ChangedKeepsValid | default_bluetooth_library/src/main/java/com/ruuvi/station/bluetooth/GattConnection.kt:246-305 | every notification keeps the session invariant |
| LegacyGatt.ChangedThrows | default_bluetooth_library/src/main/java/com/ruuvi/station/bluetooth/GattConnection.kt:251-280 | the handler throws exactly on a missing or empty value and on a non-heartbeat frame shorter than 11 bytes; a throw after the end marker keeps the delivered batch, any other throw changes nothing |
| LegacyGatt.HeartbeatSendsCommand | default_bluetooth_library/src/main/java/com/ruuvi/station/bluetooth/GattConnection.kt:252-261 | every heartbeat of a log session sends the read command again (when RX exists), leaving the batch alone; a version session only reports |
| LegacyGatt.DisconnectStepSpendsRetry | default_bluetooth_library/src/main/java/com/ruuvi/station/bluetooth/GattConnection.kt:163-174 | each drop reconnects only while retries are left and spends one when it does; the counter never goes down |
| LegacyGatt.RetriesAreBounded | default_bluetooth_library/src/main/java/com/ruuvi/station/bluetooth/GattConnection.kt:163-174 | however often the link drops, a session from counter 0 reconnects at most MAX_CONNECT_RETRY - 1 = 2 times |
| LegacyGatt.DropAfterRetriesIsFinal | default_bluetooth_library/src/main/java/com/ruuvi/station/bluetooth/GattConnection.kt:163-174 | once the retries are spent, or the session is finishing, a drop reports `connected(false)` and closes |
| LegacyGatt.VersionRetryReadsLogs | default_bluetooth_library/src/main/java/com/ruuvi/station/bluetooth/GattConnection.kt:163-165 | a retried version session becomes a log session, so the firmware gate may stream logs nobody asked for |
| LegacyGatt.RetryKeepsSessionKind | default_bluetooth_library/src/main/java/com/ruuvi/station/bluetooth/GattConnection.kt:163-165 | the corrected retry keeps the kind of session and otherwise behaves as the handler does |
| LegacyGatt.FrameStepOfNewTime | default_bluetooth_library/src/main/java/com/ruuvi/station/bluetooth/GattConnection.kt:282-291 | a frame with a new time appends one reading for it and counts one more point |
| LegacyGatt.EndMarkerAlsoAccumulated | default_bluetooth_library/src/main/java/com/ruuvi/station/bluetooth/GattConnection.kt:263-291 | an 11-byte end marker is delivered and then also parsed as data, adding a reading at 2^32-1 seconds and one more synced point |
| LegacyGatt.AllOnesTime | default_bluetooth_library/src/main/java/com/ruuvi/station/bluetooth/GattConnection.kt:279-281 | an end marker read as a data frame carries the time 2^32-1 seconds, in milliseconds |
| TagScanner.ShouldDeliver | default_bluetooth_library/src/main/java/com/ruuvi/station/bluetooth/RuuviTagScanner.kt:156-174 | a tag without a sequence number, without an id, or with an id not yet stored is delivered |
| TagScanner.Remembered | default_bluetooth_library/src/main/java/com/ruuvi/station/bluetooth/RuuviTagScanner.kt:163-167 | the stored sequence changes only on delivery with id and sequence present, other ids keep their entries, and no key but the tag's id is added |
| TagScanner.DeliveredUntilSequenceChanges | default_bluetooth_library/src/main/java/com/ruuvi/station/bluetooth/RuuviTagScanner.kt:156-174 | after a delivery, a tag with the same id is delivered exactly when its sequence is absent or different |
| TagScanner.SuppressedChangesNothing | default_bluetooth_library/src/main/java/com/ruuvi/station/bluetooth/RuuviTagScanner.kt:157-170 | a suppressed tag has an id and the stored sequence, and leaves the map as it was |
| TagScanner.SequenceExamples | default_bluetooth_library/src/main/java/com/ruuvi/station/bluetooth/RuuviTagScanner.kt:156-174 | 10 then 10 delivers only the first; 10 then 11 delivers both |
| TagScanner.RuuviTagScanner.constructor | default_bluetooth_library/src/main/java/com/ruuvi/station/bluetooth/RuuviTagScanner.kt:22-37 | no listener, no devices, no managers, not scanning |
| TagScanner.RuuviTagScanner.StartScanning | default_bluetooth_library/src/main/java/com/ruuvi/station/bluetooth/RuuviTagScanner.kt:52-69 | a no-op when scanning is impossible or already running; otherwise keeps the listener and starts a scan |
| TagScanner.RuuviTagScanner.StopScanning | default_bluetooth_library/src/main/java/com/ruuvi/station/bluetooth/RuuviTagScanner.kt:120-125 | when scanning is impossible the flag stays set; otherwise the scan stops and the flag clears |
| TagScanner.RuuviTagScanner.Connect | default_bluetooth_library/src/main/java/com/ruuvi/station/bluetooth/RuuviTagScanner.kt:78-92 | true exactly for a known device; the existing manager is reused or exactly one new one is stored; it gets the listener and a log session |
| TagScanner.RuuviTagScanner.GetFwVersion | default_bluetooth_library/src/main/java/com/ruuvi/station/bluetooth/RuuviTagScanner.kt:94-108 | the same with a version session |
| TagScanner.RuuviTagScanner.ManagerFor | default_bluetooth_library/src/main/java/com/ruuvi/station/bluetooth/RuuviTagScanner.kt:82-86 | the address's manager, a new one stored when there is none |
| TagScanner.RuuviTagScanner.Disconnect | default_bluetooth_library/src/main/java/com/ruuvi/station/bluetooth/RuuviTagScanner.kt:110-117 | true exactly when a manager exists; it disconnects, and none is created |
| TagScanner.RuuviTagScanner.OnScanResult | default_bluetooth_library/src/main/java/com/ruuvi/station/bluetooth/RuuviTagScanner.kt:128-148 | absent or unparsable results change nothing; only named results overwrite the device of their address; connectable is "named, or its manager is connected"; the tag goes through de-duplication |
| TagScanner.RuuviTagScanner.SendDataToListener | default_bluetooth_library/src/main/java/com/ruuvi/station/bluetooth/RuuviTagScanner.kt:156-174 | delivers when `ShouldDeliver` and records the sequence as `Remembered` |
| RangeNotifier.IndexOfAddress | default_bluetooth_library/src/main/java/com/ruuvi/station/bluetooth/RuuviRangeNotifier.kt:128 | the index of the first device with the address, or -1 exactly when there is none |
| RangeNotifier.UpsertKeepsAddressesUnique | default_bluetooth_library/src/main/java/com/ruuvi/station/bluetooth/RuuviRangeNotifier.kt:126-134 | the upsert keeps addresses unique |
| RangeNotifier.UpsertPlacesDevice | default_bluetooth_library/src/main/java/com/ruuvi/station/bluetooth/RuuviRangeNotifier.kt:128-133 | the device replaces the entry of its address at its index, or is appended; other entries keep their places |
| RangeNotifier.UpsertIdempotent | default_bluetooth_library/src/main/java/com/ruuvi/station/bluetooth/RuuviRangeNotifier.kt:126-134 | repeating a named result changes nothing more |
| RangeNotifier.RuuviRangeNotifier.constructor | default_bluetooth_library/src/main/java/com/ruuvi/station/bluetooth/RuuviRangeNotifier.kt:25-35 | empty lists, not scanning, and a crash resolver that loaded its state file |
| RangeNotifier.RuuviRangeNotifier.StartScanning | default_bluetooth_library/src/main/java/com/ruuvi/station/bluetooth/RuuviRangeNotifier.kt:50-67 | a no-op when scanning is impossible or already running; otherwise starts the scan and the crash resolver |
| RangeNotifier.RuuviRangeNotifier.StopScanning | default_bluetooth_library/src/main/java/com/ruuvi/station/bluetooth/RuuviRangeNotifier.kt:106-111 | the flag stays set when scanning is impossible; the crash resolver keeps running |
| RangeNotifier.RuuviRangeNotifier.Connect | default_bluetooth_library/src/main/java/com/ruuvi/station/bluetooth/RuuviRangeNotifier.kt:71-80 | true exactly when the address is in the list; each success appends a new connection, so an address can have several |
| RangeNotifier.RuuviRangeNotifier.OnScanResult | default_bluetooth_library/src/main/java/com/ruuvi/station/bluetooth/RuuviRangeNotifier.kt:116-139 | named results are upserted and unnamed ones leave the list alone; every parsed result is forwarded with connectable == named, without de-duplication; addresses stay unique |
| CrashResolver.Inc32 | default_bluetooth_library/src/main/java/com/ruuvi/station/bluetooth/BluetoothCrashResolver.java:212 | `++` on an int: congruent to n + 1 modulo 2^32, and n + 1 below the maximum |
| CrashResolver.ClockDifferenceIsLong | default_bluetooth_library/src/main/java/com/ruuvi/station/bluetooth/BluetoothCrashResolver.java:263-270 | two `elapsedRealtime` readings differ by a Long, so `now - lastStateSaveTime` and the off-interval subtraction never wrap |
| Primitives.ToInt32 | default_bluetooth_library/src/main/java/com/ruuvi/station/bluetooth/util/extensions/ByteArray.kt:6-15 | a 32-bit pattern read as an Int is in range and congruent to the pattern modulo 2^32 |
| Primitives.ToInt64 | default_bluetooth_library/src/main/java/com/ruuvi/station/bluetooth/util/extensions/ByteArray.kt:17-26 | a 64-bit pattern read as a Long is in range and congruent to the pattern modulo 2^64 |
| CrashResolver.SaveLoadRoundTrip | default_bluetooth_library/src/main/java/com/ruuvi/station/bluetooth/BluetoothCrashResolver.java:367-445 | a file written for Java-range values reads back as those values, its addresses added to the known ones |
| CrashResolver.HeaderRoundTrip | default_bluetooth_library/src/main/java/com/ruuvi/station/bluetooth/BluetoothCrashResolver.java:375-378 | the four header lines read back whole |
| CrashResolver.HeaderParses | default_bluetooth_library/src/main/java/com/ruuvi/station/bluetooth/BluetoothCrashResolver.java:407-425 | each written number parses back, and the flag line is "1" exactly when the flag was set |
| CrashResolver.HeaderLines | default_bluetooth_library/src/main/java/com/ruuvi/station/bluetooth/BluetoothCrashResolver.java:375-378 | the header is the crash time, crash count and attempt count in decimal, then "1" or "0" |
| CrashResolver.MacLinesOfSaved | default_bluetooth_library/src/main/java/com/ruuvi/station/bluetooth/BluetoothCrashResolver.java:379-384 | the saved address lines are the saved set |
| CrashResolver.SavedStateRestores | default_bluetooth_library/src/main/java/com/ruuvi/station/bluetooth/BluetoothCrashResolver.java:103-106 | what a resolver saved is what a new resolver over that file starts with |
| CrashResolver.LoadStopsAtBadNumber | default_bluetooth_library/src/main/java/com/ruuvi/station/bluetooth/BluetoothCrashResolver.java:409-435 | a crash count that does not parse stops the reading, keeping the crash time already read |
| CrashResolver.LoadedFlag | default_bluetooth_library/src/main/java/com/ruuvi/station/bluetooth/BluetoothCrashResolver.java:419-425 | the success flag changes only on a fourth line, and becomes true only for "1"; without a valid crash time nothing changes |
| CrashResolver.RecoveryNeedsManyAddresses | default_bluetooth_library/src/main/java/com/ruuvi/station/bluetooth/BluetoothCrashResolver.java:176-199 | a scan starts recovery only when at least 1590 other addresses were seen; re-reporting an address never grows the set |
| CrashResolver.RecoveryStepCounts | default_bluetooth_library/src/main/java/com/ruuvi/station/bluetooth/BluetoothCrashResolver.java:274-304 | every attempt is counted; a recovery is in progress afterwards exactly when one was or the adapter was not discovering; discovery starts exactly then; flag and set untouched |
| CrashResolver.CrashStepCounts | default_bluetooth_library/src/main/java/com/ruuvi/station/bluetooth/BluetoothCrashResolver.java:201-222 | each crash is counted and timed, and starts a recovery only when none is in progress |
| CrashResolver.BluetoothCrashResolver.constructor | default_bluetooth_library/src/main/java/com/ruuvi/station/bluetooth/BluetoothCrashResolver.java:103-106 | the initial fields with the state file loaded over them |
| CrashResolver.BluetoothCrashResolver.Start | default_bluetooth_library/src/main/java/com/ruuvi/station/bluetooth/BluetoothCrashResolver.java:113-121 | registers the receiver, nothing else |
| CrashResolver.BluetoothCrashResolver.Stop | default_bluetooth_library/src/main/java/com/ruuvi/station/bluetooth/BluetoothCrashResolver.java:127-131 | unregisters the receiver and saves the state |
| CrashResolver.BluetoothCrashResolver.SetUpdateNotifier | default_bluetooth_library/src/main/java/com/ruuvi/station/bluetooth/BluetoothCrashResolver.java:242-244 | only the notifier changes |
| CrashResolver.BluetoothCrashResolver.NotifyScannedDevice | default_bluetooth_library/src/main/java/com/ruuvi/station/bluetooth/BluetoothCrashResolver.java:176-199 | the address joins the set; above 1590 addresses with no recovery running, a recovery starts and the change is processed |
| CrashResolver.BluetoothCrashResolver.CrashDetected | default_bluetooth_library/src/main/java/com/ruuvi/station/bluetooth/BluetoothCrashResolver.java:201-222 | ignored below API 18; otherwise the crash step, then the change processed |
| CrashResolver.BluetoothCrashResolver.ForceFlush | default_bluetooth_library/src/main/java/com/ruuvi/station/bluetooth/BluetoothCrashResolver.java:249-252 | a recovery step, then the change processed |
| CrashResolver.BluetoothCrashResolver.ProcessStateChange | default_bluetooth_library/src/main/java/com/ruuvi/station/bluetooth/BluetoothCrashResolver.java:263-270 | the notifier hears of the change, and the state is saved only when the last save is more than 60000 ms old |
| CrashResolver.BluetoothCrashResolver.StartRecovery | default_bluetooth_library/src/main/java/com/ruuvi/station/bluetooth/BluetoothCrashResolver.java:274-304 | the recovery step |
| CrashResolver.BluetoothCrashResolver.FinishRecovery | default_bluetooth_library/src/main/java/com/ruuvi/station/bluetooth/BluetoothCrashResolver.java:305-311 | clears the set and ends the recovery |
| CrashResolver.BluetoothCrashResolver.OnDiscoveryFinished | default_bluetooth_library/src/main/java/com/ruuvi/station/bluetooth/BluetoothCrashResolver.java:318-326 | during a recovery it clears the set and ends the recovery; otherwise it changes nothing |
| CrashResolver.BluetoothCrashResolver.OnDiscoveryStarted | default_bluetooth_library/src/main/java/com/ruuvi/station/bluetooth/BluetoothCrashResolver.java:327-335 | confirms a recovery's discovery and nothing else |
| CrashResolver.BluetoothCrashResolver.OnStateChanged | default_bluetooth_library/src/main/java/com/ruuvi/station/bluetooth/BluetoothCrashResolver.java:337-362 | OFF and TURNING_ON record the time; ON is a crash exactly when turning on began less than 600 ms after off; ERROR and TURNING_OFF change nothing |
| CrashResolver.BluetoothCrashResolver.SaveState | default_bluetooth_library/src/main/java/com/ruuvi/station/bluetooth/BluetoothCrashResolver.java:367-397 | records the save time and writes the header and one line per address, in some order of the set |
| CrashResolver.BluetoothCrashResolver.LoadState | default_bluetooth_library/src/main/java/com/ruuvi/station/bluetooth/BluetoothCrashResolver.java:399-445 | reads the file's values over the current ones; a missing file changes nothing |
| CrashResolver.BluetoothCrashResolver.LoadHeader | default_bluetooth_library/src/main/java/com/ruuvi/station/bluetooth/BluetoothCrashResolver.java:406-425 | reads the four header lines, stopping at the first number that does not parse, and says whether the address lines follow |

## Left out

- Android plumbing. This covers the lifecycle, services, alarms, permissions and
  `BluetoothInteractor`. It also covers `BluetoothLibrary.getBluetoothInteractor`
  and `BluetoothLibrary.decode`, which need `LeScanResult`. `LeScanResult` is not
  part of this model.
- Advertisement parsing (`LeScanResult.parse`) and the other data-format decoders
  are not part of this model. The scanners take the parse result as a parameter.
- Scan filters and scan settings (`getScanFilters`, `scanSettings`) are not
  modelled; they only configure the platform scanner.
- `onScanFailed` is not modelled; it only logs.
- Nordic `BleManager` requests: retry(3, 1000), timeouts, PHY and connection
  priority. These live in a foreign library. A failed request is modelled as a
  call to `ExecuteDisconnect`, and a manager's `isConnected` is a parameter.
- `onConnectionUpdated`, `onDeviceReady` and `onServicesInvalidated` are not
  modelled; they only log or forget characteristic handles.
- `SemVer.parse` belongs to an outside library. `SemVer` models the Semantic
  Versioning 2.0.0 text form. Version order is section 11 of that standard,
  restricted to comparison against a release, since the only version ever
  compared against is 3.28.12.
- Floating point is left out:
  - scaled values are exact reals;
  - `BigDecimal(double)` conversion is not modelled;
  - the `toFloat()` step of the humidity value is not modelled, in the current
    variant (`NordicGattManager.kt:211`) or the legacy one (`GattConnection.kt:297`).

  `DecodeFormatC5.RoundHalfUp` is HALF_UP on exact reals.
- Clocks are left out. `System.currentTimeMillis` and `SystemClock.elapsedRealtime`
  become parameters.
- The 1500 ms `Timer` is the separate event `OnDisconnectSettled`.
- The five-second `Thread.sleep` in `cancelDiscovery` is not modelled.
  Broadcasts that arrive during that sleep are not modelled either.
- Concurrency is left out: `ConcurrentHashMap`, `AtomicBoolean` and the
  `synchronized` blocks become single-threaded maps, flags and sets.
- Timber logging is left out.
- File streams and `IOException` paths are left out. The crash resolver's state
  file is a sequence of lines, or `None` when there is none; a write always
  succeeds.
- `CrashResolver.SaveLoadRoundTrip` assumes no address contains a line break,
  since such an address would split into two lines. The enumeration order of the
  `HashSet` is left open: any order of the set is accepted.
- `receiver` dispatches on the broadcast action. That dispatch is modelled as
  three methods, one per action. An `EXTRA_STATE` value the switch does not name
  behaves as ERROR.
- `enableDebug`, `disableDebug` and the crash resolver's getters are not modelled.
  The first two are deprecated no-ops, and the getters only read fields.
- `BLUEDROID_MAX_BLUETOOTH_MAC_COUNT` and `PREEMPTIVE_ACTION_ENABLED` are folded
  into the model: the count appears only as the risk threshold, and the flag is
  always true.
- `RangeNotifier.RuuviRangeNotifier.Connect` does not keep `readLogsFrom`. The
  three-argument `GattConnection` constructor that `RuuviRangeNotifier.kt:74` calls
  does not exist in `GattConnection.kt`, so a plain connection with the listener
  set is appended.
- `FoundRuuviTag` is modelled as a class with its fields and setters, but the tag
  delivered to a listener is a value snapshot of it, not the shared object.
- LegacyGatt.GattConnection.DeliverLogs: the listener receives a copy of the
  readings. The source hands over the live `logs` list (`GattConnection.kt:271`).
  It then changes that list in place: the end-marker fall-through adds a reading
  (lines 287-302), and a later `connect` or `getFwVersion` clears it (lines 117
  and 129). A listener that keeps the list sees those changes; the model's
  `DataReady` does not. The current variant also hands over its live list
  (`NordicGattManager.kt:184`), but `clearState` replaces the list rather than
  clearing it, so only data frames that arrive after the end marker could change
  what its listener holds.
- Strings.FirstDigitIndex: only the ASCII digits 0-9 count as digits. Kotlin's
  `Char.isDigit()` accepts every Unicode decimal digit, so a firmware text such as
  "v\u0663.1" is cut at a different place in the source.
- Strings.ParseInteger: only ASCII digits are accepted. `Long.parseLong` and
  `Integer.parseInt` accept any character that `Character.digit` maps to a
  decimal value, so some non-ASCII numbers that the source reads back are
  rejected here. Text written by `saveState` is always ASCII.
- LegacyGatt.GattConnection.OnDisconnected: `retryConnectionCounter` grows
  without bound, where Java's `++` would wrap after 2^31 drops. The same holds for
  `syncedPoints` (`GattConnection.kt:289`, `NordicGattManager.kt:198`), which
  would wrap after 2^31 distinct time stamps in one session. Neither count
  approaches that in a session, so the model keeps both as unbounded naturals.
- DecodeFormatC5.Decode: requires the bytes offset+1 to offset+11 to exist. On a
  truncated advertisement the source throws `ArrayIndexOutOfBoundsException`
  (`DecodeFormatC5.java:15-28`). That throw is not modelled. The caller that checks
  the length, `LeScanResult`, is not part of this model.
- `toInt` beyond four bytes and `toLong` beyond eight are excluded by
  precondition, because the shift count wraps there.
- `hexStringToByteArray` with an odd length throws, so even length is a
  precondition.
- The legacy heartbeat check `data[0] == 5` and the Nordic one read the first byte
  only. A null characteristic value is a throw in the legacy handler and is
  ignored in the Nordic one, as the source does.

## Findings

| source | as written | input that shows it | evidently intended | confidence | as-written member | corrected member |
|---|---|---|---|---|---|---|
| default_bluetooth_library/src/main/java/com/ruuvi/station/bluetooth/GattConnection.kt:163-165 | a dropped link retries through `connect(context, syncFrom)`, which sets `shouldReadLogs`, even when the session came from `getFwVersion` | a version session (`shouldReadLogs` false) whose link drops once before the firmware is read; after the retry, a firmware of 3.28.12 or above streams the logs | a retry that keeps the kind of session: `getFwVersion` for a version session | medium, not executed | LegacyGatt.VersionRetryReadsLogs | LegacyGatt.RetryKeepsSessionKind |
| default_bluetooth_library/src/main/java/com/ruuvi/station/bluetooth/GattConnection.kt:263-291 | the end marker is delivered, then falls through to the data-frame parser, because there is no `else` | an 11-byte frame whose last eight bytes are FF, with no reading at 2^32-1 seconds: one more reading and one more synced point after `dataReady` | the end marker is not a data frame, as in the current variant's `else if` | high, not executed | LegacyGatt.EndMarkerAlsoAccumulated | NordicGatt.NordicGattManager.ProcessData |
| default_bluetooth_library/src/main/java/com/ruuvi/station/bluetooth/decoder/DecoderUtils.kt:15-22 | on a mismatch the flags reset without checking again the current byte as a new FF | FF FF 99 04, and FF 99 FF 99 04: both give null | the offset after the first FF 99 04 in the advertisement | medium, not executed | DecoderUtils.DoubledFFMissed | DecoderUtils.FirstHeaderOffset |

For the second finding, the current variant's `processData` has the `else`. The
legacy handler is modelled as written: `LegacyGatt.Changed` delivers, then
accumulates.
