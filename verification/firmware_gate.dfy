/** The firmware checks that decide whether a tag can stream its stored history:
    `canReadLogs` of the Nordic GATT session (gatt/NordicGattManager.kt) and the
    inline check of the legacy session's firmware read (GattConnection.kt). Both
    skip to the first digit of the firmware string and parse the rest as a semantic
    version; the legacy one also lets any "debug" build through. */
module FirmwareGate {
  import opened Primitives
  import opened Strings
  import opened SemVer

  /** `canReadLogs()`: no firmware, no digit or a parse failure mean no; otherwise
      the version from the first digit on must be at least 3.28.12. */
  function CanReadLogs(firmware: Option<string>): bool
  {
    match firmware
    case None => false
    case Some(f) =>
      var i := FirstDigitIndex(f);
      if i == -1 then false
      else match Parse(f[i..])
        case None => false
        case Some(v) => AtLeast(v, SUPPORT_LOGGING_VERSION)
  }

  /** What the legacy firmware read decides: whether to go on to read logs, and the
      firmware text it reports with `deviceInfo`. */
  datatype GateResult = GateResult(readLogs: bool, shownFirmware: string)

  /** The legacy check. Without a digit, `subSequence(-1, length)` throws and the
      unstripped text is reported with false; otherwise the text from the first digit
      on is reported, and logs are read when they were asked for and the version is a
      debug build or at least 3.28.12. */
  function LegacyGate(shouldReadLogs: bool, raw: string): GateResult
  {
    var i := FirstDigitIndex(raw);
    if i == -1 then GateResult(false, raw)
    else
      var stripped := raw[i..];
      match Parse(stripped)
      case None => GateResult(false, stripped)
      case Some(v) => GateResult(shouldReadLogs && (IsDebug(v) || AtLeast(v, SUPPORT_LOGGING_VERSION)), stripped)
  }

  /** A text with no digit in it. */
  predicate NoDigits(p: string)
  {
    forall k :: 0 <= k < |p| ==> !IsDigit(p[k])
  }

  lemma RenderStartsWithDigit(v: Version)
    ensures |Render(v)| >= 1 && IsDigit(Render(v)[0])
  {
    assert Render(v)[0] == NatToDecimal(v.major)[0];
  }

  lemma FirstDigitAfterPrefix(p: string, v: Version)
    requires NoDigits(p)
    ensures FirstDigitIndex(p + Render(v)) == |p| && (p + Render(v))[|p|..] == Render(v)
  {
    RenderStartsWithDigit(v);
    var s := p + Render(v);
    assert s[|p|] == Render(v)[0];
  }

  /** A firmware text made of a digit-free prefix (such as "v") and the rendering of
      a version can read logs exactly when that version is at least 3.28.12. */
  lemma CanReadLogsOfVersion(p: string, v: Version)
    requires NoDigits(p) && WellFormed(v)
    ensures CanReadLogs(Some(p + Render(v))) <==> AtLeast(v, SUPPORT_LOGGING_VERSION)
  {
    FirstDigitAfterPrefix(p, v);
    ParseRender(v);
  }

  /** The cases that never read logs: no firmware, and firmware without a digit. */
  lemma CanReadLogsNeedsDigits(f: string)
    ensures !CanReadLogs(None)
    ensures NoDigits(f) ==> !CanReadLogs(Some(f))
  {
  }

  /** The legacy gate reports the firmware from its first digit on, or the whole text
      when it has no digit, whatever it decides about logs. */
  lemma LegacyGateShownFirmware(shouldReadLogs: bool, raw: string)
    ensures FirstDigitIndex(raw) == -1 ==> LegacyGate(shouldReadLogs, raw) == GateResult(false, raw)
    ensures FirstDigitIndex(raw) >= 0 ==> LegacyGate(shouldReadLogs, raw).shownFirmware == raw[FirstDigitIndex(raw)..]
    ensures !shouldReadLogs ==> !LegacyGate(shouldReadLogs, raw).readLogs
  {
  }

  /** When logs are wanted, every firmware the Nordic session accepts is accepted by
      the legacy session too. */
  lemma NordicImpliesLegacy(raw: string)
    requires CanReadLogs(Some(raw))
    ensures LegacyGate(true, raw).readLogs
  {
  }

  const DEBUG_BUILD: Version := Version(3, 0, 0, None, Some("debug"))

  lemma DebugBuildText()
    ensures Parse("3.0.0+debug") == Some(DEBUG_BUILD)
    ensures FirstDigitIndex("3.0.0+debug") == 0
  {
    assert NatToDecimal(3) == "3" && NatToDecimal(0) == "0";
    assert CoreText(DEBUG_BUILD) == "3.0.0";
    assert Render(DEBUG_BUILD) == "3.0.0+debug";
    assert IsIdentifiers("debug");
    ParseRender(DEBUG_BUILD);
  }

  lemma LegacyOfDebugBuild()
    ensures LegacyGate(true, "3.0.0+debug").readLogs
  {
    DebugBuildText();
    var s := "3.0.0+debug";
    assert s[0..] == s;
    assert OccursAt("debug", "debug", 0);
    assert IsDebug(DEBUG_BUILD);
  }

  lemma NordicOfDebugBuild()
    ensures !CanReadLogs(Some("3.0.0+debug"))
  {
    DebugBuildText();
    var s := "3.0.0+debug";
    assert s[0..] == s;
  }

  /** The converse fails: a debug build of an old version passes only the legacy
      check. */
  lemma DebugBuildOnlyLegacy()
    ensures LegacyGate(true, "3.0.0+debug").readLogs
    ensures !CanReadLogs(Some("3.0.0+debug"))
  {
    LegacyOfDebugBuild();
    NordicOfDebugBuild();
  }
}
