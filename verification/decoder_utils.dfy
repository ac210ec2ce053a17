/** `DecoderUtils.getActualDataOffset` (decoder/DecoderUtils.kt): locates the
    manufacturer-specific-data header of a BLE advertisement, AD type 0xFF followed
    by the Ruuvi company identifier 0x0499 in little-endian order (99 04), and
    returns the index just past it, where the data-format byte sits. */
module DecoderUtils {
  import opened Primitives

  const BYTE0: Byte := 0xFF
  const BYTE1: Byte := 0x99
  const BYTE2: Byte := 0x04

  /** How much of the header the scan has matched so far: nothing, FF, or FF 99. */
  datatype Progress = Idle | SawFF | SawFF99

  /** The two flags `byte0Find` and `byte1Find` as a progress state. */
  function ProgressOf(byte0Find: bool, byte1Find: bool): Progress
  {
    if !byte0Find then Idle else if !byte1Find then SawFF else SawFF99
  }

  /** The header automaton run from position i in state st. It stops at the first
      completion and answers the index after the 04; on a mismatch it falls back
      to Idle without looking at the mismatching byte again. */
  function Scan(s: seq<Byte>, i: nat, st: Progress): Option<int>
    requires i <= |s|
    decreases |s| - i
  {
    if i == |s| then None
    else match st
      case Idle => Scan(s, i + 1, if s[i] == BYTE0 then SawFF else Idle)
      case SawFF => Scan(s, i + 1, if s[i] == BYTE1 then SawFF99 else Idle)
      case SawFF99 => if s[i] == BYTE2 then Some(i + 1) else Scan(s, i + 1, Idle)
  }

  /** The offset the automaton reports for a whole advertisement. */
  function MarkerOffset(s: seq<Byte>): Option<int>
  {
    Scan(s, 0, Idle)
  }

  /** The three header bytes FF 99 04 end just before index k. */
  predicate HeaderEndsAt(s: seq<Byte>, k: int)
  {
    3 <= k <= |s| && s[k - 3] == BYTE0 && s[k - 2] == BYTE1 && s[k - 1] == BYTE2
  }

  /** The automaton state st agrees with the bytes just before position i. */
  predicate Consistent(s: seq<Byte>, i: nat, st: Progress)
    requires i <= |s|
  {
    match st
    case Idle => true
    case SawFF => i >= 1 && s[i - 1] == BYTE0
    case SawFF99 => i >= 2 && s[i - 2] == BYTE0 && s[i - 1] == BYTE1
  }

  lemma {:induction false} ScanSound(s: seq<Byte>, i: nat, st: Progress)
    requires i <= |s| && Consistent(s, i, st)
    ensures Scan(s, i, st).Some? ==> HeaderEndsAt(s, Scan(s, i, st).value)
    decreases |s| - i
  {
    if i < |s| {
      match st
      case Idle =>
        ScanSound(s, i + 1, if s[i] == BYTE0 then SawFF else Idle);
      case SawFF =>
        ScanSound(s, i + 1, if s[i] == BYTE1 then SawFF99 else Idle);
      case SawFF99 =>
        if s[i] != BYTE2 {
          ScanSound(s, i + 1, Idle);
        }
    }
  }

  /** A reported offset k has FF 99 04 at k-3..k-1 and 3 <= k <= |s|, so k indexes
      the data-format byte and may equal the length. */
  lemma MarkerOffsetSound(s: seq<Byte>)
    ensures MarkerOffset(s).Some? ==> HeaderEndsAt(s, MarkerOffset(s).value)
  {
    ScanSound(s, 0, Idle);
  }

  /** No complete header anywhere gives null. */
  lemma NoHeaderNoOffset(s: seq<Byte>)
    requires forall k :: 3 <= k <= |s| ==> !HeaderEndsAt(s, k)
    ensures MarkerOffset(s) == None
  {
    MarkerOffsetSound(s);
  }

  /** Fewer than three bytes give null. */
  lemma ShortInputNoOffset(s: seq<Byte>)
    requires |s| < 3
    ensures MarkerOffset(s) == None
  {
    NoHeaderNoOffset(s);
  }

  lemma {:induction false} ScanReaches(s: seq<Byte>, j: nat, st: Progress, i: nat)
    requires j <= i && i + 3 <= |s| && HeaderEndsAt(s, i + 3)
    requires j < i ==> s[i - 1] != BYTE0 && s[i - 1] != BYTE1
    requires j == i ==> st == Idle
    ensures Scan(s, j, st).Some? && Scan(s, j, st).value <= i + 3
    decreases i - j
  {
    if j == i {
      assert Scan(s, i + 2, SawFF99) == Some(i + 3);
      assert Scan(s, i + 1, SawFF) == Scan(s, i + 2, SawFF99);
    } else {
      match st
      case Idle =>
        ScanReaches(s, j + 1, if s[j] == BYTE0 then SawFF else Idle, i);
      case SawFF =>
        ScanReaches(s, j + 1, if s[j] == BYTE1 then SawFF99 else Idle, i);
      case SawFF99 =>
        if s[j] != BYTE2 {
          ScanReaches(s, j + 1, Idle, i);
        }
    }
  }

  /** A header at the start, or right after a byte that is neither FF nor 99, is
      always found (possibly an earlier one is reported). */
  lemma HeaderAfterNeutralByteFound(s: seq<Byte>, i: nat)
    requires i + 3 <= |s| && HeaderEndsAt(s, i + 3)
    requires i > 0 ==> s[i - 1] != BYTE0 && s[i - 1] != BYTE1
    ensures MarkerOffset(s).Some? && MarkerOffset(s).value <= i + 3
  {
    ScanReaches(s, 0, Idle, i);
  }

  /** A doubled FF is not checked again after the mismatch: FF FF 99 04 gives null. */
  lemma DoubledFFMissed()
    ensures MarkerOffset([0xFF, 0xFF, 0x99, 0x04]) == None
  {
    var s: seq<Byte> := [0xFF, 0xFF, 0x99, 0x04];
    assert Scan(s, 2, Idle) == None;
  }

  /** The same for a repeated FF 99: FF 99 FF 99 04 gives null. */
  lemma RepeatedPrefixMissed()
    ensures MarkerOffset([0xFF, 0x99, 0xFF, 0x99, 0x04]) == None
  {
    var s: seq<Byte> := [0xFF, 0x99, 0xFF, 0x99, 0x04];
    assert Scan(s, 3, Idle) == None;
  }

  /** `getActualDataOffset`: one pass with the flags `byte0Find` and `byte1Find`,
      returning index + 1 at the first completion. The array is only read. */
  method GetActualDataOffset(rawData: array<Byte>) returns (r: Option<int>)
    ensures r == MarkerOffset(rawData[..])
    ensures r.Some? ==> HeaderEndsAt(rawData[..], r.value)
  {
    MarkerOffsetSound(rawData[..]);
    var byte0Find := false;
    var byte1Find := false;
    var index := 0;
    while index < rawData.Length
      invariant 0 <= index <= rawData.Length
      invariant byte1Find ==> byte0Find
      invariant MarkerOffset(rawData[..]) == Scan(rawData[..], index, ProgressOf(byte0Find, byte1Find))
    {
      var b := rawData[index];
      if byte0Find {
        if byte1Find {
          if b == BYTE2 {
            return Some(index + 1);
          } else {
            byte0Find := false;
            byte1Find := false;
          }
        } else {
          if b == BYTE1 {
            byte1Find := true;
          } else {
            byte0Find := false;
          }
        }
      } else {
        if b == BYTE0 {
          byte0Find := true;
        }
      }
      index := index + 1;
    }
    return None;
  }

  // ---- the header search as evidently intended ----

  /** The first complete header at or after position i: the least k >= i + 3 with
      FF 99 04 ending just before k, or None when there is none. */
  function FirstHeaderFrom(s: seq<Byte>, i: nat): (r: Option<int>)
    requires i <= |s|
    decreases |s| - i
    ensures r.Some? ==> i + 3 <= r.value && HeaderEndsAt(s, r.value)
    ensures r.Some? ==> forall k :: i + 3 <= k < r.value ==> !HeaderEndsAt(s, k)
    ensures r.None? <==> forall k :: i + 3 <= k <= |s| ==> !HeaderEndsAt(s, k)
  {
    if i + 3 > |s| then None
    else if s[i] == BYTE0 && s[i + 1] == BYTE1 && s[i + 2] == BYTE2 then
      assert HeaderEndsAt(s, i + 3); Some(i + 3)
    else FirstHeaderFrom(s, i + 1)
  }

  /** The offset just past the first header of the advertisement. */
  function FirstHeaderOffset(s: seq<Byte>): (r: Option<int>)
    ensures r.Some? <==> exists k :: HeaderEndsAt(s, k)
    ensures r.Some? ==> HeaderEndsAt(s, r.value) && forall k :: HeaderEndsAt(s, k) ==> r.value <= k
  {
    FirstHeaderFrom(s, 0)
  }

  /** Whatever the automaton reports is a header, so the first header is found at
      or before it; the inputs it misses are found too. */
  lemma FirstHeaderNotAfterMarker(s: seq<Byte>)
    ensures MarkerOffset(s).Some? ==> FirstHeaderOffset(s).Some? && FirstHeaderOffset(s).value <= MarkerOffset(s).value
    ensures FirstHeaderOffset([0xFF, 0xFF, 0x99, 0x04]) == Some(4)
    ensures FirstHeaderOffset([0xFF, 0x99, 0xFF, 0x99, 0x04]) == Some(5)
  {
    MarkerOffsetSound(s);
    var a: seq<Byte> := [0xFF, 0xFF, 0x99, 0x04];
    assert HeaderEndsAt(a, 4);
    var b: seq<Byte> := [0xFF, 0x99, 0xFF, 0x99, 0x04];
    assert HeaderEndsAt(b, 5);
  }
}
