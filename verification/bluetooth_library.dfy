/** `BluetoothLibrary.hexStringToByteArray` (BluetoothLibrary.kt): uppercase hex
    text to bytes, two characters per byte. */
module BluetoothLibrary {
  import opened Primitives
  import opened ByteArrayExt

  const HEX_CHARS: string := "0123456789ABCDEF"

  /** `HEX_CHARS.indexOf(c)`: the digit value of an uppercase hex character, -1 for
      every other character (lowercase included). */
  function HexIndex(c: char): (r: int)
    ensures -1 <= r < 16
    ensures r == -1 <==> c !in HEX_CHARS
    ensures r != -1 ==> HEX_CHARS[r] == c && forall j :: 0 <= j < r ==> HEX_CHARS[j] != c
  {
    if '0' <= c <= '9' then (c - '0') as int
    else if 'A' <= c <= 'F' then (c - 'A') as int + 10
    else -1
  }

  /** The low eight bits of an `indexOf` result: -1 has every bit set, and a digit
      value is its own bit pattern. */
  function Low8(x: int): bv8
    requires -1 <= x < 16
  {
    if x < 0 then 0xFF else x as bv8
  }

  /** `firstIndex.shl(4).or(secondIndex).toByte()`. `toByte` keeps the low eight
      bits, and the low eight bits of a shift-and-or depend only on the low eight
      bits of its operands, so the operation is computed on those. */
  function ShlOrToByte(first: int, second: int): Byte
    requires -1 <= first < 16 && -1 <= second < 16
  {
    ((Low8(first) << 4) | Low8(second)) as int
  }

  /** The byte two `indexOf` results combine into, by cases: both digits valid give
      16*first + second; an invalid second digit (-1, all bits set) makes the byte
      0xFF; an invalid first digit with a valid second gives 0xF0 + second. */
  function Octet(first: int, second: int): Byte
    requires -1 <= first < 16 && -1 <= second < 16
  {
    if second == -1 then 0xFF
    else if first == -1 then 0xF0 + second
    else 16 * first + second
  }

  lemma Low8OfDigit(x: int)
    requires 0 <= x < 16
    ensures Low8(x) as int == x && Low8(x) < 16
  {
  }

  /** -1 has every bit set, so or-ing it in gives 0xFF whatever the first digit. */
  lemma ShlOrInvalidSecond(first: int)
    requires -1 <= first < 16
    ensures ShlOrToByte(first, -1) == 0xFF
  {
    var f, s := Low8(first), Low8(-1);
    assert s == 0xFF;
    assert (f << 4) | s == 0xFF;
  }

  /** -1 shifted left by four leaves 0xF0 in the low byte. */
  lemma ShlOrInvalidFirst(second: int)
    requires 0 <= second < 16
    ensures ShlOrToByte(-1, second) == 0xF0 + second
  {
    var f, s := Low8(-1), Low8(second);
    assert f == 0xFF;
    Low8OfDigit(second);
    assert (f << 4) | s == 0xF0 + s;
  }

  /** Two digits: the shift makes room for the second digit, and the or adds it. */
  lemma ShlOrDigits(first: int, second: int)
    requires 0 <= first < 16 && 0 <= second < 16
    ensures ShlOrToByte(first, second) == 16 * first + second
  {
    var f, s := Low8(first), Low8(second);
    Low8OfDigit(first);
    Low8OfDigit(second);
    assert (f << 4) | s == f * 16 + s;
    assert (f * 16 + s) as int == f as int * 16 + s as int;
  }

  /** The bitwise combination agrees with the case analysis on every pair of
      `indexOf` results. */
  lemma ShlOrIsOctet(first: int, second: int)
    requires -1 <= first < 16 && -1 <= second < 16
    ensures ShlOrToByte(first, second) == Octet(first, second)
  {
    if second == -1 {
      ShlOrInvalidSecond(first);
    } else if first == -1 {
      ShlOrInvalidFirst(second);
    } else {
      ShlOrDigits(first, second);
    }
  }

  /** The byte `hexStringToByteArray` makes of characters 2i and 2i+1. */
  function PairByte(s: string, i: nat): Byte
    requires i < |s| / 2
  {
    Octet(HexIndex(s[2 * i]), HexIndex(s[2 * i + 1]))
  }

  /** The bytes `hexStringToByteArray` produces for a string of even length: byte i
      combines characters 2i and 2i+1. */
  function HexDecode(s: string): (r: seq<Byte>)
    requires |s| % 2 == 0
    ensures |r| == |s| / 2
  {
    seq(|s| / 2, i requires 0 <= i < |s| / 2 => PairByte(s, i))
  }

  /** `String.hexStringToByteArray`: allocates length/2 bytes and fills them pairwise.
      Odd-length input reads past the end and throws, so even length is required. */
  method HexStringToByteArray(s: string) returns (result: array<Byte>)
    requires |s| % 2 == 0
    ensures fresh(result)
    ensures result[..] == HexDecode(s)
  {
    var n := |s| / 2;
    assert |s| == 2 * n;
    result := new Byte[n];
    var i := 0;
    ghost var j := 0;
    while i < |s|
      invariant 0 <= j <= n && i == 2 * j
      invariant forall k :: 0 <= k < j ==> result[k] == PairByte(s, k)
    {
      var firstIndex := HexIndex(s[i]);
      var secondIndex := HexIndex(s[i + 1]);
      ShlOrIsOctet(firstIndex, secondIndex);
      HalfOfDouble(j);
      // i.shr(1) is the pair number, i / 2
      result[i / 2] := ShlOrToByte(firstIndex, secondIndex);
      i := i + 2;
      j := j + 1;
    }
  }

  /** Uppercase hex text: every character is in HEX_CHARS. */
  predicate IsUpperHex(s: string)
  {
    forall i :: 0 <= i < |s| ==> HexIndex(s[i]) != -1
  }

  function UpperChar(c: char): char
  {
    if 'a' <= c <= 'z' then (c as int - 32) as char else c
  }

  function LowerChar(c: char): char
  {
    if 'A' <= c <= 'Z' then (c as int + 32) as char else c
  }

  function Uppercase(s: string): (r: string)
    ensures |r| == |s| && forall i :: 0 <= i < |s| ==> r[i] == UpperChar(s[i])
  {
    seq(|s|, i requires 0 <= i < |s| => UpperChar(s[i]))
  }

  function Lowercase(s: string): (r: string)
    ensures |r| == |s| && forall i :: 0 <= i < |s| ==> r[i] == LowerChar(s[i])
  {
    seq(|s|, i requires 0 <= i < |s| => LowerChar(s[i]))
  }

  lemma DigitRoundTrip(n: int)
    requires 0 <= n < 16
    ensures HexIndex(UpperChar(LowerHexDigit(n))) == n
    ensures LowerHexDigit(n) == LowerChar(HEX_CHARS[n])
  {
  }

  lemma HexPairRoundTrip(x: Byte)
    ensures Octet(HexIndex(UpperChar(LowerHexDigit(x / 16))), HexIndex(UpperChar(LowerHexDigit(x % 16)))) == x
  {
    DigitRoundTrip(x / 16);
    DigitRoundTrip(x % 16);
  }

  lemma HalfOfDouble(n: nat)
    ensures (2 * n) / 2 == n && (2 * n) % 2 == 0
  {
  }

  lemma HexByteRoundTrip(b: seq<Byte>, i: nat)
    requires i < |b|
    ensures HexDecode(Uppercase(ToHexString(b)))[i] == b[i]
  {
    var u := Uppercase(ToHexString(b));
    assert |u| == 2 * |b|;
    HalfOfDouble(|b|);
    ToHexStringAt(b, i);
    assert u[2 * i] == UpperChar(LowerHexDigit(b[i] / 16));
    assert u[2 * i + 1] == UpperChar(LowerHexDigit(b[i] % 16));
    assert HexDecode(u)[i] == PairByte(u, i);
    HexPairRoundTrip(b[i]);
  }

  /** `hexStringToByteArray(uppercase(toHexString(b))) == b`. */
  lemma HexRoundTrip(b: seq<Byte>)
    ensures HexDecode(Uppercase(ToHexString(b))) == b
  {
    var u := Uppercase(ToHexString(b));
    HalfOfDouble(|b|);
    var d := HexDecode(u);
    assert |d| == |b|;
    forall i | 0 <= i < |b| ensures d[i] == b[i] {
      HexByteRoundTrip(b, i);
    }
  }

  lemma TextPairRoundTrip(s: string, i: nat)
    requires i < |s| / 2 && HexIndex(s[2 * i]) != -1 && HexIndex(s[2 * i + 1]) != -1
    ensures LowerHexDigit(PairByte(s, i) / 16) == LowerChar(s[2 * i])
    ensures LowerHexDigit(PairByte(s, i) % 16) == LowerChar(s[2 * i + 1])
  {
    var f, g := HexIndex(s[2 * i]), HexIndex(s[2 * i + 1]);
    var x := PairByte(s, i);
    assert x == 16 * f + g;
    DivModUnique(x, 16, f, g);
    DigitRoundTrip(f);
    DigitRoundTrip(g);
  }

  /** Position k of an even-length text lies in pair k/2, as its first or second
      character. */
  lemma PairIndex(k: nat, n: nat)
    requires n % 2 == 0 && k < n
    ensures k / 2 < n / 2
    ensures k == 2 * (k / 2) || k == 2 * (k / 2) + 1
  {
  }

  lemma TextPairChars(s: string, i: nat)
    requires |s| % 2 == 0 && IsUpperHex(s) && i < |s| / 2
    ensures ToHexString(HexDecode(s))[2 * i] == LowerChar(s[2 * i])
    ensures ToHexString(HexDecode(s))[2 * i + 1] == LowerChar(s[2 * i + 1])
  {
    var d := HexDecode(s);
    assert d[i] == PairByte(s, i);
    TextPairRoundTrip(s, i);
    ToHexStringAt(d, i);
  }

  lemma TextCharRoundTrip(s: string, k: nat)
    requires |s| % 2 == 0 && IsUpperHex(s) && k < |s|
    ensures ToHexString(HexDecode(s))[k] == LowerChar(s[k])
  {
    PairIndex(k, |s|);
    TextPairChars(s, k / 2);
  }

  /** `toHexString(hexStringToByteArray(s)) == lowercase(s)` for uppercase hex s. */
  lemma TextRoundTrip(s: string)
    requires |s| % 2 == 0 && IsUpperHex(s)
    ensures ToHexString(HexDecode(s)) == Lowercase(s)
  {
    var d := HexDecode(s);
    var h := ToHexString(d);
    forall k | 0 <= k < |s| ensures h[k] == LowerChar(s[k]) {
      TextCharRoundTrip(s, k);
    }
  }
}
