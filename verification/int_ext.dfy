/** `Int.toBytes` (util/extensions/Int.kt): the 4-byte big-endian buffer that
    `ByteBuffer.putInt` writes. */
module IntExt {
  import opened Primitives
  import opened ByteArrayExt

  function IntToBytes(n: int): (r: seq<Byte>)
    requires IsInt32(n)
    ensures |r| == 4
  {
    BeEncode(n, 4)
  }

  /** Byte i is (n >> 8*(3-i)) & 0xFF: big-endian two's complement. */
  lemma IntToBytesAt(n: int, i: nat)
    requires IsInt32(n) && i < 4
    ensures IntToBytes(n)[i] == (n / Pow256(3 - i)) % 256
  {
    BeEncodeAt(n, 4, i);
  }

  /** `toInt(toBytes(n)) == n` for every Int. */
  lemma IntRoundTrip(n: int)
    requires IsInt32(n)
    ensures IntValue(IntToBytes(n)) == n
  {
    Pow256Values();
    BeValueOfEncode(n, 4);
    if n < 0 {
      DivModUnique(n, TWO_32, -1, n + TWO_32);
    } else {
      DivModUnique(n, TWO_32, 0, n);
    }
  }

  /** `0x3A3A11.toBytes()` is 00 3A 3A 11, so `copyOfRange(1, 4)` is the read-all
      command prefix 3A 3A 11. */
  lemma ReadAllPrefix()
    ensures IntToBytes(0x3A3A11) == [0x00, 0x3A, 0x3A, 0x11]
    ensures IntToBytes(0x3A3A11)[1..4] == [0x3A, 0x3A, 0x11]
  {
  }
}
