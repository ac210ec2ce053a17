/** `Long.toBytes` (util/extensions/Long.kt): the 8-byte big-endian buffer that
    `ByteBuffer.putLong` writes. */
module LongExt {
  import opened Primitives
  import opened ByteArrayExt

  function LongToBytes(n: int): (r: seq<Byte>)
    requires IsInt64(n)
    ensures |r| == 8
  {
    BeEncode(n, 8)
  }

  /** Byte i is (n >> 8*(7-i)) & 0xFF: big-endian two's complement. */
  lemma LongToBytesAt(n: int, i: nat)
    requires IsInt64(n) && i < 8
    ensures LongToBytes(n)[i] == (n / Pow256(7 - i)) % 256
  {
    BeEncodeAt(n, 8, i);
  }

  /** `toLong(toBytes(n)) == n` for every Long. */
  lemma LongRoundTrip(n: int)
    requires IsInt64(n)
    ensures LongValue(LongToBytes(n)) == n
  {
    Pow256Values();
    BeValueOfEncode(n, 8);
    if n < 0 {
      DivModUnique(n, TWO_64, -1, n + TWO_64);
    } else {
      DivModUnique(n, TWO_64, 0, n);
    }
  }

  /** `toBytes(n).copyOfRange(4, 8)` is the 4-byte big-endian encoding of n mod 2^32,
      and `toLong` of it gives n back when 0 <= n < 2^32. */
  lemma LowFourBytes(n: int)
    requires IsInt64(n)
    ensures LongToBytes(n)[4..8] == BeEncode(n, 4)
    ensures BeValue(LongToBytes(n)[4..8]) == n % TWO_32
    ensures 0 <= n < TWO_32 ==> LongValue(LongToBytes(n)[4..8]) == n
  {
    Pow256Values();
    BeEncodeSplit(n, 4, 4);
    BeValueOfEncode(n, 4);
    if 0 <= n < TWO_32 {
      DivModUnique(n, TWO_32, 0, n);
    }
  }
}
