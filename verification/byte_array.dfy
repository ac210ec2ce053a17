/** Extension functions on byte arrays (util/extensions/ByteArray.kt): lowercase hex
    rendering and big-endian accumulation into Int and Long. */
module ByteArrayExt {
  import opened Primitives

  /** The sixteen-`f` suffix that the GATT code uses as its end-of-stream test. */
  const END_MARKER_HEX: string := "ffffffffffffffff"

  /** `toString(16)` of a value below 16: one lowercase hex digit. */
  function LowerHexDigit(n: int): (c: char)
    requires 0 <= n < 16
    ensures '0' <= c <= '9' || 'a' <= c <= 'f'
  {
    if n < 10 then ('0' as int + n) as char else ('a' as int + n - 10) as char
  }

  /** `toHexString`: each byte as two lowercase hex digits, zero padded, in order. */
  function ToHexString(b: seq<Byte>): (r: string)
    ensures |r| == 2 * |b|
  {
    if b == [] then [] else [LowerHexDigit(b[0] / 16), LowerHexDigit(b[0] % 16)] + ToHexString(b[1..])
  }

  /** Characters 2i and 2i+1 of the rendering are the high and low digit of byte i. */
  lemma {:induction false} ToHexStringAt(b: seq<Byte>, i: nat)
    requires i < |b|
    ensures ToHexString(b)[2 * i] == LowerHexDigit(b[i] / 16)
    ensures ToHexString(b)[2 * i + 1] == LowerHexDigit(b[i] % 16)
  {
    if i > 0 {
      ToHexStringAt(b[1..], i - 1);
      assert ToHexString(b)[2 * i] == ToHexString(b[1..])[2 * (i - 1)];
      assert ToHexString(b)[2 * i + 1] == ToHexString(b[1..])[2 * (i - 1) + 1];
    }
  }

  predicate EndsWith(s: string, suffix: string)
  {
    |suffix| <= |s| && s[|s| - |suffix|..] == suffix
  }

  lemma LowerHexDigitIsF(n: int)
    requires 0 <= n < 16
    ensures LowerHexDigit(n) == 'f' <==> n == 15
  {
  }

  lemma {:induction false} ToHexStringAppend(a: seq<Byte>, c: seq<Byte>)
    ensures ToHexString(a + c) == ToHexString(a) + ToHexString(c)
  {
    if a != [] {
      var ac := a + c;
      assert ac[0] == a[0] && ac[1..] == a[1..] + c;
      ToHexStringAppend(a[1..], c);
      assert ToHexString(ac) == [LowerHexDigit(a[0] / 16), LowerHexDigit(a[0] % 16)] + ToHexString(a[1..] + c);
    } else {
      assert a + c == c;
    }
  }

  /** Eight bytes render as sixteen `f` characters exactly when all are 0xFF. */
  lemma AllFIffAllFF(c: seq<Byte>)
    requires |c| == 8
    ensures ToHexString(c) == END_MARKER_HEX <==> forall i :: 0 <= i < 8 ==> c[i] == 0xFF
  {
    var h := ToHexString(c);
    if h == END_MARKER_HEX {
      forall i | 0 <= i < 8 ensures c[i] == 0xFF {
        ToHexStringAt(c, i);
        LowerHexDigitIsF(c[i] / 16);
        LowerHexDigitIsF(c[i] % 16);
      }
    }
    if forall i :: 0 <= i < 8 ==> c[i] == 0xFF {
      forall k | 0 <= k < 16 ensures h[k] == END_MARKER_HEX[k] {
        var i := k / 2;
        ToHexStringAt(c, i);
        assert c[i] / 16 == 15 && c[i] % 16 == 15;
        if k % 2 == 0 {
          assert h[k] == h[2 * i];
        } else {
          assert h[k] == h[2 * i + 1];
        }
      }
    }
  }

  /** The last eight bytes of the array are present and all 0xFF. */
  predicate LastEightFF(b: seq<Byte>)
  {
    |b| >= 8 && forall i :: |b| - 8 <= i < |b| ==> b[i] == 0xFF
  }

  /** The hex rendering ends in sixteen `f` characters exactly when the array has at
      least eight bytes and the last eight are all 0xFF. */
  lemma EndMarkerIffLastEightFF(b: seq<Byte>)
    ensures EndsWith(ToHexString(b), END_MARKER_HEX) <==> LastEightFF(b)
  {
    if |b| >= 8 {
      var n := |b|;
      var last := b[n - 8..];
      assert b == b[..n - 8] + last;
      ToHexStringAppend(b[..n - 8], last);
      var h := ToHexString(b);
      assert h[|h| - 16..] == ToHexString(last);
      AllFIffAllFF(last);
      if LastEightFF(b) {
        assert forall i :: 0 <= i < 8 ==> last[i] == 0xFF;
      } else {
        var i :| n - 8 <= i < n && b[i] != 0xFF;
        assert last[i - (n - 8)] != 0xFF;
      }
    }
  }

  /** The Int value `toInt` returns for at most four bytes. */
  function IntValue(b: seq<Byte>): int
    requires |b| <= 4
  {
    Pow256Values();
    Pow256Mono(|b|, 4);
    ToInt32(BeValue(b))
  }

  /** The Long value `toLong` returns for at most eight bytes. */
  function LongValue(b: seq<Byte>): int
    requires |b| <= 8
  {
    Pow256Values();
    Pow256Mono(|b|, 8);
    ToInt64(BeValue(b))
  }

  /** `toInt`: ORs the bytes, last byte lowest, then reinterprets the 32-bit pattern
      as a signed Int. */
  method ToInt(b: seq<Byte>) returns (r: int)
    requires |b| <= 4
    ensures r == IntValue(b)
    ensures IsInt32(r)
    ensures |b| < 4 ==> 0 <= r < Pow256(|b|)
  {
    Pow256Values();
    var result := 0;
    var shift := 0;
    var i := |b|;
    while i > 0
      invariant 0 <= i <= |b|
      invariant shift == 8 * (|b| - i)
      invariant result == BeValue(b[i..])
    {
      i := i - 1;
      // the byte lands in bits no earlier byte occupies, so `or` adds it
      result := result + b[i] * Pow256(shift / 8);
      BeValueCons(b[i], b[i + 1..]);
      assert [b[i]] + b[i + 1..] == b[i..];
      shift := shift + 8;
    }
    assert b[0..] == b;
    Pow256Mono(|b|, 4);
    r := ToInt32(result);
  }

  /** `toLong`: the same accumulation into 64 bits, reinterpreted as a signed Long. */
  method ToLong(b: seq<Byte>) returns (r: int)
    requires |b| <= 8
    ensures r == LongValue(b)
    ensures IsInt64(r)
    ensures |b| <= 4 ==> 0 <= r < Pow256(|b|) && r == BeValue(b)
  {
    Pow256Values();
    var result := 0;
    var shift := 0;
    var i := |b|;
    while i > 0
      invariant 0 <= i <= |b|
      invariant shift == 8 * (|b| - i)
      invariant result == BeValue(b[i..])
    {
      i := i - 1;
      result := result + b[i] * Pow256(shift / 8);
      BeValueCons(b[i], b[i + 1..]);
      assert [b[i]] + b[i + 1..] == b[i..];
      shift := shift + 8;
    }
    assert b[0..] == b;
    Pow256Mono(|b|, 8);
    if |b| <= 4 {
      Pow256Mono(|b|, 4);
      Pow256Mono(4, 8);
    }
    r := ToInt64(result);
  }

  lemma {:induction false} Pow256Mono(j: nat, k: nat)
    requires j <= k
    ensures Pow256(j) <= Pow256(k)
  {
    if j < k {
      Pow256Mono(j, k - 1);
    }
  }
}
