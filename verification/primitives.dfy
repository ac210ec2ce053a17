/** Shared value types: unsigned byte patterns, Option, powers of 256, and the
    big-endian value and encoding of a byte sequence. */
module Primitives {

  /** A byte as its unsigned bit pattern. Kotlin and Java bytes are signed; where the
      source relies on the sign, the model sign-extends explicitly. */
  type Byte = b: int | 0 <= b < 0x100

  datatype Option<+T> = None | Some(value: T)

  const TWO_31: int := 0x8000_0000
  const TWO_32: int := 0x1_0000_0000
  const TWO_63: int := 0x8000_0000_0000_0000
  const TWO_64: int := 0x1_0000_0000_0000_0000

  predicate IsInt32(n: int) { -TWO_31 <= n < TWO_31 }
  predicate IsInt64(n: int) { -TWO_63 <= n < TWO_63 }

  function Pow256(k: nat): (r: int)
    ensures r >= 1
  {
    if k == 0 then 1 else 256 * Pow256(k - 1)
  }

  lemma {:induction false} Pow256Add(j: nat, k: nat)
    ensures Pow256(j + k) == Pow256(j) * Pow256(k)
  {
    if k > 0 {
      Pow256Add(j, k - 1);
      assert Pow256(j + k) == 256 * Pow256(j + k - 1);
    }
  }

  lemma Pow256Values()
    ensures Pow256(1) == 0x100 && Pow256(2) == 0x1_0000 && Pow256(3) == 0x100_0000
    ensures Pow256(4) == TWO_32 && Pow256(8) == TWO_64
  {
    assert Pow256(4) == TWO_32;
    Pow256Add(4, 4);
  }

  lemma MulAtLeast(m: int, d: int)
    requires m > 0 && d >= 1
    ensures m * d >= m
  {
    assert m * d == m + m * (d - 1);
    assert m * (d - 1) >= 0;
  }

  /** Unique quotient and remainder of Euclidean division by a positive modulus. */
  lemma DivModUnique(v: int, m: int, q: int, r: int)
    requires m > 0 && 0 <= r < m && v == m * q + r
    ensures v / m == q && v % m == r
  {
    var q0, r0 := v / m, v % m;
    assert v == m * q0 + r0;
    var d := q - q0;
    assert m * d == m * q - m * q0;
    assert m * d == r0 - r;
    if d >= 1 {
      MulAtLeast(m, d);
    } else if d <= -1 {
      MulAtLeast(m, -d);
    }
  }

  lemma MulLeft(a: int, b: int, c: int)
    requires a >= 0 && b <= c
    ensures a * b <= a * c
  {
    assert a * c - a * b == a * (c - b);
  }

  lemma {:induction false} DivDiv(a: int, b: int, c: int)
    requires b > 0 && c > 0
    ensures (a / b) / c == a / (b * c)
  {
    var q1, r1 := a / b, a % b;
    var q2, r2 := q1 / c, q1 % c;
    assert a == b * q1 + r1;
    assert q1 == c * q2 + r2;
    assert b * q1 == b * (c * q2) + b * r2;
    assert b * (c * q2) == (b * c) * q2;
    MulLeft(b, r2, c - 1);
    assert b * (c - 1) == b * c - b;
    DivModUnique(a, b * c, q2, b * r2 + r1);
  }

  /** The unsigned big-endian value of a byte sequence. */
  function BeValue(s: seq<Byte>): (v: int)
    ensures 0 <= v < Pow256(|s|)
  {
    if s == [] then 0 else BeValue(s[..|s| - 1]) * 256 + s[|s| - 1]
  }

  lemma {:induction false} BeValueCons(x: Byte, s: seq<Byte>)
    ensures BeValue([x] + s) == x * Pow256(|s|) + BeValue(s)
  {
    if s != [] {
      var t := [x] + s;
      var init := s[..|s| - 1];
      assert t[..|t| - 1] == [x] + init;
      BeValueCons(x, init);
      ShiftAdd(x, Pow256(|init|), BeValue(init), s[|s| - 1]);
    }
  }

  lemma ShiftAdd(x: int, p: int, w: int, lo: int)
    ensures (x * p + w) * 256 + lo == x * (256 * p) + (w * 256 + lo)
  {
  }

  /** The k-byte big-endian two's-complement encoding of an integer of any sign:
      the low k bytes, most significant first. */
  function BeEncode(v: int, k: nat): (r: seq<Byte>)
    ensures |r| == k
    decreases k
  {
    if k == 0 then [] else BeEncode(v / 256, k - 1) + [v % 256]
  }

  /** Byte i of the encoding is (v >> 8*(k-1-i)) & 0xFF, with an arithmetic shift. */
  lemma {:induction false} BeEncodeAt(v: int, k: nat, i: nat)
    requires i < k
    decreases k
    ensures BeEncode(v, k)[i] == (v / Pow256(k - 1 - i)) % 256
  {
    if i < k - 1 {
      BeEncodeAt(v / 256, k - 1, i);
      DivDiv(v, 256, Pow256(k - 2 - i));
    }
  }

  /** Decoding an encoding gives the value modulo 256^k. */
  /** With v = 256*w + lo, the remainder of v modulo 256*p is 256*(w mod p) + lo. */
  lemma ModOfShifted(v: int, w: int, lo: int, p: int)
    requires v == 256 * w + lo && 0 <= lo < 256 && p >= 1
    ensures v % (256 * p) == (w % p) * 256 + lo
  {
    var q, r := w / p, w % p;
    assert w == p * q + r;
    assert 256 * w == 256 * (p * q) + 256 * r;
    assert 256 * (p * q) == (256 * p) * q;
    MulLeft(256, r, p - 1);
    DivModUnique(v, 256 * p, q, r * 256 + lo);
  }

  lemma {:induction false} BeValueOfEncode(v: int, k: nat)
    decreases k
    ensures BeValue(BeEncode(v, k)) == v % Pow256(k)
  {
    if k > 0 {
      var w := v / 256;
      BeValueOfEncode(w, k - 1);
      var e := BeEncode(v, k);
      assert e[..k - 1] == BeEncode(w, k - 1);
      ModOfShifted(v, w, v % 256, Pow256(k - 1));
    }
  }

  /** Encoding the big-endian value of a sequence gives the sequence back. */
  lemma {:induction false} EncodeOfBeValue(s: seq<Byte>)
    ensures BeEncode(BeValue(s), |s|) == s
  {
    if s != [] {
      var p := s[..|s| - 1];
      var v := BeValue(s);
      DivModUnique(v, 256, BeValue(p), s[|s| - 1]);
      EncodeOfBeValue(p);
    }
  }

  /** The low k bytes of an (m+k)-byte encoding are the k-byte encoding. */
  lemma {:induction false} BeEncodeSplit(v: int, m: nat, k: nat)
    decreases k
    ensures BeEncode(v, m + k) == BeEncode(v / Pow256(k), m) + BeEncode(v, k)
  {
    if k > 0 {
      BeEncodeSplit(v / 256, m, k - 1);
      DivDiv(v, 256, Pow256(k - 1));
      assert BeEncode(v, m + k) == BeEncode(v / 256, m + k - 1) + [v % 256];
    }
  }

  /** Reinterpret an unsigned 32-bit pattern as a signed Int. */
  function ToInt32(v: int): (r: int)
    requires 0 <= v < TWO_32
    ensures IsInt32(r) && (r - v) % TWO_32 == 0
  {
    if v >= TWO_31 then v - TWO_32 else v
  }

  /** Reinterpret an unsigned 64-bit pattern as a signed Long. */
  function ToInt64(v: int): (r: int)
    requires 0 <= v < TWO_64
    ensures IsInt64(r) && (r - v) % TWO_64 == 0
  {
    if v >= TWO_63 then v - TWO_64 else v
  }
}
