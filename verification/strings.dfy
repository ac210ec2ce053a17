/** Text helpers shared by the GATT sessions and the crash resolver: ASCII digits,
    the first-digit search `indexOfFirst { it.isDigit() }`, `String.contains`,
    the decimal text `Long.toString` writes and the radix-10 parse of
    `Long.parseLong` / `Integer.parseInt`. */
module Strings {
  import opened Primitives

  predicate IsDigit(c: char)
  {
    '0' <= c <= '9'
  }

  predicate AllDigits(s: string)
  {
    forall i :: 0 <= i < |s| ==> IsDigit(s[i])
  }

  function DigitValue(c: char): (d: nat)
    requires IsDigit(c)
    ensures d < 10
  {
    (c - '0') as nat
  }

  function DigitChar(d: nat): (c: char)
    requires d < 10
    ensures IsDigit(c) && DigitValue(c) == d
  {
    ('0' as int + d) as char
  }

  /** `indexOfFirst { it.isDigit() }`: the index of the first digit, -1 when there
      is none. */
  function FirstDigitIndex(s: string): (r: int)
    ensures -1 <= r < |s|
    ensures r == -1 <==> forall i :: 0 <= i < |s| ==> !IsDigit(s[i])
    ensures r >= 0 ==> IsDigit(s[r]) && forall i :: 0 <= i < r ==> !IsDigit(s[i])
  {
    if s == [] then -1
    else if IsDigit(s[0]) then 0
    else
      var k := FirstDigitIndex(s[1..]);
      if k == -1 then -1 else k + 1
  }

  /** sub occurs in s starting at index i. */
  predicate OccursAt(s: string, sub: string, i: int)
  {
    0 <= i <= |s| - |sub| && s[i..i + |sub|] == sub
  }

  /** `s.contains(sub)`: sub occurs somewhere in s. */
  predicate Contains(s: string, sub: string)
  {
    exists i :: 0 <= i <= |s| - |sub| && OccursAt(s, sub, i)
  }

  /** The index of the first occurrence of c, -1 when there is none. */
  function IndexOf(s: string, c: char): (r: int)
    ensures -1 <= r < |s|
    ensures r == -1 <==> c !in s
    ensures r >= 0 ==> s[r] == c && c !in s[..r]
  {
    if s == [] then -1
    else if s[0] == c then 0
    else
      var k := IndexOf(s[1..], c);
      if k == -1 then -1 else k + 1
  }

  lemma {:induction false} IndexOfJoin(a: string, c: char, b: string)
    requires c !in a
    ensures IndexOf(a + [c] + b, c) == |a|
  {
    if a != [] {
      assert (a + [c] + b)[1..] == a[1..] + [c] + b;
      IndexOfJoin(a[1..], c, b);
    }
  }

  /** The decimal text of a natural number, most significant digit first, with no
      leading zero. */
  function NatToDecimal(n: nat): (s: string)
    ensures |s| >= 1 && AllDigits(s)
    ensures s[0] == '0' ==> n == 0
  {
    if n < 10 then [DigitChar(n)] else NatToDecimal(n / 10) + [DigitChar(n % 10)]
  }

  /** The value of a string of digits. */
  function DigitsValue(s: string): nat
    requires AllDigits(s)
  {
    if s == [] then 0 else DigitsValue(s[..|s| - 1]) * 10 + DigitValue(s[|s| - 1])
  }

  /** Digits with no superfluous leading zero: "0", or a nonzero first digit. */
  predicate IsCanonicalDecimal(s: string)
  {
    |s| >= 1 && AllDigits(s) && (s[0] == '0' ==> |s| == 1)
  }

  lemma {:induction false} DigitsOfDecimal(n: nat)
    ensures DigitsValue(NatToDecimal(n)) == n
  {
    if n >= 10 {
      var s := NatToDecimal(n);
      assert s[..|s| - 1] == NatToDecimal(n / 10);
      DigitsOfDecimal(n / 10);
    }
  }

  lemma {:induction false} DecimalIsCanonical(n: nat)
    ensures IsCanonicalDecimal(NatToDecimal(n))
  {
    if n >= 10 {
      var s := NatToDecimal(n);
      DecimalFirstNonZero(n);
    }
  }

  lemma {:induction false} DecimalFirstNonZero(n: nat)
    requires n >= 1
    ensures NatToDecimal(n)[0] != '0'
  {
    if n >= 10 {
      DecimalFirstNonZero(n / 10);
    }
  }

  /** A value below 10^k has at most k digits: the leading digit of a long digit
      string is what makes the value large. */
  lemma {:induction false} LeadingDigitBound(s: string)
    requires AllDigits(s) && |s| >= 2 && s[0] != '0'
    ensures DigitsValue(s) >= 10
  {
    var p := s[..|s| - 1];
    if |s| > 2 {
      LeadingDigitBound(p);
    } else {
      assert DigitsValue(p) == DigitsValue(p[..0]) * 10 + DigitValue(p[0]);
    }
  }

  lemma {:induction false} DecimalOfDigits(s: string)
    requires IsCanonicalDecimal(s)
    ensures NatToDecimal(DigitsValue(s)) == s
  {
    var n := DigitsValue(s);
    if |s| == 1 {
      assert DigitsValue(s[..0]) == 0;
    } else {
      var p := s[..|s| - 1];
      LeadingDigitBound(s);
      assert IsCanonicalDecimal(p);
      DecimalOfDigits(p);
      DivModUnique(n, 10, DigitsValue(p), DigitValue(s[|s| - 1]));
    }
  }

  /** Decimal text and its value determine each other. */
  lemma DecimalRoundTrip(n: nat, s: string)
    ensures IsCanonicalDecimal(s) && DigitsValue(s) == n <==> s == NatToDecimal(n)
  {
    DigitsOfDecimal(n);
    DecimalIsCanonical(n);
    if IsCanonicalDecimal(s) && DigitsValue(s) == n {
      DecimalOfDigits(s);
    }
  }

  /** `Long.toString(n)` / `Integer.toString(n)`: a minus sign before the digits of
      a negative number. */
  function IntToDecimal(n: int): string
  {
    if n < 0 then "-" + NatToDecimal(-n) else NatToDecimal(n)
  }

  /** `Long.parseLong(s)` with lo = -2^63, hi = 2^63 - 1, and `Integer.parseInt(s)`
      with the 32-bit bounds: an optional sign, at least one digit, nothing else, and
      a value in range; None stands for the NumberFormatException. */
  function ParseInteger(s: string, lo: int, hi: int): (r: Option<int>)
    ensures r.Some? ==> lo <= r.value <= hi
  {
    if |s| == 0 then None
    else
      var signed := s[0] == '-' || s[0] == '+';
      var digits := if signed then s[1..] else s;
      if |digits| == 0 || !AllDigits(digits) then None
      else
        var v: int := if s[0] == '-' then -(DigitsValue(digits) as int) else DigitsValue(digits);
        if lo <= v <= hi then Some(v) else None
  }

  function ParseLong(s: string): (r: Option<int>)
    ensures r.Some? ==> IsInt64(r.value)
  {
    ParseInteger(s, -TWO_63, TWO_63 - 1)
  }

  function ParseInt(s: string): (r: Option<int>)
    ensures r.Some? ==> IsInt32(r.value)
  {
    ParseInteger(s, -TWO_31, TWO_31 - 1)
  }

  /** Parsing the decimal text of an in-range value gives the value back. */
  lemma ParseIntegerRoundTrip(n: int, lo: int, hi: int)
    requires lo <= n <= hi
    ensures ParseInteger(IntToDecimal(n), lo, hi) == Some(n)
  {
    var s := IntToDecimal(n);
    if n < 0 {
      assert s[1..] == NatToDecimal(-n);
      DigitsOfDecimal(-n);
    } else {
      DigitsOfDecimal(n);
    }
  }

  /** The text of an out-of-range value fails to parse. */
  lemma ParseIntegerOutOfRange(n: int, lo: int, hi: int)
    requires n < lo || hi < n
    ensures ParseInteger(IntToDecimal(n), lo, hi) == None
  {
    var s := IntToDecimal(n);
    if n < 0 {
      assert s[1..] == NatToDecimal(-n);
      DigitsOfDecimal(-n);
    } else {
      DigitsOfDecimal(n);
    }
  }

  /** Text that parses is a sign followed by digits of the value: every accepted
      string is a decimal rendering of the result, possibly with a '+' sign or
      leading zeros. */
  lemma ParseIntegerSound(s: string, lo: int, hi: int)
    requires ParseInteger(s, lo, hi).Some?
    ensures var v := ParseInteger(s, lo, hi).value;
      && (s[0] == '-' ==> AllDigits(s[1..]) && v == -(DigitsValue(s[1..]) as int))
      && (s[0] == '+' ==> AllDigits(s[1..]) && v == DigitsValue(s[1..]))
      && (s[0] != '-' && s[0] != '+' ==> AllDigits(s) && v == DigitsValue(s))
  {
  }

  /** Some texts the parse rejects: the empty line, a lone sign, a non-digit. */
  lemma ParseIntegerRejects(lo: int, hi: int)
    ensures ParseInteger("", lo, hi) == None
    ensures ParseInteger("-", lo, hi) == None
    ensures ParseInteger("1a", lo, hi) == None
  {
    assert !IsDigit("1a"[1]);
  }
}
