/**
 * Java `int` semantics used by the plugin: the 32-bit range, the wrapping
 * post-increment `lastId++`, `Number.intValue()` truncation and
 * `Integer.toString`, with a decimal parser as the reference inverse.
 */
module JavaInt {
  import opened Wrappers

  const MIN_INT: int := -0x8000_0000
  const MAX_INT: int := 0x7fff_ffff
  const TWO_32: int := 0x1_0000_0000

  newtype int32 = x: int | -0x8000_0000 <= x < 0x8000_0000

  /** The value `x++` leaves behind: Java wraps Integer.MAX_VALUE to Integer.MIN_VALUE. */
  function Increment(x: int32): int32
  {
    if x == 0x7fff_ffff then -0x8000_0000 else x + 1
  }

  /** `Number.intValue()` on an integral number: keep the low 32 bits, two's complement. */
  function ToInt32(i: int): (r: int32)
    ensures MIN_INT <= i <= MAX_INT ==> r as int == i
    ensures (r as int - i) % TWO_32 == 0
  {
    ((i - MIN_INT) % TWO_32 + MIN_INT) as int32
  }

  /** Incrementing commutes with truncation: `x++` is addition modulo 2^32. */
  lemma IncrementIsModular(x: int32)
    ensures Increment(x) == ToInt32(x as int + 1)
  {
  }

  /** The counter after `n` increments starting at `start`. */
  function IdAfter(start: int32, n: nat): int32
  {
    if n == 0 then start else Increment(IdAfter(start, n - 1))
  }

  /** `n` registrations move the counter by `n` modulo 2^32. */
  lemma {:induction false} IdAfterIsModular(start: int32, n: nat)
    ensures IdAfter(start, n) == ToInt32(start as int + n)
  {
    if n > 0 {
      IdAfterIsModular(start, n - 1);
      var prev := IdAfter(start, n - 1);
      IncrementIsModular(prev);
      ToInt32Congruent(prev as int + 1, start as int + n);
    }
  }

  /** Integers that are congruent modulo 2^32 truncate to the same int. */
  lemma ToInt32Congruent(a: int, b: int)
    requires (a - b) % TWO_32 == 0
    ensures ToInt32(a) == ToInt32(b)
  {
  }

  /** Without wrap-around, `n` registrations hand out `start`, `start + 1`, ..., each exactly once. */
  lemma {:induction false} IdAfterNoWrap(start: int32, n: nat)
    requires start as int + n <= MAX_INT
    ensures IdAfter(start, n) as int == start as int + n
  {
    if n > 0 {
      IdAfterNoWrap(start, n - 1);
    }
  }

  /** Any 2^32 consecutive registrations hand out pairwise distinct ids. */
  lemma IdsDistinct(start: int32, i: nat, j: nat)
    requires i < j < i + TWO_32
    ensures IdAfter(start, i) != IdAfter(start, j)
  {
    IdAfterIsModular(start, i);
    IdAfterIsModular(start, j);
  }

  // ---------------------------------------------------------------------------
  // Integer.toString

  predicate IsDigit(c: char)
  {
    '0' <= c <= '9'
  }

  function DigitChar(d: nat): (c: char)
    requires d < 10
    ensures IsDigit(c) && DigitValue(c) == d
  {
    ('0' as int + d) as char
  }

  function DigitValue(c: char): nat
    requires IsDigit(c)
  {
    c as int - '0' as int
  }

  /** Decimal digits of a non-negative number, most significant first, no leading zeros. */
  function NatToDecimal(n: nat): string
  {
    if n < 10 then [DigitChar(n)] else NatToDecimal(n / 10) + [DigitChar(n % 10)]
  }

  /** `Integer.toString(i)` (and `i + ""`): an optional minus sign followed by the digits of |i|. */
  function IntToDecimal(i: int): string
  {
    if i < 0 then "-" + NatToDecimal(-i) else NatToDecimal(i)
  }

  /** Reference inverse: the value of a string of decimal digits. */
  function DigitsValue(s: string): nat
    requires forall k :: 0 <= k < |s| ==> IsDigit(s[k])
  {
    if s == [] then 0 else DigitsValue(s[..|s| - 1]) * 10 + DigitValue(s[|s| - 1])
  }

  /** The inverse of IntToDecimal on its image. */
  function ParseDecimal(s: string): Option<int>
  {
    if |s| > 0 && forall k :: 0 <= k < |s| ==> IsDigit(s[k]) then Some(DigitsValue(s))
    else if |s| > 1 && s[0] == '-' && forall k :: 1 <= k < |s| ==> IsDigit(s[k]) then Some(0 - DigitsValue(s[1..]) as int)
    else None
  }

  /** The digits of a number are non-empty and all decimal digits, and read back as the number. */
  lemma {:induction false} NatToDecimalDigits(n: nat)
    ensures |NatToDecimal(n)| > 0
    ensures forall k :: 0 <= k < |NatToDecimal(n)| ==> IsDigit(NatToDecimal(n)[k])
    ensures DigitsValue(NatToDecimal(n)) == n
  {
    if n >= 10 {
      NatToDecimalDigits(n / 10);
      var s := NatToDecimal(n);
      assert s[..|s| - 1] == NatToDecimal(n / 10);
    }
  }

  /** Parsing undoes `Integer.toString`. */
  lemma IntToDecimalRoundTrip(i: int)
    ensures ParseDecimal(IntToDecimal(i)) == Some(i)
  {
    if i < 0 {
      NatToDecimalDigits(-i);
      var s := IntToDecimal(i);
      assert s[1..] == NatToDecimal(-i);
      assert !IsDigit(s[0]);
    } else {
      NatToDecimalDigits(i);
    }
  }

  /** Distinct ints have distinct decimal strings, so distinct ids name distinct sections. */
  lemma IntToDecimalInjective(a: int, b: int)
    requires a != b
    ensures IntToDecimal(a) != IntToDecimal(b)
  {
    IntToDecimalRoundTrip(a);
    IntToDecimalRoundTrip(b);
  }

  /** The decimal form of an int is non-empty and contains no ':' (nor any character but '-' and digits). */
  lemma IntToDecimalShape(i: int)
    ensures |IntToDecimal(i)| > 0
    ensures forall k :: 0 <= k < |IntToDecimal(i)| ==> IsDigit(IntToDecimal(i)[k]) || (k == 0 && i < 0)
    ensures ':' !in IntToDecimal(i)
  {
    if i < 0 {
      NatToDecimalDigits(-i);
      var s := IntToDecimal(i);
      assert forall k :: 1 <= k < |s| ==> s[k] == NatToDecimal(-i)[k - 1];
    } else {
      NatToDecimalDigits(i);
    }
  }
}
