/** Decimal text of integers: Swift's `"\(n)"` interpolation and `Int(_: String)` on digit strings. */
module Decimal {
  import opened Common

  /** `Int.max` on the 64-bit platforms the app runs on. */
  const IntMax: int := 0x7FFF_FFFF_FFFF_FFFF

  predicate IsAsciiDigit(c: char)
  {
    '0' <= c <= '9'
  }

  predicate AllAsciiDigits(s: string)
  {
    forall k :: 0 <= k < |s| ==> IsAsciiDigit(s[k])
  }

  function DigitValue(c: char): nat
    requires IsAsciiDigit(c)
  {
    c as int - '0' as int
  }

  function DigitChar(d: nat): (c: char)
    requires d < 10
    ensures IsAsciiDigit(c) && DigitValue(c) == d
  {
    ('0' as int + d) as char
  }

  /** The number an ASCII digit string denotes (leading zeros allowed). */
  function Value(s: string): nat
    requires AllAsciiDigits(s)
    decreases |s|
  {
    if |s| == 0 then 0 else Value(s[..|s| - 1]) * 10 + DigitValue(s[|s| - 1])
  }

  /** `"\(n)"`: the decimal text of `n`, without leading zeros. */
  function ToDecimal(n: nat): (r: string)
    ensures 1 <= |r| && AllAsciiDigits(r)
    decreases n
  {
    if n < 10 then [DigitChar(n)] else ToDecimal(n / 10) + [DigitChar(n % 10)]
  }

  /** `Int(s)` for a string made only of decimal digits: `nil` when a digit is not ASCII
      (Swift parses ASCII digits only) or when the value exceeds `Int.max`. */
  function ParseInt(s: string): (r: Option<nat>)
    ensures r.Some? <==> |s| > 0 && AllAsciiDigits(s) && Value(s) <= IntMax
    ensures r.Some? ==> r.value == Value(s) && r.value <= IntMax
  {
    if |s| > 0 && AllAsciiDigits(s) && Value(s) <= IntMax then Some(Value(s)) else None
  }

  /** The decimal text of `n` denotes `n`. */
  lemma {:induction false} ValueOfDecimal(n: nat)
    ensures Value(ToDecimal(n)) == n
    decreases n
  {
    if n >= 10 {
      var r := ToDecimal(n);
      assert r[..|r| - 1] == ToDecimal(n / 10);
      ValueOfDecimal(n / 10);
    }
  }

  /** Printing then parsing a counter gives it back. */
  lemma ParsePrinted(n: nat)
    requires n <= IntMax
    ensures ParseInt(ToDecimal(n)) == Some(n)
  {
    ValueOfDecimal(n);
  }

  /** Distinct counters print differently. */
  lemma ToDecimalInjective(a: nat, b: nat)
    requires ToDecimal(a) == ToDecimal(b)
    ensures a == b
  {
    ValueOfDecimal(a);
    ValueOfDecimal(b);
  }
}
