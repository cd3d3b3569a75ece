/** Decimal text of integers: what `int.ToString()`, `int.ToString("00")` and
    `int.TryParse` do with non-negative numbers, and C#'s 32-bit `int`. */
module Numerals {
  import opened Wrappers

  /** `int.MaxValue`. */
  const IntMaxValue := 0x7FFF_FFFF

  /** The values of a C# `int`. */
  type Int32 = x: int | -0x8000_0000 <= x <= 0x7FFF_FFFF

  /** The `int` that unchecked C# arithmetic leaves when the exact result is `x`. */
  function Wrap32(x: int): (r: Int32)
    ensures (r - x) % 0x1_0000_0000 == 0
    ensures -0x8000_0000 <= x <= 0x7FFF_FFFF ==> r == x
  {
    (x + 0x8000_0000) % 0x1_0000_0000 - 0x8000_0000
  }

  predicate IsDigit(c: char) {
    '0' <= c <= '9'
  }

  predicate AllDigits(s: string) {
    forall i | 0 <= i < |s| :: IsDigit(s[i])
  }

  function DigitValue(c: char): (n: int)
    requires IsDigit(c)
    ensures 0 <= n < 10
  {
    c as int - '0' as int
  }

  function DigitChar(n: int): (c: char)
    requires 0 <= n < 10
    ensures IsDigit(c) && DigitValue(c) == n
  {
    ('0' as int + n) as char
  }

  function Pow10(k: nat): (p: nat)
    ensures p >= 1
  {
    if k == 0 then 1 else 10 * Pow10(k - 1)
  }

  /** The number a string of decimal digits denotes, most significant digit first. */
  function Value(s: string): nat
    requires AllDigits(s)
    decreases |s|
  {
    if |s| == 0 then 0 else 10 * Value(s[..|s| - 1]) + DigitValue(s[|s| - 1])
  }

  /** `n.ToString()`: decimal digits without leading zeros; "0" for zero. */
  function ToDecimal(n: nat): (s: string)
    ensures 1 <= |s| && AllDigits(s)
    ensures Value(s) == n
    ensures n > 0 ==> s[0] != '0'
    decreases n
  {
    if n < 10 then [DigitChar(n)]
    else
      var prefix := ToDecimal(n / 10);
      assert (prefix + [DigitChar(n % 10)])[..|prefix|] == prefix;
      prefix + [DigitChar(n % 10)]
  }

  /** `n.ToString("00")`: at least two digits, zero-padded on the left. */
  function Pad2(n: nat): (s: string)
    ensures 2 <= |s| && AllDigits(s)
    ensures Value(s) == n
    ensures n < 100 ==> |s| == 2
  {
    if n < 10 then
      assert Value(['0']) == 0;
      assert (['0'] + ToDecimal(n))[..1] == ['0'];
      ['0'] + ToDecimal(n)
    else
      DecimalLength(n);
      ToDecimal(n)
  }

  /** `int.TryParse(s, out v)` on plain decimal text: it succeeds exactly when `s` is a
      non-empty run of ASCII digits whose value fits in an `int`. */
  function TryParseInt(s: string): (r: Option<int>)
    ensures r.Some? ==> 0 <= r.value <= IntMaxValue
  {
    if 0 < |s| && AllDigits(s) && Value(s) <= IntMaxValue then Some(Value(s)) else None
  }

  /** The number of digits `ToDecimal` writes. */
  lemma {:induction false} DecimalLength(n: nat)
    ensures n < 10 ==> |ToDecimal(n)| == 1
    ensures 10 <= n < 100 ==> |ToDecimal(n)| == 2
    ensures 100 <= n < 1000 ==> |ToDecimal(n)| == 3
    ensures 1000 <= n < 10000 ==> |ToDecimal(n)| == 4
    ensures 10 <= n ==> |ToDecimal(n)| >= 2
    decreases n
  {
    if n >= 10 {
      DecimalLength(n / 10);
    }
  }

  /** A string of k digits denotes a number below 10^k. */
  lemma {:induction false} ValueBound(s: string)
    requires AllDigits(s)
    ensures Value(s) < Pow10(|s|)
    decreases |s|
  {
    if |s| > 0 {
      ValueBound(s[..|s| - 1]);
    }
  }

  /** Digit strings contain no character that is not a digit. */
  lemma DigitsExclude(s: string, c: char)
    requires AllDigits(s) && !IsDigit(c)
    ensures c !in s
  {
  }

  /** `int.TryParse` reads back what `ToString()` writes. */
  lemma TryParseDecimal(n: nat)
    requires n <= IntMaxValue
    ensures TryParseInt(ToDecimal(n)) == Some(n)
  {
  }

  /** `int.TryParse` reads back what `ToString("00")` writes. */
  lemma TryParsePad2(n: nat)
    requires n <= IntMaxValue
    ensures TryParseInt(Pad2(n)) == Some(n)
  {
  }

  /** Text that is not all digits, or is empty, does not parse. */
  lemma TryParseRejects(s: string)
    requires |s| == 0 || exists i | 0 <= i < |s| :: !IsDigit(s[i])
    ensures TryParseInt(s) == None
  {
  }

  /** For a four-digit number, dropping the first two characters of its text leaves
      its last two digits, zero-padded. */
  lemma {:induction false} LastTwoDigits(n: nat)
    requires 1000 <= n < 10000
    ensures |ToDecimal(n)| == 4
    ensures ToDecimal(n)[2..] == Pad2(n % 100)
  {
    DecimalLength(n);
    TwoDigitsOf(n);
    var high := ToDecimal(n / 100);
    assert ToDecimal(n / 10) == high + [DigitChar(n / 10 % 10)];
    assert ToDecimal(n) == high + [DigitChar(n / 10 % 10), DigitChar(n % 10)];
    DecimalLength(n / 100);
    PaddedPair(n % 100);
  }

  /** The tens and units digits of n are those of n mod 100. */
  lemma TwoDigitsOf(n: nat)
    ensures n / 10 / 10 == n / 100
    ensures n % 100 / 10 == n / 10 % 10 && n % 100 % 10 == n % 10
  {
    var q, r := n / 100, n % 100;
    assert n == 100 * q + r;
    assert n / 10 == 10 * q + r / 10;
    assert n % 10 == r % 10;
  }

  /** Below 100, the zero-padded text is the tens digit and the units digit. */
  lemma PaddedPair(r: nat)
    requires r < 100
    ensures Pad2(r) == [DigitChar(r / 10), DigitChar(r % 10)]
  {
    if r >= 10 {
      assert ToDecimal(r) == ToDecimal(r / 10) + [DigitChar(r % 10)];
    }
  }

  /** Powers of ten grow with the exponent. */
  lemma {:induction false} Pow10Monotone(a: nat, b: nat)
    requires a <= b
    ensures Pow10(a) <= Pow10(b)
    decreases b - a
  {
    if a < b {
      Pow10Monotone(a, b - 1);
    }
  }

  /** Up to nine digits always fit in an `int`, so `int.TryParse` reads them. */
  lemma TryParseShort(s: string)
    requires AllDigits(s) && 1 <= |s| <= 9
    ensures TryParseInt(s) == Some(Value(s))
  {
    ValueBound(s);
    Pow10Monotone(|s|, 9);
    assert Pow10(9) == 1_000_000_000;
  }

  /** Digit strings stay digit strings when joined. */
  lemma AllDigitsConcat(a: string, b: string)
    requires AllDigits(a) && AllDigits(b)
    ensures AllDigits(a + b)
  {
    assert forall i | 0 <= i < |a + b| :: (a + b)[i] == if i < |a| then a[i] else b[i - |a|];
  }
}
