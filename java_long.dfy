/**
 * Java's 64-bit `long`: the range, two's-complement subtraction (which wraps
 * around silently) and the decimal rendering produced by `Long.toString`.
 */
module JavaLong {
  import opened Results

  const LONG_MIN: int := -0x8000_0000_0000_0000
  const LONG_MAX: int := 0x7FFF_FFFF_FFFF_FFFF
  const TWO_TO_THE_64: int := 0x1_0000_0000_0000_0000

  /** The values of a Java `long` (a `Long` that is not null). */
  type Long = x: int | LONG_MIN <= x <= LONG_MAX

  predicate InLongRange(x: int) {
    LONG_MIN <= x <= LONG_MAX
  }

  /**
   * `a - b` evaluated in Java `long` arithmetic: the unique `long` congruent to
   * the mathematical difference modulo 2^64.
   */
  function Sub(a: Long, b: Long): (r: Long)
    ensures (a - b - r) % TWO_TO_THE_64 == 0
    ensures InLongRange(a - b) ==> r == a - b
    ensures a - b > LONG_MAX ==> r < 0
    ensures a - b < LONG_MIN ==> r >= 0
  {
    var d := a - b;
    if d > LONG_MAX then d - TWO_TO_THE_64
    else if d < LONG_MIN then d + TWO_TO_THE_64
    else d
  }

  // ---------------------------------------------------------------------------
  // Long.toString: optional minus sign, then decimal digits without leading zeros

  predicate IsDigit(c: char) {
    '0' <= c <= '9'
  }

  predicate AllDigits(s: string) {
    forall i :: 0 <= i < |s| ==> IsDigit(s[i])
  }

  function DigitChar(d: int): (c: char)
    requires 0 <= d < 10
    ensures IsDigit(c) && DigitValue(c) == d
  {
    ('0' as int + d) as char
  }

  function DigitValue(c: char): (d: int)
    requires IsDigit(c)
    ensures 0 <= d < 10
  {
    c as int - '0' as int
  }

  /** The decimal digits of `n`, most significant first. */
  function Digits(n: nat): (s: string)
    ensures 1 <= |s| && AllDigits(s)
    ensures n > 0 ==> s[0] != '0'
    ensures s[0] != '-'
  {
    if n < 10 then [DigitChar(n)] else Digits(n / 10) + [DigitChar(n % 10)]
  }

  /** `Long.toString(x)` (equivalently `x.toString()` on a boxed `Long`). */
  function ToString(x: Long): (s: string)
    ensures 1 <= |s|
    ensures s[0] == '-' <==> x < 0
    ensures x < 0 ==> 2 <= |s| && AllDigits(s[1..])
    ensures x >= 0 ==> AllDigits(s)
  {
    if x < 0 then "-" + Digits(-(x as int)) else Digits(x)
  }

  /** Reads back a string of decimal digits. */
  function ParseDigits(s: string): (n: nat)
    requires 1 <= |s| && AllDigits(s)
  {
    if |s| == 1 then DigitValue(s[0])
    else 10 * ParseDigits(s[..|s| - 1]) + DigitValue(s[|s| - 1])
  }

  /** Reads back an optionally signed decimal numeral; `None` for anything else. */
  function ParseSigned(s: string): (r: Option<int>)
  {
    if 2 <= |s| && s[0] == '-' && AllDigits(s[1..]) then Some(-(ParseDigits(s[1..]) as int))
    else if 1 <= |s| && AllDigits(s) then Some(ParseDigits(s))
    else None
  }

  lemma {:induction false} ParseDigitsOfDigits(n: nat)
    ensures ParseDigits(Digits(n)) == n
  {
    if n >= 10 {
      var prefix := Digits(n / 10);
      var s := Digits(n);
      assert s == prefix + [DigitChar(n % 10)];
      assert s[..|s| - 1] == prefix;
      ParseDigitsOfDigits(n / 10);
    }
  }

  /** `ToString` is inverted by `ParseSigned`. */
  lemma ParseSignedOfToString(x: Long)
    ensures ParseSigned(ToString(x)) == Some(x)
  {
    var s := ToString(x);
    if x < 0 {
      assert s[1..] == Digits(-(x as int));
      ParseDigitsOfDigits(-(x as int));
    } else {
      ParseDigitsOfDigits(x);
    }
  }

  /** Distinct `long` values have distinct renderings. */
  lemma ToStringInjective(a: Long, b: Long)
    requires ToString(a) == ToString(b)
    ensures a == b
  {
    ParseSignedOfToString(a);
    ParseSignedOfToString(b);
  }
}
