/**
 * Java's 64-bit `long`: its range, two's-complement wrap-around of `+` and `*`,
 * the truncating remainder `%`, and decimal parsing as done by `Long.valueOf(String)`.
 */
module JavaLong {
  import opened Wrappers

  const LongMin: int := -0x8000_0000_0000_0000
  const LongMax: int := 0x7FFF_FFFF_FFFF_FFFF
  const TwoTo64: int := 0x1_0000_0000_0000_0000

  predicate IsLong(x: int) {
    LongMin <= x <= LongMax
  }

  /** The `long` that a mathematically exact result `x` becomes after wrap-around. */
  function Wrap64(x: int): (r: int)
    ensures IsLong(r)
    ensures (x - r) % TwoTo64 == 0
    ensures IsLong(x) ==> r == x
  {
    (x - LongMin) % TwoTo64 + LongMin
  }

  /** Java's `a / b` for a positive divisor: the quotient is rounded toward zero. */
  function TruncQuot(a: int, b: int): (q: int)
    requires b > 0
  {
    if a >= 0 then a / b else -((-a) / b)
  }

  /**
   * Java's `a % b` for a positive divisor: the remainder that goes with the
   * quotient rounded toward zero, so it takes the sign of `a`.
   */
  function TruncRem(a: int, b: int): (r: int)
    requires b > 0
    ensures a == TruncQuot(a, b) * b + r
    ensures a >= 0 ==> 0 <= r < b
    ensures a < 0 ==> -b < r <= 0
  {
    if a >= 0 then
      var m := a % b;
      assert 0 <= m < b;
      m
    else
      var m := (-a) % b;
      assert 0 <= m < b;
      -m
  }

  // ---------------------------------------------------------------------
  // Decimal text, as read by Long.valueOf and written by Long.toString

  predicate IsDigit(c: char) {
    '0' <= c <= '9'
  }

  predicate AllDigits(s: string) {
    forall i :: 0 <= i < |s| ==> IsDigit(s[i])
  }

  function DigitChar(d: nat): (c: char)
    requires d < 10
    ensures IsDigit(c) && (c as int) - ('0' as int) == d
  {
    (('0' as int) + d) as char
  }

  /** The value of a run of decimal digits, most significant first (0 for none). */
  function DigitsValue(s: string): (v: nat)
    requires AllDigits(s)
  {
    if s == [] then 0
    else DigitsValue(s[..|s| - 1]) * 10 + ((s[|s| - 1] as int) - ('0' as int))
  }

  /**
   * `Long.valueOf(s)`: an optional sign followed by at least one decimal digit,
   * whose value fits in a `long`; anything else is a `NumberFormatException` (`None`).
   */
  function ParseLong(s: string): (r: Option<int>)
    ensures r.Some? ==> IsLong(r.value)
    ensures r.Some? ==> |s| >= 1 && (IsDigit(s[0]) || (|s| >= 2 && (s[0] == '-' || s[0] == '+')))
    ensures r.Some? && r.value < 0 ==> s[0] == '-'
  {
    if |s| == 0 then None
    else
      var digits := if s[0] == '-' || s[0] == '+' then s[1..] else s;
      if |digits| == 0 || !AllDigits(digits) then None
      else
        var magnitude: int := DigitsValue(digits);
        var v := if s[0] == '-' then -magnitude else magnitude;
        if IsLong(v) then Some(v) else None
  }

  /** A character after the first that is not a digit is a `NumberFormatException`. */
  lemma ParseLongRejectsNonDigit(s: string, i: int)
    requires 0 < i < |s| && !IsDigit(s[i])
    ensures ParseLong(s) == None
  {
    var digits := if s[0] == '-' || s[0] == '+' then s[1..] else s;
    var k := if s[0] == '-' || s[0] == '+' then i - 1 else i;
    assert digits[k] == s[i];
  }

  /** A first character that is neither a digit nor a sign is a `NumberFormatException`. */
  lemma ParseLongRejectsFirstChar(s: string)
    requires |s| >= 1 && !IsDigit(s[0]) && s[0] != '-' && s[0] != '+'
    ensures ParseLong(s) == None
  {
    assert !AllDigits(s);
  }

  /**
   * Unsigned digits, leading zeros included, are read as their decimal value, which
   * must not exceed Long.MAX_VALUE.
   */
  lemma ParseLongUnsigned(s: string)
    requires |s| >= 1 && AllDigits(s)
    ensures ParseLong(s) == (if DigitsValue(s) <= LongMax then Some(DigitsValue(s)) else None)
  {
  }

  /**
   * A sign followed by digits: `+` gives the value, at most Long.MAX_VALUE; `-` gives
   * its negation, at least Long.MIN_VALUE.
   */
  lemma ParseLongSigned(s: string)
    requires |s| >= 2 && (s[0] == '-' || s[0] == '+') && AllDigits(s[1..])
    ensures s[0] == '+' ==>
      ParseLong(s) == (if DigitsValue(s[1..]) <= LongMax then Some(DigitsValue(s[1..])) else None)
    ensures s[0] == '-' ==>
      ParseLong(s) == (if DigitsValue(s[1..]) <= -LongMin then Some(-(DigitsValue(s[1..]) as int)) else None)
  {
  }

  /** The shortest decimal text of `n` (`Long.toString` of a non-negative value). */
  function DecimalString(n: nat): (s: string)
    ensures |s| >= 1 && AllDigits(s)
  {
    if n < 10 then [DigitChar(n)] else DecimalString(n / 10) + [DigitChar(n % 10)]
  }

  /** `Long.toString` of any long. */
  function LongToString(n: int): (s: string)
    requires IsLong(n)
  {
    if n < 0 then "-" + DecimalString(-n) else DecimalString(n)
  }

  lemma {:induction false} DigitsValueOfDecimalString(n: nat)
    ensures DigitsValue(DecimalString(n)) == n
  {
    if n >= 10 {
      var s := DecimalString(n);
      assert s[..|s| - 1] == DecimalString(n / 10);
      DigitsValueOfDecimalString(n / 10);
    }
  }

  /** Parsing the decimal text of a long gives that long back. */
  lemma ParseLongToString(n: int)
    requires IsLong(n)
    ensures ParseLong(LongToString(n)) == Some(n)
  {
    var s := LongToString(n);
    if n < 0 {
      var digits := DecimalString(-n);
      DigitsValueOfDecimalString(-n);
      assert s[0] == '-' && s[1..] == digits;
      assert ParseLong(s) == Some(n);
    } else {
      DigitsValueOfDecimalString(n);
      assert IsDigit(s[0]) && s[0] != '-' && s[0] != '+';
      assert ParseLong(s) == Some(DigitsValue(s));
    }
  }
}
