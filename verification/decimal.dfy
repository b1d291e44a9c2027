/**
  Decimal text for integers, as the clipboard uses it: numbers are written in
  base 10 without leading zeros and with a leading '-' when negative, and are
  read back with the two conversions the paste applies, one to unsigned
  32-bit sizes and one to signed 32-bit cell values.
 */
module Decimal {
  import opened Wrappers

  const UINT32_LIMIT: int := 0x1_0000_0000
  const INT32_MIN: int := -0x8000_0000
  const INT32_MAX: int := 0x7FFF_FFFF

  predicate IsDigit(c: char) {
    '0' <= c <= '9'
  }

  predicate AllDigits(s: string) {
    forall i :: 0 <= i < |s| ==> IsDigit(s[i])
  }

  function DigitChar(d: nat): (c: char)
    requires d < 10
    ensures IsDigit(c)
  {
    "0123456789"[d]
  }

  function DigitValue(c: char): (d: nat)
    requires IsDigit(c)
    ensures d < 10
  {
    (c as int - '0' as int) as nat
  }

  lemma DigitValueChar(d: nat)
    requires d < 10
    ensures DigitValue(DigitChar(d)) == d
  {
  }

  /** The base-10 spelling of a natural number, without leading zeros. */
  function Show(n: nat): (s: string)
    ensures |s| >= 1 && AllDigits(s)
    ensures |s| > 1 ==> s[0] != '0'
  {
    if n < 10 then [DigitChar(n)] else Show(n / 10) + [DigitChar(n % 10)]
  }

  /** The value of a string of digits, most significant first. */
  function ValueOf(s: string): (n: nat)
    requires AllDigits(s)
  {
    if |s| == 0 then 0 else ValueOf(s[..|s| - 1]) * 10 + DigitValue(s[|s| - 1])
  }

  /** Reading a spelled number gives back the number. */
  lemma {:induction false} ValueOfShow(n: nat)
    ensures ValueOf(Show(n)) == n
  {
    var s := Show(n);
    if n < 10 {
      DigitValueChar(n);
    } else {
      ValueOfShow(n / 10);
      assert s[..|s| - 1] == Show(n / 10);
      DigitValueChar(n % 10);
    }
  }

  /**
    A digit string as an unsigned 32-bit number; a value that does not fit is a
    failed conversion, which reads as 0.
   */
  function ToUInt(s: string): (n: nat)
    requires AllDigits(s)
    ensures n < UINT32_LIMIT
    ensures n == ValueOf(s) || (n == 0 && ValueOf(s) >= UINT32_LIMIT)
  {
    if ValueOf(s) < UINT32_LIMIT then ValueOf(s) else 0
  }

  /** The decimal spelling of an integer: '-' and the magnitude when negative. */
  function ShowInt(x: int): (s: string)
    ensures |s| >= 1 && (x < 0 <==> s[0] == '-')
    ensures forall i :: 0 <= i < |s| ==> IsDigit(s[i]) || (i == 0 && s[i] == '-')
  {
    if x < 0 then "-" + Show(-x) else Show(x)
  }

  /**
    A signed 32-bit integer in base 10: an optional '+' or '-' and then at
    least one digit, with the value in range; anything else fails.
   */
  function ToInt(s: string): (r: Option<int>)
    ensures r.Some? ==> INT32_MIN <= r.value <= INT32_MAX
    ensures r.Some? ==> |s| >= 1 && (IsDigit(s[0]) || s[0] == '-' || s[0] == '+')
    ensures r.Some? ==> forall i :: 1 <= i < |s| ==> IsDigit(s[i])
  {
    if |s| == 0 then None
    else
      var signed := s[0] == '-' || s[0] == '+';
      var digits := if signed then s[1..] else s;
      if |digits| == 0 || !AllDigits(digits) then None
      else
        var v: int := if s[0] == '-' then -(ValueOf(digits) as int) else ValueOf(digits) as int;
        if INT32_MIN <= v <= INT32_MAX then Some(v) else None
  }

  /** Every 32-bit integer survives writing it out and reading it back. */
  lemma ToIntShowInt(x: int)
    requires INT32_MIN <= x <= INT32_MAX
    ensures ToInt(ShowInt(x)) == Some(x)
  {
    if x < 0 {
      ToIntNegative(-x);
    } else {
      ToIntNatural(x);
    }
  }

  /** A magnitude behind '-' reads back as its negation. */
  lemma ToIntNegative(n: nat)
    requires 0 < n <= -INT32_MIN
    ensures ToInt("-" + Show(n)) == Some(-(n as int))
  {
    var s := "-" + Show(n);
    ValueOfShow(n);
    assert s[0] == '-' && s[1..] == Show(n);
  }

  /** The spelling of a natural number in range reads back as that number. */
  lemma ToIntNatural(n: nat)
    requires n <= INT32_MAX
    ensures ToInt(Show(n)) == Some(n)
  {
    ValueOfShow(n);
    assert IsDigit(Show(n)[0]);
  }

  /** Every 32-bit size survives writing it out and reading it back. */
  lemma ToUIntShow(n: nat)
    requires n < UINT32_LIMIT
    ensures ToUInt(Show(n)) == n
  {
    ValueOfShow(n);
  }
}
