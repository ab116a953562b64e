/**
  Signed 64-bit integers and their decimal text: the `{}` formatting of an
  integer and `str::parse::<i64>()` (also used for `isize`, taken to be
  64 bits wide).
 */
module Decimal {
  import opened Wrappers
  import opened Bytes

  const MIN_I64: int := -0x8000_0000_0000_0000
  const MAX_I64: int := 0x7FFF_FFFF_FFFF_FFFF

  type i64 = x: int | MIN_I64 <= x <= MAX_I64

  const ZERO: byte := 0x30
  const PLUS_SIGN: byte := 0x2B
  const MINUS_SIGN: byte := 0x2D

  predicate IsDigit(b: byte) {
    ZERO <= b <= ZERO + 9
  }

  predicate AllDigits(s: seq<byte>) {
    forall i :: 0 <= i < |s| ==> IsDigit(s[i])
  }

  /** The value of a run of decimal digits, most significant first. */
  function DigitsValue(ds: seq<byte>): nat
    requires AllDigits(ds)
    decreases |ds|
  {
    if |ds| == 0 then 0 else DigitsValue(ds[..|ds| - 1]) * 10 + (ds[|ds| - 1] - ZERO)
  }

  /** The decimal digits of `n` without leading zeros. */
  function NatDigits(n: nat): (ds: seq<byte>)
    ensures |ds| > 0 && AllDigits(ds)
    ensures DigitsValue(ds) == n
    ensures ds[0] == ZERO ==> n == 0
    ensures |ds| == 1 <==> n < 10
    ensures |ds| <= n + 1
    decreases n
  {
    if n < 10 then [ZERO + n]
    else
      var ds := NatDigits(n / 10) + [ZERO + n % 10];
      assert ds[..|ds| - 1] == NatDigits(n / 10);
      ds
  }

  /** `format!("{}", i)`: a minus sign for negative values, then the digits of the magnitude. */
  function FormatInt(i: int): (s: seq<byte>)
    ensures |s| > 0 && AsciiBytes(s)
    ensures forall k :: 0 <= k < |s| ==> s[k] != CR
    ensures i >= 0 ==> AllDigits(s)
    ensures i < 0 ==> s[0] == MINUS_SIGN && AllDigits(s[1..])
  {
    if i < 0 then [MINUS_SIGN] + NatDigits(-i) else NatDigits(i)
  }

  /**
    `str::parse::<i64>()`: an optional `+` or `-`, then one or more ASCII
    digits (leading zeros allowed), whose value lies in the i64 range.
   */
  function ParseI64(s: seq<byte>): (r: Option<i64>)
    ensures r.Some? ==> |s| > 0 && AsciiBytes(s)
    ensures r.Some? && r.value < 0 ==> s[0] == MINUS_SIGN
  {
    var signed := |s| > 0 && (s[0] == PLUS_SIGN || s[0] == MINUS_SIGN);
    var digits := if signed then s[1..] else s;
    if |digits| == 0 || !AllDigits(digits) then None
    else
      var v: int := if signed && s[0] == MINUS_SIGN then 0 - DigitsValue(digits) as int else DigitsValue(digits);
      if MIN_I64 <= v <= MAX_I64 then Some(v) else None
  }

  /** Formatting then parsing gives back every i64. */
  lemma ParseFormat(i: i64)
    ensures ParseI64(FormatInt(i)) == Some(i)
  {
    var s := FormatInt(i);
    if i < 0 {
      assert s[1..] == NatDigits(-(i as int));
    } else {
      assert !IsDigit(PLUS_SIGN) && !IsDigit(MINUS_SIGN);
    }
  }
}
