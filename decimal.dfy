/** Decimal text for unsigned integers: the `Display` rendering used when a
    width or height is formatted into a URL, and `str::parse::<u32>` used
    when it is read back out of a request path. */
module Decimal {
  import opened Common

  predicate IsAsciiDigit(c: char) {
    '0' <= c <= '9'
  }

  predicate AllDigits(s: string) {
    forall i :: 0 <= i < |s| ==> IsAsciiDigit(s[i])
  }

  function DigitChar(d: nat): (c: char)
    requires d < 10
    ensures IsAsciiDigit(c) && (c as int) - ('0' as int) == d
  {
    (('0' as int) + d) as char
  }

  /** The value of a run of ASCII digits, most significant first. */
  function DigitsValue(s: string): nat
    requires AllDigits(s)
  {
    if s == [] then 0 else 10 * DigitsValue(s[..|s| - 1]) + ((s[|s| - 1] as int) - ('0' as int))
  }

  /** `format!("{}", n)`: no sign, no leading zero, "0" for zero. */
  function DecimalString(n: nat): (s: string)
    ensures |s| > 0 && AllDigits(s)
    ensures |s| > 1 ==> s[0] != '0'
  {
    if n < 10 then [DigitChar(n)] else DecimalString(n / 10) + [DigitChar(n % 10)]
  }

  lemma {:induction false} DecimalStringValue(n: nat)
    ensures DigitsValue(DecimalString(n)) == n
  {
    if n >= 10 {
      var s := DecimalString(n);
      assert s[..|s| - 1] == DecimalString(n / 10);
      DecimalStringValue(n / 10);
    }
  }

  /** `str::parse::<u32>`: an optional leading `+`, then at least one ASCII
      digit, and a value that fits in 32 bits; anything else is an error. */
  function ParseU32(s: string): (r: Option<U32>)
    ensures r.Some? ==> |s| > 0
    ensures r.Some? && s[0] == '+' ==> |s| > 1 && AllDigits(s[1..]) && DigitsValue(s[1..]) == r.value
    ensures r.Some? && s[0] != '+' ==> AllDigits(s) && DigitsValue(s) == r.value
    ensures |s| > 0 && AllDigits(s) && DigitsValue(s) < U32_LIMIT ==> r.Some? && r.value == DigitsValue(s)
    ensures |s| > 1 && s[0] == '+' && AllDigits(s[1..]) && DigitsValue(s[1..]) < U32_LIMIT ==>
      r.Some? && r.value == DigitsValue(s[1..])
    ensures |s| > 0 && AllDigits(s) && DigitsValue(s) >= U32_LIMIT ==> r.None?
  {
    var digits := if |s| > 0 && s[0] == '+' then s[1..] else s;
    if digits != [] && AllDigits(digits) && DigitsValue(digits) < U32_LIMIT
    then Some(DigitsValue(digits) as U32)
    else None
  }

  /** A `u32` rendered by `Display` parses back to itself. */
  lemma ParseDecimalString(n: U32)
    ensures ParseU32(DecimalString(n)) == Some(n)
  {
    DecimalStringValue(n);
  }
}
