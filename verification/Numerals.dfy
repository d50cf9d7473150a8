/** Decimal numerals as the shell stores them in variables and files: printing of
    integers, and the bounded parsing that Rust's integer `from_str_radix` performs. */
module Numerals {
  import opened Wrappers

  const I32_MIN := -0x8000_0000
  const I32_MAX := 0x7FFF_FFFF
  const I64_MIN := -0x8000_0000_0000_0000
  const I64_MAX := 0x7FFF_FFFF_FFFF_FFFF
  const USIZE_MAX: nat := 0xFFFF_FFFF_FFFF_FFFF

  type i64 = x: int | I64_MIN <= x <= I64_MAX

  function Abs(x: int): nat { if x < 0 then -x else x }

  function Min(x: nat, y: nat): nat { if x < y then x else y }

  function Max(x: int, y: int): int { if x < y then y else x }

  function Pow(base: int, exponent: nat): int {
    if exponent == 0 then 1 else base * Pow(base, exponent - 1)
  }

  predicate IsDigit(c: char) { '0' <= c <= '9' }

  predicate AllDigits(s: string) {
    forall i :: 0 <= i < |s| ==> IsDigit(s[i])
  }

  function DigitChar(d: nat): (c: char)
    requires d < 10
    ensures IsDigit(c) && DigitValue(c) == d
  {
    '0' + d as char
  }

  function DigitValue(c: char): (d: nat)
    requires IsDigit(c)
    ensures d < 10
  {
    c as int - '0' as int
  }

  function NatToString(n: nat): (s: string)
    ensures |s| > 0 && AllDigits(s)
    decreases n
  {
    if n < 10 then [DigitChar(n)] else NatToString(n / 10) + [DigitChar(n % 10)]
  }

  function IntToString(n: int): string {
    if n < 0 then "-" + NatToString(-n) else NatToString(n)
  }

  function DigitsValue(s: string): nat
    requires AllDigits(s)
  {
    if s == "" then 0 else 10 * DigitsValue(s[..|s| - 1]) + DigitValue(s[|s| - 1])
  }

  /** Parses a numeral of a machine integer type whose range is [lo, hi]. A `+` is always
      accepted, a `-` only for signed types; a lone sign and an out-of-range value fail. */
  function ParseInt(s: string, lo: int, hi: int): (r: Option<int>)
    ensures r.Some? ==> lo <= r.value <= hi
  {
    if s == "" then None
    else
      var signed := s[0] == '+' || (s[0] == '-' && lo < 0);
      var digits := if signed then s[1..] else s;
      if digits == "" || !AllDigits(digits) then None
      else
        var magnitude: int := DigitsValue(digits);
        var n := if s[0] == '-' then -magnitude else magnitude;
        if lo <= n <= hi then Some(n) else None
  }

  function ParseI32(s: string): Option<int> { ParseInt(s, I32_MIN, I32_MAX) }

  function ParseI64(s: string): Option<int> { ParseInt(s, I64_MIN, I64_MAX) }

  function ParseUsize(s: string): Option<nat> {
    match ParseInt(s, 0, USIZE_MAX)
    case Some(n) => Some(n)
    case None => None
  }

  lemma {:induction false} NatToStringValue(n: nat)
    ensures DigitsValue(NatToString(n)) == n
  {
    var s := NatToString(n);
    if n >= 10 {
      NatToStringValue(n / 10);
      assert s[..|s| - 1] == NatToString(n / 10);
    } else {
      assert s[..|s| - 1] == "";
    }
  }

  /** What is printed is read back, by every integer type that can hold it. */
  lemma ParseIntToString(n: int, lo: int, hi: int)
    requires lo <= n <= hi
    ensures ParseInt(IntToString(n), lo, hi) == Some(n)
  {
    var s := IntToString(n);
    if n < 0 {
      NatToStringValue(-n);
      assert s[1..] == NatToString(-n);
    } else {
      NatToStringValue(n);
      assert IsDigit(s[0]);
    }
  }

  lemma ParseIntOutOfRange(n: int, lo: int, hi: int)
    requires n < lo || hi < n
    ensures ParseInt(IntToString(n), lo, hi) == None
  {
    var s := IntToString(n);
    if n < 0 {
      NatToStringValue(-n);
      assert s[1..] == NatToString(-n);
      if lo >= 0 {
        assert !IsDigit(s[0]);
      }
    } else {
      NatToStringValue(n);
      assert IsDigit(s[0]);
    }
  }

  // ----- Numerals from left to right -----

  /** Some decimal digits, by their codes. */
  predicate IsDecimal(s: string) {
    s != "" && forall i :: 0 <= i < |s| ==> 48 <= s[i] as int <= 57
  }

  /** The number they denote, after digits that denote `before`. */
  function Decimal(s: string, before: int): int {
    if s == "" then before else Decimal(s[1..], 10 * before + (s[0] as int - 48))
  }

  lemma {:induction false} DecimalSnoc(s: string, before: int)
    requires s != ""
    ensures Decimal(s, before) == 10 * Decimal(s[..|s| - 1], before) + (s[|s| - 1] as int - 48)
    decreases |s|
  {
    if |s| > 1 {
      DecimalSnoc(s[1..], 10 * before + (s[0] as int - 48));
      assert s[1..][..|s| - 2] == s[..|s| - 1][1..];
    }
  }

  lemma {:induction false} DecimalValue(s: string)
    requires AllDigits(s)
    ensures DigitsValue(s) == Decimal(s, 0)
    decreases |s|
  {
    if s != "" {
      DecimalValue(s[..|s| - 1]);
      DecimalSnoc(s, 0);
    }
  }

  /** Exactly which texts are read, and as which numbers: decimal digits, behind a plus sign or, for
      a signed type, a minus sign, if the number is in range. */
  lemma ParseIntReads(s: string, lo: int, hi: int)
    requires lo <= 0 <= hi
    ensures var signed := s != "" && (s[0] == '+' || (s[0] == '-' && lo < 0));
            var digits := if signed then s[1..] else s;
            var n := if signed && s[0] == '-' then 0 - Decimal(digits, 0) else Decimal(digits, 0);
            ParseInt(s, lo, hi) == if IsDecimal(digits) && lo <= n <= hi then Some(n) else None
  {
    var signed := s != "" && (s[0] == '+' || (s[0] == '-' && lo < 0));
    var digits := if signed then s[1..] else s;
    assert AllDigits(digits) && digits != "" <==> IsDecimal(digits);
    if AllDigits(digits) {
      DecimalValue(digits);
    }
    assert s != "" && !signed && s[0] == '-' ==> !IsDigit(s[0]);
  }

  /** A number is printed in decimal digits without a zero in front, and a minus sign if it is
      negative. */
  lemma IntPrints(n: int)
    ensures var s := IntToString(n);
            var digits := if n < 0 then s[1..] else s;
            && (n < 0 ==> s != "" && s[0] == '-')
            && IsDecimal(digits) && (digits[0] == '0' ==> digits == "0")
            && Decimal(digits, 0) == if n < 0 then 0 - n else n
  {
    var m: nat := if n < 0 then -n else n;
    NatPrints(m);
    NatToStringValue(m);
    DecimalValue(NatToString(m));
    if n < 0 {
      assert IntToString(n)[1..] == NatToString(m);
    }
  }

  lemma {:induction false} NatPrints(n: nat)
    ensures var s := NatToString(n); IsDecimal(s) && (s[0] == '0' ==> s == "0")
    ensures n > 0 ==> NatToString(n)[0] != '0'
  {
    var s := NatToString(n);
    if n >= 10 {
      NatPrints(n / 10);
      assert s[0] == NatToString(n / 10)[0];
    }
  }
}
