/**
  * Decimal text of machine integers: Rust's `str::parse::<usize>()` and
  * `str::parse::<i64>()` (the `FromStr` impls of the integer types), and the
  * `{}` formatting of an integer that `format!` performs.
  *
  * `usize` is 64 bits wide in this model.
  */
module IntText {
  import opened Wrappers

  const USIZE_MAX: int := 0xFFFF_FFFF_FFFF_FFFF
  const I64_MIN: int := -0x8000_0000_0000_0000
  const I64_MAX: int := 0x7FFF_FFFF_FFFF_FFFF

  type I64 = x: int | I64_MIN <= x <= I64_MAX
  type Usize = n: int | 0 <= n <= USIZE_MAX

  predicate IsDigit(c: char) { '0' <= c <= '9' }

  predicate AllDigits(s: string) { forall i | 0 <= i < |s| :: IsDigit(s[i]) }

  /** The value of a run of decimal digits, most significant first. */
  function DigitsValue(s: string): nat
    requires AllDigits(s)
    decreases |s|
  {
    if |s| == 0 then 0 else DigitsValue(s[..|s| - 1]) * 10 + (s[|s| - 1] as int - '0' as int)
  }

  /**
    * `s.parse::<usize>()`: an optional `+`, then one or more ASCII digits
    * whose value fits in 64 bits. Leading zeros are allowed.
    */
  function ParseUsize(s: string): (r: Option<nat>)
    ensures r.Some? ==> r.value <= USIZE_MAX
  {
    var digits := if |s| > 0 && s[0] == '+' then s[1..] else s;
    if |digits| == 0 || !AllDigits(digits) || DigitsValue(digits) > USIZE_MAX then None
    else Some(DigitsValue(digits))
  }

  /**
    * `s.parse::<i64>()`: an optional `+` or `-`, then one or more ASCII
    * digits; the signed value must lie in the i64 range, so "-9223372036854775808"
    * is accepted while "9223372036854775808" is not.
    */
  function ParseI64(s: string): (r: Option<I64>)
    ensures r.Some? ==> |s| > 0 && IsDigit(s[|s| - 1])
    ensures r.Some? && r.value < 0 ==> s[0] == '-'
    ensures s == "" || s == "+" || s == "-" ==> r.None?
  {
    var negative := |s| > 0 && s[0] == '-';
    var digits := if |s| > 0 && (s[0] == '+' || s[0] == '-') then s[1..] else s;
    if |digits| == 0 || !AllDigits(digits) then None
    else
      var v: int := if negative then 0 - DigitsValue(digits) else DigitsValue(digits);
      if I64_MIN <= v <= I64_MAX then Some(v) else None
  }

  function DigitChar(d: nat): (c: char)
    requires d < 10
    ensures IsDigit(c) && c as int - '0' as int == d
  {
    ('0' as int + d) as char
  }

  /** `format!("{}", n)` for a non-negative integer: no sign, no leading zeros. */
  function NatToString(n: nat): (s: string)
    ensures |s| > 0 && AllDigits(s)
    ensures |s| > 1 ==> s[0] != '0'
  {
    if n < 10 then [DigitChar(n)] else NatToString(n / 10) + [DigitChar(n % 10)]
  }

  /** `format!("{}", n)` / `n.to_string()` for a signed integer. */
  function IntToString(n: int): (s: string)
    ensures |s| > 0
  {
    if n < 0 then "-" + NatToString(-n) else NatToString(n)
  }

  lemma {:induction false} NatToStringValue(n: nat)
    ensures DigitsValue(NatToString(n)) == n
  {
    var s := NatToString(n);
    if n >= 10 {
      NatToStringValue(n / 10);
      assert s[..|s| - 1] == NatToString(n / 10);
    }
  }

  /** Formatting then parsing a usize gives the number back. */
  lemma ParseUsizeNatToString(n: nat)
    requires n <= USIZE_MAX
    ensures ParseUsize(NatToString(n)) == Some(n)
  {
    NatToStringValue(n);
  }

  /** Formatting then parsing an i64 gives the number back. */
  lemma ParseI64IntToString(n: I64)
    ensures ParseI64(IntToString(n)) == Some(n)
  {
    if n < 0 {
      ParseI64Negative(0 - n as int);
    } else {
      ParseI64NonNegative(n);
    }
  }

  lemma ParseI64Negative(m: nat)
    requires 0 < m <= -I64_MIN
    ensures ParseI64(IntToString(0 - m)) == Some(0 - m)
  {
    var s := IntToString(0 - m);
    var digits := NatToString(m);
    assert s == "-" + digits;
    assert s[1..] == digits;
    NatToStringValue(m);
  }

  lemma ParseI64NonNegative(m: nat)
    requires m <= I64_MAX
    ensures ParseI64(IntToString(m)) == Some(m)
  {
    var digits := NatToString(m);
    assert IntToString(m) == digits;
    assert digits[0] != '-' && digits[0] != '+';
    NatToStringValue(m);
  }

  /** Decimal text has at most one digit more than a tenth of the number. */
  lemma {:induction false} NatToStringShort(n: nat)
    ensures |NatToString(n)| <= n / 10 + 1
  {
    if n >= 10 {
      NatToStringShort(n / 10);
    }
  }

  /**
    * `a + b` on `usize` as a release build computes it: the sum modulo
    * 2^64. A debug build panics where the sum passes USIZE_MAX.
    */
  function WrappingAdd(a: Usize, b: Usize): (r: Usize)
    ensures a + b <= USIZE_MAX ==> r == a + b
    ensures a + b > USIZE_MAX ==> r == a + b - (USIZE_MAX + 1) && r < a && r < b
  {
    (a + b) % (USIZE_MAX + 1)
  }

  /** Decimal text of a number is made of ASCII characters only. */
  lemma NatToStringAscii(n: nat)
    ensures forall i | 0 <= i < |NatToString(n)| :: NatToString(n)[i] as int < 0x80
  {
  }
}
