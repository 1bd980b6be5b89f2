/** Decimal numerals: `to_string`, zero-padded formatting and `str::parse` for Rust's integer types. */
module Decimal {
  import opened Wrappers

  const I32_MIN: int := -0x8000_0000
  const I32_MAX: int := 0x7fff_ffff
  const U32_MAX: int := 0xffff_ffff
  const I64_MIN: int := -0x8000_0000_0000_0000
  const I64_MAX: int := 0x7fff_ffff_ffff_ffff
  const U64_MAX: int := 0xffff_ffff_ffff_ffff

  predicate IsDigit(c: char) {
    '0' <= c <= '9'
  }

  predicate AllDigits(s: string) {
    forall i :: 0 <= i < |s| ==> IsDigit(s[i])
  }

  function DigitChar(d: nat): (c: char)
    requires d < 10
    ensures IsDigit(c) && DigitValue(c) == d
  {
    (d + '0' as int) as char
  }

  function DigitValue(c: char): nat
    requires IsDigit(c)
  {
    c as int - '0' as int
  }

  /** The number a string of decimal digits stands for. */
  function Value(s: string): nat
    requires AllDigits(s)
  {
    if s == "" then 0 else 10 * Value(s[..|s| - 1]) + DigitValue(s[|s| - 1])
  }

  function ToString(n: nat): (s: string)
    ensures s != "" && AllDigits(s)
  {
    if n < 10 then [DigitChar(n)] else ToString(n / 10) + [DigitChar(n % 10)]
  }

  function IntToString(i: int): string {
    if i < 0 then "-" + ToString(-i) else ToString(i)
  }

  function Zeros(n: nat): (s: string)
    ensures |s| == n && AllDigits(s)
  {
    seq(n, _ => '0')
  }

  /** `format!("{i:0width$}")`: zeros go between the sign and the digits. */
  function ZeroPadded(i: int, width: nat): string {
    var digits := ToString(if i < 0 then -i else i);
    var sign := if i < 0 then "-" else "";
    var used := |sign| + |digits|;
    sign + Zeros(if used < width then width - used else 0) + digits
  }

  /** `s.parse::<T>()` for the integer type whose range is `[lo, hi]`; only a signed type takes a minus. */
  function ParseInt(s: string, lo: int, hi: int): Option<int> {
    if s == "" then None
    else
      var negative := s[0] == '-' && lo < 0;
      var digits := if s[0] == '+' || negative then s[1..] else s;
      if digits == "" || !AllDigits(digits) then None
      else
        var magnitude: int := Value(digits);
        var v := if negative then -magnitude else magnitude;
        if lo <= v <= hi then Some(v) else None
  }

  lemma {:induction false} ValueOfToString(n: nat)
    ensures Value(ToString(n)) == n
  {
    if n >= 10 {
      ValueOfToString(n / 10);
      var s := ToString(n);
      assert s[..|s| - 1] == ToString(n / 10);
    }
  }

  lemma {:induction false} ValueOfZeros(n: nat, s: string)
    requires AllDigits(s)
    ensures AllDigits(Zeros(n) + s) && Value(Zeros(n) + s) == Value(s)
    decreases n, |s|
  {
    var z := Zeros(n) + s;
    if s != "" {
      assert z[..|z| - 1] == Zeros(n) + s[..|s| - 1];
      ValueOfZeros(n, s[..|s| - 1]);
    } else if n > 0 {
      assert z[..|z| - 1] == Zeros(n - 1) + "";
      ValueOfZeros(n - 1, "");
    }
  }

  function Pow10(e: nat): (p: nat)
    ensures p > 0
  {
    if e == 0 then 1 else 10 * Pow10(e - 1)
  }

  lemma {:induction false} ValueBound(s: string)
    requires AllDigits(s)
    ensures Value(s) < Pow10(|s|)
  {
    if s != "" { ValueBound(s[..|s| - 1]); }
  }

  /** Parsing a printed number gives the number back, for every integer type that holds it. */
  lemma ParsePrinted(i: int, lo: int, hi: int)
    requires lo <= i <= hi
    ensures ParseInt(IntToString(i), lo, hi) == Some(i)
  {
    if i < 0 {
      ParseNegative(-i, lo, hi);
    } else {
      ParseDigits(i, lo, hi);
    }
  }

  lemma ParseDigits(n: nat, lo: int, hi: int)
    requires lo <= n <= hi
    ensures ParseInt(ToString(n), lo, hi) == Some(n)
  {
    ValueOfToString(n);
    assert IsDigit(ToString(n)[0]);
  }

  lemma ParseNegative(n: int, lo: int, hi: int)
    requires lo <= -n <= hi && n > 0
    ensures ParseInt("-" + ToString(n), lo, hi) == Some(-n)
  {
    ValueOfToString(n);
    assert ("-" + ToString(n))[1..] == ToString(n);
  }

  /** A sign, which is a minus only for a type with negative numbers, and at least one digit, worth `v`. */
  predicate Numeral(s: string, sign: string, digits: string, lo: int, v: int) {
    && s == sign + digits && digits != "" && AllDigits(digits)
    && (sign == "" || sign == "+" || (sign == "-" && lo < 0))
    && v == if sign == "-" then 0 - Value(digits) else Value(digits)
  }

  lemma NumeralParses(s: string, sign: string, digits: string, lo: int, hi: int, v: int)
    requires Numeral(s, sign, digits, lo, v) && lo <= v <= hi
    ensures ParseInt(s, lo, hi) == Some(v)
  {
    if sign == "" {
      assert s == digits && IsDigit(s[0]);
    } else {
      assert s[0] == sign[0] && s[1..] == digits;
    }
  }

  /** A text parses as `v` exactly when it is a numeral worth `v` that the type holds. */
  lemma ParseIntExact(s: string, lo: int, hi: int, v: int)
    ensures ParseInt(s, lo, hi) == Some(v)
       <==> lo <= v <= hi && exists sign, digits :: Numeral(s, sign, digits, lo, v)
  {
    if ParseInt(s, lo, hi) == Some(v) {
      var signed := s[0] == '+' || (s[0] == '-' && lo < 0);
      var sign, digits := if signed then s[..1] else "", if signed then s[1..] else s;
      assert s == sign + digits;
      assert sign == "-" <==> s[0] == '-' && lo < 0;
      assert Numeral(s, sign, digits, lo, v);
    }
    forall sign, digits | Numeral(s, sign, digits, lo, v) && lo <= v <= hi
      ensures ParseInt(s, lo, hi) == Some(v)
    {
      NumeralParses(s, sign, digits, lo, hi, v);
    }
  }

  /** Printed integers hold only digits and a leading minus. */
  lemma PrintedChars(i: int, c: char)
    requires c in IntToString(i)
    ensures IsDigit(c) || c == '-'
  {
  }
}
