/**
 The Bachs provider's money texts: printing an amount held in minor units, and reading one back.
 Machine arithmetic is 64-bit two's complement, as in a release build.
 */
module Money {
  import opened Wrappers
  import opened Decimal
  import opened Text

  datatype AmountError =
    | EmptyAmount
    | MalformedAmount
    | MalformedInteger
    | IntegerTooLarge
    | FractionNotAllowed
    | MalformedFraction
    | FractionTooLong
    | AmountTooLarge

  const ZERO_DECIMAL: set<string> :=
    {"BIF", "CLP", "DJF", "GNF", "ISK", "JPY", "KMF", "KRW", "PYG", "RWF", "UGX",
     "VND", "VUV", "XAF", "XOF", "XPF"}
  const THREE_DECIMAL: set<string> := {"BHD", "IQD", "JOD", "KWD", "LYD", "OMR", "TND"}

  function AsciiUpper(s: string): string {
    seq(|s|, i requires 0 <= i < |s| =>
      if 'a' <= s[i] <= 'z' then (s[i] as int - 32) as char else s[i])
  }

  function CurrencyExponent(currency: string): (e: nat)
    ensures e == 0 || e == 2 || e == 3
  {
    var code := AsciiUpper(currency);
    if code in ZERO_DECIMAL then 0 else if code in THREE_DECIMAL then 3 else 2
  }

  predicate IsI64(x: int) {
    I64_MIN <= x <= I64_MAX
  }

  /** `i64::abs`, which wraps at the minimum. */
  function WrappingAbs(x: int): int {
    if x == I64_MIN || x >= 0 then x else -x
  }

  /** Rust's `/` and `%` truncate toward zero. */
  function TruncDiv(a: int, b: int): int
    requires b > 0
  {
    if a >= 0 then a / b else -(-a / b)
  }

  function TruncMod(a: int, b: int): int
    requires b > 0
  {
    if a >= 0 then a % b else -(-a % b)
  }

  function MinorToDecimalString(amountMinor: int, currency: string): string
    requires IsI64(amountMinor)
  {
    Print(amountMinor, CurrencyExponent(currency))
  }

  function Print(amountMinor: int, exponent: nat): string {
    if exponent == 0 then IntToString(amountMinor)
    else
      var absAmount := WrappingAbs(amountMinor);
      var divisor := Pow10(exponent);
      var sign := if amountMinor < 0 then "-" else "";
      sign + IntToString(TruncDiv(absAmount, divisor)) + "."
      + ZeroPadded(TruncMod(absAmount, divisor), exponent)
  }

  /** The fraction digits as minor units: right-padded with zeros to the currency's exponent. */
  function FractionToMinor(pieces: seq<string>, exponent: nat): Result<nat, AmountError>
    requires |pieces| == 1 || |pieces| == 2
  {
    if exponent == 0 then
      if |pieces| > 1 && pieces[1] != "" then Err(FractionNotAllowed) else Ok(0)
    else
      var fraction := if |pieces| > 1 then pieces[1] else "";
      if !AllDigits(fraction) then Err(MalformedFraction)
      else if |fraction| > exponent then Err(FractionTooLong)
      else Ok(Value(fraction + Zeros(exponent - |fraction|)))
  }

  /** `checked_mul` then `checked_add`. */
  function CheckedScale(integer: int, multiplier: int, fraction: int): Option<int> {
    var scaled := integer * multiplier;
    if !IsI64(scaled) then None
    else if !IsI64(scaled + fraction) then None
    else Some(scaled + fraction)
  }

  function DecimalStringToMinor(amount: string, currency: string): Result<int, AmountError> {
    Parse(amount, CurrencyExponent(currency))
  }

  function Parse(amount: string, exponent: nat): Result<int, AmountError> {
    if amount == "" then Err(EmptyAmount)
    else
      var negative := amount[0] == '-';
      ParsePieces(Split(if negative then amount[1..] else amount, '.'), negative, exponent)
  }

  function ParsePieces(pieces: seq<string>, negative: bool, exponent: nat): Result<int, AmountError>
    requires |pieces| > 0
  {
    if |pieces| > 2 then Err(MalformedAmount)
    else if pieces[0] == "" || !AllDigits(pieces[0]) then Err(MalformedInteger)
    else match ParseInt(pieces[0], I64_MIN, I64_MAX)
      case None => Err(IntegerTooLarge)
      case Some(integer) =>
        match FractionToMinor(pieces, exponent)
        case Err(e) => Err(e)
        case Ok(fraction) =>
          match CheckedScale(integer, Pow10(exponent), fraction)
          case None => Err(AmountTooLarge)
          case Some(combined) => Ok(if negative then -combined else combined)
  }

  // ---------------------------------------------------------------------------------------------
  // What an amount text means, without reference to how it is parsed.

  /** An amount as written: a sign, integer digits and, after a dot, fraction digits. */
  datatype Written = Written(negative: bool, integer: string, fraction: Option<string>)
  {
    function FractionDigits(): string {
      if fraction.Some? then fraction.value else ""
    }

    predicate WellFormed(exponent: nat) {
      && integer != "" && AllDigits(integer)
      && AllDigits(FractionDigits()) && |FractionDigits()| <= exponent
    }

    function Text(): string {
      (if negative then "-" else "") + integer
      + (if fraction.Some? then "." + fraction.value else "")
    }

    /** The digits read as one number, once the fraction is filled up to `exponent` digits. */
    function Magnitude(exponent: nat): nat
      requires WellFormed(exponent)
    {
      Value(integer + FractionDigits() + Zeros(exponent - |FractionDigits()|))
    }

    function Minor(exponent: nat): int
      requires WellFormed(exponent)
    {
      var magnitude: int := Magnitude(exponent);
      if negative then -magnitude else magnitude
    }
  }

  lemma TenTimes(a: nat, p: nat, v: nat)
    ensures 10 * (a * p + v) == a * (10 * p) + 10 * v
  {
  }

  lemma {:induction false} ValueOfConcat(a: string, b: string)
    requires AllDigits(a) && AllDigits(b)
    ensures AllDigits(a + b) && Value(a + b) == Value(a) * Pow10(|b|) + Value(b)
  {
    if b == "" {
      assert a + b == a;
    } else {
      var front := b[..|b| - 1];
      ValueOfConcat(a, front);
      assert (a + b)[..|a + b| - 1] == a + front;
      TenTimes(Value(a), Pow10(|front|), Value(front));
    }
  }

  predicate Used(e: nat) {
    e == 0 || e == 2 || e == 3
  }

  lemma PowersUsed(e: nat)
    requires Used(e)
    ensures Pow10(e) == if e == 0 then 1 else if e == 2 then 100 else 1000
  {
    assert Pow10(1) == 10 && Pow10(2) == 100 && Pow10(3) == 1000;
  }

  lemma SplitWritten(w: Written, exponent: nat)
    requires w.WellFormed(exponent)
    ensures var s := w.Text();
      && s != "" && (s[0] == '-' <==> w.negative)
      && Split(if s[0] == '-' then s[1..] else s, '.')
         == (if w.fraction.Some? then [w.integer, w.fraction.value] else [w.integer])
  {
    var rest := w.integer + (if w.fraction.Some? then "." + w.fraction.value else "");
    var s := w.Text();
    assert s == (if w.negative then "-" else "") + rest;
    assert IsDigit(rest[0]) by { assert rest[0] == w.integer[0]; }
    assert (if s[0] == '-' then s[1..] else s) == rest;
    SplitAbsent(w.integer, '.');
    if w.fraction.Some? {
      assert rest == w.integer + ['.'] + w.fraction.value;
      SplitAtFirst(w.integer, '.', w.fraction.value);
      SplitAbsent(w.fraction.value, '.');
    } else {
      assert rest == w.integer;
    }
  }

  /** The magnitude is the integer part scaled up plus the filled-up fraction. */
  lemma MagnitudeSplits(w: Written, exponent: nat)
    requires w.WellFormed(exponent)
    ensures var fraction := w.FractionDigits() + Zeros(exponent - |w.FractionDigits()|);
      && w.Magnitude(exponent) == Value(w.integer) * Pow10(exponent) + Value(fraction)
      && Value(fraction) < Pow10(exponent)
  {
    var fraction := w.FractionDigits() + Zeros(exponent - |w.FractionDigits()|);
    assert w.integer + w.FractionDigits() + Zeros(exponent - |w.FractionDigits()|) == w.integer + fraction;
    ValueOfConcat(w.integer, fraction);
    ValueBound(fraction);
  }

  lemma ParsePlainDigits(s: string)
    requires s != "" && AllDigits(s)
    ensures ParseInt(s, I64_MIN, I64_MAX) == if Value(s) <= I64_MAX then Some(Value(s)) else None
  {
    assert IsDigit(s[0]);
  }

  lemma CheckedScaleExact(integer: nat, multiplier: nat, fraction: nat)
    requires multiplier > 0
    ensures var exact := integer * multiplier + fraction;
      && integer <= exact
      && CheckedScale(integer, multiplier, fraction) == if exact <= I64_MAX then Some(exact) else None
  {
    assert integer <= integer * multiplier;
  }

  lemma FractionExact(w: Written, e: nat)
    requires w.WellFormed(e)
    ensures FractionToMinor(if w.fraction.Some? then [w.integer, w.fraction.value] else [w.integer], e)
      == Ok(Value(w.FractionDigits() + Zeros(e - |w.FractionDigits()|)))
  {
    if e == 0 { assert w.FractionDigits() + Zeros(0) == ""; }
  }

  function PiecesOf(w: Written): seq<string> {
    if w.fraction.Some? then [w.integer, w.fraction.value] else [w.integer]
  }

  lemma ParsesPieces(w: Written, e: nat)
    requires w.WellFormed(e)
    ensures Parse(w.Text(), e) == ParsePieces(PiecesOf(w), w.negative, e)
  {
    SplitWritten(w, e);
  }

  predicate Readable(pieces: seq<string>) {
    (|pieces| == 1 || |pieces| == 2) && pieces[0] != "" && AllDigits(pieces[0])
  }

  lemma HugeInteger(pieces: seq<string>, negative: bool, e: nat)
    requires Readable(pieces) && ParseInt(pieces[0], I64_MIN, I64_MAX) == None
    ensures ParsePieces(pieces, negative, e) == Err(IntegerTooLarge)
  {
  }

  /** What is left to do once integer and fraction are read. */
  lemma PiecesCombine(pieces: seq<string>, negative: bool, e: nat, integer: int, fraction: nat)
    requires Readable(pieces) && ParseInt(pieces[0], I64_MIN, I64_MAX) == Some(integer)
    requires FractionToMinor(pieces, e) == Ok(fraction)
    ensures ParsePieces(pieces, negative, e) ==
      match CheckedScale(integer, Pow10(e), fraction)
      case None => Err(AmountTooLarge)
      case Some(combined) => Ok(if negative then -combined else combined)
  {
  }

  lemma CombinedExact(w: Written, e: nat, fraction: nat)
    requires w.WellFormed(e) && fraction == Value(w.FractionDigits() + Zeros(e - |w.FractionDigits()|))
    ensures CheckedScale(Value(w.integer), Pow10(e), fraction)
         == if w.Magnitude(e) <= I64_MAX then Some(w.Magnitude(e)) else None
    ensures Value(w.integer) <= w.Magnitude(e)
  {
    MagnitudeSplits(w, e);
    CheckedScaleExact(Value(w.integer), Pow10(e), fraction);
  }

  lemma PiecesExact(w: Written, e: nat)
    requires w.WellFormed(e)
    ensures var parsed := ParsePieces(PiecesOf(w), w.negative, e);
      if w.Magnitude(e) <= I64_MAX then parsed == Ok(w.Minor(e)) else parsed.Err?
  {
    var fraction := Value(w.FractionDigits() + Zeros(e - |w.FractionDigits()|));
    CombinedExact(w, e, fraction);
    ParsePlainDigits(w.integer);
    FractionExact(w, e);
    if Value(w.integer) <= I64_MAX {
      PiecesCombine(PiecesOf(w), w.negative, e, Value(w.integer), fraction);
    } else {
      HugeInteger(PiecesOf(w), w.negative, e);
    }
  }

  /** The parser on every well-formed text: the exact value, or an overflow error; never a wrap. */
  lemma ParseWellFormed(w: Written, e: nat)
    requires w.WellFormed(e)
    ensures var m := w.Minor(e);
      if -I64_MAX <= m <= I64_MAX then Parse(w.Text(), e) == Ok(m) else Parse(w.Text(), e).Err?
  {
    ParsesPieces(w, e);
    PiecesExact(w, e);
  }

  lemma JoinedPieces(s: string)
    ensures var pieces := Split(s, '.');
      (|pieces| == 1 ==> s == pieces[0]) && (|pieces| == 2 ==> s == pieces[0] + "." + pieces[1])
  {
    JoinSplit(s, '.');
    var pieces := Split(s, '.');
    if |pieces| == 2 { assert Join(pieces[1..], ".") == pieces[1]; }
  }

  /** The amount that the pieces around the dot are written as. */
  function FromPieces(pieces: seq<string>, negative: bool): Written
    requires |pieces| > 0
  {
    Written(negative, pieces[0], if |pieces| == 1 then None else Some(pieces[1]))
  }

  lemma AcceptedPieces(pieces: seq<string>, negative: bool, e: nat)
    requires |pieces| > 0 && ParsePieces(pieces, negative, e).Ok?
    ensures |pieces| <= 2 && FromPieces(pieces, negative).WellFormed(e)
  {
  }

  lemma AcceptedIsWellFormed(amount: string, e: nat) returns (w: Written)
    requires Parse(amount, e).Ok?
    ensures w.WellFormed(e) && w.Text() == amount
  {
    var negative := amount[0] == '-';
    var rest := if negative then amount[1..] else amount;
    AcceptedPieces(Split(rest, '.'), negative, e);
    JoinedPieces(rest);
    w := FromPieces(Split(rest, '.'), negative);
  }

  /** A text is accepted with value `v` exactly when it is a well-formed amount worth `v` that fits. */
  lemma ParseExact(amount: string, currency: string, v: int)
    ensures DecimalStringToMinor(amount, currency) == Ok(v)
      <==> exists w: Written :: w.Text() == amount && w.WellFormed(CurrencyExponent(currency))
             && w.Minor(CurrencyExponent(currency)) == v && -I64_MAX <= v <= I64_MAX
  {
    var e := CurrencyExponent(currency);
    if DecimalStringToMinor(amount, currency) == Ok(v) {
      var w := AcceptedIsWellFormed(amount, e);
      ParseWellFormed(w, e);
    }
    forall w: Written | w.Text() == amount && w.WellFormed(e) && w.Minor(e) == v && -I64_MAX <= v <= I64_MAX
      ensures DecimalStringToMinor(amount, currency) == Ok(v)
    {
      ParseWellFormed(w, e);
    }
  }

  lemma ToStringLength(n: nat, e: nat)
    requires n < Pow10(e) && e > 0
    ensures |ToString(n)| <= e
  {
    if n >= 10 { ToStringLength(n / 10, e - 1); }
  }

  /** With no decimal places, every amount prints as its own digits. */
  lemma WholePrinted(x: int) returns (w: Written)
    ensures w.Text() == Print(x, 0) && w.WellFormed(0) && w.Minor(0) == x
  {
    var a := if x < 0 then -x else x;
    w := Written(x < 0, ToString(a), None);
    assert w.integer + w.FractionDigits() + Zeros(0) == w.integer;
    ValueOfToString(a);
  }

  lemma QuotientAndRemainder(a: nat, d: nat)
    requires d > 0
    ensures (a / d) * d + a % d == a
  {
  }

  lemma PaddedFraction(r: nat, e: nat)
    requires r < Pow10(e) && e > 0
    ensures var fraction := ZeroPadded(r, e);
      |fraction| == e && AllDigits(fraction) && Value(fraction) == r
  {
    var digits := ToString(r);
    ToStringLength(r, e);
    assert ZeroPadded(r, e) == Zeros(e - |digits|) + digits;
    ValueOfZeros(e - |digits|, digits);
    ValueOfToString(r);
  }

  function ScaledWritten(x: int, e: nat): (w: Written)
    requires x != I64_MIN
  {
    Written(x < 0, Digits(WrappingAbs(x), Pow10(e)), Some(ZeroPadded(WrappingAbs(x) % Pow10(e), e)))
  }

  function Digits(a: nat, d: nat): string
    requires d > 0
  {
    ToString(a / d)
  }

  lemma ScaledText(x: int, e: nat)
    requires x != I64_MIN && e > 0
    ensures ScaledWritten(x, e).Text() == Print(x, e)
  {
    var whole := IntToString(TruncDiv(WrappingAbs(x), Pow10(e)));
    assert whole == ScaledWritten(x, e).integer;
  }

  lemma ScaledPrinted(x: int, e: nat)
    requires x != I64_MIN && e > 0
    ensures ScaledWritten(x, e).WellFormed(e) && ScaledWritten(x, e).Minor(e) == x
  {
    var a: nat := WrappingAbs(x);
    var w := ScaledWritten(x, e);
    PaddedFraction(a % Pow10(e), e);
    assert w.FractionDigits() + Zeros(0) == w.FractionDigits();
    MagnitudeSplits(w, e);
    ValueOfToString(a / Pow10(e));
    QuotientAndRemainder(a, Pow10(e));
  }

  lemma NegativeQuotient(x: int, p: int)
    requires x <= -1000 && 1 <= p <= 1000
    ensures TruncDiv(x, p) < 0
  {
    assert -x / p >= 1;
  }

  lemma MinimumPrintsTwoMinuses(x: int, e: nat)
    requires x == I64_MIN && e > 0 && Pow10(e) <= 1000
    ensures |Print(x, e)| >= 2 && Print(x, e)[0] == '-' && Print(x, e)[1] == '-'
  {
    NegativeQuotient(x, Pow10(e));
    var quotient := TruncDiv(WrappingAbs(x), Pow10(e));
    assert IntToString(quotient) == "-" + ToString(-quotient);
  }

  lemma SecondMinusRejected(s: string, e: nat)
    requires |s| >= 2 && s[0] == '-' && s[1] == '-'
    ensures Parse(s, e).Err?
  {
    var rest := s[1..];
    assert rest[0] == '-';
    assert Split(rest, '.')[0][0] == '-';
    assert !IsDigit('-');
  }

  /** The printed minimum reads back as nothing at all, whatever the currency. */
  lemma PrintedMinimumRejected(x: int, e: nat)
    requires x == I64_MIN && Pow10(e) <= 1000
    ensures Parse(Print(x, e), e).Err?
  {
    if e == 0 {
      var w := WholePrinted(x);
      ParseWellFormed(w, e);
    } else {
      MinimumPrintsTwoMinuses(x, e);
      SecondMinusRejected(Print(x, e), e);
    }
  }

  /** Reading a printed amount gives it back, for every 64-bit amount but the minimum. */
  lemma RoundTrip(x: int, currency: string)
    requires IsI64(x)
    ensures DecimalStringToMinor(MinorToDecimalString(x, currency), currency) == Ok(x) <==> x != I64_MIN
  {
    var e := CurrencyExponent(currency);
    if x == I64_MIN {
      PowersUsed(e);
      PrintedMinimumRejected(x, e);
    } else if e == 0 {
      var w := WholePrinted(x);
      ParseWellFormed(w, e);
    } else {
      ScaledText(x, e);
      ScaledPrinted(x, e);
      ParseWellFormed(ScaledWritten(x, e), e);
    }
  }

  // ---------------------------------------------------------------------------------------------
  // The currencies.

  /** Fraction digits beyond the currency's are refused. */
  lemma TooFine(integer: string, fraction: string, e: nat)
    requires integer != "" && AllDigits(integer) && |fraction| > e
    ensures Parse(integer + "." + fraction, e).Err?
  {
    var s := integer + "." + fraction;
    if Parse(s, e).Ok? {
      var w := AcceptedIsWellFormed(s, e);
      SplitAbsent(integer, '.');
      assert s[0] == integer[0] && IsDigit(s[0]);
      assert s == integer + ['.'] + fraction;
      SplitAtFirst(integer, '.', fraction);
      SplitWritten(w, e);
    }
  }

  lemma Numerals()
    ensures IntToString(1) == "1" && IntToString(12) == "12" && IntToString(1234) == "1234"
    ensures ZeroPadded(34, 2) == "34" && ZeroPadded(234, 3) == "234"
  {
    assert ToString(34) == "34" && ToString(23) == "23" && ToString(123) == "123";
  }

  lemma Quotients()
    ensures Pow10(2) == 100 && TruncDiv(1234, Pow10(2)) == 12 && TruncMod(1234, Pow10(2)) == 34
    ensures Pow10(3) == 1000 && TruncDiv(1234, Pow10(3)) == 1 && TruncMod(1234, Pow10(3)) == 234
  {
    PowersUsed(2);
    PowersUsed(3);
  }

  lemma Printed(e: nat)
    requires Used(e)
    ensures Print(1234, e) == if e == 0 then "1234" else if e == 2 then "12.34" else "1.234"
  {
    Quotients();
    Numerals();
  }

  predicate Capitals(code: string) {
    |code| == 3 && 'A' <= code[0] <= 'Z' && 'A' <= code[1] <= 'Z' && 'A' <= code[2] <= 'Z'
  }

  /** Codes in small letters are those in capitals. */
  lemma CaseIgnored(code: string, small: string)
    requires Capitals(code) && |small| == 3
    requires forall i :: 0 <= i < 3 ==> small[i] as int == code[i] as int + 32 || small[i] == code[i]
    ensures CurrencyExponent(small) == CurrencyExponent(code)
    ensures AsciiUpper(small) == code
  {
    assert AsciiUpper(small) == code && AsciiUpper(code) == code;
  }

  /** The amount prints as the text, and the text parses as the amount. */
  predicate Written1234(currency: string, text: string) {
    MinorToDecimalString(1234, currency) == text && DecimalStringToMinor(text, currency) == Ok(1234)
  }

  lemma AmountsAt(code: string, e: nat)
    requires CurrencyExponent(code) == e
    ensures Written1234(code, if e == 0 then "1234" else if e == 2 then "12.34" else "1.234")
  {
    Printed(e);
    RoundTrip(1234, code);
  }

  /** These have no minor unit ... */
  lemma WholeCurrencies(code: string)
    requires code in {"BIF", "CLP", "DJF", "GNF", "ISK", "JPY", "KMF", "KRW", "PYG", "RWF", "UGX",
                      "VND", "VUV", "XAF", "XOF", "XPF"}
    ensures Written1234(code, "1234") && DecimalStringToMinor("12" + "." + "3", code).Err?
  {
    assert Capitals(code);
    CaseIgnored(code, code);
    AmountsAt(code, 0);
    TooFine("12", "3", 0);
  }

  lemma DinarsAreNotWhole(code: string)
    requires code in {"BHD", "IQD", "JOD", "KWD", "LYD", "OMR", "TND"}
    ensures code !in ZERO_DECIMAL
  {
  }

  /** ... these have a thousand to the unit ... */
  lemma DinarCurrencies(code: string)
    requires code in {"BHD", "IQD", "JOD", "KWD", "LYD", "OMR", "TND"}
    ensures Written1234(code, "1.234") && DecimalStringToMinor("0" + "." + "1234", code).Err?
  {
    assert Capitals(code);
    CaseIgnored(code, code);
    DinarsAreNotWhole(code);
    AmountsAt(code, 3);
    TooFine("0", "1234", 3);
  }

  /** ... and any other a hundred. */
  lemma CentCurrencies(code: string)
    requires Capitals(code)
    requires code !in {"BIF", "CLP", "DJF", "GNF", "ISK", "JPY", "KMF", "KRW", "PYG", "RWF", "UGX",
                       "VND", "VUV", "XAF", "XOF", "XPF"}
    requires code !in {"BHD", "IQD", "JOD", "KWD", "LYD", "OMR", "TND"}
    ensures Written1234(code, "12.34") && DecimalStringToMinor("1" + "." + "234", code).Err?
  {
    CaseIgnored(code, code);
    AmountsAt(code, 2);
    TooFine("1", "234", 2);
  }
}
