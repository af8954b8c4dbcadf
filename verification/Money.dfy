/** Amounts in cents: printing them, and reading them back in the shapes reports use. */
module Money {
  import opened Sequences
  import opened Integers
  import opened Outcomes

  datatype MoneyError = InvalidAmount | AmountOverflow

  // ---------------------------------------------------------------------
  // Printing

  function Digit(n: nat): char
    requires n < 10
  {
    '0' + n as char
  }

  /** Decimal digits without leading zeros. */
  function Decimal(n: nat): string {
    if n < 10 then [Digit(n)] else Decimal(n / 10) + [Digit(n % 10)]
  }

  function Abs(n: int): nat {
    if n < 0 then -n else n
  }

  function Signed(cents: int, negative: bool): int {
    if negative then -cents else cents
  }

  function FormatCents(cents: int): string {
    (if cents < 0 then ['-'] else [])
    + Decimal(Abs(cents) / 100)
    + ['.', Digit(Abs(cents) % 100 / 10), Digit(Abs(cents) % 10)]
  }

  // ---------------------------------------------------------------------
  // Reading

  /** The characters Unicode calls white space. */
  predicate IsSpace(ch: char) {
    var c := ch as int;
    || 0x09 <= c <= 0x0D || c == 0x20 || c == 0x85 || c == 0xA0 || c == 0x1680
    || 0x2000 <= c <= 0x200A || c == 0x2028 || c == 0x2029 || c == 0x202F || c == 0x205F || c == 0x3000
  }

  function TrimStart(s: string): string {
    if s != [] && IsSpace(s[0]) then TrimStart(s[1..]) else s
  }

  function TrimEnd(s: string): string {
    if s != [] && IsSpace(s[|s| - 1]) then TrimEnd(s[..|s| - 1]) else s
  }

  function Trim(s: string): string {
    TrimEnd(TrimStart(s))
  }

  predicate Ends(s: string, ch: char) {
    s != [] && s[|s| - 1] == ch
  }

  /** Without grouping commas and blanks. */
  function Compact(s: string): string {
    if s == [] then []
    else (if s[0] == ',' || s[0] == ' ' then [] else [s[0]]) + Compact(s[1..])
  }

  function BeforeDot(s: string): string {
    if s == [] || s[0] == '.' then [] else [s[0]] + BeforeDot(s[1..])
  }

  function AfterDot(s: string): string {
    if s == [] then [] else if s[0] == '.' then s[1..] else AfterDot(s[1..])
  }

  predicate IsDigit(ch: char) {
    '0' <= ch <= '9'
  }

  predicate AllDigits(s: string) {
    forall ch :: ch in s ==> IsDigit(ch)
  }

  function DigitValue(ch: char): nat
    requires IsDigit(ch)
  {
    ch as int - '0' as int
  }

  function Number(s: string): nat
    requires AllDigits(s)
  {
    if s == [] then 0 else Number(s[..|s| - 1]) * 10 + DigitValue(s[|s| - 1])
  }

  function Hundredths(fraction: string): nat
    requires AllDigits(fraction) && |fraction| <= 2
  {
    if |fraction| == 0 then 0
    else if |fraction| == 1 then DigitValue(fraction[0]) * 10
    else DigitValue(fraction[0]) * 10 + DigitValue(fraction[1])
  }

  /** The digits of an amount whose sign and currency mark are gone. */
  function ParseMagnitude(compact: string, negative: bool): Result<int, MoneyError> {
    var whole, fraction := BeforeDot(compact), AfterDot(compact);
    if whole == [] || !AllDigits(whole) || !AllDigits(fraction) || |fraction| > 2 then Err(InvalidAmount)
    else if Number(whole) > I64_MAX then Err(AmountOverflow)
    else if Number(whole) * 100 > I64_MAX then Err(AmountOverflow)
    else
      var cents := Number(whole) * 100 + Hundredths(fraction);
      if cents > I64_MAX then Err(AmountOverflow) else Ok(Signed(cents, negative))
  }

  function WithoutDollar(s: string): string {
    if Begins(s, '$') then s[1..] else s
  }

  function WithoutSign(s: string): string {
    if Begins(s, '-') || Begins(s, '+') then s[1..] else s
  }

  function ParseMoneyCents(value: string): Result<int, MoneyError> {
    var text := Trim(value);
    if text == [] || text == ['-'] then Ok(0)
    else
      var parens := |text| > 1 && Begins(text, '(') && Ends(text, ')');
      var inner := if parens then text[1..|text| - 1] else text;
      ParseMagnitude(Compact(WithoutDollar(Trim(WithoutSign(inner)))), parens || Begins(inner, '-'))
  }

  // ---------------------------------------------------------------------
  // Digits

  lemma {:induction false} NumberOfDecimal(n: nat)
    ensures AllDigits(Decimal(n)) && Decimal(n) != [] && Number(Decimal(n)) == n
  {
    if n >= 10 {
      NumberOfDecimal(n / 10);
      var s := Decimal(n);
      assert s[..|s| - 1] == Decimal(n / 10);
    } else {
      assert Decimal(n)[..0] == [];
    }
  }

  lemma {:induction false} SplitAtDot(whole: string, fraction: string)
    requires AllDigits(whole)
    ensures BeforeDot(whole + ['.'] + fraction) == whole
    ensures AfterDot(whole + ['.'] + fraction) == fraction
  {
    var s := whole + ['.'] + fraction;
    if whole == [] {
      assert s[1..] == fraction;
    } else {
      assert IsDigit(whole[0]);
      assert s[1..] == whole[1..] + ['.'] + fraction;
      SplitAtDot(whole[1..], fraction);
    }
  }

  // ---------------------------------------------------------------------
  // The shapes an amount comes in

  predicate Spaces(s: string) {
    forall ch :: ch in s ==> IsSpace(ch)
  }

  /** No white space at either end. */
  predicate Tight(s: string) {
    s != [] && !IsSpace(s[0]) && !IsSpace(s[|s| - 1])
  }

  lemma {:induction false} TrimStartOff(before: string, s: string)
    requires Spaces(before) && s != [] && !IsSpace(s[0])
    ensures TrimStart(before + s) == s
  {
    if before == [] {
      assert before + s == s;
    } else {
      assert (before + s)[1..] == before[1..] + s;
      assert before[0] in before;
      TrimStartOff(before[1..], s);
    }
  }

  lemma {:induction false} TrimEndOff(s: string, after: string)
    requires Spaces(after) && s != [] && !IsSpace(s[|s| - 1])
    ensures TrimEnd(s + after) == s
  {
    if after == [] {
      assert s + after == s;
    } else {
      var n := |after| - 1;
      assert (s + after)[..|s| + n] == s + after[..n];
      assert after[n] in after;
      TrimEndOff(s, after[..n]);
    }
  }

  lemma TrimOff(before: string, s: string, after: string)
    requires Spaces(before) && Spaces(after) && Tight(s)
    ensures Trim(before + s + after) == s
  {
    assert before + s + after == before + (s + after);
    TrimStartOff(before, s + after);
    TrimEndOff(s, after);
  }

  /** Digits, dots, grouping commas and blanks, with no white space at the ends. */
  predicate Grouped(s: string) {
    Tight(s) && forall ch :: ch in s ==> IsDigit(ch) || ch == '.' || ch == ',' || ch == ' '
  }

  /** An amount's digits, with a dot and at most two decimals or without a dot. */
  ghost predicate IsAmount(compact: string, whole: string, fraction: string) {
    && whole != [] && AllDigits(whole) && AllDigits(fraction) && |fraction| <= 2
    && (compact == whole + ['.'] + fraction || (compact == whole && fraction == []))
  }

  lemma {:induction false} NoDot(whole: string)
    requires AllDigits(whole)
    ensures BeforeDot(whole) == whole && AfterDot(whole) == []
  {
    if whole != [] {
      assert IsDigit(whole[0]);
      NoDot(whole[1..]);
    }
  }

  lemma MagnitudeOfAmount(compact: string, whole: string, fraction: string, negative: bool)
    requires IsAmount(compact, whole, fraction)
    ensures var cents := Number(whole) * 100 + Hundredths(fraction);
      ParseMagnitude(compact, negative)
        == if cents > I64_MAX then Err(AmountOverflow) else Ok(Signed(cents, negative))
  {
    NoDot(whole);
    SplitAtDot(whole, fraction);
  }
}
