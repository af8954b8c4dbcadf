/** Which texts are amounts, and what they are worth. */
module MoneyShapes {
  import opened Sequences
  import opened Integers
  import opened Outcomes
  import opened Money

  /** The characters of Unicode that are white space. */
  lemma WhiteSpace(ch: char)
    ensures IsSpace(ch) <==> ch in [
      '\t', '\n', '\U{0B}', '\U{0C}', '\r', ' ', '\U{85}', '\U{A0}', '\U{1680}',
      '\U{2000}', '\U{2001}', '\U{2002}', '\U{2003}', '\U{2004}', '\U{2005}', '\U{2006}', '\U{2007}', '\U{2008}',
      '\U{2009}', '\U{200A}', '\U{2028}', '\U{2029}', '\U{202F}', '\U{205F}', '\U{3000}']
  {
  }

  /** An amount as it may be written. */
  datatype Look = Look(parens: bool, sign: string, gap: string, dollar: bool, blanks: string, body: string, end: string)
  {
    /** The currency mark, blanks behind it, and the digits. */
    function Marked(): string {
      (if dollar then ['$'] + blanks else []) + body
    }

    function Inner(): string {
      sign + (gap + Marked() + end)
    }

    function Text(): string {
      if parens then ['('] + Inner() + [')'] else Inner()
    }

    /** White space stands where it may, and the digits are an amount once commas and blanks are taken out. */
    ghost predicate Valid(whole: string, fraction: string) {
      && (sign == [] || sign == ['-'] || sign == ['+'])
      && Spaces(gap) && Spaces(end) && (forall ch :: ch in blanks ==> ch == ' ')
      && Grouped(body) && IsAmount(Compact(body), whole, fraction)
    }

    predicate IsNegative() {
      parens || sign == ['-']
    }
  }

  // ---------------------------------------------------------------------
  // From the look to the value

  lemma {:induction false} CompactBlanks(blanks: string, body: string)
    requires forall ch :: ch in blanks ==> ch == ' '
    ensures Compact(blanks + body) == Compact(body)
  {
    if blanks == [] {
      assert blanks + body == body;
    } else {
      assert (blanks + body)[1..] == blanks[1..] + body && blanks[0] in blanks;
      assert forall ch :: ch in blanks[1..] ==> ch in blanks;
      CompactBlanks(blanks[1..], body);
    }
  }

  lemma BodyBegins(body: string)
    requires Grouped(body)
    ensures !Begins(body, '-') && !Begins(body, '+') && !Begins(body, '(') && !Begins(body, '$')
  {
    assert body[0] in body;
  }

  lemma BehindDollar(blanks: string, body: string)
    requires Tight(body)
    ensures Tight(['$'] + blanks + body) && (['$'] + blanks + body)[1..] == blanks + body
  {
  }

  lemma MarkedIsTight(x: Look, whole: string, fraction: string)
    requires x.Valid(whole, fraction)
    ensures Tight(x.Marked()) && !Begins(x.Marked(), '-') && !Begins(x.Marked(), '+') && !Begins(x.Marked(), '(')
    ensures Compact(WithoutDollar(x.Marked())) == Compact(x.body)
  {
    BodyBegins(x.body);
    if x.dollar {
      BehindDollar(x.blanks, x.body);
      CompactBlanks(x.blanks, x.body);
    } else {
      assert x.Marked() == x.body;
    }
  }

  lemma FirstOfThree(a: string, b: string, c: string)
    requires b != []
    ensures (a + b + c)[0] == if a != [] then a[0] else b[0]
  {
  }

  /** What is left of the inside without its sign. */
  lemma InnerIsRead(x: Look, whole: string, fraction: string)
    requires x.Valid(whole, fraction)
    ensures Compact(WithoutDollar(Trim(WithoutSign(x.Inner())))) == Compact(x.body)
    ensures Begins(x.Inner(), '-') <==> x.sign == ['-']
  {
    MarkedIsTight(x, whole, fraction);
    TrimOff(x.gap, x.Marked(), x.end);
    SignComesOff(x.sign, x.gap, x.Marked(), x.end);
  }

  lemma SignComesOff(sign: string, gap: string, marked: string, end: string)
    requires (sign == [] || sign == ['-'] || sign == ['+']) && Spaces(gap)
    requires Tight(marked) && !Begins(marked, '-') && !Begins(marked, '+')
    ensures WithoutSign(sign + (gap + marked + end)) == gap + marked + end
    ensures Begins(sign + (gap + marked + end), '-') <==> sign == ['-']
  {
    var rest := gap + marked + end;
    FirstOfThree(gap, marked, end);
    assert gap != [] ==> gap[0] in gap;
    if sign == [] {
      assert sign + rest == rest;
    } else {
      assert (sign + rest)[1..] == rest;
    }
  }

  /** Where the parentheses are missing, the white space inside belongs to that around. */
  function Snug(x: Look): Look {
    if x.parens then x else x.(gap := if x.sign == [] then [] else x.gap, end := [])
  }

  /** The text trimmed looks like this. */
  ghost predicate Trimmed(text: string, x: Look) {
    && Tight(text) && text != ['-'] && (Begins(text, '(') <==> x.parens)
    && (x.parens ==> Ends(text, ')') && |text| > 1)
  }

  lemma SnugIsTrimmed(x: Look)
    requires x.sign == [] || x.sign == ['-'] || x.sign == ['+']
    requires Tight(x.Marked()) && !Begins(x.Marked(), '-') && !Begins(x.Marked(), '(')
    ensures Trimmed(Snug(x).Text(), x)
  {
    if x.parens {
      InParens(x.Inner());
    } else if x.sign == [] {
      assert Snug(x).Text() == x.Marked();
    } else {
      BehindSign(x.sign, x.gap, x.Marked());
      assert Snug(x).Text() == x.sign + (x.gap + x.Marked());
    }
  }

  lemma InParens(inner: string)
    ensures var text := ['('] + inner + [')'];
      Tight(text) && |text| > 1 && Begins(text, '(') && Ends(text, ')') && text[1..|text| - 1] == inner
  {
  }

  lemma BehindSign(sign: string, gap: string, marked: string)
    requires (sign == ['-'] || sign == ['+']) && Tight(marked)
    ensures var text := sign + (gap + marked); Tight(text) && text != ['-'] && !Begins(text, '(')
  {
    var text := sign + (gap + marked);
    assert text[|text| - 1] == marked[|marked| - 1];
  }

  /** A snug text with white space around. */
  ghost predicate Around(value: string, text: string) {
    exists b, a :: Spaces(b) && Spaces(a) && value == b + text + a
  }

  lemma SnugInside(x: Look, before: string, after: string)
    requires Spaces(before) && Spaces(after) && Spaces(x.gap) && Spaces(x.end)
    ensures Around(before + x.Text() + after, Snug(x).Text())
  {
    SpacesJoined(before, x.gap);
    SpacesJoined(x.end, after);
    if x.parens {
      assert Around(before + x.Text() + after, x.Text());
    } else {
      assert Snug(x).Marked() == x.Marked();
      Rebracketed(before, x.sign, x.gap, x.Marked(), x.end, after);
      if x.sign == [] {
        assert Snug(x).Text() == x.Marked();
      } else {
        assert Snug(x).Text() == x.sign + (x.gap + x.Marked());
      }
    }
  }

  lemma Rebracketed(before: string, sign: string, gap: string, marked: string, end: string, after: string)
    ensures before + (sign + (gap + marked + end)) + after == before + (sign + (gap + marked)) + (end + after)
    ensures sign == [] ==> before + (sign + (gap + marked + end)) + after == (before + gap) + marked + (end + after)
  {
  }

  lemma SpacesJoined(a: string, b: string)
    requires Spaces(a) && Spaces(b)
    ensures Spaces(a + b)
  {
  }

  lemma LookIsRead(value: string, before: string, x: Look, after: string, whole: string, fraction: string)
    requires Spaces(before) && Spaces(after) && x.Valid(whole, fraction) && value == before + x.Text() + after
    ensures ParseMoneyCents(value) == ParseMagnitude(Compact(x.body), x.IsNegative())
  {
    var y := Snug(x);
    MarkedIsTight(x, whole, fraction);
    SnugIsTrimmed(x);
    SnugInside(x, before, after);
    var b, a :| Spaces(b) && Spaces(a) && value == b + y.Text() + a;
    TrimOff(b, y.Text(), a);
    InnerIsRead(y, whole, fraction);
    InParens(y.Inner());
  }

  /** The value looks like this, with these digits in front of the dot and behind it. */
  ghost predicate Shows(value: string, before: string, x: Look, after: string, whole: string, fraction: string) {
    Spaces(before) && Spaces(after) && x.Valid(whole, fraction) && value == before + x.Text() + after
  }

  /**
    However an amount is written, it reads as its cents: with white space around it and inside, in parentheses, with a
    sign, a currency mark, grouping commas and blanks, any number of leading zeros, and none, one or two decimals. It
    overflows exactly when the cents do not fit a positive 64-bit number.
   */
  lemma ShownAmountsRead(value: string, before: string, x: Look, after: string, whole: string, fraction: string)
    requires Shows(value, before, x, after, whole, fraction)
    ensures var cents: int := Number(whole + (fraction + ['0', '0'])[..2]);
      ParseMoneyCents(value)
        == if cents > I64_MAX then Err(AmountOverflow) else Ok(if x.parens || x.sign == ['-'] then -cents else cents)
  {
    LookIsRead(value, before, x, after, whole, fraction);
    MagnitudeOfAmount(Compact(x.body), whole, fraction, x.IsNegative());
    CentsAreDigits(whole, fraction);
  }

  lemma NumberPush(s: string, ch: char)
    requires AllDigits(s) && IsDigit(ch)
    ensures Number(s + [ch]) == Number(s) * 10 + DigitValue(ch)
  {
    assert (s + [ch])[..|s|] == s;
  }

  /** Decimals filled up with zeros. */
  lemma CentsAreDigits(whole: string, fraction: string)
    requires AllDigits(whole) && AllDigits(fraction) && |fraction| <= 2
    ensures Number(whole + (fraction + ['0', '0'])[..2]) == Number(whole) * 100 + Hundredths(fraction)
  {
    var two := (fraction + ['0', '0'])[..2];
    assert two[0] == (if |fraction| > 0 then fraction[0] else '0');
    assert two[1] == (if |fraction| > 1 then fraction[1] else '0');
    NumberPush(whole, two[0]);
    NumberPush(whole + [two[0]], two[1]);
    assert whole + two == whole + [two[0]] + [two[1]];
  }

  // ---------------------------------------------------------------------
  // From the value to the look

  lemma {:induction false} TrimStartParts(s: string) returns (before: string)
    ensures Spaces(before) && s == before + TrimStart(s) && (TrimStart(s) != [] ==> !IsSpace(TrimStart(s)[0]))
  {
    before := [];
    if s != [] && IsSpace(s[0]) {
      before := TrimStartParts(s[1..]);
      before := [s[0]] + before;
    }
  }

  lemma {:induction false} TrimEndParts(s: string) returns (after: string)
    ensures Spaces(after) && s == TrimEnd(s) + after
    ensures TrimEnd(s) != [] ==> !IsSpace(TrimEnd(s)[|TrimEnd(s)| - 1]) && TrimEnd(s)[0] == s[0]
  {
    after := [];
    if s != [] && IsSpace(s[|s| - 1]) {
      var n := |s| - 1;
      after := TrimEndParts(s[..n]);
      after := after + [s[n]];
    }
  }

  lemma TrimParts(s: string) returns (before: string, after: string)
    ensures Spaces(before) && Spaces(after) && s == before + Trim(s) + after && (Trim(s) != [] ==> Tight(Trim(s)))
  {
    before := TrimStartParts(s);
    after := TrimEndParts(TrimStart(s));
  }

  lemma {:induction false} BlanksInFront(s: string) returns (blanks: string, rest: string)
    ensures s == blanks + rest && (forall ch :: ch in blanks ==> ch == ' ') && (rest != [] ==> rest[0] != ' ')
  {
    blanks, rest := [], s;
    if s != [] && s[0] == ' ' {
      blanks, rest := BlanksInFront(s[1..]);
      blanks := [' '] + blanks;
    }
  }

  lemma {:induction false} CompactMembers(s: string)
    ensures forall ch :: ch in s ==> ch == ',' || ch == ' ' || ch in Compact(s)
  {
    if s != [] {
      CompactMembers(s[1..]);
      assert s == [s[0]] + s[1..];
    }
  }

  lemma {:induction false} DotParts(s: string)
    ensures s == BeforeDot(s) + ['.'] + AfterDot(s) || (s == BeforeDot(s) && AfterDot(s) == [])
  {
    if s != [] && s[0] != '.' {
      DotParts(s[1..]);
      assert s == [s[0]] + s[1..];
    }
  }

  /** What is behind the currency mark is an amount, its blanks and commas taken out. */
  lemma AmountIsGrouped(d: string, whole: string, fraction: string)
    requires IsAmount(Compact(d), whole, fraction)
    ensures forall ch :: ch in d ==> IsDigit(ch) || ch == '.' || ch == ',' || ch == ' '
  {
    CompactMembers(d);
  }

  lemma MarkedParts(t: string, whole: string, fraction: string)
    returns (dollar: bool, blanks: string, body: string)
    requires Tight(t) && IsAmount(Compact(WithoutDollar(t)), whole, fraction)
    ensures t == (if dollar then ['$'] + blanks else []) + body && forall ch :: ch in blanks ==> ch == ' '
    ensures Grouped(body) && Compact(body) == Compact(WithoutDollar(t))
  {
    var d := WithoutDollar(t);
    AmountIsGrouped(d, whole, fraction);
    dollar, blanks, body := Begins(t, '$'), [], d;
    if dollar {
      blanks, body := BlanksInFront(d);
      CompactBlanks(blanks, body);
      assert t == ['$'] + d && body != [];
      assert body[0] in d && body[|body| - 1] == t[|t| - 1];
    }
  }

  /** The parts of a text that is read, outside in. */
  lemma InnerParts(inner: string) returns (sign: string, gap: string, end: string)
    ensures sign == [] || sign == ['-'] || sign == ['+']
    ensures Spaces(gap) && Spaces(end) && inner == sign + (gap + Trim(WithoutSign(inner)) + end)
    ensures sign == ['-'] <==> Begins(inner, '-')
    ensures Trim(WithoutSign(inner)) != [] ==> Tight(Trim(WithoutSign(inner)))
  {
    sign := if Begins(inner, '-') || Begins(inner, '+') then [inner[0]] else [];
    gap, end := TrimParts(WithoutSign(inner));
    assert inner == sign + WithoutSign(inner);
  }

  lemma AmountParts(compact: string, negative: bool)
    requires ParseMagnitude(compact, negative) != Err(InvalidAmount)
    ensures IsAmount(compact, BeforeDot(compact), AfterDot(compact))
  {
    DotParts(compact);
  }

  ghost predicate IsShown(value: string) {
    exists before, x, after, whole, fraction :: Shows(value, before, x, after, whole, fraction)
  }

  lemma InnerLook(inner: string, parens: bool) returns (x: Look, whole: string, fraction: string)
    requires ParseMagnitude(Compact(WithoutDollar(Trim(WithoutSign(inner)))), parens || Begins(inner, '-'))
      != Err(InvalidAmount)
    ensures x.parens == parens && x.Inner() == inner && x.Valid(whole, fraction)
  {
    var t := Trim(WithoutSign(inner));
    var compact := Compact(WithoutDollar(t));
    AmountParts(compact, parens || Begins(inner, '-'));
    whole, fraction := BeforeDot(compact), AfterDot(compact);
    var sign, gap, end := InnerParts(inner);
    var dollar, blanks, body := MarkedParts(t, whole, fraction);
    x := Look(parens, sign, gap, dollar, blanks, body, end);
    assert x.Marked() == t;
  }

  lemma InParensParts(text: string)
    requires |text| > 1 && Begins(text, '(') && Ends(text, ')')
    ensures text == ['('] + text[1..|text| - 1] + [')']
  {
  }

  lemma ReadIsShown(value: string)
    requires Trim(value) != [] && Trim(value) != ['-'] && ParseMoneyCents(value) != Err(InvalidAmount)
    ensures IsShown(value)
  {
    var text := Trim(value);
    var parens := |text| > 1 && Begins(text, '(') && Ends(text, ')');
    var before, after := TrimParts(value);
    var x, whole, fraction := InnerLook(if parens then text[1..|text| - 1] else text, parens);
    if parens {
      InParensParts(text);
    }
    assert Shows(value, before, x, after, whole, fraction);
  }

  /** Nothing else is an amount, but for blank texts and a lone minus, which are zero. */
  lemma OnlyShownAmountsRead(value: string)
    ensures Trim(value) == [] || Trim(value) == ['-'] ==> ParseMoneyCents(value) == Ok(0)
    ensures ParseMoneyCents(value) == Err(InvalidAmount) <==>
      Trim(value) != [] && Trim(value) != ['-'] && !IsShown(value)
  {
    if Trim(value) != [] && Trim(value) != ['-'] && ParseMoneyCents(value) != Err(InvalidAmount) {
      ReadIsShown(value);
    }
    if IsShown(value) {
      var before, x, after, whole, fraction :| Shows(value, before, x, after, whole, fraction);
      ShownAmountsRead(value, before, x, after, whole, fraction);
    }
  }

  // ---------------------------------------------------------------------
  // Printed amounts

  lemma MagnitudeOfFormat(cents: nat, negative: bool)
    ensures ParseMagnitude(FormatCents(cents), negative)
      == if cents > I64_MAX then Err(AmountOverflow) else Ok(Signed(cents, negative))
  {
    var whole := Decimal(cents / 100);
    var fraction := [Digit(cents % 100 / 10), Digit(cents % 10)];
    FormatIsAmount(cents);
    MagnitudeOfAmount(FormatCents(cents), whole, fraction, negative);
  }

  lemma FormatIsAmount(cents: nat)
    ensures var whole, fraction := Decimal(cents / 100), [Digit(cents % 100 / 10), Digit(cents % 10)];
      IsAmount(FormatCents(cents), whole, fraction) && Number(whole) * 100 + Hundredths(fraction) == cents
  {
    var whole, fraction := Decimal(cents / 100), [Digit(cents % 100 / 10), Digit(cents % 10)];
    NumberOfDecimal(cents / 100);
    LastDigits(cents);
    PrintedParts(cents);
  }

  lemma PrintedParts(cents: nat)
    ensures FormatCents(cents)
      == Decimal(cents / 100) + ['.'] + [Digit(cents % 100 / 10), Digit(cents % 10)]
  {
  }

  lemma LastDigits(cents: nat)
    ensures var fraction := [Digit(cents % 100 / 10), Digit(cents % 10)];
      AllDigits(fraction) && Hundredths(fraction) == cents % 100
  {
    var tens, ones := cents % 100 / 10, cents % 10;
    assert ones == cents % 100 % 10;
    assert DigitValue(Digit(tens)) == tens && DigitValue(Digit(ones)) == ones;
  }

  lemma {:induction false} CompactKeeps(s: string)
    requires ',' !in s && ' ' !in s
    ensures Compact(s) == s
  {
    if s != [] {
      assert s == [s[0]] + s[1..];
      CompactKeeps(s[1..]);
    }
  }

  lemma DigitsAroundDot(whole: string, fraction: string)
    requires AllDigits(whole) && AllDigits(fraction) && whole != [] && fraction != []
    ensures Grouped(whole + ['.'] + fraction)
    ensures ',' !in whole + ['.'] + fraction && ' ' !in whole + ['.'] + fraction
  {
    assert whole[0] in whole && fraction[|fraction| - 1] in fraction;
  }

  lemma FormatIsGrouped(cents: nat)
    ensures Grouped(FormatCents(cents)) && Compact(FormatCents(cents)) == FormatCents(cents)
  {
    var whole := Decimal(cents / 100);
    var fraction := [Digit(cents % 100 / 10), Digit(cents % 10)];
    NumberOfDecimal(cents / 100);
    assert FormatCents(cents) == whole + ['.'] + fraction;
    DigitsAroundDot(whole, fraction);
    CompactKeeps(FormatCents(cents));
  }

  function SignOf(negative: bool): string {
    if negative then ['-'] else []
  }

  lemma DigitsAreRead(digits: string, whole: string, fraction: string, negative: bool)
    requires Grouped(digits) && IsAmount(Compact(digits), whole, fraction)
    ensures ParseMoneyCents(SignOf(negative) + digits) == ParseMagnitude(Compact(digits), negative)
  {
    var sign := SignOf(negative);
    var x := Look(false, sign, [], false, [], digits, []);
    BareText(sign, digits);
    BareText([], sign + digits);
    assert x.Text() == sign + digits && x.IsNegative() == negative;
    LookIsRead(sign + digits, [], x, [], whole, fraction);
  }

  lemma BareText(sign: string, digits: string)
    ensures Look(false, sign, [], false, [], digits, []).Text() == sign + digits
    ensures [] + digits + [] == digits
  {
    assert [] + ([] + digits) + [] == digits;
  }

  lemma FormatIsRead(cents: nat, negative: bool)
    ensures ParseMoneyCents(SignOf(negative) + FormatCents(cents))
      == if cents > I64_MAX then Err(AmountOverflow) else Ok(Signed(cents, negative))
  {
    FormatIsGrouped(cents);
    FormatIsAmount(cents);
    DigitsAreRead(FormatCents(cents), Decimal(cents / 100), [Digit(cents % 100 / 10), Digit(cents % 10)], negative);
    MagnitudeOfFormat(cents, negative);
  }

  lemma FormatSign(cents: int)
    ensures FormatCents(cents) == SignOf(cents < 0) + FormatCents(Abs(cents))
  {
    var digits := Decimal(Abs(cents) / 100) + ['.', Digit(Abs(cents) % 100 / 10), Digit(Abs(cents) % 10)];
    assert FormatCents(Abs(cents)) == digits;
  }

  /** Printed cents read back as themselves, for every 64-bit amount but the least, which overflows. */
  lemma FormatThenParse(cents: int)
    requires I64_MIN <= cents <= I64_MAX
    ensures ParseMoneyCents(FormatCents(cents)) == Ok(cents) <==> cents != I64_MIN
    ensures cents == I64_MIN ==> ParseMoneyCents(FormatCents(cents)) == Err(AmountOverflow)
  {
    FormatIsRead(Abs(cents), cents < 0);
    FormatSign(cents);
  }

  /** Whatever text was read, printing the result and reading it again changes nothing. */
  lemma ReadAmountsAreStable(value: string)
    requires ParseMoneyCents(value).Ok?
    ensures -I64_MAX <= ParseMoneyCents(value).value <= I64_MAX
    ensures ParseMoneyCents(FormatCents(ParseMoneyCents(value).value)) == ParseMoneyCents(value)
  {
    FormatThenParse(ParseMoneyCents(value).value);
  }
}
