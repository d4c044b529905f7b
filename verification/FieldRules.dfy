/** The per-cell rules of the CSV validator, and how accepted numbers are read by the `mean` script. */
module FieldRules {
  import opened Basics
  import opened Decimal

  datatype FieldType =
    | CharField(max: nat)
    | VarcharField(max: nat)
    | IntegerField
    | DecimalField(precision: nat, scale: nat)
    | DateField
    | FlagField

  datatype FieldSchema = FieldSchema(name: string, fieldType: FieldType, nullable: bool)

  datatype Defect =
    | HeaderUnreadable | MissingColumn | UnexpectedColumn | MalformedRow | ShortRow
    | Required | TooLong | NotInteger | ScientificNotation | NotDecimal | BadDecimalFormat
    | TooManyDecimals | TooManyDigits | NotDate | NotFlag

  // --------------------------------------------------------------- integers

  const I64_MIN: int := -0x8000_0000_0000_0000
  const I64_MAX: int := 0x7FFF_FFFF_FFFF_FFFF

  /** `str::parse::<i64>`: an optional sign and at least one digit, within 64 bits. */
  function ParseI64(s: string): Option<int> {
    var digits := s[SignEnd(s)..];
    if digits == "" || !AllDigits(digits) then None
    else
      var v: int := if s[0] == '-' then -(DigitsValue(digits) as int) else DigitsValue(digits);
      if I64_MIN <= v <= I64_MAX then Some(v) else None
  }

  // --------------------------------------------------------------- decimals

  function AsciiLower(s: string): string {
    seq(|s|, i requires 0 <= i < |s| =>
      if 'A' <= s[i] <= 'Z' then (s[i] as int + 32) as char else s[i])
  }

  /**
   `str::parse::<f64>` succeeds: a signed numeral, in the grammar the script's reader also uses,
   or one of the words for the values that are not finite.
   */
  predicate ParsesAsF64(s: string) {
    || Scan(s).Some?
    || AsciiLower(s[SignEnd(s)..]) in ["inf", "infinity", "nan"]
  }

  function TrimSigns(s: string): string {
    if s != "" && (s[0] == '+' || s[0] == '-') then TrimSigns(s[1..]) else s
  }

  function CountDigits(s: string): nat {
    if s == "" then 0 else (if IsDigit(s[0]) then 1 else 0) + CountDigits(s[1..])
  }

  function ValidateDecimal(value: string, precision: nat, scale: nat): Option<Defect> {
    if 'e' in value || 'E' in value then Some(ScientificNotation)
    else if !ParsesAsF64(value) then Some(NotDecimal)
    else
      var text := TrimSigns(value);
      var parts := Split(text, '.');
      if |parts| > 2 || (exists p | p in parts :: !AllDigits(p)) then Some(BadDecimalFormat)
      else
        var decimals := if |parts| == 2 then |parts[1]| else 0;
        if decimals > scale then Some(TooManyDecimals)
        else if CountDigits(text) > precision then Some(TooManyDigits)
        else None
  }

  const FLAGS: seq<string> := ["0", "1", "true", "false", "yes", "no", "y", "n"]

  /** The defect of a trimmed cell, if any; `isDate` stands for the calendar library. */
  function ValidateField(value: string, field: FieldSchema, isDate: string -> bool): Option<Defect> {
    if value == "" then if field.nullable then None else Some(Required)
    else match field.fieldType
      case CharField(max) => if |value| > max then Some(TooLong) else None
      case VarcharField(max) => if |value| > max then Some(TooLong) else None
      case IntegerField => if ParseI64(value).Some? then None else Some(NotInteger)
      case DecimalField(precision, scale) => ValidateDecimal(value, precision, scale)
      case DateField => if isDate(value) then None else Some(NotDate)
      case FlagField => if AsciiLower(TrimWhitespace(value)) in FLAGS then None else Some(NotFlag)
  }

  // ----------------------------------------------- what accepted numbers are

  lemma {:induction false} CountDigitsConcat(a: string, b: string)
    ensures CountDigits(a + b) == CountDigits(a) + CountDigits(b)
  {
    if a == "" {
      assert a + b == b;
    } else {
      CountDigitsConcat(a[1..], b);
      assert (a + b)[1..] == a[1..] + b;
    }
  }

  lemma {:induction false} CountAllDigits(a: string)
    requires AllDigits(a)
    ensures CountDigits(a) == |a|
  {
    if a != "" {
      CountAllDigits(a[1..]);
    }
  }

  lemma BodyStart(n: Numeral)
    requires n.WellFormed()
    ensures
      var body := n.whole + n.fraction;
      body != "" && body[0] != '+' && body[0] != '-'
  {
    hide IsExponent;
    if n.whole != "" {
      assert IsDigit(n.whole[0]);
    }
  }

  lemma SignIsTrimmed(n: Numeral)
    requires n.WellFormed() && n.exponent == ""
    ensures TrimSigns(n.Text()) == n.whole + n.fraction
  {
    hide IsExponent, IsFraction, AllDigits;
    var body := n.whole + n.fraction;
    BodyStart(n);
    assert n.Text() == n.sign + body;
    assert n.sign != "" ==> n.Text()[1..] == body;
    assert n.sign == "" ==> n.Text() == body;
  }

  lemma PointSplits(whole: string, digits: string)
    requires AllDigits(whole) && AllDigits(digits)
    ensures Split(whole + ['.'] + digits, '.') == [whole, digits]
  {
    hide Split;
    assert '.' !in whole && '.' !in digits;
    SplitStep(whole, '.', digits);
    SplitPlain(digits, '.');
  }

  lemma BodySplits(whole: string, fraction: string)
    requires AllDigits(whole) && IsFraction(fraction)
    ensures Split(whole + fraction, '.') ==
            if fraction == "" then [whole] else [whole, FractionDigits(fraction)]
  {
    hide Split;
    assert '.' !in whole;
    if fraction == "" {
      assert whole + fraction == whole;
      SplitPlain(whole, '.');
    } else {
      PointSplits(whole, FractionDigits(fraction));
      assert whole + fraction == whole + ['.'] + FractionDigits(fraction);
    }
  }

  lemma BodyDigits(whole: string, fraction: string)
    requires AllDigits(whole) && IsFraction(fraction)
    ensures CountDigits(whole + fraction) == |whole| + |FractionDigits(fraction)|
  {
    CountDigitsConcat(whole, fraction);
    CountAllDigits(whole);
    if fraction != "" {
      CountAllDigits(FractionDigits(fraction));
    }
  }

  /** The text of a numeral without exponent after its sign, and its parts. */
  lemma PlainNumeralParts(n: Numeral)
    requires n.WellFormed() && n.exponent == ""
    ensures TrimSigns(n.Text()) == n.whole + n.fraction
    ensures Split(n.whole + n.fraction, '.') ==
            if n.fraction == "" then [n.whole] else [n.whole, FractionDigits(n.fraction)]
    ensures CountDigits(n.whole + n.fraction) == |n.whole| + |FractionDigits(n.fraction)|
  {
    hide TrimSigns, Split, CountDigits, IsExponent;
    SignIsTrimmed(n);
    BodySplits(n.whole, n.fraction);
    BodyDigits(n.whole, n.fraction);
  }

  lemma ExponentShows(n: Numeral)
    requires n.WellFormed() && n.exponent != ""
    ensures 'e' in n.Text() || 'E' in n.Text()
  {
    assert n.Text()[|n.sign| + |n.whole| + |n.fraction|] == n.exponent[0];
  }

  predicate DecimalShape(n: Numeral, precision: nat, scale: nat)
    requires n.WellFormed()
  {
    && n.exponent == "" && |FractionDigits(n.fraction)| <= scale
    && |n.whole| + |FractionDigits(n.fraction)| <= precision
  }

  lemma NumeralPartsAreDigits(n: Numeral)
    requires n.WellFormed()
    ensures
      var parts := if n.fraction == "" then [n.whole] else [n.whole, FractionDigits(n.fraction)];
      forall p | p in parts :: AllDigits(p)
  {
  }

  lemma CharOfPlainText(n: Numeral, i: nat)
    requires n.WellFormed() && n.exponent == "" && i < |n.Text()|
    ensures var c := n.Text()[i]; c == '+' || c == '-' || c == '.' || IsDigit(c)
  {
    hide IsExponent;
    var w, f := |n.sign|, |n.sign| + |n.whole|;
    if w <= i < f {
      assert n.Text()[i] == n.whole[i - w];
    } else if i >= f {
      assert n.Text()[i] == n.fraction[i - f];
      assert i > f ==> n.fraction[i - f] == n.fraction[1..][i - f - 1];
    }
  }

  lemma ExponentLetter(n: Numeral)
    requires n.WellFormed() && ('e' in n.Text() || 'E' in n.Text())
    ensures n.exponent != ""
  {
    hide IsExponent;
    if n.exponent == "" {
      var i :| 0 <= i < |n.Text()| && (n.Text()[i] == 'e' || n.Text()[i] == 'E');
      CharOfPlainText(n, i);
    }
  }

  lemma FirstPart(s: string, sep: char)
    requires s != "" && s[0] != sep
    ensures Split(s, sep)[0] != "" && Split(s, sep)[0][0] == s[0]
  {
    if sep in s {
      var i := IndexOf(s, sep);
      assert i > 0;
    }
  }

  /** The words for infinite and undefined values fail the digit test. */
  lemma WordIsRefused(value: string)
    requires AsciiLower(value[SignEnd(value)..]) in ["inf", "infinity", "nan"]
    ensures
      var parts := Split(TrimSigns(value), '.');
      exists p | p in parts :: !AllDigits(p)
  {
    var word := value[SignEnd(value)..];
    var low := AsciiLower(word);
    assert word != "" && (low[0] == 'i' || low[0] == 'n');
    assert !IsDigit(word[0]) && word[0] != '+' && word[0] != '-' && word[0] != '.';
    assert TrimSigns(value) == word;
    var parts := Split(word, '.');
    FirstPart(word, '.');
    assert parts[0] in parts;
  }

  /** A decimal is accepted exactly when it is a numeral without exponent within scale and precision. */
  lemma DecimalAcceptedExactly(value: string, precision: nat, scale: nat)
    ensures ValidateDecimal(value, precision, scale) == None <==>
            Scan(value).Some? && DecimalShape(Scan(value).value, precision, scale)
  {
    hide Scan, Split, CountDigits, IsExponent;
    match Scan(value) {
      case Some(n) =>
        if 'e' in value || 'E' in value {
          ExponentLetter(n);
        } else {
          if n.exponent != "" {
            ExponentShows(n);
          } else {
            PlainNumeralParts(n);
            NumeralPartsAreDigits(n);
          }
        }
      case None =>
        if AsciiLower(value[SignEnd(value)..]) in ["inf", "infinity", "nan"] {
          WordIsRefused(value);
        }
    }
  }

  // ------------------------------------------------------ the rules, declaratively

  function IntegerOf(n: Numeral): int
    requires n.WellFormed()
  {
    if n.sign == "-" then -(DigitsValue(n.whole) as int) else DigitsValue(n.whole)
  }

  /** A sign and digits whose value fits 64 bits. */
  ghost predicate IsI64Text(text: string) {
    exists n: Numeral ::
      && n.WellFormed() && n.Text() == text && n.fraction == "" && n.exponent == ""
      && I64_MIN <= IntegerOf(n) <= I64_MAX
  }

  /** A numeral without exponent within scale and precision. */
  ghost predicate IsDecimalText(text: string, precision: nat, scale: nat) {
    exists n: Numeral :: n.WellFormed() && n.Text() == text && DecimalShape(n, precision, scale)
  }

  /** `text` spells `word`, which is in lower case, in any case. */
  predicate Spells(text: string, word: string) {
    && |text| == |word|
    && forall i | 0 <= i < |text| ::
         if 'A' <= text[i] <= 'Z' then word[i] as int == text[i] as int + 32 else word[i] == text[i]
  }

  predicate IsFlag(text: string) {
    || Spells(text, "0") || Spells(text, "1") || Spells(text, "true") || Spells(text, "false")
    || Spells(text, "yes") || Spells(text, "no") || Spells(text, "y") || Spells(text, "n")
  }

  /** What a field demands of a cell without surrounding whitespace. */
  ghost predicate Meets(text: string, field: FieldSchema, isDate: string -> bool) {
    if text == "" then field.nullable
    else match field.fieldType
      case CharField(max) => |text| <= max
      case VarcharField(max) => |text| <= max
      case IntegerField => IsI64Text(text)
      case DecimalField(precision, scale) => IsDecimalText(text, precision, scale)
      case DateField => isDate(text)
      case FlagField => IsFlag(text)
  }

  lemma EmptyExponent()
    ensures IsExponent("")
  {
  }

  lemma IntegerAcceptedExactly(text: string)
    ensures ParseI64(text).Some? <==> IsI64Text(text)
  {
    hide DigitsValue, IsExponent;
    EmptyExponent();
    var k := SignEnd(text);
    if ParseI64(text).Some? {
      var n := Numeral(text[..k], text[k..], "", "");
      assert n.Text() == text && n.WellFormed();
      assert IntegerOf(n) == ParseI64(text).value;
    }
    if IsI64Text(text) {
      var n: Numeral :| n.WellFormed() && n.Text() == text && n.fraction == "" && n.exponent == ""
                        && I64_MIN <= IntegerOf(n) <= I64_MAX;
      SignPoint(n);
      assert text == n.sign + n.whole;
      assert text[k..] == n.whole && text[..k] == n.sign;
    }
  }

  lemma LowerSpells(text: string, word: string)
    ensures AsciiLower(text) == word <==> Spells(text, word)
  {
    var lower := AsciiLower(text);
    assert |lower| == |text|;
    if Spells(text, word) {
      assert forall i | 0 <= i < |text| :: lower[i] as int == word[i] as int;
      assert forall i | 0 <= i < |text| :: lower[i] == word[i];
    }
  }

  lemma FlagAcceptedExactly(text: string)
    ensures AsciiLower(text) in FLAGS <==> IsFlag(text)
  {
    hide AsciiLower, Spells;
    var lower := AsciiLower(text);
    LowerSpells(text, "0");
    LowerSpells(text, "1");
    LowerSpells(text, "true");
    LowerSpells(text, "false");
    LowerSpells(text, "yes");
    LowerSpells(text, "no");
    LowerSpells(text, "y");
    LowerSpells(text, "n");
    assert lower in FLAGS <==>
           lower == FLAGS[0] || lower == FLAGS[1] || lower == FLAGS[2] || lower == FLAGS[3]
           || lower == FLAGS[4] || lower == FLAGS[5] || lower == FLAGS[6] || lower == FLAGS[7];
  }

  lemma DecimalTextExactly(text: string, precision: nat, scale: nat)
    ensures ValidateDecimal(text, precision, scale) == None <==> IsDecimalText(text, precision, scale)
  {
    hide ValidateDecimal, Scan, DecimalShape;
    DecimalAcceptedExactly(text, precision, scale);
    if IsDecimalText(text, precision, scale) {
      var n: Numeral :| n.WellFormed() && n.Text() == text && DecimalShape(n, precision, scale);
      ScanComplete(n);
    }
  }

  /** A trimmed cell has no defect exactly when it meets what its field demands. */
  lemma FieldAcceptedExactly(text: string, field: FieldSchema, isDate: string -> bool)
    requires NoWhitespaceAtEnds(text)
    ensures ValidateField(text, field, isDate) == None <==> Meets(text, field, isDate)
  {
    hide ParseI64, ValidateDecimal, IsI64Text, IsDecimalText, TrimWhitespace, IsFlag, AsciiLower;
    IntegerAcceptedExactly(text);
    FlagAcceptedExactly(text);
    if field.fieldType.DecimalField? {
      DecimalTextExactly(text, field.fieldType.precision, field.fieldType.scale);
    }
    assert text[0..|text|] == text && text[..0] == "" && text[|text|..] == "";
    assert Around(text, 0, |text|);
    TrimIsUnique(text, text);
  }

  /** Which defect a cell has that does not meet its field. */
  lemma DefectMeaning(text: string, field: FieldSchema, isDate: string -> bool)
    requires NoWhitespaceAtEnds(text) && !Meets(text, field, isDate)
    ensures
      var d := ValidateField(text, field, isDate);
      if text == "" then d == Some(Required)
      else match field.fieldType
        case CharField(_) => d == Some(TooLong)
        case VarcharField(_) => d == Some(TooLong)
        case IntegerField => d == Some(NotInteger)
        case DecimalField(_, _) =>
          (d == Some(ScientificNotation) <==> 'e' in text || 'E' in text)
          && d in [Some(ScientificNotation), Some(NotDecimal), Some(BadDecimalFormat), Some(TooManyDecimals),
                   Some(TooManyDigits)]
        case DateField => d == Some(NotDate)
        case FlagField => d == Some(NotFlag)
  {
    hide ParseI64, Meets, TrimWhitespace, AsciiLower, ParsesAsF64, TrimSigns, CountDigits, Split;
    FieldAcceptedExactly(text, field, isDate);
  }

  // ---------------------------------------------- agreement with the script

  /** Every value accepted as an integer is read by the script as that integer. */
  lemma IntegerReadsExactly(value: string)
    requires ParseI64(value).Some?
    ensures Parsed(value) == Some(ParseI64(value).value as real)
  {
    hide Scan, DigitsValue, Scale, Numeral.Computed, Numeral.Denoted, IsExponent;
    var k := SignEnd(value);
    var n := Numeral(value[..k], value[k..], "", "");
    assert n.Text() == value;
    assert IsExponent("") by { EmptyExponent(); }
    assert n.WellFormed();
    ScanComplete(n);
    PlainComputed(n);
    NoDigits();
    ScaleZero(0.0);
  }

  /** An accepted decimal with scale up to 18 is read exactly when its integer part fits 64 bits. */
  lemma DecimalReadsExactlyWhenShort(value: string, precision: nat, scale: nat)
    requires ValidateDecimal(value, precision, scale) == None && scale <= MAX_FRACTION_DIGITS
    ensures
      && Scan(value).Some?
      && var n := Scan(value).value;
      Parsed(value) == Some(n.Denoted()) <==> DigitsValue(n.whole) < TWO64
  {
    hide Scan, DigitsValue, ValidateDecimal, Pow10, Numeral.Computed, Numeral.Denoted, IsExponent, IsFraction;
    DecimalAcceptedExactly(value, precision, scale);
    var n := Scan(value).value;
    NoExponent();
    ParseAccuracy(n);
    assert Pow10(-18) > 0.0;
  }

  /** With precision up to 19 and scale up to 18 every accepted decimal is read exactly. */
  lemma DecimalReadsExactly(value: string, precision: nat, scale: nat)
    requires ValidateDecimal(value, precision, scale) == None
    requires precision <= 19 && scale <= MAX_FRACTION_DIGITS
    ensures Scan(value).Some? && Parsed(value) == Some(Scan(value).value.Denoted())
  {
    hide Scan, DigitsValue, ValidateDecimal, Numeral.Denoted, Numeral.Computed, IsExponent, IsFraction;
    DecimalAcceptedExactly(value, precision, scale);
    DecimalReadsExactlyWhenShort(value, precision, scale);
    var whole := Scan(value).value.whole;
    DigitsBound(whole);
    TenToTheMonotone(|whole|, 19);
    TenPowers();
  }

  lemma Regroup(a: nat, p: nat, v: nat, d: nat)
    ensures 10 * (a * p + v) + d == a * (10 * p) + (10 * v + d)
  {
  }

  lemma {:induction false} DigitsConcat(a: string, b: string)
    requires AllDigits(a) && AllDigits(b)
    ensures AllDigits(a + b)
    ensures DigitsValue(a + b) == DigitsValue(a) * TenToThe(|b|) + DigitsValue(b)
  {
    if b == "" {
      assert a + b == a;
    } else {
      var front, c := b[..|b| - 1], b[|b| - 1];
      DigitsConcat(a, front);
      var t := a + b;
      assert t[..|t| - 1] == a + front && t[|t| - 1] == c;
      Regroup(DigitsValue(a), TenToThe(|front|), DigitsValue(front), DigitValue(c));
    }
  }

  lemma {:induction false} Pow10IsTenToThe(n: nat)
    ensures Pow10(n) == TenToThe(n) as real
  {
    if n > 0 {
      Pow10IsTenToThe(n - 1);
    }
  }

  lemma ScaleSum(w: real, v: real, p: real, q: real)
    requires p * q == 1.0
    ensures (w + v * p) * q == w * q + v
  {
    assert (v * p) * q == v * (p * q);
  }

  lemma IntegerProduct(a: nat, b: nat)
    ensures (a * b) as real == a as real * b as real
  {
  }

  /** The mantissa scaled by its number of fraction digits is the integer written by all its digits. */
  lemma MagnitudeScaled(whole: string, digits: string)
    requires AllDigits(whole) && AllDigits(digits)
    ensures AllDigits(whole + digits)
    ensures Scale(Magnitude(DigitsValue(whole), digits), |digits|) == DigitsValue(whole + digits) as real
  {
    hide Pow10, DigitsValue;
    var d := |digits|;
    DigitsConcat(whole, digits);
    Pow10IsTenToThe(d);
    Pow10Add(-d, d);
    Pow10Zero();
    ScaleSum(DigitsValue(whole) as real, DigitsValue(digits) as real, Pow10(-d), Pow10(d));
    IntegerProduct(DigitsValue(whole), TenToThe(d));
  }

  lemma ScaleNegated(m: real, e: int)
    ensures Scale(-m, e) == -Scale(m, e)
  {
    hide Pow10;
  }

  /** Every accepted decimal is a whole number of scale-d units, d at most the scale, below 10^precision. */
  lemma DecimalMagnitude(value: string, precision: nat, scale: nat) returns (d: nat, k: int)
    requires ValidateDecimal(value, precision, scale) == None
    ensures Scan(value).Some? && Scale(Scan(value).value.Denoted(), d) == k as real
    ensures d <= scale && -(TenToThe(precision) as int) < k < TenToThe(precision)
  {
    hide Scan, DigitsValue, ValidateDecimal, Magnitude, Scale, IsExponent, IsFraction, TenToThe, FractionDigits;
    DecimalAcceptedExactly(value, precision, scale);
    var n := Scan(value).value;
    var digits := FractionDigits(n.fraction);
    MagnitudeScaled(n.whole, digits);
    DigitsBound(n.whole + digits);
    TenToTheMonotone(|n.whole + digits|, precision);
    var m := Magnitude(DigitsValue(n.whole), digits);
    NoExponent();
    ScaleZero(m);
    ScaleNegated(m, |digits|);
    var v := DigitsValue(n.whole + digits);
    d, k := |digits|, if n.sign == "-" then -(v as int) else v;
  }
}
