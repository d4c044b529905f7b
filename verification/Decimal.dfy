/**
 The decimal number reader of the `mean` script (`parse_f64_bytes`, `pow10`), with `f64`
 taken as an exact real. The 64-bit wrap of the integer part, the 18 digit cut of the
 fraction and the saturation of the exponent are kept.
 */
module Decimal {
  import opened Basics

  const I32_MAX: int := 0x7FFF_FFFF
  const MAX_FRACTION_DIGITS: nat := 18

  // ---------------------------------------------------------------- digits

  predicate IsDigit(c: char) {
    '0' <= c <= '9'
  }

  function DigitValue(c: char): nat
    requires IsDigit(c)
  {
    c as int - '0' as int
  }

  predicate AllDigits(s: string) {
    forall i | 0 <= i < |s| :: IsDigit(s[i])
  }

  /** The number a digit string denotes; the empty string denotes 0. */
  function DigitsValue(s: string): nat
    requires AllDigits(s)
  {
    if s == [] then 0 else 10 * DigitsValue(s[..|s| - 1]) + DigitValue(s[|s| - 1])
  }

  /** Length of the longest digit prefix. */
  function DigitRun(s: string): (n: nat)
    ensures n <= |s| && AllDigits(s[..n])
    ensures n < |s| ==> !IsDigit(s[n])
  {
    if s == [] || !IsDigit(s[0]) then 0
    else
      var n := 1 + DigitRun(s[1..]);
      assert forall i | 0 < i < n :: s[..n][i] == s[1..][..n - 1][i - 1];
      n
  }

  lemma DigitRunAt(digits: string, rest: string)
    requires AllDigits(digits)
    requires rest == [] || !IsDigit(rest[0])
    ensures DigitRun(digits + rest) == |digits|
  {
    var s := digits + rest;
    var n := DigitRun(s);
    assert forall i | 0 <= i < n :: s[i] == s[..n][i];
    assert forall i | 0 <= i < |digits| :: s[i] == digits[i];
    assert rest != [] ==> s[|digits|] == rest[0];
  }

  // ------------------------------------------------------- powers of ten

  function Pow10(e: int): (p: real)
    ensures p > 0.0
    decreases if e < 0 then -e else e
  {
    if e == 0 then 1.0 else if e > 0 then 10.0 * Pow10(e - 1) else Pow10(e + 1) / 10.0
  }

  lemma {:induction false} Pow10Step(e: int)
    ensures Pow10(e + 1) == 10.0 * Pow10(e)
  {
  }

  lemma Pow10Zero()
    ensures Pow10(0) == 1.0
  {
  }

  lemma ScaleByTen(x: real, y: real, y10: real, z: real, z10: real)
    requires y10 == 10.0 * y && z10 == 10.0 * z
    ensures z == x * y <==> z10 == x * y10
  {
    assert x * y10 == 10.0 * (x * y);
  }

  lemma {:induction false} Pow10AddStep(a: int, b: int)
    ensures Pow10(a + b) == Pow10(a) * Pow10(b) <==> Pow10(a + b + 1) == Pow10(a) * Pow10(b + 1)
  {
    hide Pow10;
    Pow10Step(b);
    Pow10Step(a + b);
    ScaleByTen(Pow10(a), Pow10(b), Pow10(b + 1), Pow10(a + b), Pow10(a + b + 1));
  }

  lemma {:induction false} Pow10Add(a: int, b: int)
    ensures Pow10(a + b) == Pow10(a) * Pow10(b)
    decreases if b < 0 then -b else b
  {
    hide Pow10;
    if b == 0 {
      Pow10Zero();
    } else if b > 0 {
      Pow10Add(a, b - 1);
      Pow10AddStep(a, b - 1);
    } else {
      Pow10Add(a, b + 1);
      Pow10AddStep(a, b);
    }
  }

  const POS: seq<real> := [
    1.0, 10.0, 100.0, 1000.0, 10000.0, 100000.0, 1000000.0, 10000000.0, 100000000.0, 1000000000.0,
    10000000000.0, 100000000000.0, 1000000000000.0, 10000000000000.0, 100000000000000.0,
    1000000000000000.0, 10000000000000000.0, 100000000000000000.0, 1000000000000000000.0,
    10000000000000000000.0, 100000000000000000000.0, 1000000000000000000000.0,
    10000000000000000000000.0
  ]

  /** The lookup table holds exact powers of ten. */
  lemma {:induction false} TableIsPow10(k: int)
    requires 0 <= k < |POS|
    ensures POS[k] == Pow10(k) && 1.0 / POS[k] == Pow10(-k)
  {
    hide Pow10;
    Pow10Zero();
    if k > 0 {
      TableIsPow10(k - 1);
      Pow10Step(-k);
      Pow10Step(k - 1);
      assert POS[k] == 10.0 * POS[k - 1];
    }
  }

  /** Table lookup up to 22, then repeated multiplication, as `pow10` does. */
  method ComputePow10(e: int) returns (v: real)
    ensures v == Pow10(e)
  {
    if e >= 0 {
      if e < |POS| {
        TableIsPow10(e);
        return POS[e];
      }
      TableIsPow10(|POS| - 1);
      v := POS[|POS| - 1];
      for i := 0 to e - (|POS| - 1)
        invariant v == Pow10(|POS| - 1 + i)
      {
        Pow10Step(|POS| - 1 + i);
        v := v * 10.0;
      }
    } else {
      var u := -e;
      if u < |POS| {
        TableIsPow10(u);
        return 1.0 / POS[u];
      }
      TableIsPow10(|POS| - 1);
      v := 1.0 / POS[|POS| - 1];
      for i := 0 to u - (|POS| - 1)
        invariant v == Pow10(-(|POS| - 1) - i)
      {
        Pow10Step(-(|POS| - 1) - i - 1);
        v := v * 0.1;
      }
    }
  }

  // --------------------------------------------------------------- grammar

  predicate IsSign(s: string) {
    s == "" || s == "+" || s == "-"
  }

  predicate IsFraction(s: string) {
    s == "" || (s[0] == '.' && AllDigits(s[1..]))
  }

  function FractionDigits(s: string): (digits: string)
    requires IsFraction(s)
    ensures AllDigits(digits)
  {
    if s == "" then "" else s[1..]
  }

  /** Where the digits of an exponent start: after `e` and an optional sign. */
  function ExponentDigitsFrom(s: string): (n: nat)
    requires s != ""
    ensures n <= |s|
  {
    if |s| > 1 && (s[1] == '+' || s[1] == '-') then 2 else 1
  }

  predicate IsExponent(s: string) {
    s == "" ||
    ((s[0] == 'e' || s[0] == 'E') &&
     s[ExponentDigitsFrom(s)..] != "" && AllDigits(s[ExponentDigitsFrom(s)..]))
  }

  function ExponentMagnitude(s: string): nat
    requires IsExponent(s)
  {
    if s == "" then 0 else DigitsValue(s[ExponentDigitsFrom(s)..])
  }

  function ExponentOf(s: string): int
    requires IsExponent(s)
  {
    if |s| > 1 && s[1] == '-' then 0 - ExponentMagnitude(s) else ExponentMagnitude(s)
  }

  /** An exponent after the 32-bit saturating accumulation. */
  function Saturated(e: int): int {
    if e < 0 then -Min(-e, I32_MAX) else Min(e, I32_MAX)
  }

  /** `m * 10^e` */
  function Scale(m: real, e: int): real {
    m * Pow10(e)
  }

  /** `0.d1d2...dk` for the digits `d1d2...dk`. */
  function FractionValue(digits: string): real
    requires AllDigits(digits)
  {
    Scale(DigitsValue(digits) as real, -|digits|)
  }

  function Magnitude(whole: nat, digits: string): real
    requires AllDigits(digits)
  {
    whole as real + FractionValue(digits)
  }

  /** The parts of a numeral, as they appear in the text. */
  datatype Numeral = Numeral(sign: string, whole: string, fraction: string, exponent: string) {
    function Text(): string {
      sign + whole + fraction + exponent
    }

    /** `[+-]?d*(.d*)?([eE][+-]?d+)?` with at least one mantissa digit. */
    predicate WellFormed() {
      && IsSign(sign) && AllDigits(whole) && IsFraction(fraction) && IsExponent(exponent)
      && (whole != "" || |fraction| > 1)
    }

    function Signed(magnitude: real): real {
      if sign == "-" then -magnitude else magnitude
    }

    /** The number the text would denote with the given exponent. */
    function DenotedAt(e: int): real
      requires WellFormed()
    {
      Signed(Scale(Magnitude(DigitsValue(whole), FractionDigits(fraction)), e))
    }

    /** The number the text denotes. */
    function Denoted(): real
      requires WellFormed()
    {
      DenotedAt(ExponentOf(exponent))
    }

    /** What the reader computes from the parts. */
    function Computed(): real
      requires WellFormed()
    {
      Signed(Scale(Magnitude(DigitsValue(whole) % TWO64, Take(FractionDigits(fraction), MAX_FRACTION_DIGITS)),
                   Saturated(ExponentOf(exponent))))
    }
  }

  function SignEnd(b: string): (s: nat)
    ensures s <= |b|
  {
    if b != [] && (b[0] == '+' || b[0] == '-') then 1 else 0
  }

  function WholeEnd(b: string): (w: nat)
    ensures SignEnd(b) <= w <= |b|
  {
    SignEnd(b) + DigitRun(b[SignEnd(b)..])
  }

  function FractionEnd(b: string): (f: nat)
    ensures WholeEnd(b) <= f <= |b|
  {
    var w := WholeEnd(b);
    if w < |b| && b[w] == '.' then w + 1 + DigitRun(b[w + 1..]) else w
  }

  lemma Join(b: string, s: nat, w: nat, f: nat)
    requires s <= w <= f <= |b|
    ensures b[..s] + b[s..w] + b[w..f] + b[f..] == b
  {
  }

  /** Cut a text by longest match from the left: sign, digits, fraction, the rest. */
  function Cut(b: string): (n: Numeral)
    ensures n.Text() == b
  {
    var s, w, f := SignEnd(b), WholeEnd(b), FractionEnd(b);
    Join(b, s, w, f);
    Numeral(b[..s], b[s..w], b[w..f], b[f..])
  }

  function Scan(b: string): (r: Option<Numeral>)
    ensures r.Some? ==> r.value.WellFormed() && r.value.Text() == b
  {
    if Cut(b).WellFormed() then Some(Cut(b)) else None
  }

  lemma FirstDigit(s: string)
    requires AllDigits(s) && s != ""
    ensures IsDigit(s[0])
  {
  }

  lemma SignPoint(n: Numeral)
    requires n.WellFormed()
    ensures SignEnd(n.Text()) == |n.sign|
  {
    hide AllDigits, IsExponent;
    var b := n.Text();
    assert n.sign != "" ==> b[0] == n.sign[0];
    if n.sign == "" {
      if n.whole != "" {
        assert b[0] == n.whole[0] && IsDigit(n.whole[0]) by { FirstDigit(n.whole); }
      } else {
        assert b[0] == n.fraction[0];
      }
    }
  }

  lemma ExponentStart(e: string)
    requires IsExponent(e) && e != ""
    ensures !IsDigit(e[0]) && e[0] != '.'
  {
  }

  lemma WholePoint(n: Numeral)
    requires n.WellFormed()
    ensures WholeEnd(n.Text()) == |n.sign| + |n.whole|
  {
    hide DigitRun, AllDigits, IsExponent, SignEnd;
    SignPoint(n);
    var rest := n.fraction + n.exponent;
    if n.exponent != "" { ExponentStart(n.exponent); }
    assert n.fraction != "" ==> rest[0] == '.';
    DigitRunAt(n.whole, rest);
    assert n.Text()[|n.sign|..] == n.whole + rest;
  }

  lemma FractionEndAt(b: string, w: nat, fraction: string, exponent: string)
    requires w == WholeEnd(b) && b[w..] == fraction + exponent && IsFraction(fraction)
    requires exponent != "" ==> !IsDigit(exponent[0]) && exponent[0] != '.'
    ensures FractionEnd(b) == w + |fraction|
  {
    hide DigitRun, WholeEnd;
    if fraction != "" {
      assert b[w] == b[w..][0] == '.';
      DigitRunAt(fraction[1..], exponent);
      assert b[w + 1..] == b[w..][1..] == fraction[1..] + exponent;
    } else if exponent != "" {
      assert b[w] == b[w..][0] == exponent[0];
    }
  }

  lemma FractionPoint(n: Numeral)
    requires n.WellFormed()
    ensures FractionEnd(n.Text()) == |n.sign| + |n.whole| + |n.fraction|
  {
    hide AllDigits, IsExponent, WholeEnd, FractionEnd;
    WholePoint(n);
    if n.exponent != "" { ExponentStart(n.exponent); }
    var w := |n.sign| + |n.whole|;
    assert n.Text()[w..] == n.fraction + n.exponent;
    FractionEndAt(n.Text(), w, n.fraction, n.exponent);
  }

  lemma TextSlices(n: Numeral)
    ensures
      var b, s := n.Text(), |n.sign|;
      var w := s + |n.whole|;
      var f := w + |n.fraction|;
      b[..s] == n.sign && b[s..w] == n.whole && b[w..f] == n.fraction && b[f..] == n.exponent
  {
  }

  /** The reader's grammar is unambiguous and `Scan` finds the numeral whenever there is one. */
  lemma ScanComplete(n: Numeral)
    requires n.WellFormed()
    ensures Scan(n.Text()) == Some(n)
  {
    hide SignEnd, WholeEnd, FractionEnd, Numeral.WellFormed, Numeral.Text;
    SignPoint(n);
    WholePoint(n);
    FractionPoint(n);
    TextSlices(n);
  }

  ghost predicate InGrammar(b: string) {
    exists n: Numeral :: n.WellFormed() && n.Text() == b
  }

  /** The value the script assigns to a cell, if it assigns one. */
  function Parsed(b: string): Option<real> {
    match Scan(b)
    case None => None
    case Some(n) => Some(n.Computed())
  }

  /** The reader accepts exactly the grammar. */
  lemma AcceptsExactlyTheGrammar(b: string)
    ensures Parsed(b).Some? <==> InGrammar(b)
  {
    if InGrammar(b) {
      var n: Numeral :| n.WellFormed() && n.Text() == b;
      ScanComplete(n);
    }
  }

  // ------------------------------------------------------ the reader itself

  function TenToThe(n: nat): nat {
    if n == 0 then 1 else 10 * TenToThe(n - 1)
  }

  lemma {:induction false} DigitsBound(s: string)
    requires AllDigits(s)
    ensures DigitsValue(s) < TenToThe(|s|)
  {
    if s != [] {
      DigitsBound(s[..|s| - 1]);
    }
  }

  lemma TenPowers()
    ensures TenToThe(6) == 1_000_000
    ensures TenToThe(18) == 1_000_000_000_000_000_000
    ensures TenToThe(19) == 10_000_000_000_000_000_000
    ensures TenToThe(20) == 100_000_000_000_000_000_000
  {
    assert TenToThe(9) == 1_000_000_000;
    assert TenToThe(15) == 1_000_000_000_000_000;
  }

  lemma {:induction false} TenToTheMonotone(m: nat, n: nat)
    requires m <= n
    ensures 0 < TenToThe(m) <= TenToThe(n)
    decreases n
  {
    if m < n {
      TenToTheMonotone(m, n - 1);
    } else if m > 0 {
      TenToTheMonotone(m - 1, n - 1);
    }
  }

  /** Reading one more digit of the slice that starts at `from`. */
  lemma NextDigit(b: string, from: nat, i: nat)
    requires from <= i < |b| && AllDigits(b[from..i]) && IsDigit(b[i])
    ensures AllDigits(b[from..i + 1])
    ensures DigitsValue(b[from..i + 1]) == 10 * DigitsValue(b[from..i]) + DigitValue(b[i])
  {
    var t := b[from..i + 1];
    assert t[..|t| - 1] == b[from..i];
    assert forall k | 0 <= k < |t| - 1 :: t[k] == b[from..i][k];
  }

  lemma RunEnds(b: string, from: nat, i: nat)
    requires from <= i <= |b| && AllDigits(b[from..i])
    requires i < |b| ==> !IsDigit(b[i])
    ensures DigitRun(b[from..]) == i - from
  {
    assert b[from..] == b[from..i] + b[i..];
    DigitRunAt(b[from..i], b[i..]);
  }

  lemma Congruent(x: nat, k: nat)
    ensures (x + k * TWO64) % TWO64 == x % TWO64
  {
  }

  lemma WrapStep(x: nat, d: nat)
    ensures (((x % TWO64) * 10) % TWO64 + d) % TWO64 == (10 * x + d) % TWO64
  {
    var q, m := x / TWO64, x % TWO64;
    assert 10 * x + d == (10 * m + d) + (10 * q) * TWO64;
    Congruent(10 * m + d, 10 * q);
    Congruent((10 * m) % TWO64 + d, (10 * m) / TWO64);
  }

  /** The integer digits from `from` on, accumulated modulo 2^64. */
  method ReadWhole(b: Bytes, from: nat) returns (value: nat, i: nat)
    requires from <= |b|
    ensures from <= i <= |b| && i == from + DigitRun(b[from..])
    ensures AllDigits(b[from..i]) && value == DigitsValue(b[from..i]) % TWO64
  {
    i, value := from, 0;
    while i < |b| && IsDigit(b[i])
      invariant from <= i <= |b| && AllDigits(b[from..i])
      invariant value == DigitsValue(b[from..i]) % TWO64
    {
      NextDigit(b, from, i);
      WrapStep(DigitsValue(b[from..i]), DigitValue(b[i]));
      value := ((value * 10) % TWO64 + DigitValue(b[i])) % TWO64;
      i := i + 1;
    }
    RunEnds(b, from, i);
  }

  lemma NoDigits()
    ensures DigitsValue("") == 0
  {
  }

  /** Up to 18 digits the wrapping arithmetic never wraps. */
  lemma ShortFractionFits(b: string, from: nat, i: nat)
    requires from <= i < |b| && i - from < MAX_FRACTION_DIGITS && AllDigits(b[from..i]) && IsDigit(b[i])
    ensures
      var v := DigitsValue(b[from..i]);
      AllDigits(b[from..i + 1]) &&
      ((v * 10) % TWO64 + DigitValue(b[i])) % TWO64 == DigitsValue(b[from..i + 1])
  {
    hide DigitsValue;
    NextDigit(b, from, i);
    DigitsBound(b[from..i + 1]);
    TenToTheMonotone(i + 1 - from, MAX_FRACTION_DIGITS);
    TenPowers();
  }

  /** The fraction digits from `from` on; only the first 18 enter the value. */
  method ReadFraction(b: Bytes, from: nat) returns (value: nat, digits: nat, i: nat)
    requires from <= |b|
    ensures from <= i <= |b| && i == from + DigitRun(b[from..])
    ensures AllDigits(b[from..i]) && digits == Min(i - from, MAX_FRACTION_DIGITS)
    ensures value == DigitsValue(Take(b[from..i], MAX_FRACTION_DIGITS))
  {
    hide DigitsValue, DigitRun;
    i, value, digits := from, 0, 0;
    assert b[from..from] == "" && DigitsValue("") == 0 by { NoDigits(); }
    while i < |b| && IsDigit(b[i])
      invariant from <= i <= |b| && AllDigits(b[from..i])
      invariant digits == Min(i - from, MAX_FRACTION_DIGITS)
      invariant AllDigits(b[from..from + digits]) && value == DigitsValue(b[from..from + digits])
    {
      NextDigit(b, from, i);
      if digits < MAX_FRACTION_DIGITS {
        ShortFractionFits(b, from, i);
        value := ((value * 10) % TWO64 + DigitValue(b[i])) % TWO64;
        digits := digits + 1;
      }
      i := i + 1;
    }
    RunEnds(b, from, i);
    assert b[from..from + digits] == Take(b[from..i], MAX_FRACTION_DIGITS);
  }

  /** The exponent digits from `from` on, saturating at the largest 32-bit integer. */
  method ReadExponentDigits(b: Bytes, from: nat) returns (value: nat, i: nat)
    requires from <= |b|
    ensures from <= i <= |b| && i == from + DigitRun(b[from..])
    ensures AllDigits(b[from..i]) && value == Min(DigitsValue(b[from..i]), I32_MAX)
  {
    i, value := from, 0;
    while i < |b| && IsDigit(b[i])
      invariant from <= i <= |b| && AllDigits(b[from..i])
      invariant value == Min(DigitsValue(b[from..i]), I32_MAX)
    {
      NextDigit(b, from, i);
      value := Min(Min(value * 10, I32_MAX) + DigitValue(b[i]), I32_MAX);
      i := i + 1;
    }
    RunEnds(b, from, i);
  }

  lemma DigitRunIsAll(s: string)
    ensures DigitRun(s) == |s| <==> AllDigits(s)
  {
    var n := DigitRun(s);
    assert n == |s| ==> s[..n] == s;
  }

  /** The exponent part, which must reach the end of the text. */
  method ReadExponent(b: Bytes, from: nat) returns (r: Option<int>)
    requires from <= |b|
    ensures r.Some? <==> IsExponent(b[from..])
    ensures r.Some? ==> r.value == Saturated(ExponentOf(b[from..]))
  {
    hide DigitsValue;
    if from < |b| && (b[from] == 'e' || b[from] == 'E') {
      var i, negative := from + 1, false;
      if i < |b| && (b[i] == '-' || b[i] == '+') {
        negative := b[i] == '-';
        i := i + 1;
      }
      var e, j := ReadExponentDigits(b, i);
      var s := b[from..];
      assert s[ExponentDigitsFrom(s)..] == b[i..];
      DigitRunIsAll(b[i..]);
      if j == i || j != |b| {
        return None;
      }
      assert b[i..] == b[i..j];
      var signed: int := if negative then -(e as int) else e;
      return Some(signed);
    }
    return if from == |b| then Some(0) else None;
  }

  lemma CutWhole(b: string)
    ensures AllDigits(b[SignEnd(b)..WholeEnd(b)])
  {
    var s := SignEnd(b);
    assert b[s..WholeEnd(b)] == b[s..][..DigitRun(b[s..])];
  }

  lemma CutFraction(b: string)
    ensures
      var w, f := WholeEnd(b), FractionEnd(b);
      && IsFraction(b[w..f])
      && (w < f ==> b[w..f][1..] == b[w + 1..f] && AllDigits(b[w + 1..f]))
  {
    hide WholeEnd;
    var w, f := WholeEnd(b), FractionEnd(b);
    if w < f {
      assert b[w..f][1..] == b[w + 1..f] == b[w + 1..][..DigitRun(b[w + 1..])];
    }
  }

  /** Sign, digits and fraction are always cut well; only the mantissa and the exponent can fail. */
  lemma CutWellFormed(b: string)
    ensures
      var s, w, f := SignEnd(b), WholeEnd(b), FractionEnd(b);
      Cut(b).WellFormed() == (IsExponent(b[f..]) && (s < w || w + 1 < f))
  {
    hide IsExponent, AllDigits, IsFraction, WholeEnd, FractionEnd;
    CutWhole(b);
    CutFraction(b);
    assert SignEnd(b) == 1 ==> b[..1] == [b[0]];
  }

  lemma ComputedFrom(n: Numeral, whole: nat, frac: nat, fracDigits: int, exp: int)
    requires n.WellFormed()
    requires AllDigits(n.whole) && whole == DigitsValue(n.whole) % TWO64
    requires
      var digits := Take(FractionDigits(n.fraction), MAX_FRACTION_DIGITS);
      fracDigits == |digits| && frac == DigitsValue(digits)
    requires exp == Saturated(ExponentOf(n.exponent))
    ensures n.Computed() == n.Signed(Scale(whole as real + Scale(frac as real, -fracDigits), exp))
  {
    hide Scale, DigitsValue, Saturated, ExponentOf;
  }

  /** The closing arithmetic: add the fraction, scale by the exponent, apply the sign. */
  method Combine(negative: bool, whole: nat, frac: nat, fracDigits: nat, exp: int) returns (value: real)
    requires fracDigits == 0 ==> frac == 0
    ensures
      var magnitude := Scale(whole as real + Scale(frac as real, 0 - fracDigits), exp);
      value == if negative then -magnitude else magnitude
  {
    hide Pow10;
    Pow10Zero();
    value := whole as real;
    if fracDigits > 0 {
      var p := ComputePow10(0 - fracDigits);
      value := value + frac as real * p;
    }
    if exp != 0 {
      var p := ComputePow10(exp);
      value := value * p;
    }
    if negative {
      value := -value;
    }
  }

  /** The digits before and after the point, from the end of the sign on. */
  method ReadMantissa(b: Bytes, from: nat) returns (whole: nat, w: nat, frac: nat, fracDigits: nat, f: nat)
    requires from == SignEnd(b)
    ensures w == WholeEnd(b) && f == FractionEnd(b)
    ensures AllDigits(b[from..w]) && whole == DigitsValue(b[from..w]) % TWO64
    ensures
      IsFraction(b[w..f]) &&
      var digits := Take(FractionDigits(b[w..f]), MAX_FRACTION_DIGITS);
      fracDigits == |digits| && frac == DigitsValue(digits)
  {
    hide AllDigits, DigitsValue, DigitRun;
    CutFraction(b);
    NoDigits();
    whole, w := ReadWhole(b, from);
    frac, fracDigits, f := 0, 0, w;
    if w < |b| && b[w] == '.' {
      frac, fracDigits, f := ReadFraction(b, w + 1);
    }
  }

  /** The script's number reader. */
  method ParseF64Bytes(b: Bytes) returns (r: Option<real>)
    ensures r == Parsed(b)
  {
    hide IsExponent, AllDigits, DigitsValue, WholeEnd, FractionEnd, Numeral.WellFormed, Numeral.Computed,
         Scale, Numeral.Text, Saturated, ExponentOf, IsFraction;
    CutWellFormed(b);
    if |b| == 0 {
      return None;
    }
    var negative, i := false, 0;
    if b[0] == '-' {
      negative, i := true, 1;
    } else if b[0] == '+' {
      i := 1;
    }
    if i >= |b| {
      return None;
    }
    var whole, w, frac, fracDigits, f := ReadMantissa(b, i);
    if w == i && fracDigits == 0 {
      return None;
    }
    var exp := ReadExponent(b, f);
    if exp.None? {
      return None;
    }
    NoDigits();
    ComputedFrom(Cut(b), whole, frac, fracDigits, exp.value);
    var value := Combine(negative, whole, frac, fracDigits, exp.value);
    return Some(value);
  }

  // --------------------------------------------------------------- accuracy

  lemma Distribute(v: real, d: real, p: real)
    ensures (10.0 * v + d) * p == v * (10.0 * p) + d * p
    ensures 0.0 <= d <= 9.0 && p > 0.0 ==> 0.0 <= d * p <= 9.0 * p
  {
  }

  lemma StepBounds(w: real, v: real, d: real, p: real, q: real)
    requires w == 10.0 * v + d && q == 10.0 * p && 0.0 <= d <= 9.0 && p > 0.0
    ensures 0.0 <= w * p - v * q <= 9.0 * p
  {
    Distribute(v, d, p);
  }

  lemma FractionStepReal(v: nat, d: nat, n: int)
    requires d <= 9 && n > 0
    ensures 0.0 <= (10 * v + d) as real * Pow10(-n) - v as real * Pow10(-(n - 1)) <= 9.0 * Pow10(-n)
  {
    hide Pow10;
    Pow10Step(-n);
    assert Pow10(-(n - 1)) == 10.0 * Pow10(-n);
    StepBounds((10 * v + d) as real, v as real, d as real, Pow10(-n), Pow10(-(n - 1)));
  }

  lemma FractionStep(digits: string)
    requires AllDigits(digits) && digits != ""
    ensures
      var front := digits[..|digits| - 1];
      0.0 <= FractionValue(digits) - FractionValue(front) <= 9.0 * Pow10(-|digits|)
  {
    var v, d := DigitsValue(digits[..|digits| - 1]), DigitValue(digits[|digits| - 1]);
    assert DigitsValue(digits) == 10 * v + d;
    FractionStepReal(v, d, |digits|);
  }

  lemma {:induction false} FractionCutTight(digits: string, k: nat)
    requires AllDigits(digits) && k <= |digits|
    ensures 0.0 <= FractionValue(digits) - FractionValue(digits[..k]) <= Pow10(0 - k) - Pow10(-|digits|)
    decreases |digits|
  {
    hide Pow10, FractionValue;
    if k == |digits| {
      assert digits[..k] == digits;
    } else {
      var front := digits[..|digits| - 1];
      FractionStep(digits);
      FractionCutTight(front, k);
      assert front[..k] == digits[..k];
      Pow10Step(-|digits|);
    }
  }

  /** Cutting a fraction after k digits loses less than one unit of the k-th digit. */
  lemma FractionCut(digits: string, k: nat)
    requires AllDigits(digits)
    ensures 0.0 <= FractionValue(digits) - FractionValue(Take(digits, k)) < Pow10(0 - k)
  {
    hide Pow10, FractionValue;
    FractionCutTight(digits, Min(k, |digits|));
    assert Pow10(-|digits|) > 0.0;
    assert k >= |digits| ==> Take(digits, k) == digits;
  }

  lemma PositiveProduct(x: real, p: real)
    requires p > 0.0
    ensures x >= 0.0 <==> x * p >= 0.0
    ensures x > 0.0 <==> x * p > 0.0
  {
  }

  lemma DifferenceProduct(a: real, b: real, p: real)
    ensures (a - b) * p == a * p - b * p
  {
  }

  lemma ProductBounds(d: real, bound: real, p: real)
    requires p > 0.0
    ensures 0.0 <= d < bound <==> 0.0 <= d * p < bound * p
  {
    PositiveProduct(d, p);
    DifferenceProduct(bound, d, p);
    PositiveProduct(bound - d, p);
  }

  lemma ScaleBound(a: real, b: real, e: int)
    ensures 0.0 <= a - b < Pow10(-18) <==> 0.0 <= Scale(a, e) - Scale(b, e) < Pow10(e - 18)
  {
    hide Pow10;
    var p := Pow10(e);
    Pow10Add(-18, e);
    assert Pow10(e - 18) == Pow10(-18) * p;
    DifferenceProduct(a, b, p);
    ProductBounds(a - b, Pow10(-18), p);
  }

  lemma FractionNonNegative(digits: string)
    requires AllDigits(digits)
    ensures FractionValue(digits) >= 0.0
  {
  }

  lemma {:induction false} Pow10Small(k: nat)
    ensures Pow10(0 - k) <= 1.0
  {
    if k > 0 {
      Pow10Small(k - 1);
      Pow10Step(0 - k);
    }
  }

  lemma WrapGap(whole: nat)
    ensures whole < TWO64 ==> whole % TWO64 == whole
    ensures whole >= TWO64 ==> whole - whole % TWO64 >= TWO64
  {
  }

  /** The mantissa is read to within 10^-18 exactly when its integer part is below 2^64. */
  lemma MantissaError(whole: nat, digits: string)
    requires AllDigits(digits)
    ensures
      var exact := Magnitude(whole, digits);
      var read := Magnitude(whole % TWO64, Take(digits, MAX_FRACTION_DIGITS));
      && (whole < TWO64 <==> 0.0 <= exact - read < Pow10(-18))
      && 0.0 <= read && 0.0 <= exact
  {
    hide Pow10, DigitsValue;
    FractionCut(digits, MAX_FRACTION_DIGITS);
    FractionNonNegative(digits);
    FractionNonNegative(Take(digits, MAX_FRACTION_DIGITS));
    Pow10Small(18);
    WrapGap(whole);
  }

  lemma SignedMagnitudes(n: Numeral, exact: real, read: real)
    requires n.WellFormed()
    requires exact == Magnitude(DigitsValue(n.whole), FractionDigits(n.fraction))
    requires read == Magnitude(DigitsValue(n.whole) % TWO64, Take(FractionDigits(n.fraction), MAX_FRACTION_DIGITS))
    ensures n.Denoted() == n.DenotedAt(ExponentOf(n.exponent))
    ensures forall e :: n.DenotedAt(e) == n.Signed(Scale(exact, e))
    ensures n.Computed() == n.Signed(Scale(read, Saturated(ExponentOf(n.exponent))))
  {
    hide Scale, DigitsValue, Magnitude;
  }

  lemma MagnitudeOfSigned(n: Numeral, m: real, e: int)
    requires m >= 0.0
    ensures AbsReal(n.Signed(Scale(m, e))) == Scale(m, e)
  {
    hide Pow10;
  }

  lemma {:induction false} Pow10Grows(a: int, k: nat)
    ensures k > 0 ==> Pow10(a) < Pow10(a + k)
  {
    hide Pow10;
    if k > 0 {
      Pow10Grows(a, k - 1);
      Pow10Step(a + k - 1);
    }
  }

  lemma Pow10IsInjective(a: int, b: int)
    ensures Pow10(a) == Pow10(b) <==> a == b
  {
    hide Pow10;
    if a < b {
      Pow10Grows(a, b - a);
    } else if b < a {
      Pow10Grows(b, a - b);
    }
  }

  lemma SameProduct(m: real, p: real, q: real)
    ensures m * p == m * q <==> m == 0.0 || p == q
  {
    DifferenceProduct(p, q, m);
  }

  /** Scaling by two powers of ten gives one value exactly for zero or for one exponent. */
  lemma ScaleIsInjective(m: real, a: int, b: int)
    ensures Scale(m, a) == Scale(m, b) <==> m == 0.0 || a == b
  {
    hide Pow10;
    Pow10IsInjective(a, b);
    SameProduct(m, Pow10(a), Pow10(b));
  }

  lemma ZeroScale(m: real, e: int)
    ensures Scale(m, e) == 0.0 <==> m == 0.0
  {
    hide Pow10;
  }

  /**
   Whatever the text, the sign is kept, and the result is below the magnitude denoted at the
   saturated exponent by less than 10^(that exponent - 18) exactly when the integer part fits
   64 bits. An integer part that fits with at most 18 fraction digits is read exactly if and only
   if the exponent fits 32 bits or the number is zero.
   */
  lemma ParseAccuracy(n: Numeral)
    requires n.WellFormed()
    ensures
      var e := Saturated(ExponentOf(n.exponent));
      DigitsValue(n.whole) < TWO64 <==>
      0.0 <= AbsReal(n.DenotedAt(e)) - AbsReal(n.Computed()) < Pow10(e - 18)
    ensures n.Denoted() == n.DenotedAt(ExponentOf(n.exponent))
    ensures DigitsValue(n.whole) < TWO64 && |FractionDigits(n.fraction)| <= MAX_FRACTION_DIGITS ==>
              (n.Denoted() == n.Computed() <==>
               n.Denoted() == 0.0 || -I32_MAX <= ExponentOf(n.exponent) <= I32_MAX)
    ensures n.Computed() == n.Signed(AbsReal(n.Computed()))
  {
    hide Pow10, DigitsValue, Magnitude, ExponentOf, IsExponent, Numeral.Denoted, Numeral.DenotedAt,
         Numeral.Computed, Scale;
    var e, s := ExponentOf(n.exponent), Saturated(ExponentOf(n.exponent));
    var digits := FractionDigits(n.fraction);
    var exact := Magnitude(DigitsValue(n.whole), digits);
    var read := Magnitude(DigitsValue(n.whole) % TWO64, Take(digits, MAX_FRACTION_DIGITS));
    SignedMagnitudes(n, exact, read);
    MantissaError(DigitsValue(n.whole), digits);
    ScaleBound(exact, read, s);
    MagnitudeOfSigned(n, exact, s);
    MagnitudeOfSigned(n, read, s);
    WrapGap(DigitsValue(n.whole));
    assert |digits| <= MAX_FRACTION_DIGITS ==> Take(digits, MAX_FRACTION_DIGITS) == digits;
    ScaleIsInjective(exact, e, s);
    ZeroScale(exact, e);
  }

  lemma NoExponent()
    ensures ExponentOf("") == 0
  {
  }

  lemma ScaleZero(m: real)
    ensures Scale(m, 0) == m
  {
  }

  /** Without an exponent, with at most 18 fraction digits and below 2^64, the value is read as it stands. */
  lemma PlainComputed(n: Numeral)
    requires n.WellFormed() && n.exponent == "" && DigitsValue(n.whole) < TWO64
    requires |FractionDigits(n.fraction)| <= MAX_FRACTION_DIGITS
    ensures n.Computed() == n.Signed(Magnitude(DigitsValue(n.whole), FractionDigits(n.fraction)))
    ensures n.Computed() == n.Denoted()
  {
    hide DigitsValue, Scale, Magnitude;
    var digits := FractionDigits(n.fraction);
    assert Take(digits, MAX_FRACTION_DIGITS) == digits;
    NoExponent();
    ScaleZero(Magnitude(DigitsValue(n.whole), digits));
    WrapGap(DigitsValue(n.whole));
  }
}
