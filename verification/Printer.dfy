/** The number printers of the `mean` script (`push_u64`, `push_f64`), and reading back what they print. */
module Printer {
  import opened Basics
  import opened Decimal

  const BUFFER: nat := 20
  const PRINTED_FRACTION: nat := 6

  function Digit(d: nat): (c: Byte)
    requires d < 10
    ensures IsDigit(c) && DigitValue(c) == d
  {
    ('0' as int + d) as char
  }

  /** The decimal notation of n without superfluous zeros. */
  function DecimalText(n: nat): (s: Bytes)
    ensures s != "" && AllDigits(s) && DigitsValue(s) == n
    ensures s[0] == '0' ==> n == 0
  {
    if n < 10 then [Digit(n)] else
      var front := DecimalText(n / 10);
      var s := front + [Digit(n % 10)];
      assert s[..|s| - 1] == front;
      s
  }

  predicate Canonical(s: string) {
    s != "" && AllDigits(s) && (s[0] == '0' ==> |s| == 1)
  }

  lemma DecimalTextStep(v: nat, c: char)
    requires IsDigit(c)
    ensures v > 0 ==> DecimalText(10 * v + DigitValue(c)) == DecimalText(v) + [c]
    ensures DecimalText(DigitValue(c)) == [c]
  {
    assert Digit(DigitValue(c)) == c;
    assert (10 * v + DigitValue(c)) / 10 == v && (10 * v + DigitValue(c)) % 10 == DigitValue(c);
  }

  lemma LastDigit(s: string)
    requires AllDigits(s) && s != ""
    ensures
      var front, c := s[..|s| - 1], s[|s| - 1];
      s == front + [c] && DigitsValue(s) == 10 * DigitsValue(front) + DigitValue(c)
  {
  }

  /** The digits still to print: none for 0. */
  function Pending(m: nat): Bytes {
    if m == 0 then "" else DecimalText(m)
  }

  lemma ZeroText()
    ensures DecimalText(0) == "0" && Pending(0) == ""
  {
  }

  /** Decimal notation is the only canonical digit string with the given value. */
  lemma {:induction false} DecimalTextIsUnique(s: string)
    requires Canonical(s)
    ensures s == DecimalText(DigitsValue(s))
  {
    hide DecimalText, DigitsValue;
    var front, c := s[..|s| - 1], s[|s| - 1];
    LastDigit(s);
    if front == "" {
      NoDigits();
      DecimalTextStep(0, c);
    } else {
      assert front[0] == s[0];
      DecimalTextIsUnique(front);
      ZeroText();
      DecimalTextStep(DigitsValue(front), c);
    }
  }

  lemma PendingStep(m: nat, i: int)
    requires 0 <= i && 0 < m < TenToThe(i)
    ensures Pending(m) == Pending(m / 10) + [Digit(m % 10)]
    ensures 0 < i && m / 10 < TenToThe(i - 1)
  {
  }

  lemma PendingAll(n: nat)
    requires n > 0
    ensures Pending(n) == DecimalText(n)
  {
  }

  /** Print the digits of n backwards into a 20 byte buffer, then append the used part. */
  method PushU64(s: string, n: nat) returns (out: string)
    requires n < TWO64
    ensures out == s + DecimalText(n)
  {
    hide Pending, TenToThe, DecimalText;
    ZeroText();
    if n == 0 {
      return s + "0";
    }
    var buf := new Byte[BUFFER](_ => '0');
    var i: nat, m: nat := BUFFER, n;
    TenPowers();
    while m > 0
      invariant 0 <= i <= BUFFER && m < TenToThe(i)
      invariant Pending(n) == Pending(m) + buf[i..]
    {
      PendingStep(m, i);
      ghost var tail := buf[i..];
      i := i - 1;
      buf[i] := Digit(m % 10);
      assert buf[i..] == [Digit(m % 10)] + tail;
      m := m / 10;
    }
    PendingAll(n);
    out := s + buf[i..];
  }

  // ------------------------------------------------------------- reals

  /** An `f64`: a real, or one of the values that are not finite. */
  datatype Number = NotFinite | Finite(value: real)

  /** `y as u64`: truncation, saturating at the largest 64-bit value. */
  function ToU64(y: real): (n: nat)
    requires y >= 0.0
    ensures n < TWO64 && n as real <= y
  {
    if y >= TWO64 as real then TWO64 - 1 else y.Floor
  }

  lemma ScaleNonNegative(m: real, e: int)
    requires m >= 0.0
    ensures Scale(m, e) >= 0.0
  {
    hide Pow10;
  }

  function FractionDigit(frac: real, k: nat): Byte
    requires frac >= 0.0
  {
    ScaleNonNegative(frac, k);
    Digit(ToU64(Scale(frac, k)) % 10)
  }

  /** The first k printed digits of a fraction. */
  function FractionText(frac: real, k: nat): (s: Bytes)
    requires frac >= 0.0
    ensures |s| == k && AllDigits(s)
  {
    if k == 0 then "" else FractionText(frac, k - 1) + [FractionDigit(frac, k)]
  }

  function PointText(frac: real): Bytes
    requires frac >= 0.0
  {
    if frac == 0.0 then "" else "." + FractionText(frac, PRINTED_FRACTION)
  }

  function FractionOf(m: real): (frac: real)
    requires m >= 0.0
    ensures frac >= 0.0
  {
    m - ToU64(m) as real
  }

  function MagnitudeText(m: real): Bytes
    requires m >= 0.0
  {
    DecimalText(ToU64(m)) + PointText(FractionOf(m))
  }

  function NumberText(x: Number): Bytes {
    match x
    case NotFinite => "null"
    case Finite(v) => if v < 0.0 then "-" + MagnitudeText(-v) else MagnitudeText(v)
  }

  lemma ScaleStep(m: real, e: int)
    ensures Scale(m, e + 1) == 10.0 * Scale(m, e)
  {
    hide Pow10;
    Pow10Step(e);
    assert m * (10.0 * Pow10(e)) == 10.0 * (m * Pow10(e));
  }

  method PushFraction(s: string, fraction: real) returns (out: string)
    requires fraction >= 0.0
    ensures out == s + FractionText(fraction, PRINTED_FRACTION)
  {
    hide Scale;
    out := s;
    var frac := fraction;
    ScaleZero(frac);
    for k := 0 to PRINTED_FRACTION
      invariant frac == Scale(fraction, k)
      invariant out == s + FractionText(fraction, k)
    {
      ScaleStep(fraction, k);
      ScaleNonNegative(fraction, k + 1);
      frac := frac * 10.0;
      var digit := ToU64(frac) % 10;
      out := out + [Digit(digit)];
    }
  }

  method PushMagnitude(s: string, n: real) returns (out: string)
    requires n >= 0.0
    ensures out == s + MagnitudeText(n)
  {
    hide DecimalText, FractionText;
    var whole := ToU64(n);
    out := PushU64(s, whole);
    var frac := n - whole as real;
    if frac == 0.0 {
      assert out == s + (DecimalText(whole) + "");
      return;
    }
    out := PushFraction(out + ".", frac);
    assert out == s + (DecimalText(whole) + ("." + FractionText(frac, PRINTED_FRACTION)));
  }

  method PushF64(s: string, x: Number) returns (out: string)
    ensures out == s + NumberText(x)
  {
    hide MagnitudeText;
    if x.NotFinite? {
      return s + "null";
    }
    if x.value < 0.0 {
      out := PushMagnitude(s + "-", -x.value);
      assert out == s + ("-" + MagnitudeText(-x.value));
    } else {
      out := PushMagnitude(s, x.value);
    }
  }

  // ------------------------------------------------------ reading it back

  lemma FloorStep(y: real)
    requires y >= 0.0
    ensures (10.0 * y).Floor / 10 == y.Floor
  {
    var f := y.Floor;
    assert 10.0 * f as real <= 10.0 * y < 10.0 * f as real + 10.0;
    assert 10 * f <= (10.0 * y).Floor < 10 * f + 10;
  }

  lemma ScaleBelow(frac: real, k: nat)
    requires 0.0 <= frac < 1.0 && k <= PRINTED_FRACTION
    ensures Scale(frac, k) < TWO64 as real
  {
    hide Pow10;
    TableIsPow10(k);
    assert POS[k] <= 1000000.0;
    assert frac * Pow10(k) <= Pow10(k) by {
      assert (1.0 - frac) * Pow10(k) >= 0.0;
    }
  }

  /** The printed digits of a fraction below 1 are those of its truncation. */
  lemma {:induction false} FractionTextValue(frac: real, k: nat)
    requires 0.0 <= frac < 1.0 && k <= PRINTED_FRACTION
    ensures DigitsValue(FractionText(frac, k)) == Scale(frac, k).Floor
  {
    hide Scale;
    if k == 0 {
      ScaleZero(frac);
    } else {
      FractionTextValue(frac, k - 1);
      ScaleStep(frac, k - 1);
      ScaleNonNegative(frac, k - 1);
      FloorStep(Scale(frac, k - 1));
      ScaleBelow(frac, k);
      var s := FractionText(frac, k);
      assert s[..k - 1] == FractionText(frac, k - 1);
    }
  }

  /** A printed number as the reader sees it. */
  function Printed(negative: bool, m: real): Numeral
    requires m >= 0.0
  {
    Numeral(if negative then "-" else "", DecimalText(ToU64(m)), PointText(FractionOf(m)), "")
  }

  lemma PrintedScans(negative: bool, m: real)
    requires m >= 0.0
    ensures
      && Printed(negative, m).WellFormed()
      && Scan((if negative then "-" else "") + MagnitudeText(m)) == Some(Printed(negative, m))
  {
    hide DecimalText, FractionText, DigitsValue, Scan, ToU64, FractionOf;
    var n := Printed(negative, m);
    assert n.Text() == (if negative then "-" else "") + MagnitudeText(m);
    ScanComplete(n);
  }

  /** The value of the printed digits of a fraction. */
  function PrintedFraction(frac: real): real
    requires frac >= 0.0
  {
    if frac == 0.0 then 0.0 else FractionValue(FractionText(frac, PRINTED_FRACTION))
  }

  lemma PrintedFractionBound(frac: real)
    requires frac >= 0.0
    ensures 0.0 <= PrintedFraction(frac) <= 0.999999
    ensures frac < 1.0 ==> 0.0 <= frac - PrintedFraction(frac) < 0.000001
  {
    hide Pow10, FractionText;
    TableIsPow10(6);
    DigitsBound(FractionText(frac, PRINTED_FRACTION));
    TenPowers();
    if frac < 1.0 {
      FractionTextValue(frac, PRINTED_FRACTION);
    }
  }

  lemma PointDigits(frac: real)
    requires frac >= 0.0
    ensures IsFraction(PointText(frac)) && |FractionDigits(PointText(frac))| <= MAX_FRACTION_DIGITS
    ensures FractionValue(FractionDigits(PointText(frac))) == PrintedFraction(frac)
  {
    hide FractionText, Scale;
    ScaleZero(0.0);
    NoDigits();
  }

  /** The reader adds the printed fraction to the printed integer part. */
  lemma PrintedComputed(negative: bool, m: real)
    requires m >= 0.0
    ensures
      var n := Printed(negative, m);
      n.WellFormed() && n.Computed() == n.Signed(ToU64(m) as real + PrintedFraction(FractionOf(m)))
  {
    hide FractionValue, Numeral.Computed, Numeral.Denoted, DecimalText, PointText,
         PrintedFraction, DigitsValue, Numeral.WellFormed, Numeral.Signed, Scan,
         MagnitudeText, FractionDigits, ToU64, FractionOf;
    PrintedScans(negative, m);
    PointDigits(FractionOf(m));
    var n := Printed(negative, m);
    assert n.whole == DecimalText(ToU64(m)) && n.fraction == PointText(FractionOf(m)) && n.exponent == "";
    PlainComputed(n);
  }

  /**
   Reading back a printed number keeps its sign, and falls short of its magnitude by less
   than 10^-6 exactly when the magnitude is below 2^64.
   */
  lemma PrintThenParse(v: real)
    ensures Parsed(NumberText(Finite(v))).Some?
    ensures
      var r := Parsed(NumberText(Finite(v))).value;
      && (AbsReal(v) < TWO64 as real <==> 0.0 <= AbsReal(v) - AbsReal(r) < 0.000001)
      && r == if v < 0.0 then -AbsReal(r) else AbsReal(r)
  {
    hide PrintedFraction, MagnitudeText, Numeral.Computed, Numeral.WellFormed, DecimalText, PointText, Scan;
    var m := AbsReal(v);
    assert NumberText(Finite(v)) == (if v < 0.0 then "-" else "") + MagnitudeText(m);
    PrintedScans(v < 0.0, m);
    PrintedComputed(v < 0.0, m);
    PrintedFractionBound(FractionOf(m));
  }

  /** What is printed for a value that is not finite is not a number to the reader. */
  lemma NotFiniteIsNoNumber()
    ensures NumberText(NotFinite) == "null" && Parsed(NumberText(NotFinite)) == None
  {
    var text := "null";
    assert SignEnd(text) == 0 && text[0..] == text && DigitRun(text) == 0;
    assert WholeEnd(text) == 0 && FractionEnd(text) == 0;
    assert Cut(text).whole == "" && Cut(text).fraction == "";
  }
}
