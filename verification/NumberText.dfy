/** The exact value of a number text, and the texts of one shape that a printer writes. */
module NumberText {
  import opened Powers
  import opened DigitGen
  import opened NumberGrammar
  import opened Options

  // --- reading ---

  function LeadingDigits(s: string): (n: nat)
    ensures n <= |s| && AllDigits(s[..n]) && (n < |s| ==> !IsDigit(s[n]))
    decreases |s|
  {
    if s == [] || !IsDigit(s[0]) then 0
    else
      var n := LeadingDigits(s[1..]);
      assert forall i :: 0 < i <= n ==> s[i] == s[1..][i - 1];
      n + 1
  }

  /** The exponent in a text like "e+07". */
  function ReadExponent(s: string): int {
    if |s| < 2 then 0
    else if s[1] == '-' then 0 - NumberOf(s[2..][..LeadingDigits(s[2..])])
    else if s[1] == '+' then NumberOf(s[2..][..LeadingDigits(s[2..])])
    else NumberOf(s[1..][..LeadingDigits(s[1..])])
  }

  /** The value of a number with the given digits before the point and the given text behind it. */
  ghost function FractionValue(whole: string, rest: string): real
    requires AllDigits(whole)
  {
    var m := LeadingDigits(rest);
    FractionIsDigits(whole, rest[..m]);
    Decimal(NumberOf(whole + rest[..m]), ReadExponent(rest[m..]) - m)
  }

  /** The value of an unsigned number: all its digits as an integer, scaled. */
  ghost function UnsignedValue(s: string): real {
    var n := LeadingDigits(s);
    if n < |s| && s[n] == '.' then FractionValue(s[..n], s[n + 1..])
    else Decimal(NumberOf(s[..n]), ReadExponent(s[n..]))
  }

  ghost function NumberValue(s: string): real {
    if s != [] && s[0] == '-' then -UnsignedValue(s[1..]) else UnsignedValue(s)
  }

  lemma FractionIsDigits(a: string, b: string)
    requires AllDigits(a) && AllDigits(b)
    ensures AllDigits(a + b)
  {
  }

  lemma {:induction false} LeadingDigitsOf(a: string, b: string)
    requires AllDigits(a) && (b == [] || !IsDigit(b[0]))
    ensures LeadingDigits(a + b) == |a|
  {
    if a == [] {
      assert a + b == b;
    } else {
      assert (a + b)[1..] == a[1..] + b;
      LeadingDigitsOf(a[1..], b);
    }
  }

  // --- texts ---

  /** A sign and the digits of |e|, at least two of them and a third only if needed. */
  predicate IsExponentOf(s: string, e: int) {
    && 3 <= |s| <= 4
    && s[0] == (if e < 0 then '-' else '+')
    && AllDigits(s[1..]) && NumberOf(s[1..]) == Distance(e, 0)
    && (|s| == 4 ==> s[1] != '0')
  }

  /** An exponent part for e, or nothing for 0. */
  predicate IsTailOf(tail: string, e: int) {
    if tail == [] then e == 0 else tail[0] == 'e' && IsExponentOf(tail[1..], e)
  }

  predicate IsWhole(s: string) {
    s != [] && AllDigits(s) && (s[0] == '0' ==> |s| == 1)
  }

  lemma TailIsExponent(tail: string, e: int)
    requires IsTailOf(tail, e)
    ensures IsOptionalExponent(tail) && ReadExponent(tail) == e
    ensures tail == [] || (!IsDigit(tail[0]) && tail[0] != '.')
  {
    if tail != [] {
      var digits := tail[2..];
      assert tail[1..][1..] == digits;
      assert digits + [] == digits;
      LeadingDigitsOf(digits, []);
      assert digits[..|digits|] == digits;
    }
  }

  /** A number without a fraction. */
  lemma WholeText(whole: string, tail: string, e: int)
    requires IsWhole(whole) && IsTailOf(tail, e)
    ensures IsNumber(whole + tail)
    ensures NumberValue(whole + tail) == Decimal(NumberOf(whole), e)
  {
    hide Decimal, NumberOf;
    var s := whole + tail;
    TailIsExponent(tail, e);
    LeadingDigitsOf(whole, tail);
    assert s[..|whole|] == whole && s[|whole|..] == tail;
    WholeThen(whole, tail);
  }

  lemma WholeThen(whole: string, rest: string)
    requires IsWhole(whole) && IsOptionalFractionAndExponent(rest)
    ensures IsNumber(whole + rest)
  {
    var s := whole + rest;
    if whole[0] == '0' {
      assert s[1..] == rest;
    } else {
      var k := |whole| - 1;
      assert s[1..][..k] == whole[1..] && s[1..][k..] == rest;
      assert IsIntTail(s[1..]);
    }
  }

  /** A number with a fraction. */
  lemma FractionText(whole: string, fraction: string, tail: string, e: int)
    requires IsWhole(whole) && fraction != [] && AllDigits(fraction) && IsTailOf(tail, e)
    ensures AllDigits(whole + fraction)
    ensures IsNumber(whole + "." + fraction + tail)
    ensures NumberValue(whole + "." + fraction + tail) == Decimal(NumberOf(whole + fraction), e - |fraction|)
  {
    hide *;
    var rest := "." + fraction + tail;
    TailIsExponent(tail, e);
    WholeIsDigits(whole);
    FractionIsDigits(whole, fraction);
    FractionThen(fraction, tail);
    assert rest[1..] == fraction + tail;
    PointThen(rest);
    WholeThen(whole, rest);
    assert whole + rest == whole + "." + fraction + tail;
    ReadPoint(whole, rest);
    ReadFraction(whole, fraction, tail);
  }

  lemma WholeIsDigits(whole: string)
    requires IsWhole(whole)
    ensures whole != [] && AllDigits(whole) && IsDigit(whole[0])
  {
  }

  lemma PointThen(rest: string)
    requires rest != [] && rest[0] == '.' && IsFraction(rest[1..])
    ensures IsOptionalFractionAndExponent(rest) && !IsDigit(rest[0])
  {
  }

  lemma Cut(a: string, b: string)
    ensures (a + b)[..|a|] == a && (a + b)[|a|..] == b
    ensures b != [] ==> (a + b)[|a|] == b[0] && (a + b)[|a| + 1..] == b[1..]
  {
  }

  lemma ReadPoint(whole: string, rest: string)
    requires whole != [] && AllDigits(whole) && IsDigit(whole[0]) && rest != [] && rest[0] == '.'
    ensures NumberValue(whole + rest) == FractionValue(whole, rest[1..])
  {
    hide Decimal, NumberOf, FractionValue, ReadExponent, LeadingDigits;
    LeadingDigitsOf(whole, rest);
    Cut(whole, rest);
  }

  lemma ReadFraction(whole: string, fraction: string, tail: string)
    requires AllDigits(whole) && AllDigits(fraction) && AllDigits(whole + fraction) && (tail == [] || !IsDigit(tail[0]))
    ensures FractionValue(whole, fraction + tail) == Decimal(NumberOf(whole + fraction), ReadExponent(tail) - |fraction|)
  {
    hide Decimal, NumberOf, ReadExponent, LeadingDigits;
    LeadingDigitsOf(fraction, tail);
    Cut(fraction, tail);
  }

  lemma FractionThen(fraction: string, tail: string)
    requires fraction != [] && AllDigits(fraction) && IsOptionalExponent(tail)
    ensures IsFraction(fraction + tail)
  {
    var s := fraction + tail;
    var k := |fraction| - 1;
    assert s[1..][..k] == fraction[1..] && s[1..][k..] == tail;
  }

  /** The text is a number with a point or an exponent and denotes the value. */
  ghost predicate IsFloatTextOf(text: string, value: real) {
    IsNumber(text) && ('.' in text || 'e' in text) && NumberValue(text) == value
  }

  lemma FractionFloat(text: string, whole: string, fraction: string, tail: string, e: int)
    requires IsWhole(whole) && fraction != [] && AllDigits(fraction) && IsTailOf(tail, e)
    requires text == whole + "." + fraction + tail
    ensures AllDigits(whole + fraction)
    ensures IsFloatTextOf(text, Decimal(NumberOf(whole + fraction), e - |fraction|))
  {
    hide IsNumber, NumberValue, Decimal, NumberOf, IsTailOf;
    FractionText(whole, fraction, tail, e);
    assert text[|whole|] == '.';
  }

  lemma WholeFloat(text: string, whole: string, tail: string, e: int)
    requires IsWhole(whole) && tail != [] && IsTailOf(tail, e) && text == whole + tail
    ensures IsFloatTextOf(text, Decimal(NumberOf(whole), e))
  {
    hide IsNumber, NumberValue, Decimal, NumberOf;
    WholeText(whole, tail, e);
    assert text[|whole|] == 'e';
  }

  // --- the scanner on such texts ---

  /** A number that contains a point or an exponent ends in a fraction or an exponent. */
  lemma FloatEndState(s: string)
    requires IsNumber(s) && ('.' in s || 'e' in s)
    ensures Run(Init, s) == Some(Decimal2) || Run(Init, s) == Some(Any2)
  {
    AcceptsIffCompletes(Init, s);
    if Run(Init, s) == Some(Zero) || Run(Init, s) == Some(Any1) {
      PlainEndState(Init, s);
    }
  }

  /** States without fraction and exponent are reached only by texts without them. */
  lemma {:induction false} PlainEndState(q: State, s: string)
    requires Run(q, s) == Some(Zero) || Run(q, s) == Some(Any1)
    ensures '.' !in s && 'e' !in s && 'E' !in s
    decreases |s|
  {
    if s != [] {
      PlainEndState(Next(q, s[0]).value, s[1..]);
      assert s == [s[0]] + s[1..];
      NotBack(q, s);
    }
  }

  lemma {:induction false} NotBack(q: State, s: string)
    requires s != [] && (Run(q, s) == Some(Zero) || Run(q, s) == Some(Any1))
    ensures s[0] != '.' && s[0] != 'e' && s[0] != 'E'
  {
    if s[0] == '.' || s[0] == 'e' || s[0] == 'E' {
      NeverPlain(Next(q, s[0]).value, s[1..]);
    }
  }

  lemma {:induction false} NeverPlain(q: State, s: string)
    requires q.Decimal1? || q.Decimal2? || q.Exponent? || q.Sign? || q.Any2?
    ensures Run(q, s) != Some(Zero) && Run(q, s) != Some(Any1)
    decreases |s|
  {
    if s != [] && Next(q, s[0]).Some? {
      NeverPlain(Next(q, s[0]).value, s[1..]);
    }
  }

  /** The scanner takes all of a float text, unless the text goes on with a digit or an exponent. */
  lemma ScannerTakesAll(text: string, rest: string)
    requires IsNumber(text) && ('.' in text || 'e' in text)
    requires rest == [] || !(IsDigit(rest[0]) || rest[0] == 'e' || rest[0] == 'E')
    ensures LongestViable(text, text + rest)
  {
    FloatEndState(text);
    StuckMeansLongest(text, text + rest);
  }

  // --- the value by places ---

  lemma {:induction false} DigitsConcat(a: string, b: string)
    requires AllDigits(a) && AllDigits(b) && AllDigits(a + b)
    ensures NumberOf(a + b) == NumberOf(a) * Pow(10, |b|) + NumberOf(b)
    decreases |b|
  {
    if b == [] {
      assert a + b == a && Pow(10, 0) == 1;
    } else {
      var front := b[..|b| - 1];
      assert (a + b)[..|a + b| - 1] == a + front;
      DigitsConcat(a, front);
      TenfoldSum(NumberOf(a), Pow(10, |front|), NumberOf(front), DigitOf(b[|b| - 1]));
    }
  }

  lemma TenfoldSum(a: nat, p: nat, f: nat, d: nat)
    ensures 10 * (a * p + f) + d == a * (10 * p) + (10 * f + d)
  {
  }

  /** Section 6 of RFC 8259: the whole part and the fraction, whose last digit stands for 10^-m, times 10^e. */
  lemma ValueByPlaces(whole: string, fraction: string, tail: string, e: int)
    requires IsWhole(whole) && fraction != [] && AllDigits(fraction) && IsTailOf(tail, e)
    ensures AllDigits(whole) && NumberValue(whole + "." + fraction + tail) ==
      (NumberOf(whole) as real + NumberOf(fraction) as real * Scale(10, 0 - |fraction|)) * Scale(10, e)
  {
    hide *;
    var m := |fraction|;
    WholeIsDigits(whole);
    FractionText(whole, fraction, tail, e);
    DigitsConcat(whole, fraction);
    DecimalIs(NumberOf(whole + fraction), e - m);
    ScaleSum(10, e, 0 - m);
    assert Scale(10, e + (0 - m)) == Scale(10, e - m);
    ScaleOfNegative(10, m);
    ByPlaces(NumberOf(whole + fraction), NumberOf(whole), NumberOf(fraction), Pow(10, m), Scale(10, 0 - m), Scale(10, e),
             Scale(10, e - m));
  }

  lemma DecimalIs(d: nat, x: int)
    ensures Decimal(d, x) == d as real * Scale(10, x)
  {
  }

  lemma ByPlaces(d: nat, w: nat, f: nat, p: nat, unit: real, s: real, t: real)
    requires d == w * p + f && unit * p as real == 1.0 && t == s * unit
    ensures d as real * t == (w as real + f as real * unit) * s
  {
    ProductAsReal(w, p);
    var x, y, q := w as real, f as real, p as real;
    assert (w * p + f) as real == x * q + y;
    assert (x * q + y) * (s * unit) == ((x * q) * unit + y * unit) * s;
    assert (x * q) * unit == x * (unit * q);
  }

  lemma ExampleDigits()
    ensures IsWhole("12") && IsWhole("0") && IsWhole("1") && AllDigits("5") && AllDigits("05") && AllDigits("02")
    ensures NumberOf("12") == 12 && NumberOf("0") == 0 && NumberOf("1") == 1
    ensures NumberOf("5") == 5 && NumberOf("05") == 5 && NumberOf("02") == 2
  {
    assert "12"[..1] == "1" && "05"[..1] == "0" && "02"[..1] == "0" && NumberOf("") == 0;
    assert NumberOf("1") == 1 && NumberOf("0") == 0;
  }

  lemma ExamplePowers()
    ensures Scale(10, 0) == 1.0 && Scale(10, -1) == 0.1 && Scale(10, -2) == 0.01 && Scale(10, 2) == 100.0
  {
    assert Pow(10, 0) == 1 && Pow(10, 1) == 10 && Pow(10, 2) == 100;
  }

  /** 12.5, 0.05 and 1.5e+02. */
  lemma ValueExamples()
    ensures NumberValue("12.5") == 12.5 && NumberValue("0.05") == 0.05 && NumberValue("1.5e+02") == 150.0
  {
    ExampleDigits();
    ExampleTail();
    ExamplePowers();
    hide *;
    ValueByPlaces("12", "5", "", 0);
    ValueByPlaces("0", "05", "", 0);
    ValueByPlaces("1", "5", "e+02", 2);
    assert "12" + "." + "5" + "" == "12.5" && "0" + "." + "05" + "" == "0.05" && "1" + "." + "5" + "e+02" == "1.5e+02";
  }

  lemma ExampleTail()
    ensures IsTailOf("", 0) && IsTailOf("e+02", 2)
  {
    ExampleDigits();
    assert "e+02"[1..] == "+02" && "+02"[1..] == "02";
  }
}
