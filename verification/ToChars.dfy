/** Formatting of the shortest digits in place, and the printed text read back. */
module ToCharsPrinting {
  import opened Powers
  import opened DiyFps
  import opened Boundaries
  import opened DigitGen
  import opened Grisu2Printing
  import opened NumberGrammar
  import opened NumberText
  import opened Lexers

  function Zeros(n: nat): (s: string)
    ensures |s| == n && AllDigits(s)
  {
    seq(n, _ => '0')
  }

  // --- what the layouts mean ---

  lemma {:induction false} TrailingZeros(s: string, n: nat)
    requires AllDigits(s)
    ensures NumberOf(s + Zeros(n)) == NumberOf(s) * Pow(10, n)
  {
    if n == 0 {
      assert s + Zeros(0) == s;
    } else {
      TrailingZeros(s, n - 1);
      assert s + Zeros(n) == (s + Zeros(n - 1)) + [DigitChar(0)];
      NumberOfAppend(s + Zeros(n - 1), 0);
      hide NumberOf;
      OneMoreZero(NumberOf(s), n - 1);
    }
  }

  lemma OneMoreZero(x: nat, n: nat)
    ensures x * Pow(10, n + 1) == 10 * (x * Pow(10, n))
  {
    var p := Pow(10, n);
    assert Pow(10, n + 1) == 10 * p;
    assert x * (10 * p) == 10 * (x * p);
  }

  lemma {:induction false} LeadingZeros(n: nat, s: string)
    requires AllDigits(s)
    ensures NumberOf(Zeros(n) + s) == NumberOf(s)
  {
    if s == [] {
      TrailingZeros([], n);
      assert Zeros(n) + s == [] + Zeros(n);
    } else {
      LeadingZeros(n, s[..|s| - 1]);
      assert (Zeros(n) + s)[..n + |s| - 1] == Zeros(n) + s[..|s| - 1];
    }
  }

  /** The four layouts of digits * 10^x, by the position n of the decimal point. */
  ghost predicate Formatted(text: string, digits: string, x: int, minExp: int, maxExp: int)
    requires digits != []
  {
    var k, n := |digits|, |digits| + x;
    if k <= n <= maxExp then text == digits + Zeros(n - k) + ".0"
    else if 0 < n <= maxExp then text == digits[..n] + "." + digits[n..]
    else if minExp < n <= 0 then text == "0." + Zeros(-n) + digits
    else HasScientific(text, digits, n - 1)
  }

  ghost predicate HasScientific(text: string, digits: string, e: int)
    requires digits != []
  {
    exists tail :: IsScientific(text, digits, tail, e)
  }

  /** One digit before the point, and an exponent. */
  predicate IsScientific(text: string, digits: string, tail: string, e: int)
    requires digits != []
  {
    && tail != [] && IsTailOf(tail, e)
    && text == (if |digits| == 1 then digits else digits[..1] + "." + digits[1..]) + tail
  }

  lemma FixedWithZeros(text: string, digits: string, m: nat)
    requires AllDigits(digits) && digits != [] && digits[0] != '0' && text == digits + Zeros(m) + ".0"
    ensures IsFloatTextOf(text, Decimal(NumberOf(digits), m))
  {
    var whole := digits + Zeros(m);
    hide NumberOf, IsFloatTextOf, Decimal;
    FractionFloat(text, whole, "0", "", 0);
    TrailingZeros(digits, m);
    NumberOfAppend(whole, 0);
    ShiftByTen(NumberOf(digits), m, NumberOf(whole), NumberOf(whole + "0"));
  }

  lemma ShiftByTen(d: nat, m: nat, shifted: nat, withZero: nat)
    requires shifted == d * Pow(10, m) && withZero == 10 * shifted
    ensures Decimal(withZero, -1) == Decimal(d, m)
  {
    assert Pow(10, 1) == 10;
    DecimalShift(shifted, 1, -1);
    DecimalShift(d, m, 0);
  }

  lemma FixedWithPoint(text: string, digits: string, n: nat)
    requires AllDigits(digits) && 0 < n < |digits| && digits[0] != '0' && text == digits[..n] + "." + digits[n..]
    ensures IsFloatTextOf(text, Decimal(NumberOf(digits), n - |digits|))
  {
    hide NumberOf, IsFloatTextOf, Decimal;
    assert digits[..n] + digits[n..] == digits;
    FractionFloat(text, digits[..n], digits[n..], "", 0);
  }

  lemma OneZero()
    ensures Zeros(1) == "0"
  {
  }

  lemma Regroup(a: string, b: string)
    ensures "0." + a + b == "0" + "." + (a + b) + ""
  {
  }

  lemma FixedBelowOne(text: string, digits: string, z: nat)
    requires AllDigits(digits) && digits != [] && text == "0." + Zeros(z) + digits
    ensures IsFloatTextOf(text, Decimal(NumberOf(digits), 0 - z - |digits|))
  {
    hide NumberOf, IsFloatTextOf, Decimal, Zeros;
    var fraction := Zeros(z) + digits;
    LeadingZeros(z, digits);
    LeadingZeros(1, fraction);
    OneZero();
    Regroup(Zeros(z), digits);
    FractionFloat(text, "0", fraction, "", 0);
  }

  lemma Scientific(text: string, digits: string, tail: string, e: int)
    requires AllDigits(digits) && digits != [] && digits[0] != '0' && IsScientific(text, digits, tail, e)
    ensures IsFloatTextOf(text, Decimal(NumberOf(digits), e + 1 - |digits|))
  {
    hide NumberOf, IsFloatTextOf, Decimal, IsTailOf, IsScientific, AllDigits, IsWhole;
    ScientificParts(text, digits, tail, e);
    LeadAndRest(digits);
    if |digits| == 1 {
      WholeFloat(text, digits, tail, e);
    } else {
      var whole, fraction := digits[..1], digits[1..];
      assert whole + fraction == digits;
      FractionFloat(text, whole, fraction, tail, e);
    }
  }

  lemma ScientificParts(text: string, digits: string, tail: string, e: int)
    requires digits != [] && IsScientific(text, digits, tail, e)
    ensures tail != [] && IsTailOf(tail, e)
    ensures |digits| == 1 ==> text == digits + tail
    ensures 1 < |digits| ==> text == digits[..1] + "." + digits[1..] + tail
  {
    hide IsTailOf;
  }

  lemma LeadAndRest(digits: string)
    requires digits != [] && AllDigits(digits)
    ensures |digits| == 1 ==> IsWhole(digits)
    ensures IsWhole(digits[..1]) && AllDigits(digits[1..])
  {
  }

  /** Every layout denotes the number it was made from. */
  lemma FormattedDenotes(text: string, digits: string, x: int, minExp: int, maxExp: int)
    requires AllDigits(digits) && digits != [] && digits[0] != '0' && minExp < 0 < maxExp
    requires Formatted(text, digits, x, minExp, maxExp)
    ensures IsFloatTextOf(text, Decimal(NumberOf(digits), x))
  {
    hide IsFloatTextOf, NumberOf, Decimal, IsScientific;
    var k, n := |digits|, |digits| + x;
    if k <= n <= maxExp {
      FixedWithZeros(text, digits, n - k);
    } else if 0 < n <= maxExp {
      FixedWithPoint(text, digits, n);
    } else if minExp < n <= 0 {
      FixedBelowOne(text, digits, -n);
    } else {
      var tail :| IsScientific(text, digits, tail, n - 1);
      Scientific(text, digits, tail, n - 1);
    }
  }

  // --- which layout is chosen ---

  /** Digits without leading zero denote a number of as many places. */
  lemma {:induction false} Magnitude(s: string)
    requires s != [] && AllDigits(s) && s[0] != '0'
    ensures Pow(10, |s| - 1) <= NumberOf(s) < Pow(10, |s|)
    decreases |s|
  {
    var front, last := s[..|s| - 1], s[|s| - 1];
    assert NumberOf(s) == 10 * NumberOf(front) + DigitOf(last);
    assert Pow(10, |s|) == 10 * Pow(10, |s| - 1);
    if front == [] {
      assert NumberOf(front) == 0 && Pow(10, 0) == 1;
    } else {
      Magnitude(front);
      assert Pow(10, |s| - 1) == 10 * Pow(10, |s| - 2);
    }
  }

  /** The position n of the decimal point gives the magnitude of digits * 10^x. */
  lemma PointIsMagnitude(digits: string, x: int)
    requires digits != [] && AllDigits(digits) && digits[0] != '0'
    ensures var n := |digits| + x; Scale(10, n - 1) <= Decimal(NumberOf(digits), x) < Scale(10, n)
  {
    hide NumberOf, Scale, Pow;
    var k := |digits|;
    Magnitude(digits);
    ScaleSum(10, k - 1, x);
    ScaleSum(10, k, x);
    ScaleOfNat(10, k - 1);
    ScaleOfNat(10, k);
    assert k - 1 + x == k + x - 1;
    Between(Pow(10, k - 1), NumberOf(digits), Pow(10, k), Scale(10, x), Scale(10, k + x - 1), Scale(10, k + x));
  }

  lemma Between(a: nat, d: nat, b: nat, s: real, low: real, high: real)
    requires a <= d < b && 0.0 < s && low == a as real * s && high == b as real * s
    ensures low <= d as real * s < high
  {
    RealMonotone(a as real, d as real, s);
    RealMonotone(d as real, b as real, s);
  }

  /** The decimal point is beyond the bounds exactly if the number is. */
  lemma PointIsBeyondIff(digits: string, x: int, minExp: int, maxExp: int)
    requires digits != [] && AllDigits(digits) && digits[0] != '0'
    ensures var n, value := |digits| + x, Decimal(NumberOf(digits), x);
            && (maxExp < n <==> Scale(10, maxExp) <= value)
            && (n <= minExp <==> value < Scale(10, minExp))
  {
    hide NumberOf, Scale, Decimal;
    var n := |digits| + x;
    PointIsMagnitude(digits, x);
    if maxExp < n {
      ScaleIsMonotone(10, maxExp, n - 1);
    } else {
      ScaleIsMonotone(10, n, maxExp);
    }
    if n <= minExp {
      ScaleIsMonotone(10, n, minExp);
    } else {
      ScaleIsMonotone(10, minExp, n - 1);
    }
  }

  /** A whole number, a point and a fraction: "0", or digits that do not end with a 0. */
  ghost predicate IsFixed(text: string) {
    exists point :: 0 < point && IsFixedAt(text, point)
  }

  predicate IsFixedAt(text: string, point: nat) {
    && point < |text| - 1 && text[point] == '.' && IsWhole(text[..point]) && AllDigits(text[point + 1..])
    && (text[point + 1..] == "0" || text[|text| - 1] != '0')
  }

  /** One digit, perhaps a point and digits that do not end with a 0, and an exponent. */
  ghost predicate IsScaled(text: string) {
    exists at, e :: 0 < at && IsScaledAt(text, at, e)
  }

  predicate IsScaledAt(text: string, at: nat, e: int) {
    && at < |text| && IsDigit(text[0]) && text[0] != '0'
    && (at == 1 || (2 < at && text[1] == '.' && AllDigits(text[2..at]) && text[at - 1] != '0'))
    && text[at] == 'e' && IsExponentOf(text[at + 1..], e)
  }

  lemma FixedHasNoExponent(text: string)
    requires IsFixed(text)
    ensures 'e' !in text
  {
    var point: nat :| 0 < point && IsFixedAt(text, point);
    assert text == text[..point] + [text[point]] + text[point + 1..];
  }

  lemma ScaledHasExponent(text: string)
    requires IsScaled(text)
    ensures 'e' in text
  {
    var at: nat, e :| 0 < at && IsScaledAt(text, at, e);
    assert text[at] in text;
  }

  /** The layout is chosen by the number, and writes no superfluous zero. */
  lemma LayoutIsChosenByValue(text: string, digits: string, x: int, minExp: int, maxExp: int)
    requires AllDigits(digits) && digits != [] && digits[0] != '0' && digits[|digits| - 1] != '0' && minExp < 0 < maxExp
    requires Formatted(text, digits, x, minExp, maxExp)
    ensures var value := Decimal(NumberOf(digits), x);
            if Scale(10, minExp) <= value < Scale(10, maxExp) then IsFixed(text) else IsScaled(text)
  {
    hide NumberOf, Decimal, Scale, IsScientific, IsFixed, IsScaled;
    PointIsBeyondIff(digits, x, minExp, maxExp);
    var k, n := |digits|, |digits| + x;
    if k <= n <= maxExp {
      WholeIsFixed(text, digits, n - k);
    } else if 0 < n <= maxExp {
      PointIsFixed(text, digits, n);
    } else if minExp < n <= 0 {
      BelowOneIsFixed(text, digits, -n);
    } else {
      var tail :| IsScientific(text, digits, tail, n - 1);
      ScientificIsScaled(text, digits, tail, n - 1);
    }
  }

  lemma WholeIsFixed(text: string, digits: string, m: nat)
    requires AllDigits(digits) && digits != [] && digits[0] != '0' && text == digits + Zeros(m) + ".0"
    ensures IsFixed(text)
  {
    var point := |digits| + m;
    assert text[..point] == digits + Zeros(m) && text[point + 1..] == "0";
    assert IsFixedAt(text, point);
  }

  lemma PointIsFixed(text: string, digits: string, n: nat)
    requires AllDigits(digits) && 0 < n < |digits| && digits[0] != '0' && digits[|digits| - 1] != '0'
    requires text == digits[..n] + "." + digits[n..]
    ensures IsFixed(text)
  {
    assert text[..n] == digits[..n] && text[n + 1..] == digits[n..];
    assert IsFixedAt(text, n);
  }

  lemma BelowOneIsFixed(text: string, digits: string, z: nat)
    requires AllDigits(digits) && digits != [] && digits[|digits| - 1] != '0' && text == "0." + Zeros(z) + digits
    ensures IsFixed(text)
  {
    assert text[..1] == "0" && text[2..] == Zeros(z) + digits;
    assert IsFixedAt(text, 1);
  }

  lemma ScientificIsScaled(text: string, digits: string, tail: string, e: int)
    requires AllDigits(digits) && digits != [] && digits[0] != '0' && digits[|digits| - 1] != '0'
    requires IsScientific(text, digits, tail, e)
    ensures IsScaled(text)
  {
    hide IsExponentOf;
    var at := |text| - |tail|;
    assert text[at..] == tail && text[at + 1..] == tail[1..];
    if |digits| != 1 {
      assert text[2..at] == digits[1..];
    }
    assert IsScaledAt(text, at, e);
  }

  // --- writing the layouts in place ---

  /** memset */
  method Fill(buf: array<char>, at: nat, n: nat)
    requires at + n <= buf.Length
    modifies buf
    ensures buf[..] == old(buf[..at]) + Zeros(n) + old(buf[at + n..])
  {
    forall i | at <= i < at + n {
      buf[i] := '0';
    }
  }

  /** memmove */
  method Move(buf: array<char>, to: nat, from: nat, n: nat)
    requires from + n <= buf.Length && to + n <= buf.Length
    modifies buf
    ensures buf[..] == old(buf[..to]) + old(buf[from..from + n]) + old(buf[to + n..])
  {
    forall i | 0 <= i < n {
      buf[to + i] := buf[from + i];
    }
  }

  lemma ExponentDigits(s: string, k: nat)
    requires AllDigits(s) && 2 <= |s| <= 3
    requires |s| == 2 ==> k == DigitOf(s[0]) * 10 + DigitOf(s[1])
    requires |s| == 3 ==> k == DigitOf(s[0]) * 100 + DigitOf(s[1]) * 10 + DigitOf(s[2])
    ensures NumberOf(s) == k
  {
    assert NumberOf(s[..1]) == DigitOf(s[0]);
    assert s[..2][..1] == s[..1];
    assert NumberOf(s[..2]) == 10 * NumberOf(s[..1]) + DigitOf(s[1]);
    if |s| == 2 {
      assert s[..2] == s;
    }
  }

  /** Two or three digits. */
  method AppendDigits(buf: array<char>, at: nat, e: nat) returns (end: nat)
    requires e < 1000 && at + 3 <= buf.Length
    modifies buf
    ensures at + 2 <= end <= at + 3
    ensures AllDigits(buf[at..end]) && NumberOf(buf[at..end]) == e && (end == at + 3 ==> buf[at] != '0')
    ensures buf[..at] == old(buf[..at])
  {
    hide NumberOf;
    end := at;
    var k := e;
    if k < 10 {
      buf[end] := '0';
      buf[end + 1] := DigitChar(k);
      end := end + 2;
    } else if k < 100 {
      buf[end] := DigitChar(k / 10);
      k := k % 10;
      buf[end + 1] := DigitChar(k);
      end := end + 2;
    } else {
      buf[end] := DigitChar(k / 100);
      k := k % 100;
      buf[end + 1] := DigitChar(k / 10);
      k := k % 10;
      buf[end + 2] := DigitChar(k);
      end := end + 3;
    }
    ExponentDigits(buf[at..end], e);
  }

  method AppendExponent(buf: array<char>, at: nat, e: int) returns (end: nat)
    requires -1000 < e < 1000 && at + 4 <= buf.Length
    modifies buf
    ensures at + 3 <= end <= at + 4
    ensures IsExponentOf(buf[at..end], e)
    ensures buf[..at] == old(buf[..at])
  {
    hide NumberOf;
    if e < 0 {
      buf[at] := '-';
    } else {
      buf[at] := '+';
    }
    ghost var upTo := buf[..at + 1];
    end := AppendDigits(buf, at + 1, Distance(e, 0));
    assert buf[..at] == upTo[..at] && buf[at] == upTo[at];
    assert buf[at..end][1..] == buf[at + 1..end];
  }

  method FormatWhole(buf: array<char>, k: nat, n: nat) returns (end: nat)
    requires k <= n && n + 2 <= buf.Length
    modifies buf
    ensures end == n + 2 && buf[..end] == old(buf[..k]) + Zeros(n - k) + ".0"
  {
    Fill(buf, k, n - k);
    buf[n] := '.';
    buf[n + 1] := '0';
    end := n + 2;
  }

  method FormatPoint(buf: array<char>, k: nat, n: nat) returns (end: nat)
    requires 0 < n < k && k + 1 <= buf.Length
    modifies buf
    ensures end == k + 1 && buf[..end] == old(buf[..n]) + "." + old(buf[n..k])
  {
    Move(buf, n + 1, n, k - n);
    buf[n] := '.';
    end := k + 1;
  }

  lemma Laid(after: string, moved: string, z: nat, k: nat)
    requires 2 + z + k <= |moved| && after == moved[..2] + Zeros(z) + moved[2 + z..]
    ensures |after| == |moved| && after[..2 + z + k] == moved[..2] + Zeros(z) + moved[2 + z..2 + z + k]
  {
    hide Zeros;
  }

  method FormatBelowOne(buf: array<char>, k: nat, z: nat) returns (end: nat)
    requires 2 + z + k <= buf.Length
    modifies buf
    ensures end == 2 + z + k && buf[..end] == "0." + Zeros(z) + old(buf[..k])
  {
    hide Zeros;
    ghost var digits := buf[..k];
    Move(buf, 2 + z, 0, k);
    assert buf[2 + z..2 + z + k] == digits;
    buf[0] := '0';
    buf[1] := '.';
    ghost var moved := buf[..];
    assert moved[..2] == "0." && moved[2 + z..2 + z + k] == digits;
    Fill(buf, 2, z);
    end := 2 + z + k;
    Laid(buf[..], moved, z, k);
  }

  method FormatScientific(buf: array<char>, k: nat, e: int) returns (end: nat)
    requires 0 < k && k + 6 <= buf.Length && -1000 < e < 1000
    modifies buf
    ensures 0 < end <= k + 6 && end <= buf.Length
    ensures HasScientific(buf[..end], old(buf[..k]), e)
  {
    hide IsTailOf, IsExponentOf, HasScientific;
    ghost var digits := buf[..k];
    var at := 1;
    if k != 1 {
      Move(buf, 2, 1, k - 1);
      buf[1] := '.';
      at := k + 1;
    }
    ghost var front := buf[..at];
    assert front == if k == 1 then digits else digits[..1] + "." + digits[1..];
    buf[at] := 'e';
    ghost var upTo := buf[..at + 1];
    assert upTo[..at] == front;
    end := AppendExponent(buf, at + 1, e);
    assert buf[..end][..at] == buf[..at + 1][..at] && buf[..end][at] == buf[..at + 1][at];
    assert buf[..end][at + 1..] == buf[at + 1..end];
    ScientificLayout(buf[..end], digits, front, at, e);
  }

  /** Lays the first len characters of buf out as digits * 10^decimalExponent. */
  method FormatBuffer(buf: array<char>, len: nat, decimalExponent: int, minExp: int, maxExp: int) returns (end: nat)
    requires minExp < 0 < maxExp && 0 < len && -999 < len + decimalExponent <= 1000
    requires maxExp + 2 <= buf.Length && len + 6 <= buf.Length && 1 - minExp + len <= buf.Length
    modifies buf
    ensures 0 < end <= buf.Length && (end <= len + 6 || end <= maxExp + 2 || end <= 1 - minExp + len)
    ensures Formatted(buf[..end], old(buf[..len]), decimalExponent, minExp, maxExp)
  {
    hide HasScientific, Zeros;
    var k := len;
    var n := len + decimalExponent;
    ghost var digits := buf[..k];
    if k <= n <= maxExp {
      end := FormatWhole(buf, k, n);
    } else if 0 < n <= maxExp {
      assert digits[..n] == buf[..n] && digits[n..] == buf[n..k];
      end := FormatPoint(buf, k, n);
    } else if minExp < n <= 0 {
      end := FormatBelowOne(buf, k, -n);
    } else {
      end := FormatScientific(buf, k, n - 1);
    }
  }

  lemma ScientificLayout(text: string, digits: string, front: string, at: nat, e: int)
    requires digits != [] && at + 1 < |text| && text[..at] == front && text[at] == 'e'
    requires front == if |digits| == 1 then digits else digits[..1] + "." + digits[1..]
    requires IsExponentOf(text[at + 1..], e)
    ensures HasScientific(text, digits, e)
  {
    hide IsExponentOf;
    var tail := text[at..];
    assert tail[1..] == text[at + 1..] && text == front + tail;
    assert IsScientific(text, digits, tail, e);
  }

  // --- to_chars ---

  const MIN_EXP: int := -4
  const MAX_EXP: int := 15

  /** No other double, and not infinity, is as near to v. */
  ghost predicate ReadsBackAs(v: real, bits: nat) {
    forall other: nat :: other <= INFINITY && other != bits ==> Gap(v, DoubleValue(bits)) < Gap(v, DoubleValue(other))
  }

  lemma StartsWithDigit(text: string, digits: string, x: int, minExp: int, maxExp: int)
    requires AllDigits(digits) && digits != [] && minExp < 0 < maxExp && Formatted(text, digits, x, minExp, maxExp)
    ensures text != [] && IsDigit(text[0])
  {
    hide IsTailOf;
    if HasScientific(text, digits, |digits| + x - 1) {
      var tail :| IsScientific(text, digits, tail, |digits| + x - 1);
    }
  }

  /** A minus sign in front negates the value. */
  lemma Signed(text: string, value: real, negative: bool)
    requires text != [] && text[0] != '-' && IsFloatTextOf(text, value)
    ensures IsFloatTextOf((if negative then "-" else "") + text, if negative then -value else value)
  {
    hide IsUnsignedNumber, UnsignedValue;
    if negative {
      var s := "-" + text;
      assert s[1..] == text;
      assert '.' in s || 'e' in s;
    } else {
      assert "" + text == text;
    }
  }

  lemma ZeroDigits()
    ensures AllDigits("0" + "0") && NumberOf("0" + "0") == 0
  {
    NumberOfAppend("", 0);
    NumberOfAppend("0", 0);
    assert "" + [DigitChar(0)] == "0" && "0" + [DigitChar(0)] == "0" + "0";
  }

  lemma ZeroText()
    ensures IsFloatTextOf("0.0", 0.0)
  {
    hide IsFloatTextOf, NumberOf;
    ZeroDigits();
    assert "0.0" == "0" + "." + "0" + "";
    FractionFloat("0.0", "0", "0", "", 0);
  }

  lemma ZeroDouble()
    ensures DoubleValue(0) == 0.0
  {
  }

  lemma ZeroReadsBack()
    ensures IsFloatTextOf("0.0", 0.0) && ReadsBackAs(0.0, 0)
  {
    ZeroText();
    hide IsFloatTextOf, DoubleValue;
    assert DoubleValue(0) == 0.0 by {
      ZeroDouble();
    }
    forall other: nat | 0 < other <= INFINITY
      ensures Gap(0.0, DoubleValue(0)) < Gap(0.0, DoubleValue(other))
    {
      DoubleValueIncreases(0, other);
    }
  }

  lemma DecimalIsNotNegative(d: nat, x: int)
    ensures 0.0 <= Decimal(d, x)
  {
  }

  lemma Bounds()
    ensures Scale(10, -4) == 0.0001 && Scale(10, 15) == 1000000000000000.0
  {
    assert Pow(10, 4) == 10000;
    PowAdd(10, 8, 7);
    assert Pow(10, 8) == 1_0000_0000 && Pow(10, 7) == 1000_0000;
  }

  /** What stands behind the sign. */
  function Unsigned(text: string): string {
    if text != [] && text[0] == '-' then text[1..] else text
  }

  /** Fixed notation from 10^-4 up to below 10^15, and for zero. */
  ghost predicate IsLaidOut(text: string, value: real) {
    if value == 0.0 || 0.0001 <= value < 1000000000000000.0 then IsFixed(text) else IsScaled(text)
  }

  lemma ZeroIsLaidOut()
    ensures IsLaidOut("0.0", 0.0)
  {
    var text := "0.0";
    assert text[..1] == "0" && text[2..] == "0" && text[1] == '.';
    assert IsFixedAt(text, 1);
  }

  lemma ExponentIffBeyond(text: string, value: real)
    requires IsLaidOut(text, value)
    ensures 'e' in text <==> value != 0.0 && (value < 0.0001 || 1000000000000000.0 <= value)
  {
    hide IsFixed, IsScaled;
    if value == 0.0 || 0.0001 <= value < 1000000000000000.0 {
      FixedHasNoExponent(text);
    } else {
      ScaledHasExponent(text);
    }
  }

  /** The layout at the bounds of to_chars. */
  lemma LayoutOf(text: string, digits: string, x: int)
    requires AllDigits(digits) && digits != [] && digits[0] != '0' && digits[|digits| - 1] != '0'
    requires Formatted(text, digits, x, -4, 15)
    ensures var value := Decimal(NumberOf(digits), x);
            0.0 < value && IsLaidOut(text, value) && ('e' in text <==> value < 0.0001 || 1000000000000000.0 <= value)
  {
    hide Formatted, IsFixed, IsScaled, Decimal, NumberOf, Scale;
    LayoutIsChosenByValue(text, digits, x, -4, 15);
    Bounds();
    PointIsMagnitude(digits, x);
    ExponentIffBeyond(text, Decimal(NumberOf(digits), x));
  }

  lemma BehindSign(text: string, negative: bool)
    requires text != [] && text[0] != '-'
    ensures Unsigned((if negative then "-" else "") + text) == text
    ensures 'e' in (if negative then "-" else "") + text <==> 'e' in text
  {
    if negative {
      assert ("-" + text)[1..] == text;
    } else {
      assert "" + text == text;
    }
  }

  /** The text of a finite double given by its sign and the bits of its magnitude. */
  method ToChars(negative: bool, bits: uint64) returns (text: string, ghost value: real)
    requires bits < INFINITY
    ensures 0 < |text| <= 24 && (text[0] == '-' <==> negative)
    ensures IsFloatTextOf(text, if negative then -value else value)
    ensures 0.0 <= value && ReadsBackAs(value, bits)
    ensures IsLaidOut(Unsigned(text), value)
    ensures 'e' in text <==> bits != 0 && (value < 0.0001 || 1000000000000000.0 <= value)
  {
    hide IsFloatTextOf, Formatted, NumberOf, Decimal, Gap, DoubleValue, IsLaidOut;
    var sign := if negative then "-" else "";
    if bits == 0 {
      ZeroReadsBack();
      ZeroIsLaidOut();
      ExponentIffBeyond("0.0", 0.0);
      BehindSign("0.0", negative);
      Signed("0.0", 0.0, negative);
      return sign + "0.0", 0.0;
    }
    var buf := new char[64];
    var len, decimalExponent := Grisu2(buf, bits);
    ghost var digits := buf[..len];
    value := Decimal(NumberOf(digits), decimalExponent);
    DecimalIsNotNegative(NumberOf(digits), decimalExponent);
    var end := FormatBuffer(buf, len, decimalExponent, MIN_EXP, MAX_EXP);
    FormattedDenotes(buf[..end], digits, decimalExponent, MIN_EXP, MAX_EXP);
    StartsWithDigit(buf[..end], digits, decimalExponent, MIN_EXP, MAX_EXP);
    LayoutOf(buf[..end], digits, decimalExponent);
    BehindSign(buf[..end], negative);
    Signed(buf[..end], value, negative);
    text := sign + buf[..end];
  }

  /** The scanner takes the whole text as a float, wherever it stands before a byte that cannot continue it. */
  lemma PrintedTextIsScanned(text: string, value: real, rest: string)
    requires IsFloatTextOf(text, value)
    requires rest == [] || !(IsDigit(rest[0]) || rest[0] == 'e' || rest[0] == 'E')
    ensures LongestNumber(text, text + rest) && LongestViable(text, text + rest)
    ensures Classified(text) == ValueFloat
  {
    ScannerTakesAll(text, rest);
    LongestViableNumber(text, text + rest);
    var i :| 0 <= i < |text| && (text[i] == '.' || text[i] == 'e');
    assert !AllDigits(text);
    if text[0] == '-' {
      assert text[1..][i - 1] == text[i];
    }
  }
}
