/** Grisu2's digit generation: the shortest decimal in [M-, M+], rounded towards w. */
module DigitGen {
  import opened Powers
  import opened DiyFps

  // --- decimal digit strings ---

  predicate IsDigit(c: char) {
    '0' <= c <= '9'
  }

  function DigitOf(c: char): nat
    requires IsDigit(c)
  {
    c as int - '0' as int
  }

  function DigitChar(d: nat): (c: char)
    requires d <= 9
    ensures IsDigit(c) && DigitOf(c) == d
  {
    ('0' as int + d) as char
  }

  predicate AllDigits(s: string) {
    forall i :: 0 <= i < |s| ==> IsDigit(s[i])
  }

  /** The number a string of decimal digits denotes. */
  function NumberOf(s: string): nat
    requires AllDigits(s)
  {
    if s == [] then 0 else 10 * NumberOf(s[..|s| - 1]) + DigitOf(s[|s| - 1])
  }

  lemma NumberOfAppend(s: string, d: nat)
    requires AllDigits(s) && d <= 9
    ensures AllDigits(s + [DigitChar(d)])
    ensures NumberOf(s + [DigitChar(d)]) == 10 * NumberOf(s) + d
  {
    assert (s + [DigitChar(d)])[..|s|] == s;
  }

  // --- the specification ---

  /** The weight of a last digit that stands for 10^x, in units and scaled by Den(x). */
  ghost function Weight(x: int, unit: nat): nat
  {
    Pow(10, if 0 < x then x else 0) * unit
  }

  /** A negative x is moved to the other side of every comparison as this factor. */
  ghost function Den(x: int): nat
  {
    Pow(10, if x < 0 then -x else 0)
  }

  /** The decimal d * 10^x on the scale where a bound b is Scaled(b, x). */
  ghost function Mark(d: nat, x: int, unit: nat): nat
  {
    d * Weight(x, unit)
  }

  ghost function Scaled(b: nat, x: int): nat
  {
    b * Den(x)
  }

  /** d * 10^x lies in [lo, hi], both in multiples of 1/unit. */
  ghost predicate InInterval(d: nat, x: int, unit: nat, lo: nat, hi: nat)
  {
    Scaled(lo, x) <= Mark(d, x, unit) <= Scaled(hi, x)
  }

  function Distance(a: int, b: int): nat
  {
    if a <= b then b - a else a - b
  }

  /** No multiple of a higher power of ten is in the interval. */
  ghost predicate Shortest(x: int, unit: nat, lo: nat, hi: nat)
  {
    forall d: nat, y: int :: x < y ==> !InInterval(d, y, unit, lo, hi)
  }

  /** No other multiple of 10^x in the interval is nearer to w. */
  ghost predicate Closest(d: nat, x: int, unit: nat, lo: nat, w: nat, hi: nat)
  {
    forall c: nat :: InInterval(c, x, unit, lo, hi) ==>
      Distance(Mark(d, x, unit), Scaled(w, x)) <= Distance(Mark(c, x, unit), Scaled(w, x))
  }

  // --- rounding ---

  /** j steps down from rest is the first of the points within delta that are closest to dist. */
  ghost predicate BestStep(j: nat, dist: nat, delta: nat, rest: nat, tenK: nat)
  {
    && rest + j * tenK <= delta
    && (forall i: nat :: i < j ==> Distance(rest + j * tenK, dist) < Distance(rest + i * tenK, dist))
    && (forall i: nat :: rest + i * tenK <= delta ==>
          Distance(rest + j * tenK, dist) <= Distance(rest + i * tenK, dist))
  }

  /** The loop test of the rounding step; no subtraction or addition in it leaves the 64-bit range. */
  predicate StepGetsCloser(dist: uint64, delta: uint64, rest: uint64, tenK: uint64)
    requires rest <= delta
  {
    && rest < dist
    && delta - rest >= tenK
    && var next: uint64 := rest + tenK;
       next < dist || (var over: uint64 := next - dist; dist - rest > over)
  }

  lemma LastStepIsBest(j: nat, dist: uint64, delta: uint64, rest: nat, current: uint64, tenK: uint64)
    requires 0 < tenK && current == rest + j * tenK <= delta
    requires forall i: nat :: i < j ==> Distance(current, dist) < Distance(rest + i * tenK, dist)
    requires !StepGetsCloser(dist, delta, current, tenK)
    ensures BestStep(j, dist, delta, rest, tenK)
  {
    forall i: nat | rest + i * tenK <= delta
      ensures Distance(current, dist) <= Distance(rest + i * tenK, dist)
    {
      if j < i {
        StepsAreSpaced(j, i, tenK);
        LaterStepIsFarther(dist, delta, current, rest + i * tenK, tenK);
      }
    }
  }

  lemma StepsAreSpaced(j: nat, i: nat, tenK: nat)
    requires j < i
    ensures j * tenK + tenK <= i * tenK
  {
    MulMonotone(tenK, j + 1, i);
  }

  lemma LaterStepIsFarther(dist: uint64, delta: uint64, current: uint64, later: nat, tenK: uint64)
    requires current <= delta && current + tenK <= later <= delta && 0 < tenK
    requires !StepGetsCloser(dist, delta, current, tenK)
    ensures Distance(current, dist) <= Distance(later, dist)
  {
  }

  method Grisu2Round(buf: array<char>, len: nat, dist: uint64, delta: uint64, rest: uint64, tenK: uint64)
    requires 1 <= len <= buf.Length && dist <= delta && rest <= delta && 0 < tenK
    requires IsDigit(buf[len - 1]) && delta < DigitOf(buf[len - 1]) * tenK + rest
    modifies buf
    ensures forall i :: 0 <= i < buf.Length && i != len - 1 ==> buf[i] == old(buf[i])
    ensures IsDigit(buf[len - 1]) && DigitOf(buf[len - 1]) <= old(DigitOf(buf[len - 1]))
    ensures buf[len - 1] != '0'
    ensures BestStep(old(DigitOf(buf[len - 1])) - DigitOf(buf[len - 1]), dist, delta, rest, tenK)
  {
    var current := rest;
    ghost var d0 := DigitOf(buf[len - 1]);
    ghost var j := 0;
    while StepGetsCloser(dist, delta, current, tenK)
      invariant forall i :: 0 <= i < buf.Length && i != len - 1 ==> buf[i] == old(buf[i])
      invariant IsDigit(buf[len - 1]) && DigitOf(buf[len - 1]) == d0 - j
      invariant current == rest + j * tenK <= delta
      invariant delta < DigitOf(buf[len - 1]) * tenK + current
      invariant forall i: nat :: i < j ==> Distance(current, dist) < Distance(rest + i * tenK, dist)
      decreases delta - current
    {
      LastDigitIsLarge(DigitOf(buf[len - 1]), tenK, current, delta);
      assert buf[len - 1] != '0';
      buf[len - 1] := (buf[len - 1] as int - 1) as char;
      assert (j + 1) * tenK == j * tenK + tenK;
      current, j := current + tenK, j + 1;
    }
    LastStepIsBest(j, dist, delta, rest, current, tenK);
    assert buf[len - 1] != '0';
  }

  lemma LastDigitIsLarge(d: nat, tenK: nat, current: nat, delta: nat)
    requires delta < d * tenK + current && current + tenK <= delta
    ensures 2 <= d && (d - 1) * tenK == d * tenK - tenK
  {
    if d <= 1 {
      MulMonotone(tenK, d, 1);
    }
  }

  // --- from the last generated digit to the specification ---

  lemma Coarsen(d: nat, x: int, unit: nat, lo: nat, hi: nat)
    requires InInterval(d, x + 1, unit, lo, hi)
    ensures InInterval(10 * d, x, unit, lo, hi)
  {
    if 0 <= x {
      assert Pow(10, x + 1) == 10 * Pow(10, x);
      assert d * (10 * Pow(10, x) * unit) == 10 * d * (Pow(10, x) * unit);
    } else {
      assert Pow(10, -x) == 10 * Pow(10, -x - 1);
      TenTimes(d, unit, lo, hi, Pow(10, -x - 1));
    }
  }

  lemma TenTimes(d: nat, unit: nat, lo: nat, hi: nat, p: nat)
    requires lo * p <= d * unit <= hi * p
    ensures lo * (10 * p) <= 10 * d * unit <= hi * (10 * p)
  {
  }

  lemma Refine(d: nat, x: int, unit: nat, lo: nat, hi: nat)
    requires InInterval(10 * d, x, unit, lo, hi)
    ensures InInterval(d, x + 1, unit, lo, hi)
  {
    if 0 <= x {
      assert Pow(10, x + 1) == 10 * Pow(10, x);
      assert d * (10 * Pow(10, x) * unit) == 10 * d * (Pow(10, x) * unit);
    } else {
      assert Pow(10, -x) == 10 * Pow(10, -x - 1);
      OneTenth(d, unit, lo, hi, Pow(10, -x - 1));
    }
  }

  lemma OneTenth(d: nat, unit: nat, lo: nat, hi: nat, p: nat)
    requires lo * (10 * p) <= 10 * d * unit <= hi * (10 * p)
    ensures lo * p <= d * unit <= hi * p
  {
    assert lo * (10 * p) == 10 * (lo * p) && hi * (10 * p) == 10 * (hi * p) && 10 * d * unit == 10 * (d * unit);
  }

  lemma {:induction false} CoarsenTo(d: nat, y: int, x: int, unit: nat, lo: nat, hi: nat) returns (c: nat)
    requires x <= y && InInterval(d, y, unit, lo, hi)
    ensures InInterval(c, x, unit, lo, hi)
    decreases y - x
  {
    if x == y {
      c := d;
    } else {
      Coarsen(d, y - 1, unit, lo, hi);
      c := CoarsenTo(10 * d, y - 1, x, unit, lo, hi);
    }
  }

  /** What is known when the last digit has been produced: hi = v * 10^x + rest, and without that digit too much is left. */
  ghost predicate Generated(v: nat, x: int, unit: nat, lo: nat, hi: nat, rest: nat)
  {
    && Scaled(hi, x) == Mark(v, x, unit) + rest
    && rest < Weight(x, unit)
    && rest <= Scaled(hi, x) - Scaled(lo, x) < Mark(v % 10, x, unit) + rest
  }

  lemma Conclude(v: nat, x: int, unit: nat, lo: nat, w: nat, hi: nat, rest: nat, j: nat)
    requires lo <= w <= hi && Generated(v, x, unit, lo, hi, rest) && j <= v % 10
    requires BestStep(j, Scaled(hi, x) - Scaled(w, x), Scaled(hi, x) - Scaled(lo, x), rest, Weight(x, unit))
    ensures InInterval(v - j, x, unit, lo, hi)
    ensures Shortest(x, unit, lo, hi)
    ensures Closest(v - j, x, unit, lo, w, hi)
  {
    var a, low, mid, top := Weight(x, unit), Scaled(lo, x), Scaled(w, x), Scaled(hi, x);
    MulMonotone(Den(x), lo, w);
    MulMonotone(Den(x), w, hi);
    assert Distance(Mark(v - j, x, unit), mid) == Distance((v - j) * a, mid);
    RoundedIsInside(v, j, a, low, top, rest);
    hide Weight, Den, Scaled, BestStep;
    forall c: nat | InInterval(c, x, unit, lo, hi)
      ensures Distance(Mark(v - j, x, unit), mid) <= Distance(Mark(c, x, unit), mid)
    {
      CandidateIsNoCloser(v, c, j, a, low, mid, top, rest);
    }
    NothingRounder(v, x, unit, lo, hi, rest);
  }

  lemma NothingRounder(v: nat, x: int, unit: nat, lo: nat, hi: nat, rest: nat)
    requires Generated(v, x, unit, lo, hi, rest)
    ensures Shortest(x, unit, lo, hi)
  {
    hide Weight, Den, Scaled;
    forall d: nat, y: int | x < y
      ensures !InInterval(d, y, unit, lo, hi)
    {
      if InInterval(d, y, unit, lo, hi) {
        var c := CoarsenTo(d, y, x + 1, unit, lo, hi);
        Coarsen(c, x, unit, lo, hi);
        RoundCandidateIsTooLow(v, c, Weight(x, unit), Scaled(lo, x), Scaled(hi, x), rest);
      }
    }
  }

  lemma RoundedIsInside(v: nat, j: nat, a: nat, low: nat, top: nat, rest: nat)
    requires j <= v && top == v * a + rest && rest + j * a <= top - low
    ensures low <= (v - j) * a <= top
  {
    StepDown(v, j, a);
  }

  lemma CandidateIsNoCloser(v: nat, c: nat, j: nat, a: nat, low: nat, mid: nat, top: nat, rest: nat)
    requires low <= mid <= top == v * a + rest && rest < a && low <= c * a <= top && j <= v
    requires BestStep(j, top - mid, top - low, rest, a)
    ensures Distance((v - j) * a, mid) <= Distance(c * a, mid)
  {
    var i := StepsBelow(v, c, a, top, rest);
    StepDown(v, j, a);
    assert Distance(rest + j * a, top - mid) <= Distance(rest + i * a, top - mid);
  }

  /** A multiple of ten last places that is not above the top is below the interval. */
  lemma RoundCandidateIsTooLow(v: nat, c: nat, a: nat, low: nat, top: nat, rest: nat)
    requires low <= top == v * a + rest && rest < a
    requires top - low < (v % 10) * a + rest && 10 * c * a <= top
    ensures 10 * c * a < low
  {
    var i := StepsBelow(v, 10 * c, a, top, rest);
    assert v % 10 <= i;
    MulMonotone(a, v % 10, i);
  }

  lemma StepDown(v: nat, j: nat, a: nat)
    requires j <= v
    ensures (v - j) * a == v * a - j * a
  {
  }

  lemma StepsBelow(v: nat, c: nat, a: nat, top: nat, rest: nat) returns (i: nat)
    requires top == v * a + rest && rest < a && c * a <= top
    ensures c <= v && i == v - c && c * a == v * a - i * a
  {
    assert a * (v + 1) == v * a + a;
    if v < c {
      MulMonotone(a, v + 1, c);
    }
    i := v - c;
    StepDown(v, i, a);
  }

  // --- generating the digits ---

  /** The number of decimal digits k of n, and 10^(k-1). */
  function FindLargestPow10(n: uint32): (r: (nat, uint32))
    requires 0 < n
    ensures 1 <= r.0 <= 10 && r.1 == Pow(10, r.0 - 1) && r.1 <= n < 10 * r.1
  {
    assert Pow(10, 9) == 1000000000 by {
      PowAdd(10, 4, 5);
      assert Pow(10, 4) == 10000 && Pow(10, 5) == 100000;
    }
    if n >= 1000000000 then (10, 1000000000)
    else if n >= 100000000 then (9, 100000000)
    else if n >= 10000000 then (8, 10000000)
    else if n >= 1000000 then (7, 1000000)
    else if n >= 100000 then (6, 100000)
    else if n >= 10000 then (5, 10000)
    else if n >= 1000 then (4, 1000)
    else if n >= 100 then (3, 100)
    else if n >= 10 then (2, 10)
    else (1, 1)
  }

  /** n << -e, where unit is 2^-e. */
  function Shifted(n: nat, unit: nat): nat
  {
    n * unit
  }

  /** hi = v * ten * unit + p1 * unit + p2: v has been generated, p1 and p2 are left, and they are more than delta. */
  ghost predicate IntegralState(v: nat, ten: nat, unit: nat, p1: nat, p2: nat, hi: nat, delta: nat)
  {
    && hi == Shifted(v, Shifted(ten, unit)) + (Shifted(p1, unit) + p2)
    && p1 < ten && p2 < unit
    && delta < Shifted(p1, unit) + p2
  }

  /** v ends in the new digit d; hi = v * ten * unit + rest, and without d more than delta would be left. */
  ghost predicate DigitTaken(v: nat, d: nat, ten: nat, unit: nat, rest: nat, hi: nat, delta: nat)
  {
    && d <= 9 && v % 10 == d
    && hi == Shifted(v, Shifted(ten, unit)) + rest && rest < Shifted(ten, unit)
    && delta < Shifted(d, Shifted(ten, unit)) + rest
  }

  lemma IntegralStep(v: nat, pow10: nat, unit: nat, p1: nat, p2: nat, hi: nat, delta: nat)
    requires 0 < pow10 && IntegralState(v, 10 * pow10, unit, p1, p2, hi, delta)
    ensures var d, r := p1 / pow10, p1 % pow10;
            && d <= 9 && r < pow10 && p2 < unit && 0 <= Shifted(r, unit) + p2 <= hi
            && DigitTaken(10 * v + d, d, pow10, unit, Shifted(r, unit) + p2, hi, delta)
  {
    var d, r := p1 / pow10, p1 % pow10;
    LastDigit(v, d);
    TakeDigit(v, pow10, unit, p1, p2, d, r);
    hide Shifted;
  }

  lemma LastDigit(v: nat, d: nat)
    ensures d <= 9 ==> (10 * v + d) % 10 == d
  {
  }

  lemma TakeDigit(v: nat, pow10: nat, unit: nat, p1: nat, p2: nat, d: nat, r: nat)
    requires 0 < pow10 && p1 < 10 * pow10 && p2 < unit && d == p1 / pow10 && r == p1 % pow10
    ensures d <= 9 && r < pow10
    ensures Shifted(p1, unit) == Shifted(d, Shifted(pow10, unit)) + Shifted(r, unit)
    ensures Shifted(v, Shifted(10 * pow10, unit)) + Shifted(p1, unit) ==
            Shifted(10 * v + d, Shifted(pow10, unit)) + Shifted(r, unit)
    ensures Shifted(r, unit) + p2 < Shifted(pow10, unit)
  {
    DivideDigit(p1, pow10, d, r);
    ShiftDigit(p1, d, pow10, r, unit);
    JoinDigit(v, d, pow10, unit);
    ShiftRest(r, pow10, unit);
    hide Shifted;
  }

  lemma DivideDigit(p1: nat, pow10: nat, d: nat, r: nat)
    requires 0 < pow10 && p1 < 10 * pow10 && d == p1 / pow10 && r == p1 % pow10
    ensures p1 == d * pow10 + r && d <= 9 && r < pow10
  {
    if 9 < d {
      MulMonotone(pow10, 10, d);
    }
  }

  lemma ShiftDigit(p1: nat, d: nat, pow10: nat, r: nat, unit: nat)
    requires p1 == d * pow10 + r
    ensures Shifted(p1, unit) == Shifted(d, Shifted(pow10, unit)) + Shifted(r, unit)
  {
    assert p1 * unit == d * pow10 * unit + r * unit;
    assert d * pow10 * unit == d * (pow10 * unit);
  }

  lemma JoinDigit(v: nat, d: nat, pow10: nat, unit: nat)
    ensures Shifted(v, Shifted(10 * pow10, unit)) + Shifted(d, Shifted(pow10, unit)) ==
            Shifted(10 * v + d, Shifted(pow10, unit))
  {
    assert 10 * pow10 * unit == 10 * (pow10 * unit);
    Widen(v, d, pow10 * unit);
  }

  lemma Widen(v: nat, d: nat, x: nat)
    ensures v * (10 * x) + d * x == (10 * v + d) * x
  {
    assert v * (10 * x) == 10 * v * x;
  }

  lemma ShiftRest(r: nat, pow10: nat, unit: nat)
    requires r < pow10
    ensures Shifted(r, unit) + unit <= Shifted(pow10, unit)
  {
    MulMonotone(unit, r + 1, pow10);
    assert unit * (r + 1) == r * unit + unit;
  }

  /** hi = (v + p2 / unit) * 10^-m: the integral digits and m digits of the fraction have been generated. */
  ghost predicate FractionState(v: nat, m: nat, unit: nat, p2: nat, hi: nat)
  {
    Scaled(hi, 0 - m) == v * unit + p2 && p2 < unit
  }

  lemma ScaledStep(b: nat, m: nat)
    ensures Scaled(b, 0 - (m + 1)) == 10 * Scaled(b, 0 - m)
  {
    assert Pow(10, m + 1) == 10 * Pow(10, m);
  }

  /** Multiplying the fraction by ten has produced the digit d and left r. */
  ghost predicate Carried(d: nat, unit: nat, r: nat, shifted: nat)
  {
    d * unit + r == shifted
  }

  /** Sixteen digits of hi always leave less than delta. */
  ghost predicate WideEnough(k: nat, unit: nat, hi: nat, delta: nat)
  {
    1 <= k && Shifted(Pow(10, k - 1), unit) <= hi <= Pow(10, 16) * delta
  }

  lemma FractionStep(v: nat, m: nat, unit: nat, p2: nat, hi: nat, d: nat, r: nat)
    requires FractionState(v, m, unit, p2, hi)
    requires d == 10 * p2 / unit && r == 10 * p2 % unit
    ensures d <= 9 && FractionState(10 * v + d, m + 1, unit, r, hi)
    ensures Carried(d, unit, r, 10 * p2)
  {
    ScaledStep(hi, m);
    hide Scaled;
    assert 10 * p2 == d * unit + r;
    if 9 < d {
      MulMonotone(unit, 10, d);
    }
    assert (10 * v + d) * unit == 10 * (v * unit) + d * unit;
  }

  /** The interval is wide enough that seventeen digits always suffice. */
  lemma SixteenDigitsSoFar(k: nat, m: nat, unit: nat, top: nat, delta: nat)
    requires WideEnough(k, unit, top, delta)
    requires Scaled(delta, 0 - m) < unit
    ensures k + m <= 16
  {
    var a, b := Pow(10, k - 1), Pow(10, m);
    PowAdd(10, k - 1, m);
    if 16 <= k - 1 + m {
      PowMonotone(10, 16, k - 1 + m);
      hide Pow;
      TooWide(a, b, unit, top, delta, Pow(10, 16));
    }
  }

  lemma TooWide(a: nat, b: nat, unit: nat, top: nat, delta: nat, c: nat)
    requires 0 < c <= a * b && a * unit <= top <= c * delta
    ensures unit <= delta * b
  {
    MulMonotone(b, a * unit, c * delta);
    MulMonotone(unit, c, a * b);
    assert b * (a * unit) == unit * (a * b);
    assert b * (c * delta) == c * (delta * b);
    if delta * b < unit {
      MulMonotone(c, delta * b + 1, unit);
    }
  }

  lemma RoundedNumber(before: string, after: string)
    requires |before| == |after| > 0 && AllDigits(before) && AllDigits(after)
    requires before[..|before| - 1] == after[..|after| - 1]
    requires DigitOf(after[|after| - 1]) <= DigitOf(before[|before| - 1])
    ensures NumberOf(before) % 10 == DigitOf(before[|before| - 1])
    ensures NumberOf(after) == NumberOf(before) - (DigitOf(before[|before| - 1]) - DigitOf(after[|after| - 1]))
  {
  }

  /** The digits in the buffer are the shortest decimal in [lo, hi] and, among those, the closest to w. */
  ghost predicate BestDecimal(digits: string, x: int, unit: nat, lo: nat, w: nat, hi: nat)
  {
    && AllDigits(digits) && 1 <= |digits| <= 17 && digits[0] != '0'
    && InInterval(NumberOf(digits), x, unit, lo, hi)
    && Shortest(x, unit, lo, hi)
    && Closest(NumberOf(digits), x, unit, lo, w, hi)
  }

  /** The shortest digits do not end with a 0. */
  lemma LastDigitIsNotZero(digits: string, x: int, unit: nat, lo: nat, w: nat, hi: nat)
    requires BestDecimal(digits, x, unit, lo, w, hi)
    ensures digits[|digits| - 1] != '0'
  {
    hide InInterval;
    if digits[|digits| - 1] == '0' {
      var front := NumberOf(digits[..|digits| - 1]);
      assert NumberOf(digits) == 10 * front;
      Refine(front, x, unit, lo, hi);
    }
  }

  /** Rounds the last generated digit, after which the buffer holds the result. */
  method FinishDigits(buffer: array<char>, length: nat, dist: uint64, delta: uint64, rest: uint64, tenK: uint64,
                      ghost x: int, ghost unit: nat, ghost lo: nat, ghost w: nat, ghost hi: nat)
    requires 1 <= length <= 17 && length <= buffer.Length && AllDigits(buffer[..length]) && buffer[0] != '0'
    requires lo <= w <= hi && 0 < tenK == Weight(x, unit)
    requires dist == Scaled(hi, x) - Scaled(w, x) && delta == Scaled(hi, x) - Scaled(lo, x) && dist <= delta
    requires Generated(NumberOf(buffer[..length]), x, unit, lo, hi, rest)
    modifies buffer
    ensures BestDecimal(buffer[..length], x, unit, lo, w, hi)
  {
    hide Weight, Den, Scaled, InInterval, Shortest, Closest, BestStep;
    ghost var before := buffer[..length];
    RoundedNumber(before, before);
    Grisu2Round(buffer, length, dist, delta, rest, tenK);
    ghost var after := buffer[..length];
    assert before[..length - 1] == after[..length - 1];
    RoundedNumber(before, after);
    Conclude(NumberOf(before), x, unit, lo, w, hi, rest, NumberOf(before) - NumberOf(after));
  }

  lemma NoDigitsYet(s: string)
    requires |s| == 0
    ensures AllDigits(s) && NumberOf(s) == 0
  {
  }

  /** Writes one more digit behind those already in the buffer. */
  method AppendDigit(buffer: array<char>, length: nat, d: nat)
    requires length < buffer.Length && AllDigits(buffer[..length]) && d <= 9
    requires 0 < length ==> buffer[0] != '0'
    requires 0 == length ==> d != 0
    modifies buffer
    ensures AllDigits(buffer[..length + 1]) && buffer[0] != '0'
    ensures NumberOf(buffer[..length + 1]) == 10 * NumberOf(old(buffer[..length])) + d
  {
    ghost var before := buffer[..length];
    buffer[length] := DigitChar(d);
    assert buffer[..length + 1] == before + [DigitChar(d)];
    NumberOfAppend(before, d);
  }

  /** The integral part is finished at weight 10^n: what is left is within delta. */
  lemma IntegralDone(v: nat, d: nat, n: nat, unit: nat, lo: nat, w: nat, hi: nat, rest: nat)
    requires lo <= w <= hi && rest <= hi - lo
    requires DigitTaken(v, d, Pow(10, n), unit, rest, hi, hi - lo)
    ensures Weight(n, unit) == Shifted(Pow(10, n), unit)
    ensures Scaled(lo, n) == lo && Scaled(w, n) == w && Scaled(hi, n) == hi
    ensures Generated(v, n, unit, lo, hi, rest)
  {
    assert Pow(10, 0) == 1;
  }

  /** The fraction is finished at weight 10^-m. */
  lemma FractionDone(v: nat, d: nat, m: nat, unit: nat, lo: nat, w: nat, hi: nat, r: nat, shifted: nat)
    requires lo <= w <= hi && 0 < m && v % 10 == d
    requires FractionState(v, m, unit, r, hi)
    requires Carried(d, unit, r, shifted) && r <= Scaled(hi - lo, 0 - m) < shifted
    ensures Weight(0 - m, unit) == unit
    ensures Scaled(hi, 0 - m) - Scaled(w, 0 - m) == Scaled(hi - w, 0 - m)
    ensures Scaled(hi, 0 - m) - Scaled(lo, 0 - m) == Scaled(hi - lo, 0 - m)
    ensures Generated(v, 0 - m, unit, lo, hi, r)
  {
    assert Pow(10, 0) == 1;
    hide Pow;
    ScaledDifference(hi, w, 0 - m);
    ScaledDifference(hi, lo, 0 - m);
    hide Scaled;
  }

  lemma ScaledDifference(hi: nat, w: nat, x: int)
    requires w <= hi
    ensures Scaled(hi - w, x) == Scaled(hi, x) - Scaled(w, x)
  {
  }

  lemma UnitRange(e: int)
    requires -60 <= e <= -32
    ensures Pow(2, 32) == TWO_TO_THE_32 && Pow(2, 60) == 0x1000_0000_0000_0000
    ensures TWO_TO_THE_32 <= Pow(2, -e) <= 0x1000_0000_0000_0000
  {
    assert Pow(2, 10) == 1024 && Pow(2, 8) == 256;
    PowAdd(2, 8, 8);
    PowAdd(2, 16, 16);
    PowAdd(2, 10, 10);
    PowAdd(2, 20, 20);
    PowAdd(2, 40, 20);
    PowMonotone(2, 32, -e);
    PowMonotone(2, -e, 60);
  }

  lemma SplitTop(top: uint64, unit: nat)
    requires TWO_TO_THE_32 <= unit <= top
    ensures 0 < top / unit < TWO_TO_THE_32 && top % unit < unit
    ensures top == Shifted(top / unit, unit) + top % unit
  {
    var q := top / unit;
    if TWO_TO_THE_32 <= q {
      MulMonotone(unit, TWO_TO_THE_32, q);
    }
  }

  lemma StartIntegral(k: nat, pow10: nat, unit: nat, p1: nat, p2: nat, hi: nat, delta: nat)
    requires 1 <= k && pow10 == Pow(10, k - 1) && pow10 <= p1 < 10 * pow10
    requires hi == Shifted(p1, unit) + p2 && p2 < unit && delta < hi
    ensures IntegralState(0, Pow(10, k), unit, p1, p2, hi, delta)
    ensures Shifted(pow10, unit) <= hi
  {
    MulMonotone(unit, pow10, p1);
  }

  lemma NextIntegral(v: nat, d: nat, n: nat, pow10: nat, unit: nat, p1: nat, p2: nat, hi: nat, delta: nat)
    requires pow10 == Pow(10, n) && Shifted(pow10, unit) <= hi && p1 < pow10 && p2 < unit
    requires delta < Shifted(p1, unit) + p2
    requires DigitTaken(v, d, pow10, unit, Shifted(p1, unit) + p2, hi, delta)
    ensures IntegralState(v, Pow(10, n), unit, p1, p2, hi, delta)
    ensures 0 < n ==> 0 < pow10 / 10 == Pow(10, n - 1) && Shifted(pow10 / 10, unit) <= hi
  {
    if 0 < n {
      MulMonotone(unit, pow10 / 10, pow10);
    }
  }

  lemma StartFraction(v: nat, unit: nat, p1: nat, p2: nat, top: nat, delta: nat)
    requires IntegralState(v, Pow(10, 0), unit, p1, p2, top, delta)
    ensures FractionState(v, 0, unit, p2, top) && delta < p2 < unit
  {
  }

  lemma QuotientIsZero(x: nat, q: nat)
    requires 0 < q
    ensures q <= x <==> x / q != 0
  {
  }

  lemma QuotientIs(x: nat, q: nat, k: nat, r: nat)
    requires x == k * q + r && r < q
    ensures x / q == k && x % q == r
  {
    var m, n := x / q, x % q;
    assert x == m * q + n;
    if k < m {
      MulMonotone(q, k + 1, m);
      NextMultiple(k, q);
    } else if m < k {
      MulMonotone(q, m + 1, k);
      NextMultiple(m, q);
    }
  }

  lemma NextMultiple(k: nat, q: nat)
    ensures q * (k + 1) == k * q + q
  {
  }

  lemma TenAndOne(a: nat, c: nat, q: nat)
    ensures (10 * a + c) * q == a * (10 * q) + c * q
  {
    assert a * (10 * q) == 10 * a * q;
  }

  lemma Division(x: nat, q: nat)
    requires 0 < q
    ensures x == x / q * q + x % q && x % q < q
  {
  }

  lemma LastDigit10(p: nat, q: nat, a: nat, b: nat, c: nat, r: nat)
    requires p == a * (10 * q) + b && b == c * q + r && r < q && b < 10 * q
    ensures p / q == 10 * a + c && p % q == r && c < 10
  {
    TenAndOne(a, c, q);
    QuotientIs(p, q, 10 * a + c, r);
    if 10 <= c {
      MulMonotone(q, 10, c);
    }
  }

  lemma TwoDivisions(p: nat, q: nat, a: nat, b: nat, c: nat, r: nat)
    requires 0 < q && a == p / (10 * q) && b == p % (10 * q) && c == b / q && r == b % q
    ensures p / q % 10 == c && p % q == r
  {
    Division(p, 10 * q);
    Division(b, q);
    LastDigit10(p, q, a, b, c, r);
    LastDigit(a, c);
  }

  /** The number formed by the last n digits. */
  function LastDigits(p: nat, n: nat): nat
  {
    p % Pow(10, n)
  }

  /** The last n - 1 of the last n digits are the last n - 1, and what is divided off is the n-th digit from the end. */
  lemma TakingLastDigits(p: nat, n: nat)
    requires 0 < n
    ensures LastDigits(p, n) % Pow(10, n - 1) == LastDigits(p, n - 1)
    ensures LastDigits(p, n) / Pow(10, n - 1) == p / Pow(10, n - 1) % 10
  {
    var q := Pow(10, n - 1);
    assert Pow(10, n) == 10 * q;
    hide Pow;
    TwoDivisions(p, q, p / (10 * q), p % (10 * q), p % (10 * q) / q, p % (10 * q) % q);
  }

  lemma AllAreLastDigits(p: nat, k: nat)
    requires 0 < k && p < 10 * Pow(10, k - 1)
    ensures LastDigits(p, k) == p
  {
    assert Pow(10, k) == 10 * Pow(10, k - 1);
    hide Pow;
    SmallRemainder(p, Pow(10, k));
  }

  lemma SmallRemainder(p: nat, q: nat)
    requires p < q
    ensures p % q == p
  {
  }

  /**
   * The comment of the loop says that pow10 = 10^(n-1) <= p1 < 10^n, where p1 holds the last n digits of the integral
   * part p. The first inequality holds exactly if the digit that is taken next is not 0.
   */
  lemma PowerIsReachedIffNextDigitIsNotZero(p: nat, n: nat)
    requires 0 < n
    ensures LastDigits(p, n) < Pow(10, n)
    ensures Pow(10, n - 1) <= LastDigits(p, n) <==> p / Pow(10, n - 1) % 10 != 0
  {
    TakingLastDigits(p, n);
    hide Pow;
    QuotientIsZero(LastDigits(p, n), Pow(10, n - 1));
  }

  /** In 1005 it fails when the first digit has been taken: 100 is more than 5. */
  lemma PowerIsNotReached()
    ensures LastDigits(1005, 3) < Pow(10, 2)
  {
    assert Pow(10, 2) == 100 && Pow(10, 3) == 1000;
  }

  /** One digit of the integral part: p1 div 10^(n-1), where pow10 is that power. */
  method IntegralDigit(buffer: array<char>, length: nat, unit: uint64, pow10: uint32, p1: uint32, p2: uint64,
                       ghost delta: nat, ghost hi: nat)
    returns (d: nat, r: uint32)
    requires length < buffer.Length && AllDigits(buffer[..length]) && (0 < length ==> buffer[0] != '0')
    requires 0 < pow10 && (length == 0 ==> pow10 <= p1)
    requires IntegralState(NumberOf(buffer[..length]), 10 * pow10, unit, p1, p2, hi, delta)
    modifies buffer
    ensures AllDigits(buffer[..length + 1]) && buffer[0] != '0'
    ensures r == p1 % pow10 < pow10 && 0 <= Shifted(r, unit) + p2 <= hi
    ensures pow10 <= p1 <==> d != 0
    ensures DigitTaken(NumberOf(buffer[..length + 1]), d, pow10, unit, Shifted(r, unit) + p2, hi, delta)
  {
    hide IntegralState, DigitTaken, AllDigits, NumberOf, Shifted;
    IntegralStep(NumberOf(buffer[..length]), pow10, unit, p1, p2, hi, delta);
    d := p1 / pow10;
    r := p1 % pow10;
    QuotientIsZero(p1, pow10);
    AppendDigit(buffer, length, d);
  }

  /** Phase 1: the digits of the integral part p1, until what is left is within delta or none of it is left. */
  method IntegralDigits(buffer: array<char>, unit: uint64, integral: uint32, p2: uint64, dist: uint64, delta: uint64,
                        ghost lo: nat, ghost w: nat, ghost hi: nat)
    returns (length: nat, n: nat, done: bool)
    requires 17 <= buffer.Length && 0 < integral && p2 < unit && 0 < lo <= w <= hi < TWO_TO_THE_64
    requires hi == Shifted(integral, unit) + p2 && dist == hi - w && delta == hi - lo
    modifies buffer
    ensures 1 <= length <= 10 && n <= 10 && AllDigits(buffer[..length]) && buffer[0] != '0'
    ensures done ==> BestDecimal(buffer[..length], n, unit, lo, w, hi)
    ensures !done ==> delta < p2 && FractionState(NumberOf(buffer[..length]), 0, unit, p2, hi)
    ensures !done ==> Shifted(Pow(10, length - 1), unit) <= hi
  {
    hide Generated, Scaled, Weight, BestDecimal, IntegralState, DigitTaken, FractionState, AllDigits, NumberOf, Shifted,
         LastDigits;
    var p1: uint32 := integral;
    var (k, power) := FindLargestPow10(p1);
    var pow10: uint32 := power;
    StartIntegral(k, pow10, unit, p1, p2, hi, delta);
    AllAreLastDigits(integral, k);
    NoDigitsYet(buffer[..0]);
    n, length, done := k, 0, false;
    while 0 < n
      invariant n <= k && length == k - n && AllDigits(buffer[..length])
      invariant 0 < length ==> buffer[0] != '0'
      invariant n == k ==> pow10 <= p1
      invariant p1 == LastDigits(integral, n)
      invariant 0 < n ==> 0 < pow10 == Pow(10, n - 1) && Shifted(pow10, unit) <= hi
      invariant IntegralState(NumberOf(buffer[..length]), Pow(10, n), unit, p1, p2, hi, delta)
    {
      TakingLastDigits(integral, n);
      var d;
      d, p1 := IntegralDigit(buffer, length, unit, pow10, p1, p2, delta, hi);
      length := length + 1;
      n := n - 1;
      var rest: uint64 := Shifted(p1, unit) + p2;
      if rest <= delta {
        var tenN: uint64 := Shifted(pow10, unit);
        IntegralDone(NumberOf(buffer[..length]), d, n, unit, lo, w, hi, rest);
        FinishDigits(buffer, length, dist, delta, rest, tenN, n, unit, lo, w, hi);
        RevealBestDecimal(buffer[..length], n, unit, lo, w, hi);
        done := true;
        return;
      }
      NextIntegral(NumberOf(buffer[..length]), d, n, pow10, unit, p1, p2, hi, delta);
      pow10 := pow10 / 10;
    }
    StartFraction(NumberOf(buffer[..length]), unit, p1, p2, hi, delta);
  }

  lemma RevealBestDecimal(digits: string, x: int, unit: nat, lo: nat, w: nat, hi: nat)
    requires BestDecimal(digits, x, unit, lo, w, hi)
    ensures AllDigits(digits) && 1 <= |digits| <= 17 && digits[0] != '0'
  {
  }

  /** One digit of the fraction: the integral part of ten times what is left. */
  method FractionalDigit(buffer: array<char>, length: nat, unit: uint64, p2: uint64, ghost m: nat, ghost hi: nat)
    returns (d: nat, r: uint64)
    requires 0 < length < buffer.Length && AllDigits(buffer[..length]) && buffer[0] != '0'
    requires p2 < unit <= 0x1000_0000_0000_0000 && FractionState(NumberOf(buffer[..length]), m, unit, p2, hi)
    modifies buffer
    ensures AllDigits(buffer[..length + 1]) && buffer[0] != '0' && d == NumberOf(buffer[..length + 1]) % 10
    ensures r < unit && FractionState(NumberOf(buffer[..length + 1]), m + 1, unit, r, hi)
    ensures Carried(d, unit, r, 10 * p2)
  {
    hide FractionState, AllDigits, NumberOf, Carried;
    var shifted: uint64 := p2 * 10;
    d := shifted / unit;
    r := shifted % unit;
    FractionStep(NumberOf(buffer[..length]), m, unit, p2, hi, d, r);
    AppendDigit(buffer, length, d);
  }

  /** Phase 2: the digits of the fraction p2, with delta and dist scaled up alongside. */
  method FractionalDigits(buffer: array<char>, start: nat, unit: uint64, fraction: uint64, dist0: uint64, delta0: uint64,
                          ghost lo: nat, ghost w: nat, ghost hi: nat)
    returns (length: nat, m: nat)
    requires 17 <= buffer.Length && 1 <= start <= 10 && AllDigits(buffer[..start]) && buffer[0] != '0'
    requires unit <= 0x1000_0000_0000_0000 && delta0 < fraction < unit && lo <= w <= hi
    requires FractionState(NumberOf(buffer[..start]), 0, unit, fraction, hi)
    requires dist0 == hi - w && delta0 == hi - lo
    requires WideEnough(start, unit, hi, delta0)
    modifies buffer
    ensures m < length <= 17 && length <= buffer.Length && BestDecimal(buffer[..length], 0 - m, unit, lo, w, hi)
  {
    hide Generated, Scaled, Weight, BestDecimal, IntegralState, DigitTaken, FractionState, AllDigits, NumberOf, Carried, WideEnough;
    var p2: uint64, dist: uint64, delta: uint64 := fraction, dist0, delta0;
    length, m := start, 0;
    ScaledByOne(delta0);
    ScaledByOne(dist0);
    while true
      invariant length == start + m <= 16 && AllDigits(buffer[..length])
      invariant buffer[0] != '0'
      invariant delta == Scaled(delta0, 0 - m) < p2 < unit && dist == Scaled(dist0, 0 - m) <= delta
      invariant FractionState(NumberOf(buffer[..length]), m, unit, p2, hi)
      decreases 17 - length
    {
      ghost var shifted := 10 * p2;
      var d;
      d, p2 := FractionalDigit(buffer, length, unit, p2, m, hi);
      ScaledStep(delta0, m);
      ScaledStep(dist0, m);
      length := length + 1;
      m := m + 1;
      delta := delta * 10;
      dist := dist * 10;
      if p2 <= delta {
        FractionDone(NumberOf(buffer[..length]), d, m, unit, lo, w, hi, p2, shifted);
        FinishDigits(buffer, length, dist, delta, p2, unit, 0 - m, unit, lo, w, hi);
        return;
      }
      SixteenDigitsSoFar(start, m, unit, hi, delta0);
    }
  }

  lemma ScaledByOne(b: nat)
    ensures Scaled(b, 0) == b
  {
    assert Pow(10, 0) == 1;
  }

  /** Generates the digits of M+ from left to right until V is in [M-, M+], then rounds towards w. */
  method Grisu2DigitGen(buffer: array<char>, mMinus: DiyFp, w: DiyFp, mPlus: DiyFp, exponent: int)
    returns (length: nat, decimalExponent: int)
    requires mMinus.e == w.e == mPlus.e && -60 <= mPlus.e <= -32
    requires 0 < mMinus.f <= w.f <= mPlus.f && Pow(2, -mPlus.e) <= mPlus.f
    requires mPlus.f <= Pow(10, 16) * (mPlus.f - mMinus.f)
    requires 17 <= buffer.Length
    modifies buffer
    ensures length <= 17 && -17 < decimalExponent - exponent <= 10
    ensures BestDecimal(buffer[..length], decimalExponent - exponent, Pow(2, -mPlus.e), mMinus.f, w.f, mPlus.f)
  {
    hide BestDecimal, FractionState;
    var delta: uint64 := Sub(mPlus, mMinus).f;
    var dist: uint64 := Sub(mPlus, w).f;
    UnitRange(mPlus.e);
    var one: uint64 := Pow(2, -mPlus.e);
    SplitTop(mPlus.f, one);
    var p1: uint32 := mPlus.f / one;
    var p2: uint64 := mPlus.f % one;
    var n, done;
    length, n, done := IntegralDigits(buffer, one, p1, p2, dist, delta, mMinus.f, w.f, mPlus.f);
    if done {
      decimalExponent := exponent + n;
    } else {
      var m;
      length, m := FractionalDigits(buffer, length, one, p2, dist, delta, mMinus.f, w.f, mPlus.f);
      decimalExponent := exponent - m;
    }
  }
}
