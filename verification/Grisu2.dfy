/** Grisu2 end to end: the printed decimal reads back as the same double. */
module Grisu2Printing {
  import opened Powers
  import opened DiyFps
  import opened Boundaries
  import opened CachedPowers
  import opened DigitGen

  // --- the cached power and the products with it ---

  lemma PositiveProduct(a: real, b: real)
    requires 0.0 < a && 0.0 < b
    ensures 0.0 < a * b
  {
  }

  lemma Spread(x: real, y: real, p: real)
    ensures (x - y) * p == x * p - y * p
  {
  }

  /** The exact significand 10^k / 2^e an entry approximates; it is off by at most one half. */
  ghost function ExactPower(c: CachedPower): (t: real)
    ensures t * Scale(2, c.e) == Scale(10, c.k)
  {
    DivideBack(Scale(10, c.k), Scale(2, c.e));
    Scale(10, c.k) / Scale(2, c.e)
  }

  lemma DivideBack(a: real, b: real)
    requires 0.0 < b
    ensures a / b * b == a
  {
  }

  lemma CachedIsClose(c: CachedPower)
    requires Accurate(c)
    ensures -1.0 <= 2.0 * (c.f as real - ExactPower(c)) <= 1.0
  {
    hide Scale, ExactPower, Near, Pow;
    var t := ExactPower(c);
    if 0 <= c.e {
      ScaleOfNat(2, c.e);
      ScaleOfNat(10, c.k);
      CloseAbove(c.f, Pow(2, c.e), Pow(10, c.k), t);
    } else if 0 <= c.k {
      ScaleOfNegative(2, -c.e);
      ScaleOfNat(10, c.k);
      CloseExact(c.f, Pow(10, c.k), Pow(2, -c.e), Scale(2, c.e), t);
    } else {
      ScaleOfNegative(2, -c.e);
      ScaleOfNegative(10, -c.k);
      CloseBelow(c.f, Pow(10, -c.k), Pow(2, -c.e), Scale(10, c.k), Scale(2, c.e), t);
    }
  }

  lemma CloseAbove(f: nat, two: nat, ten: nat, t: real)
    requires 0 < two && Near(f, two, ten) && t * two as real == ten as real
    ensures -1.0 <= 2.0 * (f as real - t) <= 1.0
  {
    ProductAsReal(f, two);
    NearAsReals(f * two, ten, two);
    hide Near;
    HalfUnit(f as real, t, two as real, f as real * two as real, ten as real);
  }

  /** What is within half of p after multiplying by p is within one half. */
  lemma HalfUnit(r: real, t: real, p: real, rp: real, tp: real)
    requires 0.0 < p && Times(r, p) == rp && Times(t, p) == tp && -p <= 2.0 * (rp - tp) <= p
    ensures -1.0 <= 2.0 * (r - t) <= 1.0
  {
    hide Times;
    Doubled(r, t, p);
    WithinOne(2.0 * (r - t), p);
  }

  lemma Doubled(r: real, t: real, p: real)
    ensures Times(2.0 * (r - t), p) == 2.0 * (Times(r, p) - Times(t, p))
  {
    Spread(r, t, p);
  }

  lemma WithinOne(d: real, p: real)
    requires 0.0 < p && -p <= Times(d, p) <= p
    ensures -1.0 <= d <= 1.0
  {
    if d < -1.0 {
      PositiveProduct(-1.0 - d, p);
      Spread(-1.0, d, p);
    }
    if 1.0 < d {
      PositiveProduct(d - 1.0, p);
      Spread(d, 1.0, p);
    }
  }

  lemma NearAsReals(x: int, y: int, u: int)
    requires WithinHalf(x, y, u)
    ensures -1.0 * u as real <= 2.0 * (x as real - y as real) <= u as real
  {
  }

  lemma CloseExact(f: nat, ten: nat, two: nat, inverse: real, t: real)
    requires 0 < two && Near(f, 1, ten * two) && inverse * two as real == 1.0 && t * inverse == ten as real
    ensures -1.0 <= 2.0 * (f as real - t) <= 1.0
  {
    ProductAsReal(ten, two);
    assert t == (t * inverse) * two as real by {
      MoveFactor(t, inverse, two as real);
    }
  }

  lemma MoveFactor(t: real, i: real, p: real)
    requires i * p == 1.0
    ensures (t * i) * p == t
  {
    assert (t * i) * p == t * (i * p);
  }

  lemma CloseBelow(f: nat, ten: nat, two: nat, tenth: real, half: real, t: real)
    requires 0 < ten && 0 < two && Near(f, ten, two)
    requires tenth * ten as real == 1.0 && half * two as real == 1.0 && t * half == tenth
    ensures -1.0 <= 2.0 * (f as real - t) <= 1.0
  {
    MoveFactor(t, half, two as real);
    assert t == tenth * two as real;
    assert t * ten as real == two as real by {
      MoveFactor(two as real, tenth, ten as real);
    }
    CloseAbove(f, ten, two, t);
  }

  /** M+ stays strictly below the exact image of m+, in spite of both rounding errors. */
  lemma UpperStaysBelow(plus: uint64, c: uint64, t: real, product: nat)
    requires 2 * TWO_TO_THE_64 * product <= 2 * plus * c + TWO_TO_THE_64
    requires 2.0 * (c as real - t) <= 1.0
    ensures Times((product - 1) as real, TWO_TO_THE_64 as real) < Times(plus as real, t)
  {
    var p, r := plus as real, c as real;
    ProductAsReal(plus, c);
    Divide2(p, r - t);
    assert p * (r - t) == p * r - p * t;
    BelowInReals(product, plus * c);
    StrictlyBelow((product - 1) as real * TWO_TO_THE_64 as real, p * r, p * t, plus);
  }

  lemma StrictlyBelow(m: real, q: real, pt: real, p: uint64)
    requires m <= q - TWO_TO_THE_63 as real && 2.0 * (q - pt) <= p as real
    ensures m < pt
  {
  }

  lemma BelowInReals(product: nat, q: nat)
    requires 2 * TWO_TO_THE_64 * product <= 2 * q + TWO_TO_THE_64
    ensures (product - 1) as real * TWO_TO_THE_64 as real <= q as real - TWO_TO_THE_63 as real
  {
  }

  lemma LowerStaysAbove(minus: uint64, c: uint64, t: real, product: nat)
    requires 2 * minus * c - TWO_TO_THE_64 <= 2 * TWO_TO_THE_64 * product
    requires -1.0 <= 2.0 * (c as real - t)
    ensures Times(minus as real, t) < Times((product + 1) as real, TWO_TO_THE_64 as real)
  {
    var p, r := minus as real, c as real;
    ProductAsReal(minus, c);
    Divide2(p, t - r);
    assert p * (t - r) == p * t - p * r;
    AboveInReals(product, minus * c);
    StrictlyAbove((product + 1) as real * TWO_TO_THE_64 as real, p * r, p * t, minus);
  }

  lemma StrictlyAbove(m: real, q: real, pt: real, p: uint64)
    requires q + TWO_TO_THE_63 as real <= m && 2.0 * (pt - q) <= p as real
    ensures pt < m
  {
  }

  lemma AboveInReals(product: nat, q: nat)
    requires 2 * q - TWO_TO_THE_64 <= 2 * TWO_TO_THE_64 * product
    ensures q as real + TWO_TO_THE_63 as real <= (product + 1) as real * TWO_TO_THE_64 as real
  {
  }

  lemma Divide2(p: real, x: real)
    requires 0.0 <= p && 2.0 * x <= 1.0
    ensures 2.0 * (p * x) <= p
  {
  }

  // --- from the interval of the digit generation back to the double's neighbourhood ---

  lemma NoPower()
    ensures Pow(10, 0) == 1
  {
  }

  lemma IntervalAsReals(d: nat, x: int, unit: nat, lo: nat, hi: nat)
    requires InInterval(d, x, unit, lo, hi)
    ensures lo as real <= Times(Decimal(d, x), unit as real) <= hi as real
  {
    hide Scale, Pow;
    NoPower();
    if 0 <= x {
      ScaleOfNat(10, x);
      WholeMark(d, Pow(10, x), unit, Scale(10, x));
    } else {
      ScaleOfNegative(10, -x);
      FractionMark(d, Pow(10, -x), unit, lo, hi, Scale(10, x));
    }
  }

  lemma WholeMark(d: nat, ten: nat, unit: nat, s: real)
    requires s == ten as real
    ensures (d as real * s) * unit as real == (d * (ten * unit)) as real
  {
    ProductAsReal(ten, unit);
    ProductAsReal(d, ten * unit);
    var r, u := d as real, unit as real;
    assert (r * s) * u == r * (s * u);
  }

  lemma FractionMark(d: nat, ten: nat, unit: nat, lo: nat, hi: nat, s: real)
    requires lo * ten <= d * unit <= hi * ten && s * ten as real == 1.0 && 0.0 < s
    ensures lo as real <= (d as real * s) * unit as real <= hi as real
  {
    ProductAsReal(lo, ten);
    ProductAsReal(d, unit);
    ProductAsReal(hi, ten);
    var l, h, r, u, t := lo as real, hi as real, d as real, unit as real, ten as real;
    MultiplyBy(l * t, r * u, s);
    MultiplyBy(r * u, h * t, s);
    Unscale(l, t, s);
    Unscale(h, t, s);
    assert (r * u) * s == (r * s) * u;
  }

  lemma MultiplyBy(a: real, b: real, s: real)
    requires a <= b && 0.0 <= s
    ensures a * s <= b * s
  {
  }

  lemma MultiplyStrictly(a: real, b: real, s: real)
    requires a < b && 0.0 < s
    ensures a * s < b * s
  {
  }

  lemma Unscale(l: real, t: real, s: real)
    requires s * t == 1.0
    ensures (l * t) * s == l
  {
    assert (l * t) * s == l * (s * t);
  }

  /** How the scales of the input (a), the cached power (b), the product (e) and the powers of ten (s, i) fit together. */
  ghost predicate ScalesFit(a: real, b: real, e: real, u: real, s: real, i: real, t: real)
  {
    && 0.0 < a && 0.0 < b && 0.0 < e && 0.0 < i
    && e == Times(Times(a, b), TWO_TO_THE_64 as real) && u * e == 1.0 && s * i == 1.0 && t * b == s
  }

  lemma BelowUpperMidpoint(v: real, hi: real, plus: real, a: real, b: real, e: real, u: real, s: real, i: real, t: real)
    requires ScalesFit(a, b, e, u, s, i, t)
    requires Times(v, u) <= hi && Times(hi, TWO_TO_THE_64 as real) < Times(plus, t)
    ensures Times(v, i) < Times(plus, a)
  {
    MultiplyBy(v * u, hi, e);
    Unscale(v, u, e);
    MultiplyStrictly(hi * TWO_TO_THE_64 as real, plus * t, a * b);
    Rearrange(hi, plus, a, b, e, s, t);
    MultiplyStrictly(v, (plus * a) * s, i);
    Unscale(plus * a, s, i);
  }

  lemma AboveLowerMidpoint(v: real, lo: real, minus: real, a: real, b: real, e: real, u: real, s: real, i: real, t: real)
    requires ScalesFit(a, b, e, u, s, i, t)
    requires lo <= Times(v, u) && Times(minus, t) < Times(lo, TWO_TO_THE_64 as real)
    ensures Times(minus, a) < Times(v, i)
  {
    MultiplyBy(lo, v * u, e);
    Unscale(v, u, e);
    MultiplyStrictly(minus * t, lo * TWO_TO_THE_64 as real, a * b);
    Rearrange(lo, minus, a, b, e, s, t);
    MultiplyStrictly((minus * a) * s, v, i);
    Unscale(minus * a, s, i);
  }

  lemma Rearrange(hi: real, plus: real, a: real, b: real, e: real, s: real, t: real)
    requires e == Times(Times(a, b), TWO_TO_THE_64 as real) && t * b == s
    ensures (hi * TWO_TO_THE_64 as real) * (a * b) == hi * e
    ensures (plus * t) * (a * b) == (plus * a) * s
  {
    assert (plus * t) * (a * b) == (plus * a) * (t * b);
  }

  lemma ProductScale(x: int, y: int)
    ensures Scale(2, x + y + 64) == Times(Times(Scale(2, x), Scale(2, y)), TWO_TO_THE_64 as real)
  {
    SixtyFour();
    ScaleOfNat(2, 64);
    hide Scale, Pow, Times;
    ScaleSumAsTimes(2, x, y);
    ScaleSumAsTimes(2, x + y, 64);
  }

  lemma InverseTen(k: int)
    ensures Scale(10, k) * Scale(10, -k) == 1.0
  {
    SixtyFour();
    hide Scale;
    ScaleSum(10, k, -k);
  }

  lemma ScalesOf(plusE: int, c: CachedPower, e: int)
    requires e == plusE + c.e + 64 && -60 <= e <= -32
    ensures ScalesFit(Scale(2, plusE), Scale(2, c.e), Scale(2, e), Pow(2, -e) as real,
                      Scale(10, c.k), Scale(10, -c.k), ExactPower(c))
  {
    hide Scale, ExactPower, Pow;
    ScaleOfNegative(2, -e);
    ProductScale(plusE, c.e);
    InverseTen(c.k);
  }

  lemma SixtyFour()
    ensures Pow(2, 64) == TWO_TO_THE_64 && Scale(10, 0) == 1.0
  {
    UnitRange(-32);
    PowAdd(2, 32, 32);
    assert Pow(10, 0) == 1;
  }

  // --- the printer ---

  /** The digits denote a number strictly between the midpoints to the two neighbouring doubles. */
  ghost predicate BetweenMidpoints(digits: string, x: int, bits: nat)
    requires 0 < bits < INFINITY && AllDigits(digits)
  {
    Midpoint(bits - 1) < Decimal(NumberOf(digits), x) < Midpoint(bits)
  }

  /** The scaled interval [M-, M+] and what the digit generation may assume about it. */
  lemma ScaledInterval(b: Bounds, c: CachedPower, w: DiyFp, wMinus: DiyFp, wPlus: DiyFp)
    requires 512 <= b.w.f - b.minus.f && 512 <= b.plus.f - b.w.f && TWO_TO_THE_63 <= b.plus.f
    requires 1536 <= b.plus.f - b.minus.f && b.plus.f < 2 * HIDDEN_BIT * (b.plus.f - b.minus.f)
    requires TWO_TO_THE_63 <= c.f
    requires w.f == (b.w.f * c.f + TWO_TO_THE_63) / TWO_TO_THE_64
    requires wMinus.f == (b.minus.f * c.f + TWO_TO_THE_63) / TWO_TO_THE_64
    requires wPlus.f == (b.plus.f * c.f + TWO_TO_THE_63) / TWO_TO_THE_64
    ensures wMinus.f + 1 <= w.f <= wPlus.f - 1 && 0x1000_0000_0000_0000 <= wPlus.f - 1
    ensures wPlus.f - 1 <= 1_0000_0000_0000_0000 * (wPlus.f - wMinus.f - 2)
  {
    GapOfProducts(b.w.f, b.minus.f, c.f, 512);
    GapOfProducts(b.plus.f, b.w.f, c.f, 512);
    GapOfProducts(b.plus.f, b.minus.f, c.f, 1536);
    WideProducts(b.plus.f, b.minus.f, c.f);
  }

  lemma GapOfProducts(x: nat, y: nat, c: nat, gap: nat)
    requires gap <= x - y && TWO_TO_THE_63 <= c
    ensures gap * TWO_TO_THE_63 <= x * c - y * c
  {
    MulMonotone(c, gap, x - y);
    MulMonotone(gap, TWO_TO_THE_63, c);
    assert (x - y) * c == x * c - y * c;
  }

  lemma WideProducts(x: nat, y: nat, c: nat)
    requires TWO_TO_THE_63 <= x && TWO_TO_THE_63 <= c && y <= x && x < 2 * HIDDEN_BIT * (x - y)
    ensures x * c <= 2 * HIDDEN_BIT * (x * c - y * c)
    ensures TWO_TO_THE_63 * TWO_TO_THE_63 <= x * c
  {
    MulMonotone(c, x, 2 * HIDDEN_BIT * (x - y));
    assert (x - y) * c == x * c - y * c;
    MulMonotone(c, TWO_TO_THE_63, x);
    MulMonotone(TWO_TO_THE_63, TWO_TO_THE_63, c);
  }

  lemma UpperImage(plus: DiyFp, c: CachedPower, wPlus: DiyFp)
    requires Accurate(c) && wPlus == Mul(plus, DiyFp(c.f, c.e))
    ensures Times((wPlus.f - 1) as real, TWO_TO_THE_64 as real) < Times(plus.f as real, ExactPower(c))
  {
    hide ExactPower, Accurate, Mul, Times;
    CachedIsClose(c);
    MulIsWithinHalfAUnit(plus, DiyFp(c.f, c.e));
    UpperStaysBelow(plus.f, c.f, ExactPower(c), wPlus.f);
  }

  lemma LowerImage(minus: DiyFp, c: CachedPower, wMinus: DiyFp)
    requires Accurate(c) && wMinus == Mul(minus, DiyFp(c.f, c.e))
    ensures Times(minus.f as real, ExactPower(c)) < Times((wMinus.f + 1) as real, TWO_TO_THE_64 as real)
  {
    hide ExactPower, Accurate, Mul, Times;
    CachedIsClose(c);
    MulIsWithinHalfAUnit(minus, DiyFp(c.f, c.e));
    LowerStaysAbove(minus.f, c.f, ExactPower(c), wMinus.f);
  }

  lemma UpperHalf(plus: DiyFp, c: CachedPower, wPlus: DiyFp, d: nat, x: int, lo: nat)
    requires Accurate(c) && wPlus == Mul(plus, DiyFp(c.f, c.e)) && -60 <= wPlus.e <= -32 && 0 < wPlus.f
    requires InInterval(d, x + c.k, Pow(2, -wPlus.e), lo, wPlus.f - 1)
    ensures Decimal(d, x) < plus.Value()
  {
    hide *;
    UpperImage(plus, c, wPlus);
    IntervalAsReals(d, x + c.k, Pow(2, -wPlus.e), lo, wPlus.f - 1);
    ScalesOf(plus.e, c, wPlus.e);
    BelowUpperMidpoint(Decimal(d, x + c.k), (wPlus.f - 1) as real, plus.f as real, Scale(2, plus.e), Scale(2, c.e),
                       Scale(2, wPlus.e), Pow(2, -wPlus.e) as real, Scale(10, c.k), Scale(10, -c.k), ExactPower(c));
    Rescale(d, x, c.k);
    ValueIs(plus);
  }

  lemma LowerHalf(minus: DiyFp, c: CachedPower, wMinus: DiyFp, d: nat, x: int, hi: nat)
    requires Accurate(c) && wMinus == Mul(minus, DiyFp(c.f, c.e)) && -60 <= wMinus.e <= -32
    requires InInterval(d, x + c.k, Pow(2, -wMinus.e), wMinus.f + 1, hi)
    ensures minus.Value() < Decimal(d, x)
  {
    hide *;
    LowerImage(minus, c, wMinus);
    IntervalAsReals(d, x + c.k, Pow(2, -wMinus.e), wMinus.f + 1, hi);
    ScalesOf(minus.e, c, wMinus.e);
    AboveLowerMidpoint(Decimal(d, x + c.k), (wMinus.f + 1) as real, minus.f as real, Scale(2, minus.e), Scale(2, c.e),
                       Scale(2, wMinus.e), Pow(2, -wMinus.e) as real, Scale(10, c.k), Scale(10, -c.k), ExactPower(c));
    Rescale(d, x, c.k);
    ValueIs(minus);
  }

  lemma ValueIs(x: DiyFp)
    ensures x.Value() == Times(x.f as real, Scale(2, x.e))
  {
  }

  lemma RoundTrip(b: Bounds, c: CachedPower, wMinus: DiyFp, wPlus: DiyFp, digits: string, x: int, bits: nat)
    requires 0 < bits < INFINITY && AllDigits(digits) && Accurate(c)
    requires b.minus.Value() == Midpoint(bits - 1) && b.plus.Value() == Midpoint(bits) && b.minus.e == b.plus.e
    requires wMinus == Mul(b.minus, DiyFp(c.f, c.e)) && wPlus == Mul(b.plus, DiyFp(c.f, c.e))
    requires -60 <= wPlus.e <= -32 && 0 < wPlus.f
    requires InInterval(NumberOf(digits), x + c.k, Pow(2, -wPlus.e), wMinus.f + 1, wPlus.f - 1)
    ensures BetweenMidpoints(digits, x, bits)
  {
    hide ValueOf, InInterval, Accurate, Pow, Midpoint, Decimal;
    UpperHalf(b.plus, c, wPlus, NumberOf(digits), x, wMinus.f + 1);
    LowerHalf(b.minus, c, wMinus, NumberOf(digits), x, wPlus.f - 1);
  }

  lemma Rescale(d: nat, x: int, k: int)
    ensures Times(Decimal(d, x + k), Scale(10, -k)) == Decimal(d, x)
  {
    hide Scale;
    ScaleSum(10, x + k, -k);
    Reassociate(d as real, Scale(10, x + k), Scale(10, -k), Scale(10, x));
  }

  lemma Reassociate(d: real, s: real, i: real, p: real)
    requires p == s * i
    ensures (d * s) * i == d * p
  {
    assert (d * s) * i == d * (s * i);
  }

  /** Prints a finite positive double: at most seventeen digits, none other than this double being as near to the result. */
  method Grisu2(buf: array<char>, bits: uint64) returns (len: nat, decimalExponent: int)
    requires 0 < bits < INFINITY && 17 <= buf.Length
    modifies buf
    ensures 1 <= len <= 17 && AllDigits(buf[..len]) && buf[0] != '0' && buf[len - 1] != '0'
    ensures -341 < decimalExponent <= 310
    ensures BetweenMidpoints(buf[..len], decimalExponent, bits)
    ensures forall other: nat :: other <= INFINITY && other != bits ==>
      Gap(Decimal(NumberOf(buf[..len]), decimalExponent), DoubleValue(bits))
      < Gap(Decimal(NumberOf(buf[..len]), decimalExponent), DoubleValue(other))
  {
    hide Midpoint, DoubleValue, Accurate, InInterval, Shortest, Closest, Decimal;
    var b := ComputeBoundaries(bits);
    var cached := CachedPowerForBinaryExponent(b.plus.e).value;
    var cMinusK := DiyFp(cached.f, cached.e);
    var w := Mul(b.w, cMinusK);
    var wMinus := Mul(b.minus, cMinusK);
    var wPlus := Mul(b.plus, cMinusK);
    ScaledInterval(b, cached, w, wMinus, wPlus);
    var mMinus := DiyFp(wMinus.f + 1, wMinus.e);
    var mPlus := DiyFp(wPlus.f - 1, wPlus.e);
    decimalExponent := -cached.k;
    UnitRange(mPlus.e);
    TenToThe16();
    len, decimalExponent := Grisu2DigitGen(buf, mMinus, w, mPlus, decimalExponent);
    LastDigitIsNotZero(buf[..len], decimalExponent + cached.k, Pow(2, -mPlus.e), mMinus.f, w.f, mPlus.f);
    RoundTrip(b, cached, wMinus, wPlus, buf[..len], decimalExponent, bits);
    ghost var v := Decimal(NumberOf(buf[..len]), decimalExponent);
    forall other: nat | other <= INFINITY && other != bits
      ensures Gap(v, DoubleValue(bits)) < Gap(v, DoubleValue(other))
    {
      NearestDouble(bits, other, v);
    }
  }

  lemma TenToThe16()
    ensures Pow(10, 16) == 1_0000_0000_0000_0000
  {
    PowAdd(10, 8, 8);
    assert Pow(10, 8) == 1_0000_0000;
  }
}