/** Finite IEEE 754 doubles as bit patterns, and the midpoints to their neighbours. */
module Boundaries {
  import opened Powers
  import opened DiyFps

  const HIDDEN_BIT: int := 0x10_0000_0000_0000

  /** Patterns 0 .. INFINITY-1 are the finite non-negative doubles in increasing order of value. */
  const INFINITY: int := 0x7FF0_0000_0000_0000

  function Fraction(bits: nat): (f: nat)
  {
    bits % HIDDEN_BIT
  }

  function BiasedExponent(bits: nat): (e: nat)
  {
    bits / HIDDEN_BIT
  }

  function Significand(bits: nat): (f: nat)
  {
    if BiasedExponent(bits) == 0 then Fraction(bits) else HIDDEN_BIT + Fraction(bits)
  }

  function Exponent(bits: nat): (e: int)
  {
    if BiasedExponent(bits) == 0 then -1074 else BiasedExponent(bits) - 1075
  }

  /** The value IEEE 754 gives the pattern; INFINITY itself stands for 2^1024, where overflow begins. */
  ghost function DoubleValue(bits: nat): real
  {
    ValueOf(Significand(bits), Exponent(bits))
  }

  /**
   * Section 3.4 of IEEE 754: with a fraction f of 52 bits and a biased exponent e, (1 + f / 2^52) * 2^(e - 1023), and
   * f / 2^52 * 2^-1022 where e is 0.
   */
  lemma IsBinary64(bits: nat)
    ensures var f, e := (bits % 0x10_0000_0000_0000) as real / 4503599627370496.0, bits / 0x10_0000_0000_0000;
            DoubleValue(bits) == if e == 0 then f * Scale(2, -1022) else (1.0 + f) * Scale(2, e - 1023)
  {
    hide Scale, Pow;
    var exponent := Exponent(bits);
    FiftyTwo();
    ScaleShift(2, exponent + 52, 52);
    assert exponent + 52 - 52 == exponent;
    assert 0x10_0000_0000_0000 as real == 4503599627370496.0;
    FractionOf(Significand(bits), Scale(2, exponent), Scale(2, exponent + 52));
  }

  lemma FiftyTwo()
    ensures Pow(2, 52) as real == 4503599627370496.0
  {
    assert Pow(2, 13) == 8192;
    PowAdd(2, 13, 13);
    PowAdd(2, 26, 26);
  }

  lemma FractionOf(f: nat, s: real, t: real)
    requires t == s * 4503599627370496.0
    ensures f as real * s == f as real / 4503599627370496.0 * t
  {
  }

  /** Exactly half way between two neighbouring doubles. */
  ghost function Midpoint(bits: nat): real
  {
    (DoubleValue(bits) + DoubleValue(bits + 1)) / 2.0
  }

  /** In units of a quarter of the smaller pattern's last place, neighbours are four apart. */
  lemma MidpointInQuarters(bits: nat)
    requires bits < INFINITY
    ensures Midpoint(bits) == ValueOf(4 * Significand(bits) + 2, Exponent(bits) - 2)
  {
    hide ValueOf;
    var f, e := Significand(bits), Exponent(bits);
    InQuarters(f, e);
    if Exponent(bits + 1) == e {
      InQuarters(f + 1, e);
    } else {
      assert f == 2 * HIDDEN_BIT - 1 && Exponent(bits + 1) == e + 1;
      ValueOfTwice(HIDDEN_BIT, e + 1);
      InQuarters(f + 1, e);
    }
    MeanOf(4 * f, e - 2);
  }

  lemma InQuarters(f: nat, e: int)
    ensures ValueOf(f, e) == ValueOf(4 * f, e - 2)
  {
    hide ValueOf;
    ValueOfTwice(f, e);
    ValueOfTwice(2 * f, e - 1);
  }

  lemma MeanOf(f: nat, e: int)
    ensures (ValueOf(f, e) + ValueOf(f + 4, e)) / 2.0 == ValueOf(f + 2, e)
  {
    hide Scale;
  }

  datatype Bounds = Bounds(w: DiyFp, minus: DiyFp, plus: DiyFp)

  lemma FactorAtMost(f: nat, p: nat, q: nat)
    requires p <= q
    ensures f * p <= f * q
  {
  }

  lemma PowTwoSteps(n: nat)
    ensures Pow(2, n + 1) == 2 * Pow(2, n) && Pow(2, n + 2) == 4 * Pow(2, n)
  {
  }

  lemma PowersOfTwoUpTo32()
    ensures Pow(2, 8) == 256 && Pow(2, 32) == TWO_TO_THE_32
  {
    assert Pow(2, 8) == 256;
    PowAdd(2, 8, 8);
    PowAdd(2, 16, 16);
  }

  lemma PowersOfTwo()
    ensures Pow(2, 9) == 512 && Pow(2, 10) == 1024 && Pow(2, 63) == TWO_TO_THE_63
  {
    PowTwoSteps(8);
    PowersOfTwoUpTo32();
    hide Pow;
    PowAdd(2, 32, 32);
    PowTwoSteps(63);
  }

  lemma OddMultiple(f: nat, p: nat)
    ensures (2 * f + 1) * p == 2 * (f * p) + p
    ensures f * (2 * p) == 2 * (f * p) && f * (4 * p) == 4 * (f * p)
  {
  }

  /** Normalizing f and 2f+1 stops one shift apart: only an odd number equal to a power of two could differ. */
  lemma ShiftsDifferByOne(f: nat, n: nat, z: nat)
    requires 0 < f
    requires TWO_TO_THE_63 <= f * Pow(2, z) < TWO_TO_THE_64
    requires TWO_TO_THE_63 <= (2 * f + 1) * Pow(2, n) < TWO_TO_THE_64
    ensures z == n + 1
  {
    hide Pow;
    var p := Pow(2, n);
    OddMultiple(f, p);
    PowTwoSteps(n);
    if z <= n {
      PowMonotone(2, z, n);
      FactorAtMost(f, Pow(2, z), p);
    } else if n + 2 <= z {
      PowMonotone(2, n + 2, z);
      FactorAtMost(f, 4 * p, Pow(2, z));
      OddIsNoPower(f, n);
    }
  }

  lemma OddIsNoPower(f: nat, n: nat)
    requires 0 < f
    requires TWO_TO_THE_63 <= 2 * (f * Pow(2, n)) + Pow(2, n) < TWO_TO_THE_64
    ensures TWO_TO_THE_63 <= 2 * (f * Pow(2, n))
  {
    hide Pow;
    OddMultiple(f, Pow(2, n));
    ShiftIsShort(f, n);
    PowAdd(2, n, 63 - n);
    PowersOfTwo();
    PowTwoSteps(62 - n);
    NoOddMultiple(f, Pow(2, n), Pow(2, 62 - n));
  }

  lemma NoOddMultiple(f: nat, p: nat, half: nat)
    requires 0 < p && p * (2 * half) == TWO_TO_THE_63 <= 2 * (f * p) + p
    ensures TWO_TO_THE_63 <= 2 * (f * p)
  {
    OddMultiple(half, p);
    if half <= f {
      FactorAtMost(p, half, f);
    } else {
      FactorAtMost(p, f + 1, half);
    }
  }

  lemma ShiftIsShort(f: nat, n: nat)
    requires 0 < f && (2 * f + 1) * Pow(2, n) < TWO_TO_THE_64
    ensures n <= 62
  {
    hide Pow;
    PowersOfTwo();
    FactorAtMost(Pow(2, n), 3, 2 * f + 1);
    if 63 <= n {
      PowMonotone(2, 63, n);
    }
  }

  lemma ShiftIsLong(f: nat, n: nat)
    requires f < 2 * HIDDEN_BIT && TWO_TO_THE_63 <= (2 * f + 1) * Pow(2, n)
    ensures 10 <= n && 1024 <= Pow(2, n)
  {
    hide Pow;
    PowersOfTwo();
    if n <= 9 {
      PowMonotone(2, n, 9);
      FactorAtMost(2 * f + 1, Pow(2, n), 512);
    } else {
      PowMonotone(2, 10, n);
    }
  }

  /** The pattern as a normalized DiyFp, with both midpoints expressed exactly under the same exponent. */
  method ComputeBoundaries(bits: uint64) returns (b: Bounds)
    requires 0 < bits < INFINITY
    ensures b.w.Value() == DoubleValue(bits)
    ensures b.minus.Value() == Midpoint(bits - 1) && b.plus.Value() == Midpoint(bits)
    ensures b.minus.e == b.w.e == b.plus.e && -1137 <= b.plus.e <= 960
    ensures TWO_TO_THE_63 <= b.w.f && 512 <= b.w.f - b.minus.f && 512 <= b.plus.f - b.w.f
    ensures 1536 <= b.plus.f - b.minus.f && b.plus.f < 2 * HIDDEN_BIT * (b.plus.f - b.minus.f)
  {
    hide IsShiftOf;
    var biased := bits / HIDDEN_BIT;
    var fraction := bits % HIDDEN_BIT;
    var v := if biased == 0 then DiyFp(fraction, -1074) else DiyFp(fraction + HIDDEN_BIT, biased - 1075);
    var lowerBoundaryIsCloser := fraction == 0 && biased > 1;
    var mPlus := DiyFp(2 * v.f + 1, v.e - 1);
    var mMinus := if lowerBoundaryIsCloser then DiyFp(4 * v.f - 1, v.e - 2) else DiyFp(2 * v.f - 1, v.e - 1);
    var wPlus := Normalize(mPlus);
    var w := Normalize(v);
    ShiftedBounds(v, mPlus, mMinus, w, wPlus);
    var wMinus := NormalizeTo(mMinus, wPlus.e);
    b := Bounds(w, wMinus, wPlus);
    ShiftedGap(v, mPlus, mMinus, b);
    BoundaryValues(bits, v, mPlus, mMinus);
    ShiftKeepsValue(w, v);
    ShiftKeepsValue(wPlus, mPlus);
    ShiftKeepsValue(wMinus, mMinus);
  }

  ghost predicate Unnormalized(v: DiyFp, mPlus: DiyFp, mMinus: DiyFp)
  {
    && 0 < v.f < 2 * HIDDEN_BIT && -1074 <= v.e <= 971
    && mPlus == DiyFp(2 * v.f + 1, v.e - 1)
    && (mMinus == DiyFp(2 * v.f - 1, v.e - 1) || (v.f == HIDDEN_BIT && mMinus == DiyFp(4 * v.f - 1, v.e - 2)))
  }

  lemma ShiftedBounds(v: DiyFp, mPlus: DiyFp, mMinus: DiyFp, w: DiyFp, wPlus: DiyFp)
    requires Unnormalized(v, mPlus, mMinus)
    requires IsShiftOf(w, v) && IsShiftOf(wPlus, mPlus) && TWO_TO_THE_63 <= w.f && TWO_TO_THE_63 <= wPlus.f
    ensures w.e == wPlus.e && -1137 <= wPlus.e <= 960
    ensures wPlus.e <= mMinus.e && mMinus.f * Pow(2, mMinus.e - wPlus.e) < TWO_TO_THE_64
  {
    var n := mPlus.e - wPlus.e;
    ShiftsDifferByOne(v.f, n, v.e - w.e);
    ShiftIsLong(v.f, n);
    ShiftIsShort(v.f, n);
    SignificandsAfterShift(v.f, n, mMinus.e < mPlus.e);
  }

  lemma ShiftedGap(v: DiyFp, mPlus: DiyFp, mMinus: DiyFp, b: Bounds)
    requires Unnormalized(v, mPlus, mMinus)
    requires IsShiftOf(b.w, v) && IsShiftOf(b.plus, mPlus) && IsShiftOf(b.minus, mMinus)
    requires b.minus.e == b.w.e == b.plus.e && TWO_TO_THE_63 <= b.plus.f
    ensures 512 <= b.w.f - b.minus.f && 512 <= b.plus.f - b.w.f
    ensures 1536 <= b.plus.f - b.minus.f && b.plus.f < 2 * HIDDEN_BIT * (b.plus.f - b.minus.f)
  {
    ShiftIsLong(v.f, mPlus.e - b.plus.e);
    SignificandsAfterShift(v.f, mPlus.e - b.plus.e, mMinus.e < mPlus.e);
  }

  /** The three significands after shifting 2f+1 by n, and the gap Grisu2 relies on. */
  lemma SignificandsAfterShift(f: nat, n: nat, closer: bool)
    requires 1 <= n && 1024 <= Pow(2, n) && 0 < f < 2 * HIDDEN_BIT && (closer ==> f == HIDDEN_BIT)
    ensures var plus, w := (2 * f + 1) * Pow(2, n), f * Pow(2, n + 1);
            var minus := if closer then (4 * f - 1) * Pow(2, n - 1) else (2 * f - 1) * Pow(2, n);
            && 0 <= minus && 512 <= w - minus && 512 <= plus - w
            && 1536 <= plus - minus && plus < 2 * HIDDEN_BIT * (plus - minus)
  {
    hide Pow;
    PowTwoSteps(n - 1);
    if closer {
      CloserSignificands(Pow(2, n - 1));
    } else {
      EvenSignificands(f, Pow(2, n));
    }
  }

  lemma CloserSignificands(p: nat)
    requires 512 <= p
    ensures var f := HIDDEN_BIT;
            && 512 <= f * (4 * p) - (4 * f - 1) * p && 512 <= (2 * f + 1) * (2 * p) - f * (4 * p)
            && 1536 <= (2 * f + 1) * (2 * p) - (4 * f - 1) * p
            && (2 * f + 1) * (2 * p) < 2 * f * ((2 * f + 1) * (2 * p) - (4 * f - 1) * p)
  {
  }

  lemma EvenSignificands(f: nat, p: nat)
    requires 1024 <= p && 0 < f < 2 * HIDDEN_BIT
    ensures 0 <= (2 * f - 1) * p && 512 <= f * (2 * p) - (2 * f - 1) * p && 512 <= (2 * f + 1) * p - f * (2 * p)
    ensures 1536 <= (2 * f + 1) * p - (2 * f - 1) * p
    ensures (2 * f + 1) * p < 2 * HIDDEN_BIT * ((2 * f + 1) * p - (2 * f - 1) * p)
  {
    var q := f * p;
    FactorAtMost(p, 1, f);
    FactorAtMost(p, f, 2 * HIDDEN_BIT - 1);
    OddMultiple(f, p);
    assert (2 * f - 1) * p == 2 * q - p;
  }

  lemma BoundaryValues(bits: nat, v: DiyFp, mPlus: DiyFp, mMinus: DiyFp)
    requires 0 < bits < INFINITY
    requires v.f == Significand(bits) && v.e == Exponent(bits)
    requires mPlus == DiyFp(2 * v.f + 1, v.e - 1)
    requires mMinus == if Fraction(bits) == 0 && BiasedExponent(bits) > 1
                       then DiyFp(4 * v.f - 1, v.e - 2) else DiyFp(2 * v.f - 1, v.e - 1)
    ensures v.Value() == DoubleValue(bits)
    ensures mPlus.Value() == Midpoint(bits) && mMinus.Value() == Midpoint(bits - 1)
  {
    UpperBoundaryValue(bits, v, mPlus);
    LowerBoundaryValue(bits, v, mMinus);
  }

  lemma UpperBoundaryValue(bits: nat, v: DiyFp, mPlus: DiyFp)
    requires bits < INFINITY
    requires v.f == Significand(bits) && v.e == Exponent(bits) && mPlus == DiyFp(2 * v.f + 1, v.e - 1)
    ensures mPlus.Value() == Midpoint(bits)
  {
    hide ValueOf;
    MidpointInQuarters(bits);
    ValueOfTwice(mPlus.f, mPlus.e);
  }

  lemma LowerBoundaryValue(bits: nat, v: DiyFp, mMinus: DiyFp)
    requires 0 < bits < INFINITY
    requires v.f == Significand(bits) && v.e == Exponent(bits)
    requires mMinus == if Fraction(bits) == 0 && BiasedExponent(bits) > 1
                       then DiyFp(4 * v.f - 1, v.e - 2) else DiyFp(2 * v.f - 1, v.e - 1)
    ensures mMinus.Value() == Midpoint(bits - 1)
  {
    hide ValueOf;
    MidpointInQuarters(bits - 1);
    ValueOfTwice(mMinus.f, mMinus.e);
  }

  /** Larger patterns are larger doubles. */
  lemma {:induction false} DoubleValueIncreases(a: nat, b: nat)
    requires a < b <= INFINITY
    ensures DoubleValue(a) < DoubleValue(b)
    decreases b - a
  {
    hide DoubleValue;
    NeighbourIsLarger(b - 1);
    if a < b - 1 {
      DoubleValueIncreases(a, b - 1);
    }
  }

  lemma NeighbourIsLarger(bits: nat)
    requires bits < INFINITY
    ensures DoubleValue(bits) < Midpoint(bits) < DoubleValue(bits + 1)
  {
    InQuarters(Significand(bits), Exponent(bits));
    MidpointInQuarters(bits);
    ValueOfIncreases(4 * Significand(bits), 4 * Significand(bits) + 2, Exponent(bits) - 2);
  }

  lemma ValueOfIncreases(f: nat, g: nat, e: int)
    requires f < g
    ensures ValueOf(f, e) < ValueOf(g, e)
  {
    hide Scale;
    Monotone(f as real, g as real, Scale(2, e));
  }

  lemma Monotone(x: real, y: real, s: real)
    requires x < y && 0.0 < s
    ensures x * s < y * s
  {
  }

  ghost function Gap(x: real, y: real): real
  {
    if x <= y then y - x else x - y
  }

  /** A number strictly between the two midpoints is nearer to this double than to any other. */
  lemma NearestDouble(bits: nat, other: nat, v: real)
    requires 0 < bits < INFINITY && other <= INFINITY && other != bits
    requires Midpoint(bits - 1) < v < Midpoint(bits)
    ensures Gap(v, DoubleValue(bits)) < Gap(v, DoubleValue(other))
  {
    NeighbourIsLarger(bits - 1);
    NeighbourIsLarger(bits);
    hide DoubleValue;
    if other < bits - 1 {
      DoubleValueIncreases(other, bits - 1);
    } else if bits + 1 < other {
      DoubleValueIncreases(bits + 1, other);
    }
  }
}
