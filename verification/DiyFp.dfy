/** The 64-bit "do-it-yourself" floating point numbers Grisu2 computes with: f * 2^e. */
module DiyFps {
  import opened Powers

  const TWO_TO_THE_32: int := 0x1_0000_0000
  const TWO_TO_THE_63: int := 0x8000_0000_0000_0000
  const TWO_TO_THE_64: int := 0x1_0000_0000_0000_0000

  /** Every intermediate result of the 64-bit code is given this type, so that verifying it excludes wrap-around. */
  type uint64 = x: int | 0 <= x < 0x1_0000_0000_0000_0000
  type uint32 = x: int | 0 <= x < 0x1_0000_0000

  /** The number f * 2^e. */
  ghost function ValueOf(f: nat, e: int): real
  {
    f as real * Scale(2, e)
  }

  datatype DiyFp = DiyFp(f: uint64, e: int) {
    ghost function Value(): real {
      ValueOf(f, e)
    }
  }

  lemma ValueOfTwice(f: nat, e: int)
    ensures ValueOf(2 * f, e - 1) == ValueOf(f, e)
  {
    hide Scale;
    ScaleShift(2, e, 1);
    assert Pow(2, 1) == 2;
    Regroup(f, Scale(2, e), Scale(2, e - 1));
  }

  lemma Regroup(f: nat, s: real, t: real)
    requires s == 2.0 * t
    ensures (2 * f) as real * t == f as real * s
  {
  }

  function Sub(x: DiyFp, y: DiyFp): (r: DiyFp)
    requires x.e == y.e && y.f <= x.f
    ensures r.e == x.e && r.f + y.f == x.f
  {
    DiyFp(x.f - y.f, x.e)
  }

  /** The upper 64 bits of the 128-bit product, rounded with ties up, from four 32-bit partial products. */
  function Mul(x: DiyFp, y: DiyFp): (r: DiyFp)
    ensures r.e == x.e + y.e + 64
    ensures r.f == (x.f * y.f + TWO_TO_THE_63) / TWO_TO_THE_64
  {
    var uLo: uint32 := x.f % TWO_TO_THE_32;
    var uHi: uint32 := x.f / TWO_TO_THE_32;
    var vLo: uint32 := y.f % TWO_TO_THE_32;
    var vHi: uint32 := y.f / TWO_TO_THE_32;
    Product32Fits(uLo, vLo);
    Product32Fits(uLo, vHi);
    Product32Fits(uHi, vLo);
    Product32Fits(uHi, vHi);
    var p0: uint64 := uLo * vLo;
    var p1: uint64 := uLo * vHi;
    var p2: uint64 := uHi * vLo;
    var p3: uint64 := uHi * vHi;
    var p0Hi: uint32 := p0 / TWO_TO_THE_32;
    var p1Lo: uint32 := p1 % TWO_TO_THE_32;
    var p1Hi: uint32 := p1 / TWO_TO_THE_32;
    var p2Lo: uint32 := p2 % TWO_TO_THE_32;
    var p2Hi: uint32 := p2 / TWO_TO_THE_32;
    var q: uint64 := p0Hi + p1Lo + p2Lo;
    var qRounded: uint64 := q + 0x8000_0000;
    ProductOfHalves(uLo, uHi, vLo, vHi);
    HighWordOfProduct(x.f * y.f, p0, p1, p2, p3);
    var h: uint64 := p3 + p2Hi + p1Hi + qRounded / TWO_TO_THE_32;
    DiyFp(h, x.e + y.e + 64)
  }

  lemma Product32Fits(a: uint32, b: uint32)
    ensures 0 <= a * b <= 0xFFFF_FFFF * 0xFFFF_FFFF
  {
    MulMonotone(a, b, 0xFFFF_FFFF);
    MulMonotone(0xFFFF_FFFF, a, 0xFFFF_FFFF);
  }

  lemma ProductOfHalves(uLo: int, uHi: int, vLo: int, vHi: int)
    ensures (uLo + TWO_TO_THE_32 * uHi) * (vLo + TWO_TO_THE_32 * vHi)
         == uLo * vLo + TWO_TO_THE_32 * (uLo * vHi + uHi * vLo) + TWO_TO_THE_64 * (uHi * vHi)
  {
  }

  lemma HighWordOfProduct(p: nat, p0: nat, p1: nat, p2: nat, p3: nat)
    requires p == p0 + TWO_TO_THE_32 * (p1 + p2) + TWO_TO_THE_64 * p3
    ensures (p + TWO_TO_THE_63) / TWO_TO_THE_64
         == p3 + p2 / TWO_TO_THE_32 + p1 / TWO_TO_THE_32
            + (p0 / TWO_TO_THE_32 + p1 % TWO_TO_THE_32 + p2 % TWO_TO_THE_32 + 0x8000_0000) / TWO_TO_THE_32
  {
  }

  /** Rounding to the nearest integer: the computed high word is within half a unit of the exact product. */
  lemma MulIsWithinHalfAUnit(x: DiyFp, y: DiyFp)
    ensures 2 * x.f * y.f - TWO_TO_THE_64 <= 2 * TWO_TO_THE_64 * Mul(x, y).f <= 2 * x.f * y.f + TWO_TO_THE_64
  {
    var p := x.f * y.f;
    assert 2 * x.f * y.f == 2 * p;
  }

  /** r is x with its significand shifted left and its exponent lowered to match. */
  ghost predicate IsShiftOf(r: DiyFp, x: DiyFp)
  {
    r.e <= x.e && r.f == x.f * Pow(2, x.e - r.e)
  }

  /** Shifts the significand left until its top bit is set. */
  method Normalize(x: DiyFp) returns (r: DiyFp)
    requires x.f != 0
    ensures TWO_TO_THE_63 <= r.f && IsShiftOf(r, x)
  {
    r := x;
    while r.f / TWO_TO_THE_63 == 0
      invariant r.f != 0 && IsShiftOf(r, x)
      decreases TWO_TO_THE_64 - r.f
    {
      ShiftOnce(x.f, x.e - r.e);
      r := DiyFp(r.f * 2, r.e - 1);
    }
  }

  lemma ShiftOnce(f: nat, n: nat)
    ensures f * Pow(2, n + 1) == f * Pow(2, n) * 2
  {
  }

  /** Re-expresses x with a smaller exponent; the shift loses no bit. */
  function NormalizeTo(x: DiyFp, target: int): (r: DiyFp)
    requires target <= x.e && x.f * Pow(2, x.e - target) < TWO_TO_THE_64
    ensures r.e == target && IsShiftOf(r, x)
  {
    DiyFp(x.f * Pow(2, x.e - target), target)
  }

  lemma ShiftKeepsValue(r: DiyFp, x: DiyFp)
    requires IsShiftOf(r, x)
    ensures r.Value() == x.Value()
  {
    hide Scale;
    var n := x.e - r.e;
    ScaleShift(2, x.e, n);
    ShiftedProduct(x.f, Pow(2, n), r.f, Scale(2, r.e), Scale(2, x.e));
  }

  lemma ShiftedProduct(f: nat, p: nat, g: nat, s: real, t: real)
    requires g == f * p && t == s * p as real
    ensures g as real * s == f as real * t
  {
    ProductAsReal(f, p);
    var a, b := f as real, p as real;
    assert (a * b) * s == a * (s * b);
  }
}
