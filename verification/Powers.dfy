/** Powers of natural numbers, and their extension to negative exponents as reals. */
module Powers {

  function Pow(b: nat, n: nat): (p: nat)
    ensures 0 < b ==> 0 < p
  {
    if n == 0 then 1 else b * Pow(b, n - 1)
  }

  lemma {:induction false} PowAdd(b: nat, m: nat, n: nat)
    ensures Pow(b, m + n) == Pow(b, m) * Pow(b, n)
  {
    if m == 0 {
    } else {
      PowAdd(b, m - 1, n);
      assert b * (Pow(b, m - 1) * Pow(b, n)) == (b * Pow(b, m - 1)) * Pow(b, n);
    }
  }

  lemma {:induction false} PowMonotone(b: nat, m: nat, n: nat)
    requires 0 < b && m <= n
    ensures 0 < Pow(b, m) <= Pow(b, n)
  {
    PowAdd(b, m, n - m);
    MulMonotone(Pow(b, m), 1, Pow(b, n - m));
  }

  lemma MulMonotone(a: nat, x: int, y: int)
    requires x <= y
    ensures a * x <= a * y
  {
  }

  /** b to the power e, for exponents of either sign. */
  ghost function Scale(b: nat, e: int): (s: real)
    requires 0 < b
    ensures 0.0 < s
  {
    if 0 <= e then Pow(b, e) as real else Inverse(Pow(b, -e))
  }

  ghost function Inverse(p: nat): (r: real)
    requires 0 < p
    ensures 0.0 < r && r * p as real == 1.0
  {
    1.0 / p as real
  }

  lemma ScaleSum(b: nat, x: int, y: int)
    requires 0 < b
    ensures Scale(b, x + y) == Scale(b, x) * Scale(b, y)
  {
    var sx, sy, s := Scale(b, x), Scale(b, y), Scale(b, x + y);
    if 0 <= x && 0 <= y {
      PowAdd(b, x, y);
      ProductAsReal(Pow(b, x), Pow(b, y));
    } else if x < 0 && y < 0 {
      PowAdd(b, -x, -y);
      InverseProduct(Pow(b, -x), Pow(b, -y));
    } else if x < 0 {
      ScaleSumMixed(b, y, x);
    } else {
      ScaleSumMixed(b, x, y);
    }
  }

  lemma ScaleSumMixed(b: nat, x: int, y: int)
    requires 0 < b && y < 0 <= x
    ensures Scale(b, x + y) == Scale(b, x) * Scale(b, y)
  {
    if 0 <= x + y {
      PowAdd(b, x + y, -y);
      CancelInverse(Pow(b, x + y), Pow(b, -y));
    } else {
      PowAdd(b, x, -(x + y));
      InverseCancel(Pow(b, x), Pow(b, -(x + y)));
    }
  }

  lemma ProductAsReal(p: nat, q: nat)
    ensures (p * q) as real == p as real * q as real
  {
  }

  lemma InverseProduct(p: nat, q: nat)
    requires 0 < p && 0 < q
    ensures 0 < p * q && Inverse(p * q) == Inverse(p) * Inverse(q)
  {
    var r, s := p as real, q as real;
    ProductAsReal(p, q);
    assert (1.0 / r) * (1.0 / s) == 1.0 / (r * s);
  }

  lemma CancelInverse(p: nat, q: nat)
    requires 0 < q
    ensures p as real == (p * q) as real * Inverse(q)
  {
    ProductAsReal(p, q);
    var r, s, i := p as real, q as real, Inverse(q);
    assert (r * s) * i == r * (i * s);
  }

  lemma InverseCancel(p: nat, q: nat)
    requires 0 < p && 0 < q
    ensures 0 < p * q && Inverse(q) == p as real * Inverse(p * q)
  {
    InverseProduct(p, q);
    var r, i, j := p as real, Inverse(p), Inverse(q);
    assert r * (i * j) == (i * r) * j;
  }

  lemma ScaleOfNat(b: nat, n: nat)
    requires 0 < b
    ensures Scale(b, n) == Pow(b, n) as real
  {
  }

  lemma ScaleShift(b: nat, e: int, n: nat)
    requires 0 < b
    ensures Scale(b, e) == Scale(b, e - n) * Pow(b, n) as real
  {
    hide Scale;
    ScaleSum(b, e - n, n);
    assert e - n + n == e;
    ScaleOfNat(b, n);
  }

  lemma ScaleOfNegative(b: nat, n: nat)
    requires 0 < b && 0 < n
    ensures Scale(b, 0 - n) * Pow(b, n) as real == 1.0
  {
  }

  lemma ScaleIsMonotone(b: nat, x: int, y: int)
    requires 0 < b && x <= y
    ensures Scale(b, x) <= Scale(b, y)
  {
    hide Scale, Pow;
    var n: nat := y - x;
    ScaleShift(b, y, n);
    assert Scale(b, y - n) == Scale(b, x);
    PowMonotone(b, 0, n);
    PowZero(b);
    GrowingProduct(Scale(b, x), Pow(b, n), Scale(b, y));
  }

  lemma PowZero(b: nat)
    ensures Pow(b, 0) == 1
  {
  }

  lemma GrowingProduct(s: real, p: nat, t: real)
    requires 0.0 < s && 1 <= p && t == s * p as real
    ensures s <= t
  {
    RealMonotone(1.0, p as real, s);
  }

  lemma RealMonotone(x: real, y: real, s: real)
    requires x <= y && 0.0 < s
    ensures s * x <= s * y && x * s <= y * s && (x < y ==> x * s < y * s)
  {
    assert 0.0 <= s * (y - x);
    assert s * (y - x) == s * y - s * x;
    if x < y {
      assert 0.0 < s * (y - x);
    }
  }

  /** A product the verifier is to treat as one number. */
  ghost function Times(x: real, y: real): real
  {
    x * y
  }

  lemma ScaleSumAsTimes(b: nat, x: int, y: int)
    requires 0 < b
    ensures Scale(b, x + y) == Times(Scale(b, x), Scale(b, y))
  {
    hide Scale;
    ScaleSum(b, x, y);
  }

  /** The number d * 10^x. */
  ghost function Decimal(d: nat, x: int): real
  {
    d as real * Scale(10, x)
  }

  lemma DecimalShift(d: nat, m: nat, x: int)
    ensures Decimal(d * Pow(10, m), x) == Decimal(d, x + m)
  {
    hide Scale, Pow;
    ScaleShift(10, x + m, m);
    assert x + m - m == x;
    ProductAsReal(d, Pow(10, m));
    Associate(d as real, Pow(10, m) as real, Scale(10, x), Scale(10, x + m));
  }

  lemma Associate(d: real, p: real, s: real, t: real)
    requires t == s * p
    ensures (d * p) * s == d * t
  {
    assert (d * p) * s == d * (p * s);
  }
}
