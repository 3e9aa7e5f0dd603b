/** Powers of two as real numbers, and shifts as multiplication and division by them. */
module Dyadic {
  import opened Powers
  import opened NumberTheory
  import opened Rounding

  /** `2^e` for any integer `e`. */
  ghost function Unit(e: int): (u: real)
    ensures u > 0.0
  {
    if e >= 0 then Pow2(e) as real else 1.0 / Pow2(-e) as real
  }

  lemma UnitNext(e: int)
    ensures Unit(e + 1) == 2.0 * Unit(e)
  {
    if e < 0 {
      Pow2Double(-e);
      Halved(Pow2(-e - 1) as real);
    }
  }

  lemma Halved(p: real)
    requires p > 0.0
    ensures 1.0 / p == 2.0 * (1.0 / (2.0 * p))
  {
  }

  lemma {:induction false} UnitShift(e: int, n: nat)
    ensures Unit(e + n) == Pow2(n) as real * Unit(e)
  {
    hide Unit;
    if n > 0 {
      UnitShift(e, n - 1);
      UnitNext(e + n - 1);
      Pow2Double(n);
      Twice(Pow2(n - 1) as real, Unit(e));
    }
  }

  lemma Twice(p: real, u: real)
    ensures 2.0 * (p * u) == (2.0 * p) * u
  {
  }

  lemma UnitInverse(n: nat)
    ensures Unit(0 - n) * Pow2(n) as real == 1.0
  {
    if n > 0 {
      InverseTimes(Pow2(n) as real);
    }
  }

  lemma InverseTimes(p: real)
    requires p > 0.0
    ensures 1.0 / p * p == 1.0
  {
  }

  /** Dividing by `2^n` is scaling by the unit of `-n`. */
  lemma DivideByPower(x: real, n: nat)
    ensures x / Pow2(n) as real == x * Unit(0 - n)
  {
    hide Unit;
    UnitInverse(n);
    QuotientFrom(x, Pow2(n) as real, Unit(0 - n));
  }

  lemma QuotientFrom(x: real, p: real, u: real)
    requires p > 0.0 && u * p == 1.0
    ensures x / p == x * u
  {
    assert (x * u) * p == x * (u * p);
  }

  lemma {:induction false} ShlTimes(x: nat, n: nat)
    ensures Shl(x, n) == x * Pow2(n)
  {
    if n > 0 {
      ShlTimes(x, n - 1);
      Pow2Double(n);
      TwiceInt(x, Pow2(n - 1));
    }
  }

  lemma TwiceInt(x: int, p: int)
    ensures 2 * (x * p) == x * (2 * p)
  {
  }

  /** Shifts and masks are division by a power of two. */
  lemma ShrDivides(x: nat, n: nat)
    ensures Shr(x, n) == x / Pow2(n) && Low(x, n) == x % Pow2(n)
  {
    hide Shr, Low;
    ShlTimes(Shr(x, n), n);
    DivisionUnique(x, Pow2(n), Shr(x, n), Low(x, n));
  }

  // ----- Correct rounding of real numbers -----

  ghost function RealDistance(a: real, b: real): real {
    if a < b then b - a else a - b
  }

  /** The result lies on the side of the exact value that the mode asks for. */
  ghost predicate RealSide(mode: Mode, exact: real, result: real) {
    match mode
    case NearestTiesEven => true
    case TowardZero => if exact >= 0.0 then 0.0 <= result <= exact else exact <= result <= 0.0
    case TowardNegative => result <= exact
    case TowardPositive => result >= exact
  }

  /** The value `other` would not have been a better answer than `result`. */
  ghost predicate RealNoBetter(mode: Mode, exact: real, result: real, other: real) {
    match mode
    case NearestTiesEven => RealDistance(result, exact) <= RealDistance(other, exact)
    case TowardZero => (0.0 <= other <= exact ==> other <= result) && (exact <= other <= 0.0 ==> result <= other)
    case TowardNegative => other <= exact ==> other <= result
    case TowardPositive => exact <= other ==> result <= other
  }

  /** The number that `a` stands for on a scale with unit `u`. */
  ghost function On(a: int, u: real): real {
    a as real * u
  }

  lemma ScaleOrder(a: int, b: int, u: real)
    requires u > 0.0
    ensures (a <= b <==> On(a, u) <= On(b, u)) && (b <= a <==> On(b, u) <= On(a, u)) && On(0, u) == 0.0
  {
    if a < b {
      assert (b - a) as real * u > 0.0;
    } else if b < a {
      assert (a - b) as real * u > 0.0;
    }
  }

  lemma UnitDistance(a: int, b: int, u: real)
    requires u > 0.0
    ensures RealDistance(On(a, u), On(b, u)) == On(Abs(a - b), u)
  {
    ScaleOrder(a, b, u);
    assert (a - b) as real * u == a as real * u - b as real * u;
    assert (b - a) as real * u == b as real * u - a as real * u;
  }

  /** Correct rounding of integers on a scale is correct rounding of the numbers they stand for. */
  lemma RoundingOnScale(mode: Mode, exact: int, result: int, other: int, u: real)
    requires u > 0.0
    ensures OnTheRightSide(mode, exact, result) <==> RealSide(mode, On(exact, u), On(result, u))
    ensures NoBetter(mode, exact, result, other) <==> RealNoBetter(mode, On(exact, u), On(result, u), On(other, u))
  {
    hide RealDistance, Abs, On, OnTheRightSide, NoBetter, RealSide, RealNoBetter;
    ScaleOrder(exact, result, u);
    ScaleOrder(other, exact, u);
    ScaleOrder(other, result, u);
    ScaleOrder(0, exact, u);
    ScaleOrder(0, result, u);
    ScaleOrder(0, other, u);
    UnitDistance(result, exact, u);
    UnitDistance(other, exact, u);
    ScaleOrder(Abs(result - exact), Abs(other - exact), u);
    RoundingTransfers(mode, exact, result, other, On(exact, u), On(result, u), On(other, u));
  }

  lemma RoundingTransfers(mode: Mode, exact: int, result: int, other: int, x: real, y: real, z: real)
    requires (exact <= result <==> x <= y) && (result <= exact <==> y <= x)
    requires (other <= exact <==> z <= x) && (exact <= other <==> x <= z)
    requires (other <= result <==> z <= y) && (result <= other <==> y <= z)
    requires (0 <= exact <==> 0.0 <= x) && (exact <= 0 <==> x <= 0.0)
    requires (0 <= result <==> 0.0 <= y) && (result <= 0 <==> y <= 0.0)
    requires (0 <= other <==> 0.0 <= z) && (other <= 0 <==> z <= 0.0)
    requires Abs(result - exact) <= Abs(other - exact) <==> RealDistance(y, x) <= RealDistance(z, x)
    ensures OnTheRightSide(mode, exact, result) <==> RealSide(mode, x, y)
    ensures NoBetter(mode, exact, result, other) <==> RealNoBetter(mode, x, y, z)
  {
    hide RealDistance, Abs;
  }
}
