/**
 Rounding onto a grid of dyadic values.

 Values are integers on one common fine scale. A format represents the magnitudes
 `k * 2^n` with `k <= limit` and `n` in a range of exponents: coarser exponents overlap finer
 ones. The encoders round at one exponent only; the lemmas here say when that single rounding
 is the right one among the values of all exponents.
 */
module Rounding {
  import opened Powers

  datatype Mode = NearestTiesEven | TowardZero | TowardNegative | TowardPositive

  function Abs(x: int): (a: nat)
    ensures a == x || a == -x
  {
    if x < 0 then -x else x
  }

  function Signed(negative: bool, x: nat): (s: int)
    ensures Abs(s) == x
  {
    if negative then 0 - x else x
  }

  // ----- What correct rounding means, without reference to any algorithm -----

  /** The result lies on the side of the exact value that the mode asks for. */
  ghost predicate OnTheRightSide(mode: Mode, exact: int, result: int) {
    match mode
    case NearestTiesEven => true
    case TowardZero => if exact >= 0 then 0 <= result <= exact else exact <= result <= 0
    case TowardNegative => result <= exact
    case TowardPositive => result >= exact
  }

  /** The value `other` would not have been a better answer than `result`. */
  ghost predicate NoBetter(mode: Mode, exact: int, result: int, other: int) {
    match mode
    case NearestTiesEven => Abs(result - exact) <= Abs(other - exact)
    case TowardZero =>
      && (0 <= other <= exact ==> other <= result)
      && (exact <= other <= 0 ==> result <= other)
    case TowardNegative => other <= exact ==> other <= result
    case TowardPositive => exact <= other ==> result <= other
  }

  /** Magnitude form of `NoBetter`, for two values with the sign of the exact value. */
  ghost predicate MagnitudeNoBetter(mode: Mode, negative: bool, exact: nat, result: nat, other: nat) {
    if mode == NearestTiesEven then Abs(result - exact) <= Abs(other - exact)
    else if RoundsAway(mode, negative) then exact <= other ==> result <= other
    else other <= exact ==> other <= result
  }

  predicate RoundsAway(mode: Mode, negative: bool) {
    (mode == TowardNegative && negative) || (mode == TowardPositive && !negative)
  }

  // ----- Rounding at one exponent -----

  /** The rounding decision for a quotient and its remainder. */
  predicate Increments(quotient: nat, remainder: nat, quantum: nat, mode: Mode, negative: bool) {
    remainder != 0 &&
    (RoundsAway(mode, negative) ||
     (mode == NearestTiesEven && (2 * remainder > quantum || (2 * remainder == quantum && quotient % 2 == 1))))
  }

  /** The integer multiple of `2^n` that the mode picks for a magnitude `x` of the given sign. */
  function RoundShift(x: nat, n: nat, mode: Mode, negative: bool): (r: nat)
    ensures Shr(x, n) <= r <= Shr(x, n) + 1
    ensures r == Shr(x, n) + 1 ==> Low(x, n) != 0
  {
    if Increments(Shr(x, n), Low(x, n), Pow2(n), mode, negative) then Shr(x, n) + 1 else Shr(x, n)
  }

  /** Where the multiples of `2^n` lie around `x`. */
  lemma Multiples(x: nat, n: nat, j: nat)
    ensures var k := Shr(x, n);
            && x == Shl(k, n) + Low(x, n)
            && Shl(k + 1, n) == Shl(k, n) + Pow2(n)
            && (j < k ==> Shl(j, n) <= Shl(k, n) - Pow2(n))
            && (j > k + 1 ==> Shl(j, n) >= Shl(k, n) + 2 * Pow2(n))
  {
    var k := Shr(x, n);
    ShlSuccessor(k, n);
    ShlSuccessor(k + 1, n);
    if j < k {
      ShlSuccessor(k - 1, n);
      ShlOrder(j, k - 1, n);
    } else if j > k + 1 {
      ShlOrder(k + 2, j, n);
    }
  }

  /** The rounded quotient is the best multiple. */
  lemma BestMultiple(x: nat, n: nat, mode: Mode, negative: bool, j: nat)
    ensures var r := Shl(RoundShift(x, n, mode, negative), n);
            && MagnitudeNoBetter(mode, negative, x, r, Shl(j, n))
            && (mode != NearestTiesEven && RoundsAway(mode, negative) ==> x <= r)
            && (mode != NearestTiesEven && !RoundsAway(mode, negative) ==> r <= x)
            && (r == x <==> Low(x, n) == 0)
  {
    Multiples(x, n, j);
  }

  /** Two multiples equally near the exact value are only met by an even rounded quotient. */
  lemma TieIsEven(x: nat, n: nat, negative: bool, j: nat)
    requires var r := RoundShift(x, n, NearestTiesEven, negative);
             j != r && Abs(Shl(r, n) - x) == Abs(Shl(j, n) - x)
    ensures RoundShift(x, n, NearestTiesEven, negative) % 2 == 0
  {
    hide Shl, Shr, Low, Pow2;
    Multiples(x, n, j);
  }

  /** A value at or below `m` quanta rounds to at most `m`. */
  lemma RoundAtMost(x: nat, n: nat, mode: Mode, negative: bool, m: nat)
    requires x <= Shl(m, n)
    ensures RoundShift(x, n, mode, negative) <= m
  {
    Multiples(x, n, m);
  }

  /** A value at or above `m` quanta rounds to at least `m`. */
  lemma RoundAtLeast(x: nat, n: nat, mode: Mode, negative: bool, m: nat)
    requires Shl(m, n) <= x
    ensures m <= RoundShift(x, n, mode, negative)
  {
    Multiples(x, n, m);
  }

  // ----- Rounding at the coarser of two neighbouring exponents -----

  /** Facts about `x` when it rounds to more than `limit` multiples of `2^n`. */
  lemma PastLimit(x: nat, n: nat, limit: nat, mode: Mode, negative: bool)
    requires RoundShift(x, n, mode, negative) > limit
    ensures x >= Shl(limit, n)
    ensures RoundsAway(mode, negative) ==> x > Shl(limit, n)
    ensures mode == NearestTiesEven ==> 2 * x >= 2 * Shl(limit, n) + Pow2(n)
    ensures mode != NearestTiesEven && !RoundsAway(mode, negative) ==> x >= Shl(limit, n) + Pow2(n)
  {
    Multiples(x, n, limit);
  }

  /** For an odd limit these facts are also sufficient: a tie at the limit rounds past it. */
  lemma PastOddLimit(x: nat, n: nat, limit: nat, mode: Mode, negative: bool)
    requires limit % 2 == 1
    ensures RoundShift(x, n, mode, negative) > limit <==>
            if mode == NearestTiesEven then 2 * x >= 2 * Shl(limit, n) + Pow2(n)
            else if RoundsAway(mode, negative) then x > Shl(limit, n)
            else x >= Shl(limit, n) + Pow2(n)
  {
    Multiples(x, n, limit);
  }

  /** A multiple of the doubled quantum sits at the end of the finer range or one step past it. */
  lemma MiddleMultiple(n: nat, limit: nat) returns (j: nat)
    ensures limit % 2 == 0 ==> 2 * j == limit && Shl(j, n + 1) == Shl(limit, n)
    ensures limit % 2 == 1 ==> 2 * j == limit + 1 && Shl(j, n + 1) == Shl(limit, n) + Pow2(n)
  {
    j := (limit + 1) / 2;
    ShlDouble(j, n);
    ShlSuccessor(limit, n);
  }

  /**
   When the value rounded at `2^n` needs more than `limit` steps, rounding it at `2^(n+1)`
   beats every value `y` that the finer exponents can represent.
   */
  lemma CoarserBeatsFiner(x: nat, n: nat, limit: nat, mode: Mode, negative: bool, y: nat)
    requires RoundShift(x, n, mode, negative) > limit
    requires y <= Shl(limit, n)
    ensures MagnitudeNoBetter(mode, negative, x, Shl(RoundShift(x, n + 1, mode, negative), n + 1), y)
  {
    var j := MiddleMultiple(n, limit);
    BestMultiple(x, n + 1, mode, negative, j);
    PastLimit(x, n, limit, mode, negative);
  }

  /** In that situation a tie is only met by an even quotient or by the first value past an odd limit. */
  lemma CoarserTie(x: nat, n: nat, limit: nat, negative: bool, y: nat)
    requires RoundShift(x, n, NearestTiesEven, negative) > limit
    requires y <= Shl(limit, n)
    requires var r := Shl(RoundShift(x, n + 1, NearestTiesEven, negative), n + 1);
             r != y && Abs(r - x) == Abs(y - x)
    ensures var q := RoundShift(x, n + 1, NearestTiesEven, negative);
            q % 2 == 0 || (limit % 2 == 1 && 2 * q == limit + 1 && x < Shl(limit, n) + Pow2(n))
  {
    var j := MiddleMultiple(n, limit);
    BestMultiple(x, n + 1, NearestTiesEven, negative, j);
    PastLimit(x, n, limit, NearestTiesEven, negative);
    if j != RoundShift(x, n + 1, NearestTiesEven, negative) {
      TieIsEven(x, n + 1, negative, j);
    }
  }

  // ----- Rounding at one exponent of a whole grid -----

  /** A common shift does not change the rounded quotient. */
  lemma RoundScale(x: nat, n: nat, c: nat, mode: Mode, negative: bool)
    ensures RoundShift(Shl(x, c), n + c, mode, negative) == RoundShift(x, n, mode, negative)
    ensures Low(Shl(x, c), n + c) == 0 <==> Low(x, n) == 0
  {
    hide Shl, Shr, Low, Pow2;
    ShrScale(x, n, c);
    ShlPow2(n, c);
    var r := Low(x, n);
    ShlZero(c);
    ShlOrder(0, r, c);
    ShlDouble(r, c);
    ShlOrder(2 * r, Pow2(n), c);
    ShlOrder(Pow2(n), 2 * r, c);
  }

  /**
   Let `n` be the rounding exponent of a grid whose finest exponent is `finest`. If the value
   overflows the limit one exponent below, its rounding at `n` is at least as good as the grid
   value `k * 2^e`.
   */
  lemma LevelIsBest(x: nat, finest: nat, limit: nat, n: nat, mode: Mode, negative: bool, k: nat, e: nat)
    requires finest <= n && finest <= e
    requires n > finest ==> RoundShift(x, n - 1, mode, negative) > limit
    requires k <= limit
    ensures MagnitudeNoBetter(mode, negative, x, Shl(RoundShift(x, n, mode, negative), n), Shl(k, e))
  {
    if e >= n {
      ShlShl(k, e - n, n);
      BestMultiple(x, n, mode, negative, Shl(k, e - n));
    } else {
      FinerBelow(k, limit, e, n - 1);
      CoarserBeatsFiner(x, n - 1, limit, mode, negative, Shl(k, e));
    }
  }

  lemma FinerBelow(k: nat, limit: nat, e: nat, n: nat)
    requires k <= limit && e <= n
    ensures Shl(k, e) <= Shl(limit, n)
  {
    ShlOrder(k, limit, e);
    ShlShl(limit, e, n - e);
    ShlGrows(Shl(limit, e), n - e);
  }

  /** From magnitudes to signed values: values of the other sign never beat the rounded one. */
  lemma SignedNoBetter(mode: Mode, negative: bool, x: nat, r: nat, other: int)
    requires MagnitudeNoBetter(mode, negative, x, r, 0)
    requires other == Signed(negative, Abs(other)) ==> MagnitudeNoBetter(mode, negative, x, r, Abs(other))
    requires mode != NearestTiesEven && RoundsAway(mode, negative) ==> x <= r
    requires mode != NearestTiesEven && !RoundsAway(mode, negative) ==> r <= x
    ensures NoBetter(mode, Signed(negative, x), Signed(negative, r), other)
    ensures OnTheRightSide(mode, Signed(negative, x), Signed(negative, r))
  {
  }

  /** Rounding at one exponent, as a statement about signed values. */
  lemma SignedLevelIsBest(x: nat, finest: nat, limit: nat, n: nat, mode: Mode, negative: bool,
                          otherNegative: bool, k: nat, e: nat)
    requires finest <= n && finest <= e
    requires n > finest ==> RoundShift(x, n - 1, mode, negative) > limit
    requires otherNegative == negative ==> k <= limit
    ensures var result := Signed(negative, Shl(RoundShift(x, n, mode, negative), n));
            && OnTheRightSide(mode, Signed(negative, x), result)
            && NoBetter(mode, Signed(negative, x), result, Signed(otherNegative, Shl(k, e)))
  {
    BestMultiple(x, n, mode, negative, 0);
    ShlZero(n);
    if negative == otherNegative {
      LevelIsBest(x, finest, limit, n, mode, negative, k, e);
    }
    SignedNoBetter(mode, negative, x, Shl(RoundShift(x, n, mode, negative), n), Signed(otherNegative, Shl(k, e)));
  }

  /** A tie there: the rounded quotient is even, or the first one past an odd limit of the finer exponent. */
  lemma SignedLevelTie(x: nat, finest: nat, limit: nat, n: nat, negative: bool, otherNegative: bool, k: nat, e: nat)
    requires finest <= n && finest <= e
    requires n > finest ==> RoundShift(x, n - 1, NearestTiesEven, negative) > limit
    requires otherNegative == negative ==> k <= limit
    requires var result := Signed(negative, Shl(RoundShift(x, n, NearestTiesEven, negative), n));
             && Signed(otherNegative, Shl(k, e)) != result
             && Abs(Signed(otherNegative, Shl(k, e)) - Signed(negative, x)) == Abs(result - Signed(negative, x))
    ensures var r := RoundShift(x, n, NearestTiesEven, negative);
            || r % 2 == 0
            || (n > finest && limit % 2 == 1 && 2 * r == limit + 1 && x < Shl(limit, n - 1) + Pow2(n - 1))
  {
    hide Shl, RoundShift, Pow2;
    BestMultiple(x, n, NearestTiesEven, negative, 0);
    ShlZero(n);
    var y := Shl(k, e);
    assert otherNegative == negative || y == 0;
    if y == 0 {
      TieIsEven(x, n, negative, 0);
    } else if e >= n {
      ShlShl(k, e - n, n);
      TieIsEven(x, n, negative, Shl(k, e - n));
    } else {
      FinerBelow(k, limit, e, n - 1);
      CoarserTie(x, n - 1, limit, negative, y);
    }
  }
}
