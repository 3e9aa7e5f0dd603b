/**
 Rounding into an IEEE format, proved against the values of all finite patterns, and the
 conversions between formats (include/vita/codec/ieee_samples.hpp, encode_finite and convert).
 */
module IeeeEncoder {
  import opened Core
  import opened Powers
  import opened Rounding
  import opened IeeeSamples
  import N = NumericSamples

  // ----- Values of finite patterns, on the scale of an input -----

  ghost predicate IsFinite(s: Shape, bits: nat) {
    IsPattern(s, bits) && ExponentField(s, bits) <= 2 * s.bias
  }

  /** A scale on which the input and every finite pattern are integers. */
  ghost function CommonBase(s: Shape, v: BinaryValue): (base: int)
    ensures base <= LeastQuantum(s) && base <= v.exponent
  {
    if v.exponent < LeastQuantum(s) then v.exponent else LeastQuantum(s)
  }

  ghost function InputSize(s: Shape, v: BinaryValue): nat {
    N.Size(v, CommonBase(s, v))
  }

  ghost function Exact(s: Shape, v: BinaryValue): int {
    Signed(v.negative, InputSize(s, v))
  }

  /** Binary exponent of one significand step `level` above the smallest, on the scale of the input. */
  ghost function Step(s: Shape, v: BinaryValue, level: nat): nat {
    LeastQuantum(s) - CommonBase(s, v) + level
  }

  /** Value of a finite pattern; both zeros have value zero. */
  ghost function ValueOf(s: Shape, v: BinaryValue, bits: nat): int
    requires ValidShape(s)
  {
    Signed(SignBit(s, bits) != 0, Shl(Significand(s, bits), Step(s, v, Level(s, bits))))
  }

  /** That value is what decoding yields. */
  lemma DecodeMeaning(format: Format, bits: U64, v: BinaryValue)
    requires IsFinite(ShapeOf(format), bits)
    ensures DecodeExact(format, bits).Ok?
    ensures var s, d := ShapeOf(format), DecodeExact(format, bits).value;
            && d.negative == (SignBit(s, bits) != 0)
            && N.Canonical(d.finite)
            && CommonBase(s, v) <= d.finite.exponent
            && N.Scaled(d.finite, CommonBase(s, v)) == ValueOf(s, v, bits)
            && d.category == (if d.finite.magnitude == 0 then Zero else Finite)
            && d.payload == 0 && d.payloadBits == 0
            && (d.category == Finite ==> d.finite.negative == d.negative)
  {
    hide Shl, Shr, Low, Pow2, N.Canonicalize;
    var s := ShapeOf(format);
    FiniteFits(s, bits);
    var base := CommonBase(s, v);
    if Significand(s, bits) == 0 {
      ShlZero(Step(s, v, Level(s, bits)));
      ShlZero(0 - base);
    } else {
      var raw := N.BinaryValue(Significand(s, bits), LeastQuantum(s) + Level(s, bits), SignBit(s, bits) != 0);
      RawCanonicalizes(raw, base);
    }
  }

  lemma RawCanonicalizes(raw: BinaryValue, base: int)
    requires raw.magnitude > 0 && base <= raw.exponent < 0x7000 && base <= 0
    ensures N.Canonicalize(raw).Ok?
    ensures var c := N.Canonicalize(raw).value;
            && N.Canonical(c) && base <= c.exponent && c.magnitude > 0 && c.negative == raw.negative
            && N.Scaled(c, base) == N.Scaled(raw, base)
  {
    hide Shl;
    N.CanonicalizeKeeps(raw, base);
    WordWidth(raw.magnitude);
    ShlZero(raw.exponent - base);
    ShlOrder(0, raw.magnitude, raw.exponent - base);
  }

  // ----- Source functions -----

  datatype Rounded = Rounded(integer: nat, inexact: bool)

  /** Rounds to a multiple of `2^quantum`; callers choose a quantum that leaves at most 53 bits. */
  function Round(v: BinaryValue, quantum: int, mode: Mode): Rounded
    requires v.exponent >= quantum ==> BitWidth(v.magnitude) + v.exponent - quantum <= 64
  {
    var shift := v.exponent - quantum;
    if shift >= 0 then Rounded(Shl(v.magnitude, shift), false)
    else
      var right := -shift;
      ShrAtMost(v.magnitude, right);
      var integer: U64 := if right >= 64 then 0 else Shr(v.magnitude, right);
      var residue: U64 := if right >= 64 then v.magnitude else Low(v.magnitude, right);
      Rounded(if N.ShiftIncrements(integer, residue, right, mode, v.negative) then integer + 1 else integer,
              residue != 0)
  }

  /** The word returned when the rounded magnitude exceeds the largest finite value. */
  function OverflowResult(s: Shape, negative: bool, p: Policy): Result<Converted>
    requires ValidShape(s)
  {
    if p.precision == N.ExactOnly || p.overflow == Reject then Err(Overflow)
    else
      var infinity :=
        p.overflow == IeeeResult &&
        (p.rounding == NearestTiesEven || (p.rounding == TowardNegative && negative)
         || (p.rounding == TowardPositive && !negative));
      var inf := Shl(Pow2(s.exponent) - 1, s.fraction);
      ShlGrows(Pow2(s.exponent) - 1, s.fraction);
      Ok(Converted((if negative then Pow2(s.width - 1) else 0) + (if infinity then inf else inf - 1),
                   Flags(false, true, true, false, false)))
  }

  function TopBit(v: BinaryValue): int {
    v.exponent + BitWidth(v.magnitude) - 1
  }

  /** Binary exponent of the step at which the input is rounded. */
  function RoundingQuantum(s: Shape, v: BinaryValue): int {
    (if TopBit(v) < 1 - s.bias then 1 - s.bias else TopBit(v)) - s.fraction
  }

  /** Tininess after rounding: target precision with unbounded exponent, before the subnormal step applies. */
  predicate Tiny(s: Shape, v: BinaryValue, mode: Mode)
    requires ValidShape(s)
  {
    TopBit(v) < 1 - s.bias &&
    (var carry := Round(v, TopBit(v) - s.fraction, mode).integer == Pow2(s.fraction + 1);
     (if carry then TopBit(v) + 1 else TopBit(v)) < 1 - s.bias)
  }

  /** The word and flags of a rounded significand that does not overflow. */
  function FiniteWord(s: Shape, value: BinaryValue, rounded: Rounded, tiny: bool): Converted
    requires ValidShape(s)
  {
    var minimum := 1 - s.bias;
    var carried := rounded.integer == Pow2(s.fraction + 1);
    var significand := if carried then rounded.integer / 2 else rounded.integer;
    var top := if carried then TopBit(value) + 1 else TopBit(value);
    var exponent := if significand >= Pow2(s.fraction) then (if top < minimum then minimum else top) + s.bias else 0;
    Converted((if value.negative then Pow2(s.width - 1) else 0) + Shl(exponent, s.fraction) +
              Low(significand, s.fraction), Flags(false, rounded.inexact, false, rounded.inexact && tiny, false))
  }

  function EncodeFinite(format: Format, value: BinaryValue, policy: Policy): Result<Converted> {
    var s := ShapeOf(format);
    if value.magnitude == 0 then Ok(Converted(if value.negative then Pow2(s.width - 1) else 0, NO_FLAGS))
    else if TopBit(value) > s.bias then OverflowResult(s, value.negative, policy)
    else
      var tiny := Tiny(s, value, policy.rounding);
      var rounded := Round(value, RoundingQuantum(s, value), policy.rounding);
      var top := if rounded.integer == Pow2(s.fraction + 1) then TopBit(value) + 1 else TopBit(value);
      if top > s.bias then OverflowResult(s, value.negative, policy)
      else if rounded.inexact && policy.precision == N.ExactOnly then Err(InvalidArgument)
      else Ok(FiniteWord(s, value, rounded, tiny))
  }

  // ----- Specification -----

  ghost function Limit(s: Shape): nat {
    Pow2(s.fraction + 1) - 1
  }

  ghost function TopLevel(s: Shape): nat
    requires ValidShape(s)
  {
    2 * s.bias - 1
  }

  /** The largest finite magnitude and its step. */
  ghost function MaxFinite(s: Shape, v: BinaryValue): nat
    requires ValidShape(s)
  {
    Shl(Limit(s), Step(s, v, TopLevel(s)))
  }

  ghost function MaxStep(s: Shape, v: BinaryValue): nat
    requires ValidShape(s)
  {
    Pow2(Step(s, v, TopLevel(s)))
  }

  /**
   Section 7.4: the value rounded as if exponents were unbounded exceeds the largest finite
   value. In terms of the input: half a step past it to nearest, anything past it when
   rounding away from zero, a whole step past it when rounding toward zero.
   */
  ghost predicate Overflows(s: Shape, v: BinaryValue, mode: Mode)
    requires ValidShape(s)
  {
    var x := InputSize(s, v);
    if mode == NearestTiesEven then 2 * x >= 2 * MaxFinite(s, v) + MaxStep(s, v)
    else if RoundsAway(mode, v.negative) then x > MaxFinite(s, v)
    else x >= MaxFinite(s, v) + MaxStep(s, v)
  }

  /** `bits` is the finite pattern the rounding mode asks for (section 4.3). */
  ghost predicate CorrectlyRounded(s: Shape, v: BinaryValue, mode: Mode, bits: nat)
    requires ValidShape(s)
  {
    && OnTheRightSide(mode, Exact(s, v), ValueOf(s, v, bits))
    && (forall other: nat :: IsFinite(s, other) ==>
          NoBetter(mode, Exact(s, v), ValueOf(s, v, bits), ValueOf(s, v, other)))
    && (mode == NearestTiesEven ==>
          forall other: nat ::
            IsFinite(s, other) && ValueOf(s, v, other) != ValueOf(s, v, bits) &&
            Abs(ValueOf(s, v, other) - Exact(s, v)) == Abs(ValueOf(s, v, bits) - Exact(s, v)) ==>
              FractionField(s, bits) % 2 == 0)
  }

  /** A scale on which the input and its rounding at the format's precision are integers. */
  ghost function PrecisionBase(s: Shape, v: BinaryValue): (base: int)
    ensures base <= v.exponent && base <= TopBit(v) - s.fraction
  {
    if v.exponent < TopBit(v) - s.fraction then v.exponent else TopBit(v) - s.fraction
  }

  /** Section 7.5, tininess after rounding: below the least normal at this precision with unbounded exponent. */
  ghost predicate TinyAfterRounding(s: Shape, v: BinaryValue, mode: Mode)
    requires ValidShape(s) && v.magnitude > 0
  {
    var base := PrecisionBase(s, v);
    var step := TopBit(v) - s.fraction - base;
    TopBit(v) < 1 - s.bias && Shl(RoundShift(N.Size(v, base), step, mode, v.negative), step) < Pow2(1 - s.bias - base)
  }

  ghost predicate Representable(s: Shape, v: BinaryValue)
    requires ValidShape(s)
  {
    exists bits: nat :: IsFinite(s, bits) && ValueOf(s, v, bits) == Exact(s, v)
  }

  // ----- Where the rounding takes place -----

  lemma RoundMeaning(v: BinaryValue, quantum: int, mode: Mode, base: int)
    requires base <= v.exponent && base <= quantum
    requires v.exponent >= quantum ==> BitWidth(v.magnitude) + v.exponent - quantum <= 64
    ensures Round(v, quantum, mode).integer == RoundShift(N.Size(v, base), quantum - base, mode, v.negative)
    ensures Round(v, quantum, mode).inexact <==> Low(N.Size(v, base), quantum - base) != 0
  {
    var shift := v.exponent - quantum;
    hide Shl, Shr, Low, Pow2, N.ShiftIncrements, Increments;
    if shift >= 0 {
      ShlShl(v.magnitude, shift, quantum - base);
      SplitUnique(N.Size(v, base), quantum - base, Shl(v.magnitude, shift), 0);
      NoRemainder(N.Size(v, base), quantum - base, mode, v.negative);
    } else {
      RoundScale(v.magnitude, -shift, v.exponent - base, mode, v.negative);
      RightMeaning(v, -shift, mode);
    }
  }

  lemma NoRemainder(x: nat, n: nat, mode: Mode, negative: bool)
    requires Low(x, n) == 0
    ensures RoundShift(x, n, mode, negative) == Shr(x, n)
  {
  }

  lemma RightMeaning(v: BinaryValue, right: nat, mode: Mode)
    requires right > 0
    ensures var integer := if right >= 64 then 0 else Shr(v.magnitude, right);
            var residue := if right >= 64 then v.magnitude else Low(v.magnitude, right);
            && integer <= U64_MAX && residue <= U64_MAX
            && integer == Shr(v.magnitude, right) && residue == Low(v.magnitude, right)
            && (if N.ShiftIncrements(integer, residue, right, mode, v.negative) then integer + 1 else integer) ==
               RoundShift(v.magnitude, right, mode, v.negative)
  {
    hide Shl;
    ShrAtMost(v.magnitude, right);
    if right >= 64 {
      Pow2Word(right);
      ShlZero(right);
      SplitUnique(v.magnitude, right, 0, v.magnitude);
    }
    N.ShiftIncrementsMeaning(Shr(v.magnitude, right), Low(v.magnitude, right), right, mode, v.negative);
  }

  /** The level at which the input is rounded. */
  ghost function LevelOf(s: Shape, v: BinaryValue): nat {
    if TopBit(v) < 1 - s.bias then 0 else TopBit(v) - (1 - s.bias)
  }

  ghost function RoundedAt(s: Shape, v: BinaryValue, mode: Mode): nat {
    RoundShift(InputSize(s, v), Step(s, v, LevelOf(s, v)), mode, v.negative)
  }

  lemma LeadingBitAt(v: BinaryValue, base: int)
    requires v.magnitude > 0 && base <= v.exponent
    ensures TopBit(v) >= base
    ensures Pow2(TopBit(v) - base) <= N.Size(v, base) < Pow2(TopBit(v) - base + 1)
    ensures BitWidth(v.magnitude) <= 64
    ensures TopBit(v) - base == BitWidth(N.Size(v, base)) - 1
  {
    hide Shl, Pow2;
    BitWidthShl(v.magnitude, v.exponent - base);
    WordWidth(v.magnitude);
  }

  /** The leading bit of the input, on its scale. */
  lemma LeadingBit(s: Shape, v: BinaryValue)
    requires v.magnitude > 0
    ensures TopBit(v) >= CommonBase(s, v)
    ensures Pow2(TopBit(v) - CommonBase(s, v)) <= InputSize(s, v) < Pow2(TopBit(v) - CommonBase(s, v) + 1)
  {
    LeadingBitAt(v, CommonBase(s, v));
  }

  /** The rounded significand has at most one bit too many, and is too large for the next finer level. */
  lemma RoundedRange(s: Shape, v: BinaryValue, mode: Mode)
    requires ValidShape(s) && v.magnitude > 0
    ensures RoundedAt(s, v, mode) <= Pow2(s.fraction + 1)
    ensures LevelOf(s, v) > 0 || TopBit(v) == 1 - s.bias ==> RoundedAt(s, v, mode) >= Pow2(s.fraction)
    ensures TopBit(v) < 1 - s.bias ==> RoundedAt(s, v, mode) <= Pow2(s.fraction)
    ensures LevelOf(s, v) > 0 ==> InputSize(s, v) >= Shl(Pow2(s.fraction + 1), Step(s, v, LevelOf(s, v)) - 1)
  {
    hide Shl, Shr, Low, Pow2, InputSize, TopBit, CommonBase;
    LeadingBit(s, v);
    var x, n, t := InputSize(s, v), Step(s, v, LevelOf(s, v)), TopBit(v) - CommonBase(s, v);
    ShlPow2(s.fraction, n);
    ShlPow2(s.fraction + 1, n);
    if TopBit(v) >= 1 - s.bias {
      assert n + s.fraction == t;
      RoundAtMost(x, n, mode, v.negative, Pow2(s.fraction + 1));
      RoundAtLeast(x, n, mode, v.negative, Pow2(s.fraction));
      if LevelOf(s, v) > 0 {
        ShlPow2(s.fraction + 1, n - 1);
      }
    } else {
      Pow2Monotone(t + 1, n + s.fraction);
      RoundAtMost(x, n, mode, v.negative, Pow2(s.fraction));
      Pow2Monotone(s.fraction, s.fraction + 1);
    }
  }

  lemma FinerOverflows(s: Shape, v: BinaryValue, mode: Mode)
    requires ValidShape(s) && v.magnitude > 0 && LevelOf(s, v) > 0
    ensures RoundShift(InputSize(s, v), Step(s, v, LevelOf(s, v)) - 1, mode, v.negative) > Limit(s)
  {
    RoundedRange(s, v, mode);
    RoundAtLeast(InputSize(s, v), Step(s, v, LevelOf(s, v)) - 1, mode, v.negative, Pow2(s.fraction + 1));
  }

  // ----- Rounding is correct among all finite patterns -----

  lemma PatternOnGrid(s: Shape, v: BinaryValue, bits: nat)
    requires ValidShape(s) && IsFinite(s, bits)
    ensures Significand(s, bits) <= Limit(s)
    ensures Level(s, bits) <= TopLevel(s)
  {
    FiniteFits(s, bits);
  }

  ghost predicate HoldsRounded(s: Shape, v: BinaryValue, mode: Mode, bits: nat)
    requires ValidShape(s)
  {
    ValueOf(s, v, bits) == Signed(v.negative, Shl(RoundedAt(s, v, mode), Step(s, v, LevelOf(s, v))))
  }

  lemma RoundedIsBest(s: Shape, v: BinaryValue, mode: Mode, bits: nat, other: nat)
    requires ValidShape(s) && v.magnitude > 0 && HoldsRounded(s, v, mode, bits) && IsFinite(s, other)
    ensures OnTheRightSide(mode, Exact(s, v), ValueOf(s, v, bits))
    ensures NoBetter(mode, Exact(s, v), ValueOf(s, v, bits), ValueOf(s, v, other))
  {
    if LevelOf(s, v) > 0 {
      FinerOverflows(s, v, mode);
    }
    PatternOnGrid(s, v, other);
    hide Shl, RoundShift, InputSize, OnTheRightSide, NoBetter, Significand, Level, Limit, SignBit;
    SignedLevelIsBest(InputSize(s, v), Step(s, v, 0), Limit(s), Step(s, v, LevelOf(s, v)), mode, v.negative,
                      SignBit(s, other) != 0, Significand(s, other), Step(s, v, Level(s, other)));
  }

  lemma RoundedTie(s: Shape, v: BinaryValue, bits: nat, other: nat)
    requires ValidShape(s) && v.magnitude > 0 && HoldsRounded(s, v, NearestTiesEven, bits) && IsFinite(s, other)
    requires ValueOf(s, v, other) != ValueOf(s, v, bits)
    requires Abs(ValueOf(s, v, other) - Exact(s, v)) == Abs(ValueOf(s, v, bits) - Exact(s, v))
    ensures RoundedAt(s, v, NearestTiesEven) % 2 == 0
  {
    hide Shl, RoundShift, InputSize, Significand, Level, SignBit, Pow2, LevelOf, CommonBase, IsFinite;
    if LevelOf(s, v) > 0 {
      FinerOverflows(s, v, NearestTiesEven);
      RoundedRange(s, v, NearestTiesEven);
      ShlSuccessor(Limit(s), Step(s, v, LevelOf(s, v)) - 1);
    }
    PatternOnGrid(s, v, other);
    hide Limit;
    SignedLevelTie(InputSize(s, v), Step(s, v, 0), Limit(s), Step(s, v, LevelOf(s, v)), v.negative,
                   SignBit(s, other) != 0, Significand(s, other), Step(s, v, Level(s, other)));
  }

  lemma HoldsRoundedIsCorrect(s: Shape, v: BinaryValue, mode: Mode, bits: nat)
    requires ValidShape(s) && v.magnitude > 0 && IsFinite(s, bits) && HoldsRounded(s, v, mode, bits)
    requires RoundedAt(s, v, mode) % 2 == 0 ==> FractionField(s, bits) % 2 == 0
    ensures CorrectlyRounded(s, v, mode, bits)
    ensures ValueOf(s, v, bits) == Exact(s, v) <==> Low(InputSize(s, v), Step(s, v, LevelOf(s, v))) == 0
  {
    BestMultiple(InputSize(s, v), Step(s, v, LevelOf(s, v)), mode, v.negative, 0);
    hide Shl, ValueOf, InputSize, OnTheRightSide, NoBetter, FractionField, IsFinite, RoundShift, Low;
    RoundedIsBest(s, v, mode, bits, bits);
    forall other: nat | IsFinite(s, other)
      ensures NoBetter(mode, Exact(s, v), ValueOf(s, v, bits), ValueOf(s, v, other))
    {
      RoundedIsBest(s, v, mode, bits, other);
    }
    if mode == NearestTiesEven {
      forall other: nat | IsFinite(s, other) && ValueOf(s, v, other) != ValueOf(s, v, bits) &&
        Abs(ValueOf(s, v, other) - Exact(s, v)) == Abs(ValueOf(s, v, bits) - Exact(s, v))
        ensures FractionField(s, bits) % 2 == 0
      {
        RoundedTie(s, v, bits, other);
      }
    }
  }

  // ----- Overflow -----

  lemma OverflowsMeaning(s: Shape, v: BinaryValue, mode: Mode)
    requires ValidShape(s)
    ensures Overflows(s, v, mode) <==>
            RoundShift(InputSize(s, v), Step(s, v, TopLevel(s)), mode, v.negative) > Limit(s)
  {
    NextPower(s.fraction);
    hide Shl, RoundShift, InputSize, Pow2;
    PastOddLimit(InputSize(s, v), Step(s, v, TopLevel(s)), Limit(s), mode, v.negative);
  }

  /** The two overflow exits are taken exactly on overflow. */
  lemma OverflowBranches(s: Shape, v: BinaryValue, mode: Mode)
    requires ValidShape(s) && v.magnitude > 0
    ensures Overflows(s, v, mode) <==>
            TopBit(v) > s.bias || (TopBit(v) == s.bias && RoundedAt(s, v, mode) == Pow2(s.fraction + 1))
  {
    hide Shl, Pow2, InputSize, RoundShift, Overflows, TopBit, CommonBase;
    OverflowsMeaning(s, v, mode);
    LeadingBit(s, v);
    RoundedRange(s, v, mode);
    var x, n, t := InputSize(s, v), Step(s, v, TopLevel(s)), TopBit(v) - CommonBase(s, v);
    ShlPow2(s.fraction + 1, n);
    ShlPow2(s.fraction, n);
    Pow2Monotone(s.fraction, s.fraction + 1);
    if TopBit(v) > s.bias {
      Pow2Monotone(n + s.fraction + 1, t);
      RoundAtLeast(x, n, mode, v.negative, Pow2(s.fraction + 1));
    } else if TopBit(v) < s.bias {
      Pow2Monotone(t + 1, n + s.fraction);
      RoundAtMost(x, n, mode, v.negative, Pow2(s.fraction));
    } else {
      assert LevelOf(s, v) == TopLevel(s);
    }
  }

  // ----- The word that is returned -----

  ghost function WordExponent(s: Shape, v: BinaryValue, r: nat): int {
    var top := if r == Pow2(s.fraction + 1) then TopBit(v) + 1 else TopBit(v);
    if r >= Pow2(s.fraction) then (if top < 1 - s.bias then 1 - s.bias else top) + s.bias else 0
  }

  lemma WordHolds(s: Shape, v: BinaryValue, mode: Mode, significand: nat, exponent: nat, bits: nat)
    requires ValidShape(s) && v.magnitude > 0 && !Overflows(s, v, mode)
    requires significand == if RoundedAt(s, v, mode) == Pow2(s.fraction + 1) then Pow2(s.fraction)
                            else RoundedAt(s, v, mode)
    requires exponent == WordExponent(s, v, RoundedAt(s, v, mode))
    requires bits == Assemble(s, v.negative, exponent, Low(significand, s.fraction))
    ensures IsFinite(s, bits) && HoldsRounded(s, v, mode, bits)
    ensures SignBit(s, bits) == if v.negative then 1 else 0
    ensures RoundedAt(s, v, mode) % 2 == 0 ==> FractionField(s, bits) % 2 == 0
  {
    hide Shl, Pow2, InputSize, RoundShift, Overflows, Low, Shr, CommonBase, RoundedAt, WordExponent, LevelOf, ValueOf;
    OverflowBranches(s, v, mode);
    RoundedRange(s, v, mode);
    NextPower(s.fraction);
    WordLevels(s, v, RoundedAt(s, v, mode), significand, exponent);
    WordValue(s, v, LevelOf(s, v), RoundedAt(s, v, mode), significand, exponent, bits);
  }

  lemma WordValue(s: Shape, v: BinaryValue, level: nat, r: nat, significand: nat, exponent: nat, bits: nat)
    requires ValidShape(s) && exponent <= 2 * s.bias && significand < Pow2(s.fraction + 1)
    requires significand >= Pow2(s.fraction) <==> exponent > 0
    requires exponent == 0 ==> level == 0
    requires exponent > 0 ==> exponent - 1 == if r == Pow2(s.fraction + 1) then level + 1 else level
    requires significand == if r == Pow2(s.fraction + 1) then Pow2(s.fraction) else r
    requires bits == Assemble(s, v.negative, exponent, Low(significand, s.fraction))
    ensures IsFinite(s, bits)
    ensures ValueOf(s, v, bits) == Signed(v.negative, Shl(r, Step(s, v, level)))
    ensures SignBit(s, bits) == if v.negative then 1 else 0
    ensures r % 2 == 0 ==> FractionField(s, bits) % 2 == 0
  {
    hide Shl, Pow2, Low, Shr, CommonBase;
    NextPower(s.fraction);
    NextPower(s.fraction - 1);
    SignificandBits(s, significand);
    AssembleFields(s, v.negative, exponent, Low(significand, s.fraction), bits);
    hide SignBit, FractionField, ExponentField;
    if r == Pow2(s.fraction + 1) {
      ShlDouble(Pow2(s.fraction), Step(s, v, level));
    }
  }

  /** The exponent field that goes with a rounded significand. */
  lemma WordLevels(s: Shape, v: BinaryValue, r: nat, significand: nat, exponent: nat)
    requires ValidShape(s) && r <= Pow2(s.fraction + 1) && Pow2(s.fraction + 1) == 2 * Pow2(s.fraction)
    requires TopBit(v) <= s.bias && (TopBit(v) == s.bias ==> r < Pow2(s.fraction + 1))
    requires LevelOf(s, v) > 0 || TopBit(v) == 1 - s.bias ==> r >= Pow2(s.fraction)
    requires TopBit(v) < 1 - s.bias ==> r <= Pow2(s.fraction)
    requires significand == if r == Pow2(s.fraction + 1) then Pow2(s.fraction) else r
    requires exponent == WordExponent(s, v, r)
    ensures exponent <= 2 * s.bias && significand < Pow2(s.fraction + 1)
    ensures significand >= Pow2(s.fraction) <==> exponent > 0
    ensures exponent == 0 ==> LevelOf(s, v) == 0
    ensures exponent > 0 ==> exponent - 1 == if r == Pow2(s.fraction + 1) then LevelOf(s, v) + 1 else LevelOf(s, v)
  {
    hide Pow2, TopBit;
  }

  lemma SignificandBits(s: Shape, significand: nat)
    requires ValidShape(s) && significand < Pow2(s.fraction + 1)
    ensures Low(significand, s.fraction) ==
            if significand >= Pow2(s.fraction) then significand - Pow2(s.fraction) else significand
  {
    NextPower(s.fraction);
    hide Shl, Shr, Low, Pow2;
    ShlOne(s.fraction);
    ShlZero(s.fraction);
    if significand >= Pow2(s.fraction) {
      SplitUnique(significand, s.fraction, 1, significand - Pow2(s.fraction));
    } else {
      SplitUnique(significand, s.fraction, 0, significand);
    }
  }

  lemma RoundingMeaning(s: Shape, v: BinaryValue, mode: Mode)
    requires ValidShape(s) && v.magnitude > 0
    ensures var q := RoundingQuantum(s, v);
            && (v.exponent >= q ==> BitWidth(v.magnitude) + v.exponent - q <= 64)
            && Round(v, q, mode).integer == RoundedAt(s, v, mode)
            && (Round(v, q, mode).inexact <==> Low(InputSize(s, v), Step(s, v, LevelOf(s, v))) != 0)
  {
    hide Shl, Low, RoundShift, Round, BitWidth;
    RoundMeaning(v, RoundingQuantum(s, v), mode, CommonBase(s, v));
  }

  /** The tininess test of the encoder is the one of the standard. */
  lemma TinyMeaning(s: Shape, v: BinaryValue, mode: Mode)
    requires ValidShape(s) && v.magnitude > 0
    ensures TinyAfterRounding(s, v, mode) <==> Tiny(s, v, mode)
  {
    hide Shl, Low, RoundShift, Round, Pow2, BitWidth, PrecisionBase, N.Size;
    assert TopBit(v) == v.exponent + BitWidth(v.magnitude) - 1;
    hide TopBit;
    if TopBit(v) < 1 - s.bias {
      var base := PrecisionBase(s, v);
      LeadingBitAt(v, base);
      RoundMeaning(v, TopBit(v) - s.fraction, mode, base);
      TinyArithmetic(N.Size(v, base), TopBit(v) - s.fraction - base, s.fraction, 1 - s.bias - base, mode, v.negative);
    }
  }

  lemma TinyArithmetic(x: nat, n: nat, f: nat, m: nat, mode: Mode, negative: bool)
    requires Pow2(n + f) <= x < Pow2(n + f + 1) && n + f < m
    ensures Shl(RoundShift(x, n, mode, negative), n) < Pow2(m) <==>
            (if RoundShift(x, n, mode, negative) == Pow2(f + 1) then n + f + 1 else n + f) < m
  {
    var r := RoundShift(x, n, mode, negative);
    hide Shl, RoundShift, Pow2;
    ShlPow2(f + 1, n);
    RoundAtMost(x, n, mode, negative, Pow2(f + 1));
    ShlOrder(r, Pow2(f + 1), n);
    Pow2Monotone(n + f + 1, m);
  }

  // ----- The encoder's promise -----

  /** The returned word is the correctly rounded input, with the flags of sections 7.4 to 7.6. */
  ghost predicate Rounds(s: Shape, v: BinaryValue, mode: Mode, c: Converted)
    requires ValidShape(s) && v.magnitude > 0
  {
    && IsFinite(s, c.bits)
    && SignBit(s, c.bits) == (if v.negative then 1 else 0)
    && CorrectlyRounded(s, v, mode, c.bits)
    && var inexact := ValueOf(s, v, c.bits) != Exact(s, v);
       c.flags == Flags(false, inexact, false, inexact && TinyAfterRounding(s, v, mode), false)
  }

  ghost predicate EncodePromise(s: Shape, v: BinaryValue, policy: Policy, r: Result<Converted>)
    requires ValidShape(s) && v.magnitude > 0
  {
    if Overflows(s, v, policy.rounding) then r == OverflowResult(s, v.negative, policy) && !Representable(s, v)
    else
      && (r.Ok? ==> Rounds(s, v, policy.rounding, r.value))
      && (policy.precision == N.AllowRounding ==> r.Ok?)
      && (policy.precision == N.ExactOnly ==> (r.Ok? <==> Representable(s, v)))
      && (r.Ok? && policy.precision == N.ExactOnly ==> !r.value.flags.inexact)
      && (r.Err? ==> r.error == InvalidArgument)
  }

  lemma FiniteWordRounds(s: Shape, v: BinaryValue, mode: Mode, rounded: Rounded, tiny: bool)
    requires ValidShape(s) && v.magnitude > 0 && !Overflows(s, v, mode)
    requires rounded.integer == RoundedAt(s, v, mode)
    requires rounded.inexact <==> Low(InputSize(s, v), Step(s, v, LevelOf(s, v))) != 0
    requires tiny <==> TinyAfterRounding(s, v, mode)
    ensures Rounds(s, v, mode, FiniteWord(s, v, rounded, tiny))
  {
    var r, c := RoundedAt(s, v, mode), FiniteWord(s, v, rounded, tiny);
    NextPower(s.fraction);
    var significand := if r == Pow2(s.fraction + 1) then Pow2(s.fraction) else r;
    hide Shl, Pow2, InputSize, RoundShift, Overflows, Low, Shr, CommonBase, RoundedAt, LevelOf, CorrectlyRounded,
         TinyAfterRounding, TopBit, IsFinite;
    assert WordExponent(s, v, r) >= 0;
    WordHolds(s, v, mode, significand, WordExponent(s, v, r), c.bits);
    HoldsRoundedIsCorrect(s, v, mode, c.bits);
  }

  /**
   Every finite value is rounded correctly into every format under every mode: overflow is
   detected exactly, the result is the best finite pattern with ties to even, the inexact flag
   says whether the value changed, and exact encoding succeeds exactly for representable values.
   */
  lemma EncodeFiniteCorrect(format: Format, v: BinaryValue, policy: Policy)
    requires v.magnitude > 0
    ensures EncodePromise(ShapeOf(format), v, policy, EncodeFinite(format, v, policy))
  {
    hide ShapeOf, OverflowResult, Overflows, Representable, Tiny, FiniteWord, Round, Rounds;
    var s, mode := ShapeOf(format), policy.rounding;
    RoundingMeaning(s, v, mode);
    OverflowBranches(s, v, mode);
    if Overflows(s, v, mode) {
      OverflowNotRepresentable(s, v, mode);
    } else {
      FiniteRounds(s, v, mode);
    }
  }

  /** Below overflow the word built from the rounded significand rounds the value, and is exact when it can be. */
  lemma FiniteRounds(s: Shape, v: BinaryValue, mode: Mode)
    requires ValidShape(s) && v.magnitude > 0 && !Overflows(s, v, mode)
    ensures var rounded := Round(v, RoundingQuantum(s, v), mode);
            var c := FiniteWord(s, v, rounded, Tiny(s, v, mode));
            Rounds(s, v, mode, c) && c.flags.inexact == rounded.inexact && (Representable(s, v) <==> !rounded.inexact)
  {
    var rounded := Round(v, RoundingQuantum(s, v), mode);
    RoundingMeaning(s, v, mode);
    TinyMeaning(s, v, mode);
    FiniteWordRounds(s, v, mode, rounded, Tiny(s, v, mode));
    InexactFlag(s, v, rounded, Tiny(s, v, mode));
    var c := FiniteWord(s, v, rounded, Tiny(s, v, mode));
    RoundedRepresentable(s, v, mode, c.bits);
    hide Pow2, Low, Shr, Round, OverflowResult, RoundedAt, InputSize, Overflows, ValueOf, TinyAfterRounding, Tiny,
         FiniteWord, CorrectlyRounded, Representable;
  }

  lemma InexactFlag(s: Shape, v: BinaryValue, rounded: Rounded, tiny: bool)
    requires ValidShape(s)
    ensures FiniteWord(s, v, rounded, tiny).flags.inexact == rounded.inexact
  {
  }

  /** A correctly rounded value differs from the input exactly when the input is not representable. */
  lemma RoundedRepresentable(s: Shape, v: BinaryValue, mode: Mode, bits: nat)
    requires ValidShape(s) && IsFinite(s, bits) && CorrectlyRounded(s, v, mode, bits)
    ensures Representable(s, v) <==> ValueOf(s, v, bits) == Exact(s, v)
  {
    hide ValueOf, Exact, IsFinite, FractionField;
    if Representable(s, v) {
      var other :| IsFinite(s, other) && ValueOf(s, v, other) == Exact(s, v);
      assert NoBetter(mode, Exact(s, v), ValueOf(s, v, bits), ValueOf(s, v, other));
    }
  }

  lemma FiniteWithinMax(s: Shape, v: BinaryValue, bits: nat)
    requires ValidShape(s) && IsFinite(s, bits)
    ensures Abs(ValueOf(s, v, bits)) <= MaxFinite(s, v)
  {
    PatternOnGrid(s, v, bits);
    hide Significand, Level, Shl, Limit;
    FinerBelow(Significand(s, bits), Limit(s), Step(s, v, Level(s, bits)), Step(s, v, TopLevel(s)));
  }

  lemma OverflowNotRepresentable(s: Shape, v: BinaryValue, mode: Mode)
    requires ValidShape(s) && Overflows(s, v, mode)
    ensures !Representable(s, v)
  {
    hide ValueOf, InputSize, MaxFinite;
    forall bits: nat | IsFinite(s, bits)
      ensures ValueOf(s, v, bits) != Exact(s, v)
    {
      FiniteWithinMax(s, v, bits);
    }
  }

  /** On overflow the result is infinity where the mode and policy ask for it, else the largest finite value. */
  lemma OverflowMeaning(s: Shape, v: BinaryValue, policy: Policy)
    requires ValidShape(s)
    ensures match OverflowResult(s, v.negative, policy)
            case Err(code) => code == Overflow && (policy.precision == N.ExactOnly || policy.overflow == Reject)
            case Ok(c) =>
              && policy.precision == N.AllowRounding && policy.overflow != Reject
              && c.flags == Flags(false, true, true, false, false)
              && IsPattern(s, c.bits) && SignBit(s, c.bits) == (if v.negative then 1 else 0)
              && if policy.overflow == IeeeResult
                    && (policy.rounding == NearestTiesEven || RoundsAway(policy.rounding, v.negative))
                 then ExponentField(s, c.bits) == 2 * s.bias + 1 && FractionField(s, c.bits) == 0
                 else IsFinite(s, c.bits) && ValueOf(s, v, c.bits) == Signed(v.negative, MaxFinite(s, v))
  {
    if policy.precision == N.AllowRounding && policy.overflow != Reject {
      var bits := OverflowResult(s, v.negative, policy).value.bits;
      NextPower(s.fraction);
      ShlSuccessor(2 * s.bias, s.fraction);
      hide Shl, Pow2, Low, Shr, CommonBase;
      if policy.overflow == IeeeResult
         && (policy.rounding == NearestTiesEven || RoundsAway(policy.rounding, v.negative)) {
        AssembleFields(s, v.negative, 2 * s.bias + 1, 0, bits);
      } else {
        AssembleFields(s, v.negative, 2 * s.bias, Pow2(s.fraction) - 1, bits);
      }
    }
  }
}
