/**
 The numeric encoder's promise as a statement about real numbers and bits, with no word of how it computes:
 of all words of the format the result is the one the policy asks for.
 */
module NumericConversion {
  import opened Core
  import opened Powers
  import opened Rounding
  import opened Dyadic
  import opened NumericSamples
  import opened NumericFormats
  import opened NumericEncoder

  /** The words of a format. */
  predicate IsWord(s: NumericSpec, bits: U64) {
    bits < Pow2(s.bits)
  }

  /** The real number lies between two values of the format. */
  ghost predicate InRange(s: NumericSpec, x: real)
    requires s.bits > s.exponentBits
  {
    && (exists low: U64 :: IsWord(s, low) && FormatValue(s, low) <= x)
    && (exists high: U64 :: IsWord(s, high) && x <= FormatValue(s, high))
  }

  ghost predicate IsBest(s: NumericSpec, x: real, mode: Mode, bits: U64)
    requires s.bits > s.exponentBits
  {
    && RealSide(mode, x, FormatValue(s, bits))
    && forall other: U64 :: IsWord(s, other) ==> RealNoBetter(mode, x, FormatValue(s, bits), FormatValue(s, other))
  }

  /** A tie is only won by an even mantissa, unless the mantissa has no even value but zero. */
  ghost predicate WinsTiesEvenly(s: NumericSpec, x: real, negative: bool, bits: U64)
    requires s.bits > s.exponentBits
  {
    forall other: U64 :: IsWord(s, other) && FormatValue(s, other) != FormatValue(s, bits)
                         && RealDistance(FormatValue(s, other), x) == RealDistance(FormatValue(s, bits), x) ==>
      bits / Pow2(s.exponentBits) % 2 == 0
      || s.bits - s.exponentBits == 1 + if negative then 0 else SignBits(s.kind)
  }

  /** No word of the same value has a smaller exponent. */
  ghost predicate HasLowestExponent(s: NumericSpec, bits: U64)
    requires s.bits > s.exponentBits
  {
    forall other: U64 :: IsWord(s, other) && FormatValue(s, other) == FormatValue(s, bits) ==>
      bits % Pow2(s.exponentBits) <= other % Pow2(s.exponentBits)
  }

  ghost predicate IsEnd(s: NumericSpec, negative: bool, bits: U64)
    requires s.bits > s.exponentBits
  {
    forall other: U64 :: IsWord(s, other) ==>
      if negative then FormatValue(s, bits) <= FormatValue(s, other) else FormatValue(s, other) <= FormatValue(s, bits)
  }

  /** What encoding the real number `x` may answer. The sign matters only for zero and for the ends. */
  ghost predicate RealPromise(s: NumericSpec, x: real, negative: bool, policy: ConversionPolicy,
                              r: Result<EncodedValue>)
    requires s.bits > s.exponentBits
  {
    && (r.Ok? ==> IsWord(s, r.value.bits) && HasLowestExponent(s, r.value.bits))
    && if !InRange(s, x) then
         if policy.overflow == Reject || policy.precision == ExactOnly then r == Err(Overflow)
         else r.Ok? && r.value.saturated && !r.value.rounded && IsEnd(s, negative, r.value.bits)
       else
         && (r.Ok? ==> !r.value.saturated && (r.value.rounded <==> FormatValue(s, r.value.bits) != x))
         && match policy.precision
            case AllowRounding =>
              && r.Ok? && IsBest(s, x, policy.rounding, r.value.bits)
              && (policy.rounding == NearestTiesEven ==> WinsTiesEvenly(s, x, negative, r.value.bits))
            case ExactOnly =>
              if exists bits: U64 :: IsWord(s, bits) && FormatValue(s, bits) == x
              then r.Ok? && FormatValue(s, r.value.bits) == x
              else r == Err(InvalidArgument)
  }

  /** On the common scale of input and format, integers stand for the real values. */
  lemma ValueIsFormat(s: NumericSpec, v: BinaryValue, bits: U64)
    requires ValidSpec(s) && IsWord(s, bits)
    ensures IsPattern(s, bits)
    ensures FormatValue(s, bits) == On(ValueOf(s, v, bits), Unit(CommonBase(s, v)))
  {
    hide Unit, On, Pow2, FormatValue, DecodeExact, RealOf, Quantum;
    assert IsPattern(s, bits);
    DecodeIsFormat(s, bits);
    DecodeMeaning(s, bits, CommonBase(s, v));
    ScaledIsReal(DecodeExact(s, bits).value, CommonBase(s, v));
  }

  lemma ExactIsReal(s: NumericSpec, v: BinaryValue)
    requires ValidSpec(s)
    ensures RealOf(v) == On(Exact(s, v), Unit(CommonBase(s, v)))
  {
    hide Unit, On, RealOf;
    ScaledIsReal(v, CommonBase(s, v));
  }

  lemma FieldParts(s: NumericSpec, bits: U64)
    requires ValidSpec(s) && IsWord(s, bits)
    ensures ExponentField(s, bits) == bits % Pow2(s.exponentBits)
    ensures MantissaField(s, bits) == bits / Pow2(s.exponentBits)
  {
    ShrDivides(bits, s.exponentBits);
    if !Vrt(s.kind) {
      assert Pow2(0) == 1;
    }
  }

  lemma SmallPowers()
    ensures Pow2(0) == 1 && Pow2(1) == 2 && Pow2(2) == 4
  {
  }

  lemma OneStepMantissa(s: NumericSpec, negative: bool)
    requires ValidSpec(s) && MaxMagnitude(s, negative) == 1
    ensures s.bits - s.exponentBits == 1 + if negative then 0 else SignBits(s.kind)
  {
    hide Pow2;
    var m := MantissaBits(s);
    Pow2Double(m);
    SmallPowers();
    if m > 1 {
      Pow2Monotone(1, m - 1);
    }
  }

  // ----- From the scale of integers to the real numbers -----

  lemma RangeIsDomain(s: NumericSpec, v: BinaryValue)
    requires ValidSpec(s)
    ensures InRange(s, RealOf(v)) <==> InDomain(s, v)
  {
    hide Unit, On, FormatValue, ValueOf, Exact, RealOf;
    ExactIsReal(s, v);
    forall bits: U64 | IsWord(s, bits)
      ensures IsPattern(s, bits)
      ensures FormatValue(s, bits) <= RealOf(v) <==> ValueOf(s, v, bits) <= Exact(s, v)
      ensures RealOf(v) <= FormatValue(s, bits) <==> Exact(s, v) <= ValueOf(s, v, bits)
    {
      ValueIsFormat(s, v, bits);
      ScaleOrder(ValueOf(s, v, bits), Exact(s, v), Unit(CommonBase(s, v)));
    }
  }

  lemma SameValues(s: NumericSpec, v: BinaryValue, a: U64, b: U64)
    requires ValidSpec(s) && IsWord(s, a) && IsWord(s, b)
    ensures IsPattern(s, a) && IsPattern(s, b)
    ensures FormatValue(s, a) <= FormatValue(s, b) <==> ValueOf(s, v, a) <= ValueOf(s, v, b)
    ensures FormatValue(s, a) == FormatValue(s, b) <==> ValueOf(s, v, a) == ValueOf(s, v, b)
  {
    hide Unit, On, FormatValue, ValueOf;
    ValueIsFormat(s, v, a);
    ValueIsFormat(s, v, b);
    ScaleOrder(ValueOf(s, v, a), ValueOf(s, v, b), Unit(CommonBase(s, v)));
  }

  lemma SameAsExact(s: NumericSpec, v: BinaryValue, bits: U64)
    requires ValidSpec(s) && IsWord(s, bits)
    ensures IsPattern(s, bits)
    ensures FormatValue(s, bits) == RealOf(v) <==> ValueOf(s, v, bits) == Exact(s, v)
  {
    hide Unit, On, FormatValue, ValueOf, Exact, RealOf;
    ValueIsFormat(s, v, bits);
    ExactIsReal(s, v);
    ScaleOrder(ValueOf(s, v, bits), Exact(s, v), Unit(CommonBase(s, v)));
  }

  lemma LowestInReals(s: NumericSpec, v: BinaryValue, bits: U64)
    requires IsPattern(s, bits) && LowestExponent(s, v, bits)
    ensures HasLowestExponent(s, bits)
  {
    hide FormatValue, ValueOf, ExponentField;
    FieldParts(s, bits);
    forall other: U64 | IsWord(s, other) && FormatValue(s, other) == FormatValue(s, bits)
      ensures bits % Pow2(s.exponentBits) <= other % Pow2(s.exponentBits)
    {
      SameValues(s, v, other, bits);
      FieldParts(s, other);
    }
  }

  lemma BestInReals(s: NumericSpec, v: BinaryValue, mode: Mode, bits: U64)
    requires ValidSpec(s) && CorrectlyRounded(s, v, mode, bits)
    ensures IsBest(s, RealOf(v), mode, bits)
  {
    hide FormatValue, ValueOf, Exact, RealOf, On, Unit, OnTheRightSide, NoBetter, RealSide, RealNoBetter;
    var u := Unit(CommonBase(s, v));
    ExactIsReal(s, v);
    ValueIsFormat(s, v, bits);
    RoundingOnScale(mode, Exact(s, v), ValueOf(s, v, bits), ValueOf(s, v, bits), u);
    forall other: U64 | IsWord(s, other)
      ensures RealNoBetter(mode, RealOf(v), FormatValue(s, bits), FormatValue(s, other))
    {
      ValueIsFormat(s, v, other);
      RoundingOnScale(mode, Exact(s, v), ValueOf(s, v, bits), ValueOf(s, v, other), u);
    }
  }

  lemma TiesInReals(s: NumericSpec, v: BinaryValue, bits: U64)
    requires IsPattern(s, bits) && TiesToEven(s, v, bits)
    ensures WinsTiesEvenly(s, RealOf(v), v.negative, bits)
  {
    hide FormatValue, ValueOf, Exact, RealOf, On, Unit, Abs, RealDistance, MantissaField, MaxMagnitude;
    FieldParts(s, bits);
    forall other: U64 | IsWord(s, other) && FormatValue(s, other) != FormatValue(s, bits)
      && RealDistance(FormatValue(s, other), RealOf(v)) == RealDistance(FormatValue(s, bits), RealOf(v))
      ensures bits / Pow2(s.exponentBits) % 2 == 0
              || s.bits - s.exponentBits == 1 + if v.negative then 0 else SignBits(s.kind)
    {
      SameValues(s, v, other, bits);
      DistancesOnScale(s, v, other, bits);
      if MaxMagnitude(s, v.negative) == 1 {
        OneStepMantissa(s, v.negative);
      }
    }
  }

  lemma DistancesOnScale(s: NumericSpec, v: BinaryValue, a: U64, b: U64)
    requires ValidSpec(s) && IsWord(s, a) && IsWord(s, b)
    requires RealDistance(FormatValue(s, a), RealOf(v)) == RealDistance(FormatValue(s, b), RealOf(v))
    ensures IsPattern(s, a) && IsPattern(s, b)
    ensures Abs(ValueOf(s, v, a) - Exact(s, v)) == Abs(ValueOf(s, v, b) - Exact(s, v))
  {
    hide FormatValue, ValueOf, Exact, RealOf, On, Unit, Abs, RealDistance;
    var u := Unit(CommonBase(s, v));
    ExactIsReal(s, v);
    ValueIsFormat(s, v, a);
    ValueIsFormat(s, v, b);
    UnitDistance(ValueOf(s, v, a), Exact(s, v), u);
    UnitDistance(ValueOf(s, v, b), Exact(s, v), u);
    ScaleOrder(Abs(ValueOf(s, v, a) - Exact(s, v)), Abs(ValueOf(s, v, b) - Exact(s, v)), u);
  }

  lemma EndInReals(s: NumericSpec, v: BinaryValue, bits: U64)
    requires IsPattern(s, bits) && IsDomainEnd(s, v, bits)
    ensures IsEnd(s, v.negative, bits)
  {
    hide FormatValue, ValueOf;
    forall other: U64 | IsWord(s, other)
      ensures if v.negative then FormatValue(s, bits) <= FormatValue(s, other)
              else FormatValue(s, other) <= FormatValue(s, bits)
    {
      SameValues(s, v, bits, other);
      SameValues(s, v, other, bits);
    }
  }

  lemma RepresentableInReals(s: NumericSpec, v: BinaryValue)
    requires ValidSpec(s)
    ensures Representable(s, v) <==> exists bits: U64 :: IsWord(s, bits) && FormatValue(s, bits) == RealOf(v)
  {
    hide FormatValue, ValueOf, Exact, RealOf;
    forall bits: U64 | IsWord(s, bits)
      ensures IsPattern(s, bits) && (FormatValue(s, bits) == RealOf(v) <==> ValueOf(s, v, bits) == Exact(s, v))
    {
      SameAsExact(s, v, bits);
    }
  }

  /** The promise on the common scale is the promise about real numbers. */
  lemma PromiseInReals(s: NumericSpec, v: BinaryValue, policy: ConversionPolicy, r: Result<EncodedValue>)
    requires ValidSpec(s) && EncodePromise(s, v, policy, r)
    ensures RealPromise(s, RealOf(v), v.negative, policy, r)
  {
    hide InDomain, InRange, LowestExponent, HasLowestExponent, CorrectlyRounded, IsBest, TiesToEven, WinsTiesEvenly,
         IsDomainEnd, IsEnd, Representable, FormatValue, ValueOf, Exact, RealOf;
    RangeIsDomain(s, v);
    RepresentableInReals(s, v);
    if r.Ok? {
      var bits := r.value.bits;
      LowestInReals(s, v, bits);
      SameAsExact(s, v, bits);
      if !InDomain(s, v) {
        EndInReals(s, v, bits);
      } else if policy.precision == AllowRounding {
        BestInReals(s, v, policy.rounding, bits);
        if policy.rounding == NearestTiesEven {
          TiesInReals(s, v, bits);
        }
      }
    }
  }

  // ----- The operations -----

  /** Converts an exact binary value to a field word. */
  method EncodeNumeric(s: NumericSpec, value: BinaryValue, policy: ConversionPolicy) returns (r: Result<EncodedValue>)
    ensures !ValidSpec(s) ==> r == Err(InvalidArgument)
    ensures ValidSpec(s) ==> EncodePromise(s, value, policy, r)
    ensures ValidSpec(s) ==> RealPromise(s, RealOf(value), value.negative, policy, r)
    ensures ValidSpec(s) && policy.precision == ExactOnly && r.Ok? ==>
              DecodeExact(s, r.value.bits) == Canonicalize(value)
  {
    if !ValidSpec(s) {
      return Err(InvalidArgument);
    }
    r := EncodeValid(s, value, policy);
    hide EncodePromise, RealPromise, RealOf, DecodeExact, Canonicalize;
    PromiseInReals(s, value, policy, r);
  }

  /** Re-encodes a field word of one format in another. */
  method ConvertNumeric(source: NumericSpec, bits: U64, destination: NumericSpec, policy: ConversionPolicy)
    returns (r: Result<EncodedValue>)
    ensures !IsPattern(source, bits) || !ValidSpec(destination) ==> r == Err(InvalidArgument)
    ensures IsPattern(source, bits) && ValidSpec(destination) ==>
              && DecodeExact(source, bits).Ok?
              && RealPromise(destination, FormatValue(source, bits), DecodeExact(source, bits).value.negative, policy,
                             r)
    ensures IsPattern(source, bits) && source == destination ==>
              r.Ok? && DecodeExact(source, r.value.bits) == DecodeExact(source, bits)
  {
    var value := DecodeExact(source, bits);
    if IsPattern(source, bits) {
      DecodeIsFormat(source, bits);
    }
    hide EncodePromise, Canonicalize, Quantum, RealPromise, FormatValue, RealOf, Pow2;
    if value.Err? {
      return Err(InvalidArgument);
    }
    hide DecodeExact;
    r := EncodeNumeric(destination, value.value, policy);
    if source == destination {
      OwnFormatKeeps(source, bits, policy, r);
    }
  }
}
