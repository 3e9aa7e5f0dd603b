/**
 The exponent search of the numeric encoder, proved against what its result decodes to
 (include/vita/codec/numeric_samples.hpp, encode_numeric and convert_numeric).
 */
module NumericEncoder {
  import opened Core
  import opened Powers
  import opened Rounding
  import opened NumericSamples

  // ----- Specification: only decoded values of bit patterns are mentioned -----

  /** A scale on which the input and every pattern of the format are integers. */
  ghost function CommonBase(s: NumericSpec, v: BinaryValue): (base: int)
    requires ValidSpec(s)
    ensures base <= Quantum(s, 0) && base <= v.exponent
  {
    if v.exponent < Quantum(s, 0) then v.exponent else Quantum(s, 0)
  }

  ghost function Exact(s: NumericSpec, v: BinaryValue): int
    requires ValidSpec(s)
  {
    Scaled(v, CommonBase(s, v))
  }

  /** Value of a pattern on the scale of the input `v`. */
  ghost function ValueOf(s: NumericSpec, v: BinaryValue, bits: U64): int
    requires IsPattern(s, bits)
  {
    Decoded(s, bits, CommonBase(s, v))
  }

  /** The input lies between the least and the greatest value of the format. */
  ghost predicate InDomain(s: NumericSpec, v: BinaryValue)
    requires ValidSpec(s)
  {
    && (exists low: U64 :: IsPattern(s, low) && ValueOf(s, v, low) <= Exact(s, v))
    && (exists high: U64 :: IsPattern(s, high) && Exact(s, v) <= ValueOf(s, v, high))
  }

  /** `bits` is the answer the rounding mode asks for among all patterns of the format. */
  ghost predicate CorrectlyRounded(s: NumericSpec, v: BinaryValue, mode: Mode, bits: U64)
    requires ValidSpec(s)
  {
    && IsPattern(s, bits)
    && OnTheRightSide(mode, Exact(s, v), ValueOf(s, v, bits))
    && forall other: U64 :: IsPattern(s, other) ==>
      NoBetter(mode, Exact(s, v), ValueOf(s, v, bits), ValueOf(s, v, other))
  }

  /** A second pattern value at the same distance is only met by an even mantissa (or a one-step mantissa). */
  ghost predicate TiesToEven(s: NumericSpec, v: BinaryValue, bits: U64)
    requires IsPattern(s, bits)
  {
    forall other: U64 ::
      IsPattern(s, other) && ValueOf(s, v, other) != ValueOf(s, v, bits) &&
      Abs(ValueOf(s, v, other) - Exact(s, v)) == Abs(ValueOf(s, v, bits) - Exact(s, v)) ==>
        MantissaField(s, bits) % 2 == 0 || MaxMagnitude(s, v.negative) == 1
  }

  /** No pattern with the same value has a smaller exponent field. */
  ghost predicate LowestExponent(s: NumericSpec, v: BinaryValue, bits: U64)
    requires IsPattern(s, bits)
  {
    forall other: U64 ::
      IsPattern(s, other) && ValueOf(s, v, other) == ValueOf(s, v, bits) ==>
        ExponentField(s, bits) <= ExponentField(s, other)
  }

  /** `bits` stands for the end of the domain on the side of the input. */
  ghost predicate IsDomainEnd(s: NumericSpec, v: BinaryValue, bits: U64)
    requires IsPattern(s, bits)
  {
    forall other: U64 :: IsPattern(s, other) ==>
      if v.negative then ValueOf(s, v, bits) <= ValueOf(s, v, other)
      else ValueOf(s, v, other) <= ValueOf(s, v, bits)
  }

  // ----- The exponents the search visits -----

  /** Binary exponent of one mantissa step at exponent field `e`, on the scale of the input. */
  ghost function Step(s: NumericSpec, v: BinaryValue, e: nat): nat
    requires ValidSpec(s)
  {
    Quantum(s, 0) - CommonBase(s, v) + e
  }

  ghost function InputSize(s: NumericSpec, v: BinaryValue): (x: nat)
    requires ValidSpec(s)
    ensures Exact(s, v) == Signed(v.negative, x)
  {
    Size(v, CommonBase(s, v))
  }

  /** The input rounded at exponent field `e`, in mantissa steps. */
  ghost function RoundedAt(s: NumericSpec, v: BinaryValue, mode: Mode, e: nat): nat
    requires ValidSpec(s)
  {
    RoundShift(InputSize(s, v), Step(s, v, e), mode, v.negative)
  }

  lemma QuantizeAt(s: NumericSpec, v: BinaryValue, mode: Mode, e: nat)
    requires ValidSpec(s) && e <= MaxExponent(s)
    ensures QuantizedAs(Quantize(v, Quantum(s, e), mode), InputSize(s, v), Step(s, v, e), mode, v.negative)
  {
    SpecBounds(s, e);
    QuantizeMeaning(v, Quantum(s, e), mode, CommonBase(s, v));
  }

  /** Every pattern value is a bounded multiple of the step of its exponent field. */
  lemma PatternOnGrid(s: NumericSpec, v: BinaryValue, bits: U64) returns (negative: bool, k: nat, e: nat)
    requires IsPattern(s, bits)
    ensures e == ExponentField(s, bits) && e <= MaxExponent(s)
    ensures k <= MaxMagnitude(s, negative)
    ensures negative == NegativeField(s, bits) && k == MagnitudeField(s, bits)
    ensures negative ==> SignedKind(s.kind)
    ensures ValueOf(s, v, bits) == Signed(negative, Shl(k, Step(s, v, e)))
  {
    DecodeMeaning(s, bits, CommonBase(s, v));
    negative, k, e := NegativeField(s, bits), MagnitudeField(s, bits), ExponentField(s, bits);
  }

  /** The magnitude `k` at exponent field `e` has a pattern. */
  lemma GridHasPattern(s: NumericSpec, v: BinaryValue, negative: bool, k: nat, e: nat) returns (bits: U64)
    requires ValidSpec(s) && e <= MaxExponent(s) && k <= MaxMagnitude(s, negative)
    requires negative ==> SignedKind(s.kind)
    ensures IsPattern(s, bits)
    ensures ValueOf(s, v, bits) == Signed(negative, Shl(k, Step(s, v, e)))
  {
    hide Word, Shl, Decoded, ExponentField, MantissaField, Quantum, MaxMagnitude, MaxExponent, ValidSpec, Pow2, Signed;
    SpecBounds(s, e);
    WordDecodes(s, k, e, negative, CommonBase(s, v), Word(s, k, e, negative));
    bits := Word(s, k, e, negative);
  }

  // ----- The first exponent that fits gives the rounding the mode asks for -----

  ghost predicate FirstFit(s: NumericSpec, v: BinaryValue, mode: Mode, e: nat, bits: U64)
    requires IsPattern(s, bits)
  {
    && (e > 0 ==> RoundedAt(s, v, mode, e - 1) > MaxMagnitude(s, v.negative))
    && ValueOf(s, v, bits) == Signed(v.negative, Shl(RoundedAt(s, v, mode, e), Step(s, v, e)))
  }

  lemma FirstFitIsBest(s: NumericSpec, v: BinaryValue, mode: Mode, e: nat, bits: U64, other: U64)
    requires IsPattern(s, bits) && IsPattern(s, other) && FirstFit(s, v, mode, e, bits)
    ensures OnTheRightSide(mode, Exact(s, v), ValueOf(s, v, bits))
    ensures NoBetter(mode, Exact(s, v), ValueOf(s, v, bits), ValueOf(s, v, other))
  {
    hide Exact, ValueOf, InputSize, RoundShift, OnTheRightSide, NoBetter, Shl, Quantum, ExponentField, MagnitudeField,
         NegativeField;
    var negative, k, oe := PatternOnGrid(s, v, other);
    SignedLevelIsBest(InputSize(s, v), Step(s, v, 0), MaxMagnitude(s, v.negative), Step(s, v, e), mode, v.negative,
                      negative, k, Step(s, v, oe));
  }

  lemma FirstFitIsRounded(s: NumericSpec, v: BinaryValue, mode: Mode, e: nat, bits: U64)
    requires IsPattern(s, bits) && FirstFit(s, v, mode, e, bits)
    ensures CorrectlyRounded(s, v, mode, bits)
  {
    hide Exact, ValueOf, FirstFit, OnTheRightSide, NoBetter;
    FirstFitIsBest(s, v, mode, e, bits, bits);
    forall other: U64 | IsPattern(s, other)
      ensures NoBetter(mode, Exact(s, v), ValueOf(s, v, bits), ValueOf(s, v, other))
    {
      FirstFitIsBest(s, v, mode, e, bits, other);
    }
  }

  /** The largest magnitude is one less than a power of two, or a power of two. */
  lemma LimitShape(s: NumericSpec, negative: bool, q: nat)
    requires ValidSpec(s)
    requires MaxMagnitude(s, negative) % 2 == 1 && 2 * q == MaxMagnitude(s, negative) + 1
    ensures q % 2 == 0 || MaxMagnitude(s, negative) == 1
  {
    hide Pow2;
    var w := if SignedKind(s.kind) then MantissaBits(s) - 1 else MantissaBits(s);
    PowerParity(w);
    if w > 0 {
      PowerParity(w - 1);
    }
  }

  lemma PowerParity(w: nat)
    ensures Pow2(w) % 2 == 0 <==> w > 0
    ensures w > 0 ==> Pow2(w) == 2 * Pow2(w - 1)
    ensures w == 0 ==> Pow2(w) == 1
  {
  }

  lemma FirstFitTie(s: NumericSpec, v: BinaryValue, e: nat, bits: U64, other: U64)
    requires IsPattern(s, bits) && IsPattern(s, other) && FirstFit(s, v, NearestTiesEven, e, bits)
    requires ValueOf(s, v, other) != ValueOf(s, v, bits)
    requires Abs(ValueOf(s, v, other) - Exact(s, v)) == Abs(ValueOf(s, v, bits) - Exact(s, v))
    ensures RoundedAt(s, v, NearestTiesEven, e) % 2 == 0 || MaxMagnitude(s, v.negative) == 1
  {
    hide Exact, ValueOf, InputSize, RoundShift, Shl, MaxMagnitude, Quantum, ExponentField, MagnitudeField,
         NegativeField;
    var negative, k, oe := PatternOnGrid(s, v, other);
    SignedLevelTie(InputSize(s, v), Step(s, v, 0), MaxMagnitude(s, v.negative), Step(s, v, e), v.negative,
                   negative, k, Step(s, v, oe));
    if RoundedAt(s, v, NearestTiesEven, e) % 2 != 0 {
      LimitShape(s, v.negative, RoundedAt(s, v, NearestTiesEven, e));
    }
  }

  lemma FirstFitTiesToEven(s: NumericSpec, v: BinaryValue, e: nat, bits: U64)
    requires IsPattern(s, bits) && FirstFit(s, v, NearestTiesEven, e, bits)
    requires RoundedAt(s, v, NearestTiesEven, e) % 2 == 0 ==> MantissaField(s, bits) % 2 == 0
    ensures TiesToEven(s, v, bits)
  {
    hide Exact, ValueOf, FirstFit, RoundedAt, MantissaField;
    forall other: U64 | IsPattern(s, other) && ValueOf(s, v, other) != ValueOf(s, v, bits) &&
      Abs(ValueOf(s, v, other) - Exact(s, v)) == Abs(ValueOf(s, v, bits) - Exact(s, v))
      ensures MantissaField(s, bits) % 2 == 0 || MaxMagnitude(s, v.negative) == 1
    {
      FirstFitTie(s, v, e, bits, other);
    }
  }

  /** Rounding changed the value exactly when bits were dropped. */
  lemma RoundedIffResidue(s: NumericSpec, v: BinaryValue, mode: Mode, e: nat, bits: U64)
    requires IsPattern(s, bits)
    requires ValueOf(s, v, bits) == Signed(v.negative, Shl(RoundedAt(s, v, mode, e), Step(s, v, e)))
    ensures ValueOf(s, v, bits) == Exact(s, v) <==> Low(InputSize(s, v), Step(s, v, e)) == 0
  {
    BestMultiple(InputSize(s, v), Step(s, v, e), mode, v.negative, 0);
  }

  // ----- Exact encoding, and the lowest exponent -----

  /** The exponent field `e` is one the policy accepts for the input. */
  ghost predicate Fits(s: NumericSpec, v: BinaryValue, policy: ConversionPolicy, e: nat)
    requires ValidSpec(s)
  {
    && RoundedAt(s, v, policy.rounding, e) <= MaxMagnitude(s, v.negative)
    && (policy.precision == ExactOnly ==> Low(InputSize(s, v), Step(s, v, e)) == 0)
  }

  /** A pattern with exactly the value of the input makes its own exponent field fit. */
  lemma ExactPatternFits(s: NumericSpec, v: BinaryValue, policy: ConversionPolicy, bits: U64)
    requires IsPattern(s, bits) && ValueOf(s, v, bits) == Exact(s, v)
    ensures ExponentField(s, bits) <= MaxExponent(s)
    ensures Fits(s, v, policy, ExponentField(s, bits))
  {
    var negative, k, e := PatternOnGrid(s, v, bits);
    hide Exact, ValueOf, InputSize, Shl;
    SplitUnique(InputSize(s, v), Step(s, v, e), k, 0);
    ShlZero(Step(s, v, e));
    ShlOrder(0, k, Step(s, v, e));
  }

  /** If twice the magnitude exceeds the limit, or the exponent field is zero, no smaller field is possible. */
  lemma LowestAtLimit(s: NumericSpec, v: BinaryValue, bits: U64, negative: bool, k: nat, e: nat)
    requires IsPattern(s, bits) && k <= MaxMagnitude(s, negative) && k > 0
    requires ExponentField(s, bits) == e
    requires ValueOf(s, v, bits) == Signed(negative, Shl(k, Step(s, v, e)))
    requires e > 0 ==> 2 * k > MaxMagnitude(s, negative)
    ensures LowestExponent(s, v, bits)
  {
    forall other: U64 | IsPattern(s, other) && ValueOf(s, v, other) == ValueOf(s, v, bits)
      ensures e <= ExponentField(s, other)
    {
      var n, j, oe := PatternOnGrid(s, v, other);
      SmallerFieldOverflows(negative, k, Step(s, v, e), n, j, Step(s, v, oe), MaxMagnitude(s, negative));
    }
  }

  lemma SmallerFieldOverflows(negative: bool, k: nat, e: nat, otherNegative: bool, j: nat, oe: nat, limit: nat)
    requires k > 0 && Signed(negative, Shl(k, e)) == Signed(otherNegative, Shl(j, oe))
    requires otherNegative == negative ==> j <= limit
    ensures oe < e ==> 2 * k <= limit
  {
    ShlZero(e);
    ShlOrder(0, k, e);
    if oe < e {
      ShlShl(k, e - oe, oe);
      ShlOrder(Shl(k, e - oe), j, oe);
      ShlGrows(k, e - oe);
    }
  }

  lemma ZeroIsLowest(s: NumericSpec, v: BinaryValue)
    requires ValidSpec(s)
    ensures IsPattern(s, 0) && ValueOf(s, v, 0) == 0
    ensures ExponentField(s, 0) == 0 && MantissaField(s, 0) == 0
    ensures LowestExponent(s, v, 0)
  {
    WordDecodes(s, 0, 0, false, CommonBase(s, v), 0);
    ShlZero(Step(s, v, 0));
    ZeroFields(s);
  }

  // ----- The domain of the format -----

  function Bound(s: NumericSpec, negative: bool): BinaryValue
    requires ValidSpec(s)
  {
    SpecBounds(s, MaxExponent(s));
    BinaryValue(MaxMagnitude(s, negative), Quantum(s, MaxExponent(s)), negative)
  }

  predicate OutOfDomain(s: NumericSpec, v: BinaryValue)
    requires ValidSpec(s)
  {
    (!SignedKind(s.kind) && v.negative) || Compare(v, Bound(s, v.negative)) > 0
  }

  /** Magnitudes within the domain are at most the largest mantissa at the largest exponent. */
  lemma CompareWithBound(s: NumericSpec, v: BinaryValue)
    requires ValidSpec(s)
    ensures Compare(v, Bound(s, v.negative)) > 0 <==>
            InputSize(s, v) > Shl(MaxMagnitude(s, v.negative), Step(s, v, MaxExponent(s)))
  {
    hide Shl, Compare, Quantum, MaxMagnitude, MaxExponent, ValidSpec;
    SpecBounds(s, MaxExponent(s));
    CompareMeaning(v, Bound(s, v.negative), CommonBase(s, v));
  }

  lemma PatternWithinBound(s: NumericSpec, v: BinaryValue, bits: U64)
    requires IsPattern(s, bits)
    ensures var y := ValueOf(s, v, bits);
            && y <= Shl(MaxMagnitude(s, false), Step(s, v, MaxExponent(s)))
            && 0 - Shl(MaxMagnitude(s, true), Step(s, v, MaxExponent(s))) <= y
            && (!SignedKind(s.kind) ==> y >= 0)
  {
    var negative, k, e := PatternOnGrid(s, v, bits);
    FinerBelow(k, MaxMagnitude(s, negative), Step(s, v, e), Step(s, v, MaxExponent(s)));
  }

  /** The comparison made before quantization decides exactly whether the input is in the domain. */
  lemma DomainMeaning(s: NumericSpec, v: BinaryValue)
    requires ValidSpec(s) && v.magnitude > 0
    ensures OutOfDomain(s, v) <==> !InDomain(s, v)
  {
    CompareWithBound(s, v);
    InputPositive(s, v);
    ZeroIsLowest(s, v);
    if OutOfDomain(s, v) {
      forall bits: U64 | IsPattern(s, bits)
        ensures if v.negative then Exact(s, v) < ValueOf(s, v, bits) else ValueOf(s, v, bits) < Exact(s, v)
      {
        PatternWithinBound(s, v, bits);
      }
    } else {
      var far := GridHasPattern(s, v, v.negative, MaxMagnitude(s, v.negative), MaxExponent(s));
      assert if v.negative then ValueOf(s, v, far) <= Exact(s, v) else Exact(s, v) <= ValueOf(s, v, far);
    }
  }

  lemma InputPositive(s: NumericSpec, v: BinaryValue)
    requires ValidSpec(s) && v.magnitude > 0
    ensures InputSize(s, v) > 0
  {
    ShlZero(v.exponent - CommonBase(s, v));
    ShlOrder(0, v.magnitude, v.exponent - CommonBase(s, v));
  }

  // ----- The encoder -----

  ghost predicate Representable(s: NumericSpec, v: BinaryValue)
    requires ValidSpec(s)
  {
    exists bits: U64 :: IsPattern(s, bits) && ValueOf(s, v, bits) == Exact(s, v)
  }

  /** What a search over an input of the domain returns. */
  ghost predicate Encodes(s: NumericSpec, v: BinaryValue, policy: ConversionPolicy, r: Result<EncodedValue>)
    requires ValidSpec(s)
  {
    && (r.Ok? ==>
          && IsPattern(s, r.value.bits)
          && LowestExponent(s, v, r.value.bits)
          && (r.value.rounded <==> ValueOf(s, v, r.value.bits) != Exact(s, v)))
    && match policy.precision
       case AllowRounding =>
         && r.Ok?
         && CorrectlyRounded(s, v, policy.rounding, r.value.bits)
         && (policy.rounding == NearestTiesEven ==> TiesToEven(s, v, r.value.bits))
       case ExactOnly =>
         && (r.Ok? <==> Representable(s, v))
         && (r.Ok? ==> ValueOf(s, v, r.value.bits) == Exact(s, v))
         && (r.Err? ==> r.error == InvalidArgument)
  }

  /** What the chosen magnitude and exponent field stand for. */
  ghost predicate Chosen(s: NumericSpec, v: BinaryValue, policy: ConversionPolicy, e: nat, magnitude: nat, encoded: nat)
    requires ValidSpec(s)
  {
    && e <= MaxExponent(s) && encoded <= e && magnitude <= MaxMagnitude(s, v.negative)
    && Fits(s, v, policy, e)
    && (forall i :: 0 <= i < e ==> !Fits(s, v, policy, i))
    && Shl(magnitude, Step(s, v, encoded)) == Shl(RoundedAt(s, v, policy.rounding, e), Step(s, v, e))
    && (encoded > 0 && magnitude > 0 ==> 2 * magnitude > MaxMagnitude(s, v.negative))
    && (RoundedAt(s, v, policy.rounding, e) % 2 == 0 ==> magnitude % 2 == 0)
  }

  lemma ChosenEncodes(s: NumericSpec, v: BinaryValue, policy: ConversionPolicy, e: nat, magnitude: U64, encoded: nat,
                      r: EncodedValue)
    requires ValidSpec(s) && (v.negative ==> SignedKind(s.kind))
    requires Chosen(s, v, policy, e, magnitude, encoded)
    requires r.bits == Word(s, magnitude, encoded, v.negative)
    requires r.rounded <==> Low(InputSize(s, v), Step(s, v, e)) != 0
    ensures Encodes(s, v, policy, Ok(r))
  {
    hide Exact, ValueOf, InputSize, Shl, Low, RoundedAt, Word, MantissaField, ExponentField, MaxMagnitude, IsPattern,
         CorrectlyRounded, TiesToEven, LowestExponent, FirstFit, Chosen, Step;
    ChosenDecodes(s, v, policy, e, magnitude, encoded, r.bits);
    RoundedIffResidue(s, v, policy.rounding, e, r.bits);
    ChosenIsFirst(s, v, policy, e, magnitude, encoded);
    if policy.precision == AllowRounding {
      FirstFitFromChosen(s, v, policy.rounding, e, r.bits);
      FirstFitIsRounded(s, v, policy.rounding, e, r.bits);
      if policy.rounding == NearestTiesEven {
        FirstFitTiesToEven(s, v, e, r.bits);
      }
    }
  }

  lemma ChosenIsFirst(s: NumericSpec, v: BinaryValue, policy: ConversionPolicy, e: nat, magnitude: U64, encoded: nat)
    requires ValidSpec(s) && Chosen(s, v, policy, e, magnitude, encoded)
    ensures policy.precision == AllowRounding && e > 0 ==>
              RoundedAt(s, v, policy.rounding, e - 1) > MaxMagnitude(s, v.negative)
    ensures policy.precision == ExactOnly ==> Low(InputSize(s, v), Step(s, v, e)) == 0
  {
    hide RoundedAt, InputSize, Low, Shl, MaxMagnitude;
    assert e > 0 ==> !Fits(s, v, policy, e - 1);
  }

  /** The chosen word stands for the rounded size and has the lowest exponent. */
  lemma ChosenDecodes(s: NumericSpec, v: BinaryValue, policy: ConversionPolicy, e: nat, magnitude: U64, encoded: nat,
                      bits: U64)
    requires ValidSpec(s) && (v.negative ==> SignedKind(s.kind))
    requires Chosen(s, v, policy, e, magnitude, encoded) && bits == Word(s, magnitude, encoded, v.negative)
    ensures IsPattern(s, bits) && LowestExponent(s, v, bits)
    ensures ValueOf(s, v, bits) == Signed(v.negative, Shl(RoundedAt(s, v, policy.rounding, e), Step(s, v, e)))
    ensures RoundedAt(s, v, policy.rounding, e) % 2 == 0 ==> MantissaField(s, bits) % 2 == 0
  {
    hide Exact, ValueOf, InputSize, Shl, Low, RoundedAt, Word, MantissaField, ExponentField, MaxMagnitude, IsPattern,
         CorrectlyRounded, TiesToEven, LowestExponent, FirstFit, Fits;
    ChosenMagnitude(s, v, magnitude, encoded, bits);
    assert encoded > 0 && magnitude > 0 ==> 2 * magnitude > MaxMagnitude(s, v.negative);
    hide Chosen, Step;
    if magnitude == 0 {
      ZeroWord(s, encoded, v.negative);
      ZeroIsLowest(s, v);
    } else {
      LowestAtLimit(s, v, bits, v.negative, magnitude, encoded);
    }
  }

  lemma ZeroWord(s: NumericSpec, e: nat, negative: bool)
    requires ValidSpec(s)
    ensures Word(s, 0, e, negative) == 0
  {
  }

  /** A word assembled from a magnitude and an exponent field decodes to that magnitude at that exponent. */
  lemma ChosenMagnitude(s: NumericSpec, v: BinaryValue, magnitude: U64, encoded: nat, bits: U64)
    requires ValidSpec(s) && (v.negative ==> SignedKind(s.kind)) && encoded <= MaxExponent(s)
    requires magnitude <= MaxMagnitude(s, v.negative) && bits == Word(s, magnitude, encoded, v.negative)
    ensures IsPattern(s, bits) && ValueOf(s, v, bits) == Signed(v.negative, Shl(magnitude, Step(s, v, encoded)))
    ensures ExponentField(s, bits) == if magnitude == 0 then 0 else encoded
    ensures magnitude % 2 == 0 ==> MantissaField(s, bits) % 2 == 0
  {
    hide Shl, Low, Word, MantissaField, ExponentField, MaxMagnitude, MaxExponent, IsPattern, CommonBase, Quantum,
         ValidSpec, Decoded;
    WordDecodes(s, magnitude, encoded, v.negative, CommonBase(s, v), bits);
  }

  lemma FirstFitFromChosen(s: NumericSpec, v: BinaryValue, mode: Mode, e: nat, bits: U64)
    requires IsPattern(s, bits)
    requires e > 0 ==> RoundedAt(s, v, mode, e - 1) > MaxMagnitude(s, v.negative)
    requires ValueOf(s, v, bits) == Signed(v.negative, Shl(RoundedAt(s, v, mode, e), Step(s, v, e)))
    ensures FirstFit(s, v, mode, e, bits)
  {
  }

  /** A search in which no exponent field fits: only a precision policy can bring that about. */
  lemma NothingFits(s: NumericSpec, v: BinaryValue, policy: ConversionPolicy)
    requires ValidSpec(s) && (v.negative ==> SignedKind(s.kind))
    requires InputSize(s, v) <= Shl(MaxMagnitude(s, v.negative), Step(s, v, MaxExponent(s)))
    requires forall i :: 0 <= i <= MaxExponent(s) ==> !Fits(s, v, policy, i)
    ensures policy.precision == ExactOnly
    ensures Encodes(s, v, policy, Err(InvalidArgument))
  {
    hide Exact, ValueOf, InputSize, Low, RoundShift, Shl;
    RoundAtMost(InputSize(s, v), Step(s, v, MaxExponent(s)), policy.rounding, v.negative, MaxMagnitude(s, v.negative));
    assert !Fits(s, v, policy, MaxExponent(s));
    forall bits: U64 | IsPattern(s, bits)
      ensures ValueOf(s, v, bits) != Exact(s, v)
    {
      if ValueOf(s, v, bits) == Exact(s, v) {
        ExactPatternFits(s, v, policy, bits);
        assert false;
      }
    }
  }

  /** The loop over exponent fields, for an input within the domain. */
  method SearchExponent(s: NumericSpec, value: BinaryValue, policy: ConversionPolicy, saturated: bool)
    returns (r: Result<EncodedValue>)
    requires ValidSpec(s) && (value.negative ==> SignedKind(s.kind))
    requires InputSize(s, value) <= Shl(MaxMagnitude(s, value.negative), Step(s, value, MaxExponent(s)))
    ensures Encodes(s, value, policy, r)
    ensures r.Ok? ==> r.value.saturated == saturated
  {
    SpecBounds(s, 0);
    hide Encodes, InputSize, RoundShift, Low, Shl, Quantize, Quantum, MaxMagnitude, MaxExponent, Fits, QuantizedAs,
         Step;
    var maxMagnitude: U64 := MaxMagnitude(s, value.negative);
    var e := 0;
    while e <= MaxExponent(s)
      invariant e <= MaxExponent(s) + 1
      invariant forall i :: 0 <= i < e ==> !Fits(s, value, policy, i)
    {
      var result := Quantize(value, Quantum(s, e), policy.rounding);
      QuantizeAt(s, value, policy.rounding, e);
      FitsMeaning(s, value, policy, e, result);
      if !result.overflow && result.magnitude <= maxMagnitude && !(result.residue && policy.precision == ExactOnly) {
        r := Emit(s, value, policy, saturated, e, result);
        return;
      }
      e := e + 1;
    }
    r := Err(InvalidArgument);
    NothingFits(s, value, policy);
  }

  /** The word for a quantization result that fits at exponent field `e`. */
  method Emit(s: NumericSpec, value: BinaryValue, policy: ConversionPolicy, saturated: bool, e: nat, result: Quantized)
    returns (r: Result<EncodedValue>)
    requires ValidSpec(s) && (value.negative ==> SignedKind(s.kind)) && e <= MaxExponent(s)
    requires QuantizedAs(result, InputSize(s, value), Step(s, value, e), policy.rounding, value.negative)
    requires !result.overflow && Fits(s, value, policy, e)
    requires forall i :: 0 <= i < e ==> !Fits(s, value, policy, i)
    ensures Encodes(s, value, policy, r)
    ensures r.Ok? && r.value.saturated == saturated
  {
    hide *;
    var limit := MaxMagnitude(s, value.negative);
    ResultBounds(s, value, policy, e, result);
    var magnitude, encoded := Normalize(result.magnitude, e, limit);
    NormalizedIsChosen(s, value, policy, e, result, magnitude, encoded);
    var word: U64 := Word(s, magnitude, encoded, value.negative);
    r := Ok(EncodedValue(word, result.residue, saturated));
    ChosenEncodes(s, value, policy, e, magnitude, encoded, r.value);
  }

  lemma ResultBounds(s: NumericSpec, v: BinaryValue, policy: ConversionPolicy, e: nat, z: Quantized)
    requires ValidSpec(s) && Fits(s, v, policy, e)
    requires QuantizedAs(z, InputSize(s, v), Step(s, v, e), policy.rounding, v.negative) && !z.overflow
    ensures MaxMagnitude(s, v.negative) <= 0xFFFF_FFFF_FFFF_FFFF
    ensures z.magnitude <= MaxMagnitude(s, v.negative)
    ensures z.residue <==> Low(InputSize(s, v), Step(s, v, e)) != 0
  {
    SpecBounds(s, 0);
    hide InputSize, RoundShift, Low, MaxMagnitude;
  }

  lemma NormalizedIsChosen(s: NumericSpec, v: BinaryValue, policy: ConversionPolicy, e: nat, z: Quantized,
                           magnitude: U64, encoded: nat)
    requires ValidSpec(s) && e <= MaxExponent(s) && encoded <= e && (v.negative ==> SignedKind(s.kind))
    requires QuantizedAs(z, InputSize(s, v), Step(s, v, e), policy.rounding, v.negative) && !z.overflow
    requires Fits(s, v, policy, e) && forall i :: 0 <= i < e ==> !Fits(s, v, policy, i)
    requires magnitude <= MaxMagnitude(s, v.negative) && Shl(magnitude, encoded) == Shl(z.magnitude, e)
    requires encoded > 0 && magnitude > 0 ==> 2 * magnitude > MaxMagnitude(s, v.negative)
    requires z.magnitude % 2 == 0 ==> magnitude % 2 == 0
    ensures Chosen(s, v, policy, e, magnitude, encoded)
    ensures Word(s, magnitude, encoded, v.negative) <= 0xFFFF_FFFF_FFFF_FFFF
  {
    hide InputSize, RoundShift, Low, MaxMagnitude, Word, MaxExponent, Fits, Shl, ValidSpec, Quantum, Decoded, Signed,
         IsPattern, ExponentField, MantissaField;
    ShlShl(magnitude, encoded, Step(s, v, 0));
    ShlShl(z.magnitude, e, Step(s, v, 0));
    WordDecodes(s, magnitude, encoded, v.negative, CommonBase(s, v), Word(s, magnitude, encoded, v.negative));
  }

  /** The tests made on a quantization result decide whether the exponent field fits. */
  lemma FitsMeaning(s: NumericSpec, v: BinaryValue, policy: ConversionPolicy, e: nat, z: Quantized)
    requires ValidSpec(s)
    requires QuantizedAs(z, InputSize(s, v), Step(s, v, e), policy.rounding, v.negative)
    ensures Fits(s, v, policy, e) <==>
            !z.overflow && z.magnitude <= MaxMagnitude(s, v.negative) && !(z.residue && policy.precision == ExactOnly)
  {
    SpecBounds(s, 0);
    hide InputSize, RoundShift, Low, MaxMagnitude;
  }

  /** Moves the value to the lowest exponent field that holds it, without rounding again. */
  method Normalize(start: U64, e: nat, maxMagnitude: U64) returns (magnitude: U64, encoded: nat)
    requires start <= maxMagnitude
    ensures magnitude <= maxMagnitude && encoded <= e
    ensures Shl(magnitude, encoded) == Shl(start, e)
    ensures magnitude == 0 <==> start == 0
    ensures encoded > 0 && magnitude > 0 ==> 2 * magnitude > maxMagnitude
    ensures start % 2 == 0 ==> magnitude % 2 == 0
  {
    hide Shl;
    magnitude, encoded := start, e;
    while encoded > 0 && magnitude > 0 && magnitude <= maxMagnitude / 2
      invariant magnitude <= maxMagnitude && encoded <= e
      invariant Shl(magnitude, encoded) == Shl(start, e)
      invariant magnitude == 0 <==> start == 0
      invariant start % 2 == 0 ==> magnitude % 2 == 0
      decreases encoded
    {
      ShlDouble(magnitude, encoded - 1);
      magnitude := magnitude * 2;
      encoded := encoded - 1;
    }
  }

  /**
   The encoder's promise, for every specification, input and policy: correct rounding inside
   the domain, exactness exactly for representable inputs, and rejection or clipping to the
   domain's end outside it.
   */
  ghost predicate EncodePromise(s: NumericSpec, v: BinaryValue, policy: ConversionPolicy, r: Result<EncodedValue>)
    requires ValidSpec(s)
  {
    if InDomain(s, v) then
      Encodes(s, v, policy, r) && (r.Ok? ==> !r.value.saturated)
    else if policy.overflow == Reject || policy.precision == ExactOnly then
      r == Err(Overflow)
    else
      && r.Ok? && r.value.saturated && !r.value.rounded
      && IsPattern(s, r.value.bits)
      && IsDomainEnd(s, v, r.value.bits)
      && LowestExponent(s, v, r.value.bits)
  }

  lemma ZeroEncodes(s: NumericSpec, v: BinaryValue, policy: ConversionPolicy)
    requires ValidSpec(s) && v.magnitude == 0
    ensures EncodePromise(s, v, policy, Ok(EncodedValue(0, false, false)))
  {
    ZeroIsLowest(s, v);
    ShlZero(v.exponent - CommonBase(s, v));
    hide ValueOf, MantissaField;
    assert Exact(s, v) == 0 == ValueOf(s, v, 0);
  }

  /** A negative input of an unsigned format clips to zero, the least value of the format. */
  lemma ZeroIsUnsignedEnd(s: NumericSpec, v: BinaryValue)
    requires ValidSpec(s) && !SignedKind(s.kind) && v.negative
    ensures IsPattern(s, 0) && IsDomainEnd(s, v, 0) && LowestExponent(s, v, 0)
  {
    ZeroIsLowest(s, v);
    hide ValueOf, LowestExponent;
    forall other: U64 | IsPattern(s, other)
      ensures ValueOf(s, v, 0) <= ValueOf(s, v, other)
    {
      PatternWithinBound(s, v, other);
    }
  }

  /** The bound that replaces a clipped input, seen on its own scale. */
  lemma BoundSize(s: NumericSpec, negative: bool)
    requires ValidSpec(s)
    ensures var b := Bound(s, negative);
            InputSize(s, b) == Shl(MaxMagnitude(s, negative), Step(s, b, MaxExponent(s)))
  {
    SpecBounds(s, MaxExponent(s));
  }

  /** Rounding the bound of the domain gives the end of the domain, whatever the mode. */
  lemma BoundIsEnd(s: NumericSpec, v: BinaryValue, mode: Mode, bits: U64)
    requires ValidSpec(s) && (v.negative ==> SignedKind(s.kind))
    requires IsPattern(s, bits)
    requires CorrectlyRounded(s, Bound(s, v.negative), mode, bits)
    requires LowestExponent(s, Bound(s, v.negative), bits)
    ensures ValueOf(s, Bound(s, v.negative), bits) == Exact(s, Bound(s, v.negative))
    ensures IsDomainEnd(s, v, bits) && LowestExponent(s, v, bits)
  {
    var b := Bound(s, v.negative);
    BoundSize(s, v.negative);
    var far := GridHasPattern(s, b, v.negative, MaxMagnitude(s, v.negative), MaxExponent(s));
    hide Exact, ValueOf, MaxMagnitude, Shl, InputSize, Quantum, ExponentField, MaxExponent, Step;
    assert NoBetter(mode, Exact(s, b), ValueOf(s, b, bits), ValueOf(s, b, far));
    forall other: U64 | IsPattern(s, other)
      ensures if v.negative then ValueOf(s, v, bits) <= ValueOf(s, v, other)
              else ValueOf(s, v, other) <= ValueOf(s, v, bits)
      ensures ValueOf(s, v, bits) == ValueOf(s, v, other) <==> ValueOf(s, b, bits) == ValueOf(s, b, other)
    {
      PatternWithinBound(s, b, other);
      SameOrder(s, v, b, bits, other);
      SameOrder(s, v, b, other, bits);
    }
  }

  /** The order of two pattern values does not depend on the scale. */
  lemma SameOrder(s: NumericSpec, v: BinaryValue, w: BinaryValue, a: U64, b: U64)
    requires IsPattern(s, a) && IsPattern(s, b)
    ensures ValueOf(s, v, a) <= ValueOf(s, v, b) <==> ValueOf(s, w, a) <= ValueOf(s, w, b)
  {
    hide ValueOf, Shl, Quantum, ExponentField, MagnitudeField, NegativeField, MaxMagnitude;
    var an, ak, ae := PatternOnGrid(s, v, a);
    var bn, bk, be := PatternOnGrid(s, v, b);
    an, ak, ae := PatternOnGrid(s, w, a);
    bn, bk, be := PatternOnGrid(s, w, b);
    FinestOrder(an, ak, ae, bn, bk, be, Step(s, v, 0));
    FinestOrder(an, ak, ae, bn, bk, be, Step(s, w, 0));
  }

  lemma FinestOrder(an: bool, ak: nat, ae: nat, bn: bool, bk: nat, be: nat, u: nat)
    ensures Signed(an, Shl(ak, u + ae)) <= Signed(bn, Shl(bk, u + be)) <==>
            Signed(an, Shl(ak, ae)) <= Signed(bn, Shl(bk, be))
  {
    ShlShl(ak, ae, u);
    ShlShl(bk, be, u);
    ShlOrder(Shl(ak, ae), Shl(bk, be), u);
    ShlOrder(Shl(bk, be), Shl(ak, ae), u);
    ShlOrder(0, Shl(ak, ae), u);
    ShlOrder(0, Shl(bk, be), u);
    ShlZero(u);
  }

  /** Converts an exact binary value to a field word of a valid format. */
  method EncodeValid(s: NumericSpec, value: BinaryValue, policy: ConversionPolicy) returns (r: Result<EncodedValue>)
    requires ValidSpec(s)
    ensures EncodePromise(s, value, policy, r)
    ensures policy.precision == ExactOnly && r.Ok? ==>
              DecodeExact(s, r.value.bits) == Canonicalize(value)
  {
    if value.magnitude == 0 {
      ZeroEncodes(s, value, policy);
      ExactIsCanonical(s, value, 0);
      return Ok(EncodedValue(0, false, false));
    }
    DomainMeaning(s, value);
    CompareWithBound(s, value);
    var outside := (!SignedKind(s.kind) && value.negative) || Compare(value, Bound(s, value.negative)) > 0;
    if !outside {
      r := SearchExponent(s, value, policy, false);
      if policy.precision == ExactOnly && r.Ok? {
        ExactIsCanonical(s, value, r.value.bits);
      }
      return;
    }
    if policy.overflow == Reject || policy.precision == ExactOnly {
      return Err(Overflow);
    }
    if !SignedKind(s.kind) && value.negative {
      ZeroIsUnsignedEnd(s, value);
      return Ok(EncodedValue(0, false, true));
    }
    BoundSize(s, value.negative);
    r := SearchExponent(s, Bound(s, value.negative), policy, true);
    BoundIsEnd(s, value, policy.rounding, r.value.bits);
  }

  /** A pattern with the input's value decodes to the input's canonical form. */
  lemma ExactIsCanonical(s: NumericSpec, v: BinaryValue, bits: U64)
    requires IsPattern(s, bits) && (v.magnitude == 0 ==> bits == 0)
    requires v.magnitude > 0 ==> ValueOf(s, v, bits) == Exact(s, v)
    ensures DecodeExact(s, bits) == Canonicalize(v)
  {
    var base := CommonBase(s, v);
    SpecBounds(s, 0);
    hide DecodeExact, Shl, Quantum, ExponentField, MagnitudeField, NegativeField;
    DecodeMeaning(s, bits, base);
    var d := DecodeExact(s, bits).value;
    if v.magnitude == 0 {
      ZeroIsLowest(s, v);
      ShlOrder(0, d.magnitude, d.exponent - base);
      ShlZero(d.exponent - base);
    } else {
      InputPositive(s, v);
      CanonicalizeTo(v, d, base);
    }
  }

  /** A value equal to a canonical one canonicalizes to it. */
  lemma CanonicalizeTo(v: BinaryValue, d: BinaryValue, base: int)
    requires base <= 0 && base <= v.exponent && base <= d.exponent
    requires Canonical(d) && Scaled(v, base) == Scaled(d, base) && Size(v, base) > 0
    ensures Canonicalize(v) == Ok(d)
  {
    hide Shl, Shr, TrailingZeros;
    ShlZero(v.exponent - base);
    ShlZero(d.exponent - base);
    var t := TrailingZeros(v.magnitude);
    ShlShl(Shr(v.magnitude, t), t, v.exponent - base);
    if d.exponent <= v.exponent + t {
      OddShifts(d.magnitude, d.exponent - base, Shr(v.magnitude, t), v.exponent - base + t);
    } else {
      OddShifts(Shr(v.magnitude, t), v.exponent - base + t, d.magnitude, d.exponent - base);
    }
  }

  /** A field word re-encoded in its own format keeps its value under every policy. */
  lemma OwnFormatKeeps(s: NumericSpec, bits: U64, policy: ConversionPolicy, r: Result<EncodedValue>)
    requires IsPattern(s, bits) && DecodeExact(s, bits).Ok?
    requires EncodePromise(s, DecodeExact(s, bits).value, policy, r)
    ensures r.Ok? && IsPattern(s, r.value.bits)
    ensures !r.value.rounded && !r.value.saturated
    ensures DecodeExact(s, r.value.bits) == DecodeExact(s, bits)
  {
    var v := DecodeExact(s, bits).value;
    DecodedIsExact(s, bits);
    hide DecodeExact, ValueOf, Exact, TiesToEven, LowestExponent;
    assert NoBetter(policy.rounding, Exact(s, v), Exact(s, v), ValueOf(s, v, bits));
    if policy.precision == AllowRounding {
      assert NoBetter(policy.rounding, Exact(s, v), ValueOf(s, v, r.value.bits), ValueOf(s, v, bits));
    }
    SameValueSameDecode(s, v, r.value.bits, bits);
  }

  lemma DecodedIsExact(s: NumericSpec, bits: U64)
    requires IsPattern(s, bits) && DecodeExact(s, bits).Ok?
    ensures var v := DecodeExact(s, bits).value; ValueOf(s, v, bits) == Exact(s, v)
  {
  }

  lemma SameValueSameDecode(s: NumericSpec, v: BinaryValue, a: U64, b: U64)
    requires IsPattern(s, a) && IsPattern(s, b) && ValueOf(s, v, a) == ValueOf(s, v, b)
    ensures DecodeExact(s, a) == DecodeExact(s, b)
  {
    var base := CommonBase(s, v);
    hide DecodeExact, Shl, Quantum, ExponentField, MagnitudeField, NegativeField;
    DecodeMeaning(s, a, base);
    DecodeMeaning(s, b, base);
    CanonicalUnique(DecodeExact(s, a).value, DecodeExact(s, b).value, base);
  }
}
