/**
 Conversion of exact binary values to binary16, binary32 and binary64, and between those
 formats (include/vita/codec/ieee_samples.hpp; sections 3.4, 4.3, 7.4 and 7.5 of IEEE 754-2019).
 */
module IeeeSamples {
  import opened Core
  import opened Powers
  import opened Rounding
  import N = NumericSamples

  type BinaryValue = N.BinaryValue

  datatype Format = Binary16 | Binary32 | Binary64

  datatype Category = Zero | Finite | Infinity | QuietNaN | SignalingNaN

  datatype OverflowPolicy = Reject | IeeeResult | SaturateFinite

  datatype NonFinitePolicy = RejectNonFinite | Propagate

  datatype PayloadPolicy = ExactPayload | PreserveHigh | CanonicalPayload

  datatype Policy = Policy(precision: N.Precision, rounding: Mode, overflow: OverflowPolicy,
                           nonfinite: NonFinitePolicy, payload: PayloadPolicy)

  datatype Flags = Flags(invalid: bool, inexact: bool, overflow: bool, underflow: bool, payloadLoss: bool)

  datatype Converted = Converted(bits: nat, flags: Flags)

  datatype DecodedValue = DecodedValue(category: Category, negative: bool, finite: BinaryValue, payload: nat,
                                       payloadBits: nat)

  const NO_FLAGS := Flags(false, false, false, false, false)

  datatype Shape = Shape(width: nat, fraction: nat, exponent: nat, bias: nat)

  function ShapeOf(f: Format): (s: Shape)
    ensures ValidShape(s)
  {
    assert Pow2(5) == 32 && Pow2(8) == 256;
    assert Pow2(11) == 2048;
    match f
    case Binary16 => Shape(16, 10, 5, 15)
    case Binary32 => Shape(32, 23, 8, 127)
    case Binary64 => Shape(64, 52, 11, 1023)
  }

  // ----- Fields of a pattern -----

  ghost predicate IsPattern(s: Shape, bits: nat) {
    bits < Pow2(s.width)
  }

  ghost predicate ValidShape(s: Shape) {
    && s.width == s.fraction + s.exponent + 1 && 2 <= s.fraction <= 52 && s.width <= 64
    && Pow2(s.exponent) == 2 * s.bias + 2 && 0 < s.bias <= 1023
  }

  function SignBit(s: Shape, bits: nat): nat
    requires s.width > 0
  {
    Shr(bits, s.width - 1)
  }

  function FractionField(s: Shape, bits: nat): nat {
    Low(bits, s.fraction)
  }

  function ExponentField(s: Shape, bits: nat): nat {
    Low(Shr(bits, s.fraction), s.exponent)
  }

  /** The word with the given fields: the three parts do not overlap. */
  function Assemble(s: Shape, negative: bool, exponent: nat, fraction: nat): nat
    requires s.width > 0
  {
    (if negative then Pow2(s.width - 1) else 0) + Shl(exponent, s.fraction) + fraction
  }

  lemma AssembleFields(s: Shape, negative: bool, exponent: nat, fraction: nat, bits: nat)
    requires ValidShape(s) && exponent < Pow2(s.exponent) && fraction < Pow2(s.fraction)
    requires bits == Assemble(s, negative, exponent, fraction)
    ensures IsPattern(s, bits)
    ensures SignBit(s, bits) == if negative then 1 else 0
    ensures ExponentField(s, bits) == exponent
    ensures FractionField(s, bits) == fraction
  {
    hide Shl, Shr, Low, Pow2;
    var sign := if negative then 1 else 0;
    var high := Shl(sign, s.exponent) + exponent;
    ShlAdd(Shl(sign, s.exponent), exponent, s.fraction);
    ShlShl(sign, s.exponent, s.fraction);
    ShlOne(s.width - 1);
    ShlZero(s.width - 1);
    assert bits == Shl(high, s.fraction) + fraction;
    SplitUnique(bits, s.fraction, high, fraction);
    SplitUnique(high, s.exponent, sign, exponent);
    BelowTop(s, exponent, fraction);
    SplitUnique(bits, s.width - 1, sign, Shl(exponent, s.fraction) + fraction);
    NextPower(s.width - 1);
  }

  lemma NextPower(n: nat)
    ensures Pow2(n + 1) == 2 * Pow2(n)
  {
  }

  lemma BelowTop(s: Shape, exponent: nat, fraction: nat)
    requires ValidShape(s) && exponent < Pow2(s.exponent) && fraction < Pow2(s.fraction)
    ensures Shl(exponent, s.fraction) + fraction < Pow2(s.width - 1)
  {
    ShlSuccessor(exponent, s.fraction);
    ShlOrder(exponent + 1, Pow2(s.exponent), s.fraction);
    ShlPow2(s.exponent, s.fraction);
  }

  /** A pattern is determined by its fields. */
  lemma FieldsAssemble(s: Shape, bits: nat)
    requires ValidShape(s) && IsPattern(s, bits)
    ensures SignBit(s, bits) <= 1
    ensures bits == Assemble(s, SignBit(s, bits) == 1, ExponentField(s, bits), FractionField(s, bits))
  {
    hide Shl, Shr, Low, Pow2;
    var low, high := FractionField(s, bits), Shr(bits, s.fraction);
    var e, top := ExponentField(s, bits), Shr(high, s.exponent);
    assert bits == Shl(high, s.fraction) + Low(bits, s.fraction);
    assert high == Shl(top, s.exponent) + Low(high, s.exponent);
    ShlAdd(Shl(top, s.exponent), e, s.fraction);
    ShlShl(top, s.exponent, s.fraction);
    BelowTop(s, e, low);
    SplitUnique(bits, s.width - 1, top, Shl(e, s.fraction) + low);
    ShlOne(s.width - 1);
    ShlZero(s.width - 1);
    NextPower(s.width - 1);
    ShlDouble(1, s.width - 1);
    ShlOrder(2, top, s.width - 1);
  }

  // ----- Decoding -----

  function Significand(s: Shape, bits: nat): nat {
    FractionField(s, bits) + (if ExponentField(s, bits) != 0 then Pow2(s.fraction) else 0)
  }

  /** Steps above the smallest exponent. */
  function Level(s: Shape, bits: nat): nat {
    if ExponentField(s, bits) == 0 then 0 else ExponentField(s, bits) - 1
  }

  /** Binary exponent of the smallest subnormal step. */
  function LeastQuantum(s: Shape): int {
    1 - s.bias - s.fraction
  }

  function DecodeExact(format: Format, bits: U64): (r: Result<DecodedValue>) {
    var s := ShapeOf(format);
    if bits >= Pow2(s.width) then Err(InvalidArgument)
    else
      var negative := SignBit(s, bits) != 0;
      var fraction, exponent := FractionField(s, bits), ExponentField(s, bits);
      var zero := N.BinaryValue(0, 0, false);
      if exponent == Pow2(s.exponent) - 1 then
        if fraction == 0 then Ok(DecodedValue(Infinity, negative, zero, 0, 0))
        else
          Ok(DecodedValue(if Shr(fraction, s.fraction - 1) % 2 == 1 then QuietNaN else SignalingNaN, negative, zero,
                          Low(fraction, s.fraction - 1), s.fraction - 1))
      else if exponent != 0 || fraction != 0 then
        FiniteFits(s, bits);
        var value := N.Canonicalize(N.BinaryValue(Significand(s, bits), LeastQuantum(s) + Level(s, bits), negative));
        if value.Ok? then Ok(DecodedValue(Finite, negative, value.value, 0, 0)) else Err(value.error)
      else Ok(DecodedValue(Zero, negative, zero, 0, 0))
  }

  lemma FiniteFits(s: Shape, bits: nat)
    requires ValidShape(s)
    ensures Significand(s, bits) < Pow2(s.fraction + 1) <= 0x1_0000_0000_0000_0000
    ensures ExponentField(s, bits) <= 2 * s.bias + 1
    ensures -0x8000 <= LeastQuantum(s) + Level(s, bits) < 0x7000
  {
    NextPower(s.fraction);
    Pow2Word(s.fraction + 1);
  }
}
