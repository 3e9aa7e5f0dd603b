/**
 Exact conversion between binary values and fixed-point, non-normalized and VRT
 floating-point fields (include/vita/codec/numeric_samples.hpp).
 */
module NumericSamples {
  import opened Core
  import opened Powers
  import opened Rounding

  /** The exact value `(-1)^negative * magnitude * 2^exponent`. */
  datatype BinaryValue = BinaryValue(magnitude: U64, exponent: I16, negative: bool)

  datatype Kind =
    | UnsignedFixed | SignedFixed
    | UnsignedNonNormalized | SignedNonNormalized
    | UnsignedVrt | SignedVrt

  datatype NumericSpec = NumericSpec(kind: Kind, bits: nat, fractionalBits: nat, exponentBits: nat)

  datatype Precision = ExactOnly | AllowRounding

  datatype OverflowPolicy = Reject | Saturate

  datatype ConversionPolicy = ConversionPolicy(precision: Precision, rounding: Mode, overflow: OverflowPolicy)

  datatype EncodedValue = EncodedValue(bits: U64, rounded: bool, saturated: bool)

  datatype Quantized = Quantized(magnitude: U64, residue: bool, overflow: bool)

  function Mask(n: nat): nat {
    Pow2(n) - 1
  }

  predicate SignedKind(k: Kind) {
    k == SignedFixed || k == SignedNonNormalized || k == SignedVrt
  }

  predicate Vrt(k: Kind) {
    k == SignedVrt || k == UnsignedVrt
  }

  predicate NonNormalized(k: Kind) {
    k == SignedNonNormalized || k == UnsignedNonNormalized
  }

  predicate ValidSpec(s: NumericSpec) {
    && 1 <= s.bits <= 64
    && if Vrt(s.kind) then
         1 <= s.exponentBits <= 6 && s.exponentBits < s.bits && s.fractionalBits == 0
       else
         && s.exponentBits == 0
         && if NonNormalized(s.kind) then s.fractionalBits < s.bits && s.fractionalBits <= 15
            else s.fractionalBits == 0
  }

  function MantissaBits(s: NumericSpec): nat
    requires ValidSpec(s)
  {
    s.bits - s.exponentBits
  }

  function MaxExponent(s: NumericSpec): nat {
    if Vrt(s.kind) then Mask(s.exponentBits) else 0
  }

  /** Binary exponent of one mantissa step at exponent field `e`. */
  function Quantum(s: NumericSpec, e: nat): int
    requires ValidSpec(s)
  {
    if NonNormalized(s.kind) then 0 - s.fractionalBits
    else
      var width := MantissaBits(s) - (if SignedKind(s.kind) then 1 else 0);
      (if Vrt(s.kind) then e - Mask(s.exponentBits) else 0) - width
  }

  /** Largest mantissa magnitude for a sign; two's complement reaches one further below zero. */
  function MaxMagnitude(s: NumericSpec, negative: bool): nat
    requires ValidSpec(s)
  {
    if SignedKind(s.kind) then
      if negative then Pow2(MantissaBits(s) - 1) else Mask(MantissaBits(s) - 1)
    else Mask(MantissaBits(s))
  }

  lemma SpecBounds(s: NumericSpec, e: nat)
    requires ValidSpec(s) && e <= MaxExponent(s)
    ensures MaxExponent(s) <= 63
    ensures Quantum(s, e) == Quantum(s, 0) + e
    ensures -127 <= Quantum(s, e) <= 0
    ensures forall negative :: MaxMagnitude(s, negative) <= U64_MAX
  {
    hide Pow2;
    Pow2Double(MantissaBits(s));
    Pow2Word(MantissaBits(s));
    Pow2Word(s.exponentBits);
  }

  // ----- Values on a common scale -----

  /** Magnitude of the value as a multiple of `2^base`. */
  function Size(v: BinaryValue, base: int): nat
    requires base <= v.exponent
  {
    Shl(v.magnitude, v.exponent - base)
  }

  /** The value as a multiple of `2^base`. */
  function Scaled(v: BinaryValue, base: int): int
    requires base <= v.exponent
  {
    Signed(v.negative, Size(v, base))
  }

  // ----- Comparison of magnitudes -----

  function Compare(a: BinaryValue, b: BinaryValue): int {
    if a.magnitude == 0 || b.magnitude == 0 then
      if a.magnitude != 0 then 1 else if b.magnitude != 0 then -1 else 0
    else
      var aw, bw := BitWidth(a.magnitude), BitWidth(b.magnitude);
      var atop, btop := a.exponent + aw, b.exponent + bw;
      if atop != btop then if atop < btop then -1 else 1
      else
        TopAlignedFits(a.magnitude);
        TopAlignedFits(b.magnitude);
        var am: U64, bm: U64 := Shl(a.magnitude, 64 - aw), Shl(b.magnitude, 64 - bw);
        if am < bm then -1 else if am > bm then 1 else 0
  }

  /** The alignment shifts inside `Compare` lose no bits. */
  lemma TopAlignedFits(x: U64)
    requires x > 0
    ensures BitWidth(x) <= 64
    ensures Shl(x, 64 - BitWidth(x)) <= U64_MAX
  {
    WordWidth(x);
    LeftShiftFits(x, 64 - BitWidth(x));
  }

  lemma TopSeparates(a: nat, ashift: nat, b: nat, bshift: nat)
    requires a > 0 && b > 0
    requires BitWidth(a) + ashift < BitWidth(b) + bshift
    ensures Shl(a, ashift) < Shl(b, bshift)
  {
    hide Shl, Pow2, BitWidth;
    var aw, bw := BitWidth(a), BitWidth(b);
    ShlOrder(a, Pow2(aw), ashift);
    ShlPow2(aw, ashift);
    ShlOrder(Pow2(bw - 1), b, bshift);
    ShlPow2(bw - 1, bshift);
    Pow2Monotone(aw + ashift, bw - 1 + bshift);
  }

  lemma AlignedOrder(a: nat, aw: nat, ash: nat, b: nat, bw: nat, bsh: nat)
    requires bw <= aw <= 64 && aw + ash == bw + bsh
    ensures Shl(a, 64 - aw) < Shl(b, 64 - bw) <==> Shl(a, ash) < Shl(b, bsh)
    ensures Shl(a, 64 - aw) > Shl(b, 64 - bw) <==> Shl(a, ash) > Shl(b, bsh)
  {
    var c := Shl(b, aw - bw);
    ShlShl(b, aw - bw, 64 - aw);
    ShlShl(b, aw - bw, ash);
    ShlOrder(a, c, 64 - aw);
    ShlOrder(c, a, 64 - aw);
    ShlOrder(a, c, ash);
    ShlOrder(c, a, ash);
  }

  /** `Compare` orders the magnitudes, on every common scale. */
  lemma CompareMeaning(a: BinaryValue, b: BinaryValue, base: int)
    requires base <= a.exponent && base <= b.exponent
    ensures Compare(a, b) < 0 <==> Size(a, base) < Size(b, base)
    ensures Compare(a, b) > 0 <==> Size(a, base) > Size(b, base)
  {
    hide Shl, Pow2, BitWidth;
    var ash, bsh := a.exponent - base, b.exponent - base;
    if a.magnitude == 0 || b.magnitude == 0 {
      ShlZero(ash);
      ShlZero(bsh);
      ShlOrder(0, a.magnitude, ash);
      ShlOrder(0, b.magnitude, bsh);
    } else {
      var aw, bw := BitWidth(a.magnitude), BitWidth(b.magnitude);
      if aw + ash < bw + bsh {
        TopSeparates(a.magnitude, ash, b.magnitude, bsh);
      } else if bw + bsh < aw + ash {
        TopSeparates(b.magnitude, bsh, a.magnitude, ash);
      } else {
        TopAlignedFits(a.magnitude);
        TopAlignedFits(b.magnitude);
        if aw >= bw {
          AlignedOrder(a.magnitude, aw, ash, b.magnitude, bw, bsh);
        } else {
          AlignedOrder(b.magnitude, bw, bsh, a.magnitude, aw, ash);
        }
      }
    }
  }

  // ----- Quantization at one exponent -----

  function Quantize(value: BinaryValue, q: int, rounding: Mode): Quantized {
    var shift := value.exponent - q;
    if value.magnitude == 0 then Quantized(0, false, false)
    else if shift >= 0 then
      if shift >= 64 || BitWidth(value.magnitude) + shift > 64 then Quantized(0, false, true)
      else
        LeftShiftFits(value.magnitude, shift);
        Quantized(Shl(value.magnitude, shift), false, false)
    else QuantizeRight(value, -shift, rounding)
  }

  /** The branch of `Quantize` that drops `right` bits. */
  function QuantizeRight(value: BinaryValue, right: nat, rounding: Mode): Quantized
    requires right > 0
  {
    ShrAtMost(value.magnitude, right);
    var quotient: U64 := if right >= 64 then 0 else Shr(value.magnitude, right);
    var remainder: U64 := if right >= 64 then value.magnitude else Low(value.magnitude, right);
    var increment := ShiftIncrements(quotient, remainder, right, rounding, value.negative);
    if increment && quotient == U64_MAX then Quantized(0, remainder != 0, true)
    else Quantized(if increment then quotient + 1 else quotient, remainder != 0, false)
  }

  predicate ShiftIncrements(quotient: U64, remainder: U64, right: nat, rounding: Mode, negative: bool)
    requires right > 0
  {
    remainder != 0 &&
    ((rounding == TowardNegative && negative) ||
     (rounding == TowardPositive && !negative) ||
     (rounding == NearestTiesEven && right <= 64 &&
      (remainder > Pow2(right - 1) || (remainder == Pow2(right - 1) && quotient % 2 == 1))))
  }

  /** Comparing with half the quantum, and skipping that when it needs more than 64 bits, rounds correctly. */
  lemma ShiftIncrementsMeaning(quotient: U64, remainder: U64, right: nat, rounding: Mode, negative: bool)
    requires right > 0
    ensures ShiftIncrements(quotient, remainder, right, rounding, negative) ==
            Increments(quotient, remainder, Pow2(right), rounding, negative)
  {
    assert Pow2(right) == 2 * Pow2(right - 1);
    Pow2Word(right - 1);
  }

  lemma LeftShiftFits(x: U64, shift: nat)
    ensures BitWidth(x) + shift <= 64 ==> Shl(x, shift) <= U64_MAX
    ensures x > 0 && BitWidth(x) + shift > 64 ==> Shl(x, shift) > U64_MAX
  {
    if x == 0 {
      ShlZero(shift);
    } else {
      BitWidthShl(x, shift);
      WordWidth(Shl(x, shift));
    }
  }

  /** A quantization result as unbounded rounding: its overflow flag says that 64 bits are not enough. */
  ghost predicate QuantizedAs(z: Quantized, x: nat, n: nat, rounding: Mode, negative: bool) {
    var exact := RoundShift(x, n, rounding, negative);
    && (z.overflow <==> exact > U64_MAX)
    && (!z.overflow ==> z.magnitude == exact && (z.residue <==> Low(x, n) != 0))
  }

  /** `Quantize` rounds the scaled input at the exponent `q`, for every input and every exponent. */
  lemma QuantizeMeaning(value: BinaryValue, q: int, rounding: Mode, base: int)
    requires base <= value.exponent && base <= q
    ensures QuantizedAs(Quantize(value, q, rounding), Size(value, base), q - base, rounding, value.negative)
  {
    var shift := value.exponent - q;
    if value.magnitude == 0 {
      ShlZero(value.exponent - base);
      ShlZero(q - base);
      SplitUnique(0, q - base, 0, 0);
    } else if shift >= 0 {
      ShlShl(value.magnitude, shift, q - base);
      SplitUnique(Size(value, base), q - base, Shl(value.magnitude, shift), 0);
      LeftShiftFits(value.magnitude, shift);
    } else {
      RoundScale(value.magnitude, -shift, value.exponent - base, rounding, value.negative);
      QuantizeRightMeaning(value, -shift, rounding);
    }
  }

  lemma QuantizeRightMeaning(value: BinaryValue, right: nat, rounding: Mode)
    requires right > 0
    ensures QuantizedAs(QuantizeRight(value, right, rounding), value.magnitude, right, rounding, value.negative)
  {
    ShrAtMost(value.magnitude, right);
    if right >= 64 {
      Pow2Word(right);
      ShlZero(right);
      SplitUnique(value.magnitude, right, 0, value.magnitude);
    }
    ShiftIncrementsMeaning(Shr(value.magnitude, right), Low(value.magnitude, right), right, rounding, value.negative);
  }

  // ----- Canonical form and decoding -----

  function Canonicalize(value: BinaryValue): Result<BinaryValue> {
    if value.magnitude == 0 then Ok(BinaryValue(0, 0, false))
    else
      var trailing := TrailingZeros(value.magnitude);
      var exponent := value.exponent + trailing;
      if exponent > 0x7FFF then Err(Overflow)
      else
        ShrAtMost(value.magnitude, trailing);
        Ok(BinaryValue(Shr(value.magnitude, trailing), exponent, value.negative))
  }

  /** Canonical values: zero has one form, every other magnitude is odd. */
  predicate Canonical(v: BinaryValue) {
    if v.magnitude == 0 then v == BinaryValue(0, 0, false) else v.magnitude % 2 == 1
  }

  /** Canonicalization keeps the value; it fails only when the odd magnitude needs a larger exponent. */
  lemma CanonicalizeKeeps(v: BinaryValue, base: int)
    requires base <= v.exponent && base <= 0
    ensures match Canonicalize(v)
            case Ok(c) => base <= c.exponent && Scaled(c, base) == Scaled(v, base) && Canonical(c)
            case Err(code) => code == Overflow && v.magnitude > 0 && v.exponent + TrailingZeros(v.magnitude) > 0x7FFF
  {
    if v.magnitude == 0 {
      ShlZero(v.exponent - base);
      ShlZero(0 - base);
    } else {
      var t := TrailingZeros(v.magnitude);
      ShlShl(Shr(v.magnitude, t), t, v.exponent - base);
    }
  }

  /** Canonical values are equal when they have equal scaled values. */
  lemma CanonicalUnique(a: BinaryValue, b: BinaryValue, base: int)
    requires Canonical(a) && Canonical(b)
    requires base <= a.exponent && base <= b.exponent
    requires Scaled(a, base) == Scaled(b, base)
    ensures a == b
  {
    ShlZero(a.exponent - base);
    ShlZero(b.exponent - base);
    ShlOrder(0, a.magnitude, a.exponent - base);
    ShlOrder(0, b.magnitude, b.exponent - base);
    if a.magnitude != 0 && b.magnitude != 0 {
      if a.exponent <= b.exponent {
        OddShifts(a.magnitude, a.exponent - base, b.magnitude, b.exponent - base);
      } else {
        OddShifts(b.magnitude, b.exponent - base, a.magnitude, a.exponent - base);
      }
    }
  }

  /** Two's complement of a `width`-bit field: `(~x + 1) & mask(width)` in 64 bits. */
  function Negate(x: U64, width: nat): nat
  {
    Low(if x == 0 then 0 else 0x1_0000_0000_0000_0000 - x, width)
  }

  lemma NegateMeaning(x: U64, width: nat)
    requires width <= 64 && 0 < x < Pow2(width)
    ensures Negate(x, width) == Pow2(width) - x
  {
    hide Shl, Shr, Low, Pow2;
    var c := Pow2(64 - width);
    ShlPow2(64 - width, width);
    Pow2Word(64 - width + width);
    ShlSuccessor(c - 1, width);
    SplitUnique(0x1_0000_0000_0000_0000 - x, width, c - 1, Pow2(width) - x);
  }

  function ExponentField(s: NumericSpec, bits: U64): nat {
    if Vrt(s.kind) then Low(bits, s.exponentBits) else 0
  }

  function MantissaField(s: NumericSpec, bits: U64): U64 {
    ShrAtMost(bits, s.exponentBits);
    if Vrt(s.kind) then Shr(bits, s.exponentBits) else bits
  }

  predicate NegativeField(s: NumericSpec, bits: U64)
    requires ValidSpec(s)
  {
    SignedKind(s.kind) && Shr(MantissaField(s, bits), MantissaBits(s) - 1) % 2 == 1
  }

  function MagnitudeField(s: NumericSpec, bits: U64): nat
    requires ValidSpec(s)
  {
    if NegativeField(s, bits) then Negate(MantissaField(s, bits), MantissaBits(s)) else MantissaField(s, bits)
  }

  function DecodeExact(s: NumericSpec, bits: U64): Result<BinaryValue> {
    if !ValidSpec(s) then Err(InvalidArgument)
    else if bits >= Pow2(s.bits) then Err(InvalidArgument)
    else
      FieldBounds(s, bits);
      SpecBounds(s, ExponentField(s, bits));
      Canonicalize(BinaryValue(MagnitudeField(s, bits), Quantum(s, ExponentField(s, bits)), NegativeField(s, bits)))
  }

  lemma FieldBounds(s: NumericSpec, bits: U64)
    requires ValidSpec(s) && bits < Pow2(s.bits)
    ensures MantissaField(s, bits) < Pow2(MantissaBits(s))
    ensures ExponentField(s, bits) <= MaxExponent(s)
    ensures MagnitudeField(s, bits) <= MaxMagnitude(s, NegativeField(s, bits))
  {
    hide Shl, Shr, Pow2, Low, Negate;
    Pow2Double(MantissaBits(s));
    if Vrt(s.kind) {
      assert bits == Shl(Shr(bits, s.exponentBits), s.exponentBits) + Low(bits, s.exponentBits);
      ShlPow2(MantissaBits(s), s.exponentBits);
      ShlOrder(Pow2(MantissaBits(s)), Shr(bits, s.exponentBits), s.exponentBits);
    }
    var f, m := MantissaField(s, bits), MantissaBits(s);
    if SignedKind(s.kind) {
      TopBit(f, m);
      if f >= Pow2(m - 1) {
        NegateMeaning(f, m);
      }
    }
  }

  lemma TopBit(f: nat, m: nat)
    requires m > 0 && f < Pow2(m)
    ensures Shr(f, m - 1) % 2 == 1 <==> f >= Pow2(m - 1)
  {
    ShlOne(m - 1);
    ShlZero(m - 1);
    if f >= Pow2(m - 1) {
      SplitUnique(f, m - 1, 1, f - Pow2(m - 1));
    } else {
      SplitUnique(f, m - 1, 0, f);
    }
  }

  // ----- What a bit pattern stands for -----

  ghost predicate IsPattern(s: NumericSpec, bits: U64) {
    ValidSpec(s) && bits < Pow2(s.bits)
  }

  /** Value of a pattern on the scale `2^base`. */
  ghost function Decoded(s: NumericSpec, bits: U64, base: int): int
    requires IsPattern(s, bits) && base <= Quantum(s, 0)
  {
    DecodeMeaning(s, bits, base);
    Scaled(DecodeExact(s, bits).value, base)
  }

  /** Decoding never fails on a pattern and yields the canonical form of mantissa times quantum. */
  lemma DecodeMeaning(s: NumericSpec, bits: U64, base: int)
    requires IsPattern(s, bits) && base <= Quantum(s, 0)
    ensures DecodeExact(s, bits).Ok?
    ensures ExponentField(s, bits) <= MaxExponent(s)
    ensures MagnitudeField(s, bits) <= MaxMagnitude(s, NegativeField(s, bits))
    ensures var v := DecodeExact(s, bits).value;
            && base <= v.exponent && Canonical(v)
            && Scaled(v, base) == Signed(NegativeField(s, bits),
                                         Shl(MagnitudeField(s, bits), Quantum(s, 0) - base + ExponentField(s, bits)))
  {
    hide Canonicalize, MagnitudeField, NegativeField, ExponentField, MantissaField, MaxMagnitude, MaxExponent,
         Quantum, ValidSpec, Pow2, Shl;
    FieldBounds(s, bits);
    var e := ExponentField(s, bits);
    SpecBounds(s, e);
    SpecBounds(s, 0);
    var raw := BinaryValue(MagnitudeField(s, bits), Quantum(s, e), NegativeField(s, bits));
    CanonicalizeKeeps(raw, base);
    WordWidth(raw.magnitude);
  }

  /** The field word with the given magnitude, exponent field and sign. */
  function Pattern(s: NumericSpec, magnitude: U64, e: nat, negative: bool): nat
    requires ValidSpec(s)
  {
    var mantissa := if negative then Negate(magnitude, MantissaBits(s)) else magnitude;
    if Vrt(s.kind) then Shl(mantissa, s.exponentBits) + e else mantissa
  }

  /** The fields of a built pattern. */
  lemma PatternFields(s: NumericSpec, magnitude: U64, e: nat, negative: bool)
    requires ValidSpec(s) && e <= MaxExponent(s)
    requires 0 < magnitude <= MaxMagnitude(s, negative)
    requires negative ==> SignedKind(s.kind)
    ensures Pattern(s, magnitude, e, negative) <= U64_MAX
    ensures var bits := Pattern(s, magnitude, e, negative);
            && IsPattern(s, bits)
            && ExponentField(s, bits) == e
            && MantissaField(s, bits) == (if negative then Pow2(MantissaBits(s)) - magnitude else magnitude)
            && NegativeField(s, bits) == negative
            && MagnitudeField(s, bits) == magnitude
  {
    hide Shl, Shr, Low, Negate, Quantum, Pow2;
    var m := MantissaBits(s);
    var mantissa := if negative then Pow2(m) - magnitude else magnitude;
    MantissaRange(s, magnitude, negative);
    Pow2Word(m);
    if negative {
      NegateMeaning(magnitude, m);
      NegateMeaning(Pow2(m) - magnitude, m);
    }
    Pow2Word(s.bits);
    if Vrt(s.kind) {
      PatternSplits(mantissa, m, s.exponentBits, e);
    }
    if SignedKind(s.kind) {
      TopBit(mantissa, m);
    }
  }

  lemma MantissaRange(s: NumericSpec, magnitude: U64, negative: bool)
    requires ValidSpec(s) && 0 < magnitude <= MaxMagnitude(s, negative) && (negative ==> SignedKind(s.kind))
    ensures var m := MantissaBits(s);
            && magnitude < Pow2(m) && Pow2(m) == 2 * Pow2(m - 1)
            && (SignedKind(s.kind) ==> if negative then magnitude <= Pow2(m - 1) else magnitude < Pow2(m - 1))
  {
    hide Pow2;
    Pow2Double(MantissaBits(s));
  }

  lemma PatternSplits(mantissa: nat, m: nat, x: nat, e: nat)
    requires mantissa < Pow2(m) && e < Pow2(x)
    ensures Shl(mantissa, x) + e < Pow2(m + x)
    ensures Shr(Shl(mantissa, x) + e, x) == mantissa && Low(Shl(mantissa, x) + e, x) == e
  {
    hide Shl, Shr, Low, Pow2;
    ShlPow2(m, x);
    ShlSuccessor(mantissa, x);
    ShlOrder(mantissa + 1, Pow2(m), x);
    SplitUnique(Shl(mantissa, x) + e, x, mantissa, e);
  }

  lemma ZeroFields(s: NumericSpec)
    requires ValidSpec(s)
    ensures ExponentField(s, 0) == 0 && MantissaField(s, 0) == 0
    ensures !NegativeField(s, 0) && MagnitudeField(s, 0) == 0
  {
    hide Shl, Shr, Pow2, Low;
    ShlZero(s.exponentBits);
    SplitUnique(0, s.exponentBits, 0, 0);
    TopBit(0, MantissaBits(s));
  }

  lemma EvenMantissaRange(s: NumericSpec)
    requires ValidSpec(s)
    ensures Pow2(MantissaBits(s)) % 2 == 0
  {
    hide Pow2;
    PowerIsEven(MantissaBits(s));
  }

  lemma PowerIsEven(n: nat)
    requires n > 0
    ensures Pow2(n) % 2 == 0
  {
    hide Pow2;
    Pow2Double(n);
  }

  /** The encoded word: zero always uses the all-zero pattern. */
  function Word(s: NumericSpec, magnitude: U64, e: nat, negative: bool): nat
    requires ValidSpec(s)
  {
    if magnitude == 0 then 0 else Pattern(s, magnitude, e, negative)
  }

  /** Building a word and decoding it gives back magnitude, exponent field and sign. */
  lemma WordDecodes(s: NumericSpec, magnitude: U64, e: nat, negative: bool, base: int, word: nat)
    requires ValidSpec(s) && e <= MaxExponent(s) && base <= Quantum(s, 0)
    requires magnitude <= MaxMagnitude(s, negative)
    requires negative ==> SignedKind(s.kind)
    requires word == Word(s, magnitude, e, negative)
    ensures word <= U64_MAX && IsPattern(s, word)
    ensures Decoded(s, word, base) == Signed(negative, Shl(magnitude, Quantum(s, 0) - base + e))
    ensures ExponentField(s, word) == if magnitude == 0 then 0 else e
    ensures magnitude % 2 == 0 ==> MantissaField(s, word) % 2 == 0
  {
    hide Shl, Shr, Low, ValidSpec, Pattern, Quantum, MagnitudeField, NegativeField, MaxMagnitude, MaxExponent;
    if magnitude == 0 {
      ZeroFields(s);
      DecodeMeaning(s, 0, base);
      ShlZero(Quantum(s, 0) - base + e);
      ShlZero(Quantum(s, 0) - base);
    } else {
      PatternFields(s, magnitude, e, negative);
      DecodeMeaning(s, word, base);
      EvenMantissaRange(s);
    }
  }
}
