/**
 What the fields of ANSI/VITA 49.2 number formats stand for, as real numbers, written from the formats alone:
 two's-complement or unsigned integers of the bits, and a full scale of one.
 */
module NumericFormats {
  import opened Core
  import opened Powers
  import opened Rounding
  import opened Dyadic
  import opened NumberTheory
  import opened NumericSamples

  // ----- Real values -----

  ghost function RealOf(v: BinaryValue): real {
    Signed(v.negative, v.magnitude) as real * Unit(v.exponent)
  }

  /** A scaled integer is the real value over the unit of its scale. */
  lemma ScaledIsReal(v: BinaryValue, base: int)
    requires base <= v.exponent
    ensures RealOf(v) == On(Scaled(v, base), Unit(base))
  {
    hide Unit, Shl;
    ShiftedReal(v.negative, v.magnitude, v.exponent - base, base);
  }

  /** Shifting left moves factors of two into the unit. */
  lemma ShiftedReal(negative: bool, k: nat, n: nat, base: int)
    ensures Signed(negative, Shl(k, n)) as real * Unit(base) == Signed(negative, k) as real * Unit(base + n)
  {
    hide Unit, Shl, Pow2;
    ShlTimes(k, n);
    UnitShift(base, n);
    SignedTimes(negative, k, Pow2(n), Unit(base));
  }

  lemma SignedTimes(negative: bool, m: nat, p: nat, u: real)
    ensures m * p >= 0
    ensures Signed(negative, m) as real * (p as real * u) == Signed(negative, m * p) as real * u
  {
    assert (m * p) as real == m as real * p as real;
  }

  // ----- The formats -----

  /** The integer in a field of `width` bits. */
  ghost function FieldInteger(signed: bool, field: int, width: nat): int
    requires width > 0
  {
    if signed && field >= Pow2(width - 1) then field - Pow2(width) else field
  }

  /** Bits that hold the sign of a format. */
  function SignBits(k: Kind): nat {
    match k
    case UnsignedFixed => 0
    case UnsignedNonNormalized => 0
    case UnsignedVrt => 0
    case _ => 1
  }

  /**
   Value of the word `bits`. Non-normalized: the integer with its fractional bits below the point. Fixed: the
   integer over its full scale. VRT: a fixed mantissa, halved for each step of the exponent below its top.
   */
  ghost function FormatValue(s: NumericSpec, bits: nat): real
    requires s.bits > s.exponentBits
  {
    var signed := SignBits(s.kind) == 1;
    if s.kind in {UnsignedNonNormalized, SignedNonNormalized} then
      FieldInteger(signed, bits, s.bits) as real / Pow2(s.fractionalBits) as real
    else if s.kind in {UnsignedFixed, SignedFixed} then
      FieldInteger(signed, bits, s.bits) as real / Pow2(s.bits - SignBits(s.kind)) as real
    else
      var width := s.bits - s.exponentBits;
      var mantissa := FieldInteger(signed, bits / Pow2(s.exponentBits), width);
      var below := Pow2(s.exponentBits) - 1 - bits % Pow2(s.exponentBits);
      mantissa as real / Pow2(width - SignBits(s.kind)) as real / Pow2(below) as real
  }

  // ----- Decoding means the format's value -----

  lemma FieldsAre(s: NumericSpec, bits: U64)
    requires IsPattern(s, bits)
    ensures var signed, width := SignBits(s.kind) == 1, s.bits - s.exponentBits;
            && ExponentField(s, bits) == (if Vrt(s.kind) then bits % Pow2(s.exponentBits) else 0)
            && Signed(NegativeField(s, bits), MagnitudeField(s, bits)) ==
               FieldInteger(signed, if Vrt(s.kind) then bits / Pow2(s.exponentBits) else bits, width)
  {
    hide Shr, Low, Pow2, Shl, Negate;
    ShrDivides(bits, s.exponentBits);
    FieldBounds(s, bits);
    var f, m := MantissaField(s, bits), MantissaBits(s);
    if SignedKind(s.kind) {
      TopBit(f, m);
      if f >= Pow2(m - 1) {
        NegateMeaning(f, m);
      }
    }
  }

  /** Every word of every valid format decodes to the value its format gives it. */
  lemma DecodeIsFormat(s: NumericSpec, bits: U64)
    requires IsPattern(s, bits)
    ensures DecodeExact(s, bits).Ok?
    ensures RealOf(DecodeExact(s, bits).value) == FormatValue(s, bits)
  {
    hide Unit, Pow2, Shl, DecodeExact, NegativeField, MagnitudeField, ExponentField, FieldInteger, FormatValue, RealOf;
    DecodedInReals(s, bits);
    FieldsAre(s, bits);
    if Vrt(s.kind) {
      VrtInReals(s, bits);
    } else {
      PlainInReals(s, bits);
    }
  }

  /** Decoding gives the signed mantissa in steps of the quantum. */
  lemma DecodedInReals(s: NumericSpec, bits: U64)
    requires IsPattern(s, bits)
    ensures DecodeExact(s, bits).Ok?
    ensures RealOf(DecodeExact(s, bits).value) ==
            Signed(NegativeField(s, bits),
                   MagnitudeField(s, bits)) as real * Unit(Quantum(s, 0) + ExponentField(s, bits))
  {
    hide Unit, Pow2, Shl, DecodeExact, NegativeField, MagnitudeField, ExponentField, RealOf, Quantum;
    var base := Quantum(s, 0);
    DecodeMeaning(s, bits, base);
    ScaledIsReal(DecodeExact(s, bits).value, base);
    ShiftedReal(NegativeField(s, bits), MagnitudeField(s, bits), ExponentField(s, bits), base);
  }

  lemma PlainInReals(s: NumericSpec, bits: nat)
    requires ValidSpec(s) && !Vrt(s.kind)
    ensures FormatValue(s, bits) == FieldInteger(SignBits(s.kind) == 1, bits, s.bits) as real * Unit(Quantum(s, 0))
  {
    hide Unit, Pow2, FieldInteger;
    var x := FieldInteger(SignBits(s.kind) == 1, bits, s.bits) as real;
    if NonNormalized(s.kind) {
      DivideByPower(x, s.fractionalBits);
    } else {
      DivideByPower(x, s.bits - SignBits(s.kind));
    }
  }

  lemma VrtInReals(s: NumericSpec, bits: nat)
    requires ValidSpec(s) && Vrt(s.kind)
    ensures FormatValue(s, bits) ==
            FieldInteger(SignBits(s.kind) == 1, bits / Pow2(s.exponentBits), s.bits - s.exponentBits) as real *
            Unit(Quantum(s, 0) + bits % Pow2(s.exponentBits))
  {
    hide Unit, Pow2, FieldInteger;
    var e, width := bits % Pow2(s.exponentBits), s.bits - s.exponentBits;
    var x := FieldInteger(SignBits(s.kind) == 1, bits / Pow2(s.exponentBits), width) as real;
    DivideTwice(x, width - SignBits(s.kind), Pow2(s.exponentBits) - 1 - e);
  }

  lemma DivideTwice(x: real, m: nat, n: nat)
    ensures x / Pow2(m) as real / Pow2(n) as real == x * Unit(0 - m - n)
  {
    hide Unit, Pow2;
    DivideByPower(x, m);
    DivideByPower(x * Unit(0 - m), n);
    UnitShift(0 - m - n, n);
    UnitInverse(n);
    Reassociate(x, Unit(0 - m), Unit(0 - n), Unit(0 - m - n), Pow2(n) as real);
  }

  lemma Reassociate(x: real, a: real, b: real, c: real, p: real)
    requires a == p * c && b * p == 1.0
    ensures (x * a) * b == x * c
  {
    assert (x * a) * b == x * (a * b);
    assert a * b == c * (b * p);
  }

  // ----- Landmarks -----

  /** Which formats and words are accepted. */
  lemma DecodeAccepts(s: NumericSpec, bits: U64)
    ensures DecodeExact(s, bits).Ok? <==>
            && 1 <= s.bits <= 64 && bits < Pow2(s.bits)
            && match s.kind
               case UnsignedFixed => s.fractionalBits == 0 && s.exponentBits == 0
               case SignedFixed => s.fractionalBits == 0 && s.exponentBits == 0
               case UnsignedNonNormalized => s.fractionalBits <= 15 && s.fractionalBits < s.bits && s.exponentBits == 0
               case SignedNonNormalized => s.fractionalBits <= 15 && s.fractionalBits < s.bits && s.exponentBits == 0
               case UnsignedVrt => s.fractionalBits == 0 && 1 <= s.exponentBits <= 6 && s.exponentBits < s.bits
               case SignedVrt => s.fractionalBits == 0 && 1 <= s.exponentBits <= 6 && s.exponentBits < s.bits
    ensures DecodeExact(s, bits).Err? ==> DecodeExact(s, bits).error == InvalidArgument
  {
    hide Pow2;
    if IsPattern(s, bits) {
      DecodeIsFormat(s, bits);
    }
  }

  /** In a non-normalized format the word with only its lowest integer bit set stands for one. */
  lemma OneInteger(s: NumericSpec)
    requires ValidSpec(s) && NonNormalized(s.kind) && s.fractionalBits + SignBits(s.kind) < s.bits
    ensures FormatValue(s, Pow2(s.fractionalBits)) == 1.0
  {
    hide Pow2;
    var word := Pow2(s.fractionalBits);
    Pow2Monotone(s.fractionalBits, s.bits - SignBits(s.kind));
    assert FieldInteger(SignBits(s.kind) == 1, word, s.bits) == word;
    StepShort(word as real);
  }

  /** The largest word of a fixed format is one step short of one. */
  lemma TopOfFixed(s: NumericSpec)
    requires ValidSpec(s) && s.kind in {UnsignedFixed, SignedFixed}
    ensures var n := s.bits - SignBits(s.kind); FormatValue(s, Pow2(n) - 1) == 1.0 - 1.0 / Pow2(n) as real
  {
    hide Pow2;
    StepShort(Pow2(s.bits - SignBits(s.kind)) as real);
  }

  lemma StepShort(p: real)
    requires p > 0.0
    ensures (p - 1.0) / p == 1.0 - 1.0 / p && p / p == 1.0
  {
  }

  /** So is that of a VRT format at its top exponent; each exponent below halves the scale. */
  lemma TopOfVrt(s: NumericSpec, e: nat, n: nat, bits: nat)
    requires ValidSpec(s) && Vrt(s.kind) && e < Pow2(s.exponentBits)
    requires n == s.bits - s.exponentBits - SignBits(s.kind) && bits == (Pow2(n) - 1) * Pow2(s.exponentBits) + e
    ensures FormatValue(s, bits) == (1.0 - 1.0 / Pow2(n) as real) / Pow2(Pow2(s.exponentBits) - 1 - e) as real
  {
    hide Pow2;
    DivisionUnique(bits, Pow2(s.exponentBits), Pow2(n) - 1, e);
    StepShort(Pow2(n) as real);
    assert FieldInteger(SignBits(s.kind) == 1, Pow2(n) - 1, s.bits - s.exponentBits) == Pow2(n) - 1;
  }
}
