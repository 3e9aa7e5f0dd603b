/**
 The interchange formats as section 3.4 of IEEE 754-2019 defines them, with the parameters of its table 3.5, and the
 encoder's promise about the real numbers they hold.
 */
module IeeeFormats {
  import opened Core
  import opened Powers
  import opened Rounding
  import opened Dyadic
  import opened IeeeSamples
  import opened IeeeEncoder
  import opened IeeeConvert
  import N = NumericSamples
  import R = NumericFormats

  // ----- The formats -----

  /** Storage width, precision and largest exponent. */
  function Width(f: Format): nat {
    match f
    case Binary16 => 16
    case Binary32 => 32
    case Binary64 => 64
  }

  function Precision(f: Format): nat {
    match f
    case Binary16 => 11
    case Binary32 => 24
    case Binary64 => 53
  }

  function Emax(f: Format): nat {
    match f
    case Binary16 => 15
    case Binary32 => 127
    case Binary64 => 1023
  }

  ghost predicate IsWord(f: Format, bits: nat) {
    bits < Pow2(Width(f))
  }

  ghost function Sign(f: Format, bits: nat): int {
    bits / Pow2(Width(f) - 1)
  }

  ghost function Biased(f: Format, bits: nat): int {
    bits / Pow2(Precision(f) - 1) % Pow2(Width(f) - Precision(f))
  }

  ghost function Trailing(f: Format, bits: nat): int {
    bits % Pow2(Precision(f) - 1)
  }

  ghost predicate IsNumber(f: Format, bits: nat) {
    IsWord(f, bits) && Biased(f, bits) < Pow2(Width(f) - Precision(f)) - 1
  }

  /** The number a finite word stands for. */
  ghost function StandardValue(f: Format, bits: nat): real {
    var e, t := Biased(f, bits), Trailing(f, bits);
    var significand := if e == 0 then t else Pow2(Precision(f) - 1) + t;
    var exponent := (if e == 0 then 1 else e) - Emax(f) - (Precision(f) - 1);
    (if Sign(f, bits) == 0 then significand else 0 - significand) as real * Unit(exponent)
  }

  lemma ShapeIsStandard(f: Format)
    ensures ShapeOf(f) == Shape(Width(f), Precision(f) - 1, Width(f) - Precision(f), Emax(f))
  {
    hide Pow2;
  }

  lemma FieldsAreStandard(f: Format, bits: nat)
    ensures var s := ShapeOf(f);
            && SignBit(s, bits) == Sign(f, bits) && ExponentField(s, bits) == Biased(f, bits)
            && FractionField(s, bits) == Trailing(f, bits)
            && (IsPattern(s, bits) <==> IsWord(f, bits))
            && (IsFinite(s, bits) <==> IsNumber(f, bits))
  {
    hide Shr, Low, Pow2, ShapeOf;
    ShapeIsStandard(f);
    var s := ShapeOf(f);
    ShrDivides(bits, s.width - 1);
    ShrDivides(bits, s.fraction);
    ShrDivides(Shr(bits, s.fraction), s.exponent);
  }

  /** On the common scale of an input and a format, integers stand for the numbers of the format. */
  lemma ValueIsStandard(f: Format, v: BinaryValue, bits: nat)
    requires IsNumber(f, bits)
    ensures IsFinite(ShapeOf(f), bits)
    ensures StandardValue(f, bits) == On(ValueOf(ShapeOf(f), v, bits), Unit(CommonBase(ShapeOf(f), v)))
  {
    hide Shr, Low, Pow2, Shl, ShapeOf, Unit, SignBit, FractionField, ExponentField, CommonBase, Biased, Trailing, Sign;
    ShapeIsStandard(f);
    FieldsAreStandard(f, bits);
    FieldsAssemble(ShapeOf(f), bits);
    var s := ShapeOf(f);
    R.ShiftedReal(SignBit(s, bits) != 0, Significand(s, bits), Step(s, v, Level(s, bits)), CommonBase(s, v));
  }

  /** Every word decodes to what the standard says it is, and nothing else decodes. */
  lemma DecodeIsStandard(f: Format, bits: U64)
    ensures DecodeExact(f, bits).Ok? <==> IsWord(f, bits)
    ensures DecodeExact(f, bits).Err? ==> DecodeExact(f, bits).error == InvalidArgument
    ensures IsWord(f, bits) ==>
              var d, t, half := DecodeExact(f, bits).value, Trailing(f, bits), Pow2(Precision(f) - 2);
              && d.negative == (Sign(f, bits) == 1)
              && if IsNumber(f, bits) then
                   && d.category == (if StandardValue(f, bits) == 0.0 then Zero else Finite)
                   && R.RealOf(d.finite) == StandardValue(f, bits) && N.Canonical(d.finite)
                 else if t == 0 then d.category == Infinity
                 else
                   && d.category == (if t >= half then QuietNaN else SignalingNaN)
                   && d.payload == t % half && d.payloadBits == Precision(f) - 2
  {
    hide Shr, Low, Pow2, Shl, ShapeOf, Unit, SignBit, FractionField, ExponentField, Biased, Trailing, Sign,
         StandardValue, N.Canonicalize, On, ValueOf;
    ShapeIsStandard(f);
    FieldsAreStandard(f, bits);
    var s := ShapeOf(f);
    if IsWord(f, bits) {
      FieldsAssemble(s, bits);
      if IsNumber(f, bits) {
        NumberDecodes(f, bits);
      } else {
        NonNumberDecodes(f, bits);
      }
    }
  }

  lemma NumberDecodes(f: Format, bits: U64)
    requires IsNumber(f, bits)
    ensures DecodeExact(f, bits).Ok?
    ensures var d := DecodeExact(f, bits).value;
            && d.negative == (Sign(f, bits) == 1)
            && d.category == (if StandardValue(f, bits) == 0.0 then Zero else Finite)
            && R.RealOf(d.finite) == StandardValue(f, bits) && N.Canonical(d.finite)
  {
    hide Pow2, ShapeOf, Unit, SignBit, Biased, Trailing, StandardValue, DecodeExact, On, ValueOf, IsFinite, R.RealOf;
    var zero := N.BinaryValue(0, 0, false);
    ShapeIsStandard(f);
    FieldsAreStandard(f, bits);
    FieldsAssemble(ShapeOf(f), bits);
    ValueIsStandard(f, zero, bits);
    DecodeMeaning(f, bits, zero);
    var d, base := DecodeExact(f, bits).value, CommonBase(ShapeOf(f), zero);
    R.ScaledIsReal(d.finite, base);
    RealZero(d.finite);
  }

  lemma RealZero(v: BinaryValue)
    ensures R.RealOf(v) == 0.0 <==> v.magnitude == 0
  {
    hide Unit;
    ScaleOrder(0, Signed(v.negative, v.magnitude), Unit(v.exponent));
  }

  lemma NonNumberDecodes(f: Format, bits: U64)
    requires IsWord(f, bits) && !IsNumber(f, bits)
    ensures DecodeExact(f, bits).Ok?
    ensures var d, t, half := DecodeExact(f, bits).value, Trailing(f, bits), Pow2(Precision(f) - 2);
            && d.negative == (Sign(f, bits) == 1)
            && if t == 0 then d.category == Infinity
               else
                 && d.category == (if t >= half then QuietNaN else SignalingNaN)
                 && d.payload == t % half && d.payloadBits == Precision(f) - 2
  {
    hide Shr, Low, Pow2, Shl, ShapeOf, SignBit, FractionField, ExponentField, N.Canonicalize, Biased, Trailing, Sign;
    ShapeIsStandard(f);
    FieldsAreStandard(f, bits);
    var s := ShapeOf(f);
    FieldsAssemble(s, bits);
    var t := FractionField(s, bits);
    ShrDivides(t, s.fraction - 1);
    TrailingBound(s, bits);
    N.TopBit(t, s.fraction);
  }

  lemma TrailingBound(s: Shape, bits: nat)
    ensures FractionField(s, bits) < Pow2(s.fraction) && ExponentField(s, bits) < Pow2(s.exponent)
  {
  }

  // ----- Which numbers a format holds -----

  /** The largest finite number. */
  ghost function Largest(f: Format): real {
    match f
    case Binary16 => 65504.0
    case Binary32 => 0xFF_FFFF as real * Unit(104)
    case Binary64 => 0x1F_FFFF_FFFF_FFFF as real * Unit(971)
  }

  ghost function Size(x: real): real {
    RealDistance(x, 0.0)
  }

  /** For an odd magnitude: few enough bits, none too low, and not too large. */
  ghost predicate Holds(f: Format, v: BinaryValue) {
    && Size(R.RealOf(v)) <= Largest(f)
    && match f
       case Binary16 => v.magnitude < 0x800 && v.exponent >= -24
       case Binary32 => v.magnitude < 0x100_0000 && v.exponent >= -149
       case Binary64 => v.magnitude < 0x20_0000_0000_0000 && v.exponent >= -1074
  }

  lemma Powers16()
    ensures Pow2(5) == 32 && Pow2(11) == 0x800 && Pow2(24) == 0x100_0000 && Pow2(53) == 0x20_0000_0000_0000
  {
    assert Pow2(5) == 32 && Pow2(8) == 0x100 && Pow2(11) == 0x800;
    Pow2Next(8, 0x100);
    Pow2Next(5, 32);
    Pow2Next(21, 0x20_0000);
    Pow2Next(37, 0x20_0000_0000);
  }

  lemma LargestIs(f: Format)
    ensures Largest(f) == On(Pow2(Precision(f)) - 1, Unit(Emax(f) - Precision(f) + 1))
    ensures Largest(f) > 0.0
  {
    hide Pow2;
    Powers16();
  }

  lemma SizeOnScale(negative: bool, k: nat, u: real)
    requires u > 0.0
    ensures Size(On(Signed(negative, k), u)) == On(k, u)
  {
    ScaleOrder(0, Signed(negative, k), u);
    UnitDistance(Signed(negative, k), 0, u);
  }

  /** With at most `p` bits, the leading bit decides whether a number exceeds `2^p - 1` steps of `2^q`. */
  lemma TopDecides(m: nat, e: int, p: nat, q: int, base: int)
    requires 0 < m < Pow2(p) && base <= e && base <= q && (base == e || base == q)
    ensures e + BitWidth(m) <= q + p <==> Shl(m, e - base) <= Shl(Pow2(p) - 1, q - base)
  {
    hide Shl, Pow2, BitWidth;
    var w := BitWidth(m);
    BitWidthBound(m, p);
    if e <= q {
      ShlGrows(Pow2(p) - 1, q - base);
      ShlIdentity(m);
    } else {
      BitWidthShl(m, e - q);
      BitWidthBound(Shl(m, e - q), p);
      ShlIdentity(Pow2(p) - 1);
    }
  }

  lemma SizeDecides(f: Format, v: BinaryValue)
    requires 0 < v.magnitude < Pow2(Precision(f))
    ensures Size(R.RealOf(v)) <= Largest(f) <==> TopBit(v) <= Emax(f)
  {
    hide Shl, Pow2, BitWidth, Unit, On, Largest, Size, R.RealOf;
    var p, q := Precision(f), Emax(f) - Precision(f) + 1;
    var base := if v.exponent < q then v.exponent else q;
    var u := Unit(base);
    LargestIs(f);
    TopDecides(v.magnitude, v.exponent, p, q, base);
    R.ScaledIsReal(v, base);
    SizeOnScale(v.negative, N.Size(v, base), u);
    ScaledLimit(Pow2(p) - 1, q, base);
    ScaleOrder(N.Size(v, base), Shl(Pow2(p) - 1, q - base), u);
  }

  lemma ScaledLimit(k: nat, q: int, base: int)
    requires base <= q
    ensures On(Shl(k, q - base), Unit(base)) == On(k, Unit(q))
  {
    hide Unit, Shl;
    R.ShiftedReal(false, k, q - base, base);
  }

  /** A number is a finite number of the format exactly when its odd part, lowest bit and size fit. */
  lemma HeldExactly(f: Format, v: BinaryValue)
    requires v.magnitude % 2 == 1
    ensures Holds(f, v) <==>
            exists bits: U64 :: IsNumber(f, bits) && StandardValue(f, bits) == R.RealOf(v)
  {
    hide Pow2, Shl, ShapeOf, R.RealOf, StandardValue, Largest, Size, Unit, IsNumber;
    if Holds(f, v) {
      HeldHasWord(f, v);
    }
    forall bits: U64 | IsNumber(f, bits) && StandardValue(f, bits) == R.RealOf(v)
      ensures Holds(f, v)
    {
      WordIsHeld(f, v, bits);
    }
  }

  lemma HoldsIsFits(f: Format, v: BinaryValue)
    requires v.magnitude > 0
    ensures Holds(f, v) <==> FitsUnrounded(ShapeOf(f), v)
  {
    hide Pow2, ShapeOf, R.RealOf, Largest, Size, BitWidth, TopBit;
    ShapeIsStandard(f);
    Powers16();
    BitWidthBound(v.magnitude, Precision(f));
    if v.magnitude < Pow2(Precision(f)) {
      SizeDecides(f, v);
    }
  }

  lemma HeldHasWord(f: Format, v: BinaryValue)
    requires v.magnitude > 0 && Holds(f, v)
    ensures exists bits: U64 :: IsNumber(f, bits) && StandardValue(f, bits) == R.RealOf(v)
  {
    hide Pow2, ShapeOf, R.RealOf, StandardValue, Holds, FitsUnrounded, Unit, On, ValueOf, Exact, IsNumber, IsFinite,
         EncodeFinite, CommonBase;
    var policy := Policy(N.AllowRounding, NearestTiesEven, Reject, RejectNonFinite, ExactPayload);
    HoldsIsFits(f, v);
    FittingEncodes(f, v, policy);
    var bits := EncodeFinite(f, v, policy).value.bits;
    FieldsAreStandard(f, bits);
    ValueIsStandard(f, v, bits);
    ExactIsReal(f, v);
    PatternIsWord(f, bits);
  }

  lemma ExactIsReal(f: Format, v: BinaryValue)
    ensures R.RealOf(v) == On(Exact(ShapeOf(f), v), Unit(CommonBase(ShapeOf(f), v)))
  {
    hide Unit, On, R.RealOf, ShapeOf, CommonBase;
    R.ScaledIsReal(v, CommonBase(ShapeOf(f), v));
  }

  lemma WordIsHeld(f: Format, v: BinaryValue, bits: U64)
    requires v.magnitude % 2 == 1 && IsNumber(f, bits) && StandardValue(f, bits) == R.RealOf(v)
    ensures Holds(f, v)
  {
    hide Pow2, ShapeOf, R.RealOf, StandardValue, Holds, FitsUnrounded, Unit, On, IsNumber, IsFinite, DecodeExact;
    NumberDecodes(f, bits);
    FieldsAreStandard(f, bits);
    RealZero(v);
    DecodedFits(f, bits);
    var d := DecodeExact(f, bits).value.finite;
    SameReal(d, v);
    HoldsIsFits(f, v);
  }

  /** A real number has one canonical form. */
  lemma SameReal(a: BinaryValue, b: BinaryValue)
    requires N.Canonical(a) && N.Canonical(b) && R.RealOf(a) == R.RealOf(b)
    ensures a == b
  {
    hide Unit, On, R.RealOf, Shl;
    var base := if a.exponent < b.exponent then a.exponent else b.exponent;
    R.ScaledIsReal(a, base);
    R.ScaledIsReal(b, base);
    ScaleOrder(N.Scaled(a, base), N.Scaled(b, base), Unit(base));
    N.CanonicalUnique(a, b, base);
  }

  /** The word of one, and the next number above it. */
  lemma OneAndNext(f: Format, one: nat)
    requires one == match f case Binary16 => 0x3C00 case Binary32 => 0x3F80_0000 case Binary64 => 0x3FF0_0000_0000_0000
    ensures IsNumber(f, one) && StandardValue(f, one) == 1.0
    ensures IsNumber(f, one + 1) && StandardValue(f, one + 1) == 1.0 + Unit(1 - Precision(f))
  {
    hide Pow2, Unit;
    var p: int, e := Precision(f), Emax(f);
    SmallPowers();
    NormalFields(f, one, e, 0);
    NormalFields(f, one + 1, e, 1);
    UnitInverse(p - 1);
    assert On(Pow2(p - 1), Unit(1 - p)) == 1.0;
    assert On(Pow2(p - 1) + 1, Unit(1 - p)) == On(Pow2(p - 1), Unit(1 - p)) + Unit(1 - p);
  }

  lemma SmallPowers()
    ensures Pow2(4) == 16 && Pow2(10) == 0x400 && Pow2(23) == 0x80_0000 && Pow2(52) == 0x10_0000_0000_0000
    ensures Pow2(5) == 32 && Pow2(8) == 256 && Pow2(11) == 2048
  {
    Powers16();
    Pow2Double(11);
    Pow2Double(24);
    Pow2Double(53);
    assert Pow2(8) == 256;
  }

  lemma NormalFields(f: Format, bits: nat, e: nat, t: nat)
    requires 0 < e < Pow2(Width(f) - Precision(f)) - 1 && t < Pow2(Precision(f) - 1)
    requires bits == e * Pow2(Precision(f) - 1) + t
    ensures IsNumber(f, bits) && Sign(f, bits) == 0 && Biased(f, bits) == e && Trailing(f, bits) == t
  {
    hide Pow2, Shl, ShapeOf, ExponentField, FractionField, SignBit;
    ShapeIsStandard(f);
    var s := ShapeOf(f);
    ShlTimes(e, s.fraction);
    AssembleFields(s, false, e, t, bits);
    FieldsAreStandard(f, bits);
  }

  // ----- The encoder's promise about real numbers -----

  /** `x` rounds beyond `top`, the last of a grid with the given step whose place is odd. */
  ghost predicate RoundsPast(top: real, step: real, x: real, mode: Mode) {
    match mode
    case NearestTiesEven => Size(x) >= top + step / 2.0
    case TowardZero => Size(x) >= top + step
    case TowardNegative => if x < 0.0 then Size(x) > top else Size(x) >= top + step
    case TowardPositive => if x > 0.0 then Size(x) > top else Size(x) >= top + step
  }

  /** The magnitude does not round to a finite number. */
  ghost predicate TooLarge(f: Format, x: real, mode: Mode) {
    RoundsPast(Largest(f), Unit(Emax(f) - Precision(f) + 1), x, mode)
  }

  /** Section 7.5: rounded to the precision with unbounded exponent, the magnitude stays below the least normal. */
  ghost predicate TinyNumber(f: Format, x: real, mode: Mode) {
    var step := Unit(1 - Emax(f) - Precision(f));
    !RoundsPast(Unit(1 - Emax(f)) - step, step, x, mode)
  }

  ghost predicate IsBest(f: Format, x: real, mode: Mode, bits: nat) {
    && RealSide(mode, x, StandardValue(f, bits))
    && (forall other: nat :: IsNumber(f, other) ==>
          RealNoBetter(mode, x, StandardValue(f, bits), StandardValue(f, other)))
    && (mode == NearestTiesEven ==>
          forall other: nat :: IsNumber(f, other) && StandardValue(f, other) != StandardValue(f, bits)
                               && RealDistance(StandardValue(f, other), x) ==
                                 RealDistance(StandardValue(f, bits), x) ==>
            Trailing(f, bits) % 2 == 0)
  }

  /** What encoding a non-zero `x` answers when it is too large. */
  ghost predicate OverflowAnswer(f: Format, x: real, policy: Policy, r: Result<Converted>) {
    if policy.precision == N.ExactOnly || policy.overflow == Reject then r == Err(Overflow)
    else
      && r.Ok? && r.value.flags == Flags(false, true, true, false, false) && IsWord(f, r.value.bits)
      && Sign(f, r.value.bits) == (if x < 0.0 then 1 else 0)
      && var away := policy.rounding == (if x < 0.0 then TowardNegative else TowardPositive);
         if policy.overflow == IeeeResult && (policy.rounding == NearestTiesEven || away)
         then !IsNumber(f, r.value.bits) && Trailing(f, r.value.bits) == 0
         else IsNumber(f, r.value.bits) && Size(StandardValue(f, r.value.bits)) == Largest(f)
  }

  /** What encoding a non-zero `x` answers otherwise. */
  ghost predicate RoundedAnswer(f: Format, x: real, policy: Policy, r: Result<Converted>) {
    && (r.Ok? ==>
          var bits := r.value.bits;
          && IsNumber(f, bits) && Sign(f, bits) == (if x < 0.0 then 1 else 0) && IsBest(f, x, policy.rounding, bits)
          && var inexact := StandardValue(f, bits) != x;
             r.value.flags == Flags(false, inexact, false, inexact && TinyNumber(f, x, policy.rounding), false))
    && match policy.precision
       case AllowRounding => r.Ok?
       case ExactOnly =>
         if exists bits: nat :: IsNumber(f, bits) && StandardValue(f, bits) == x
         then r.Ok? && StandardValue(f, r.value.bits) == x
         else r == Err(InvalidArgument)
  }

  /** Encoding rounds the real number, for every non-zero value, format and policy. */
  lemma EncodesReal(f: Format, v: BinaryValue, policy: Policy)
    requires v.magnitude > 0
    ensures var x, r := R.RealOf(v), EncodeFinite(f, v, policy);
            if TooLarge(f, x, policy.rounding) then OverflowAnswer(f, x, policy, r)
            else RoundedAnswer(f, x, policy, r)
  {
    hide EncodeFinite, Overflows, TooLarge, OverflowAnswer, RoundedAnswer, OverflowResult, Rounds, Representable,
         ShapeOf, R.RealOf, TinyAfterRounding;
    var s := ShapeOf(f);
    EncodeFiniteCorrect(f, v, policy);
    TooLargeOnScale(f, v, policy.rounding);
    if Overflows(s, v, policy.rounding) {
      OverflowInReals(f, v, policy);
    } else {
      RoundedInReals(f, v, policy, EncodeFinite(f, v, policy));
    }
  }

  /** So does converting a finite word of another format; zero keeps its sign. */
  lemma ConvertsReal(source: Format, bits: U64, f: Format, policy: Policy)
    requires IsNumber(source, bits)
    ensures var x, r := StandardValue(source, bits), Convert(source, bits, f, policy);
            if x == 0.0 then
              && r.Ok? && r.value.flags == NO_FLAGS && IsNumber(f, r.value.bits)
              && StandardValue(f, r.value.bits) == 0.0
              && Sign(f, r.value.bits) == Sign(source, bits)
            else if TooLarge(f, x, policy.rounding) then OverflowAnswer(f, x, policy, r)
            else RoundedAnswer(f, x, policy, r)
  {
    hide EncodeFinite, TooLarge, OverflowAnswer, RoundedAnswer, ShapeOf, R.RealOf, TinyAfterRounding, StandardValue,
         Sign, Pow2, IsNumber, DecodeExact;
    NumberDecodes(source, bits);
    var d := DecodeExact(source, bits).value;
    if d.category == Finite {
      RealZero(d.finite);
      EncodesReal(f, d.finite, policy);
    } else {
      ZeroInReals(f, d.negative, policy);
      SignIsOneBit(source, bits);
    }
  }

  lemma SignIsOneBit(f: Format, bits: nat)
    requires IsNumber(f, bits)
    ensures 0 <= Sign(f, bits) <= 1
  {
    hide ShapeOf, SignBit, Sign;
    FieldsAreStandard(f, bits);
    FieldsAssemble(ShapeOf(f), bits);
  }

  lemma ZeroInReals(f: Format, negative: bool, policy: Policy)
    ensures var r := EncodeFinite(f, N.BinaryValue(0, 0, negative), policy);
            && r.Ok? && r.value.flags == NO_FLAGS && IsNumber(f, r.value.bits) && StandardValue(f, r.value.bits) == 0.0
            && Sign(f, r.value.bits) == (if negative then 1 else 0)
  {
    hide Pow2, ShapeOf, Shl, SignBit, FractionField, ExponentField, Sign, Trailing, Biased, Unit;
    ShapeIsStandard(f);
    var s := ShapeOf(f);
    var bits := if negative then Pow2(s.width - 1) else 0;
    ShlZero(s.fraction);
    AssembleFields(s, negative, 0, 0, bits);
    FieldsAreStandard(f, bits);
  }

  lemma SignOfReal(v: BinaryValue)
    requires v.magnitude > 0
    ensures R.RealOf(v) < 0.0 <==> v.negative
    ensures R.RealOf(v) > 0.0 <==> !v.negative
  {
    hide Unit;
    ScaleOrder(0, Signed(v.negative, v.magnitude), Unit(v.exponent));
  }

  /** The largest finite number and its step, on the scale of an input. */
  lemma LargestOnScale(f: Format, v: BinaryValue)
    ensures var s, u := ShapeOf(f), Unit(CommonBase(ShapeOf(f), v));
            && Largest(f) == On(MaxFinite(s, v), u)
            && Unit(Emax(f) - Precision(f) + 1) == On(MaxStep(s, v), u)
  {
    hide Unit, On, Shl, Pow2, ShapeOf, CommonBase, Largest;
    ShapeIsStandard(f);
    var s := ShapeOf(f);
    var base, q := CommonBase(s, v), Emax(f) - Precision(f) + 1;
    LargestIs(f);
    assert q - base == Step(s, v, TopLevel(s));
    ScaledLimit(Limit(s), q, base);
    ScaledLimit(1, q, base);
    ShlOne(q - base);
    OneUnit(q);
  }

  lemma OneUnit(q: int)
    ensures On(1, Unit(q)) == Unit(q)
  {
    hide Unit;
  }

  lemma TooLargeOnScale(f: Format, v: BinaryValue, mode: Mode)
    requires v.magnitude > 0
    ensures TooLarge(f, R.RealOf(v), mode) <==> Overflows(ShapeOf(f), v, mode)
  {
    hide Unit, Shl, Pow2, ShapeOf, CommonBase, Largest, R.RealOf, MaxFinite, MaxStep, InputSize, On, RoundsPast;
    var s := ShapeOf(f);
    LargestOnScale(f, v);
    ExactIsReal(f, v);
    PastOnScale(InputSize(s, v), MaxFinite(s, v), MaxStep(s, v), v, mode, Unit(CommonBase(s, v)));
  }

  ghost predicate Past(x: nat, m: nat, step: nat, mode: Mode, negative: bool) {
    if mode == NearestTiesEven then 2 * x >= 2 * m + step
    else if RoundsAway(mode, negative) then x > m
    else x >= m + step
  }

  lemma PastOnScale(x: nat, m: nat, step: nat, v: BinaryValue, mode: Mode, u: real)
    requires u > 0.0 && v.magnitude > 0 && R.RealOf(v) == On(Signed(v.negative, x), u)
    ensures RoundsPast(On(m, u), On(step, u), R.RealOf(v), mode) <==> Past(x, m, step, mode, v.negative)
  {
    hide On, R.RealOf, Size;
    SizeOnScale(v.negative, x, u);
    SignOfReal(v);
    ScaleOrder(x, m, u);
    ScaleOrder(x, m + step, u);
    ScaleOrder(2 * x, 2 * m + step, u);
    ScaleSum(x, m, step, u);
  }

  /** The least normal, and the step below it, on a fine enough scale. */
  lemma NormalOnScale(f: Format, base: int)
    requires base <= 1 - Emax(f) - Precision(f)
    ensures var n, p := 1 - Emax(f) - Precision(f) - base, Precision(f);
            && Shl(Pow2(p) - 1, n) + Pow2(n) == Pow2(1 - Emax(f) - base)
            && Unit(n + base) == On(Pow2(n), Unit(base))
            && Unit(1 - Emax(f)) - Unit(n + base) == On(Shl(Pow2(p) - 1, n), Unit(base))
  {
    hide Unit, On, Shl, Pow2;
    var p, q := Precision(f), 1 - Emax(f) - Precision(f);
    var n := q - base;
    ShlSuccessor(Pow2(p) - 1, n);
    ShlPow2(p, n);
    ScaledLimit(1, q, base);
    ShlOne(n);
    OneUnit(q);
    ScaledLimit(Pow2(p), q, base);
    ScaledLimit(1, q + p, base);
    ShlOne(q + p - base);
    OneUnit(q + p);
    ScaleSum(0, Shl(Pow2(p) - 1, n), Pow2(n), Unit(base));
  }

  lemma TinyIsReal(f: Format, v: BinaryValue, mode: Mode)
    requires v.magnitude > 0
    ensures TinyAfterRounding(ShapeOf(f), v, mode) <==> TinyNumber(f, R.RealOf(v), mode)
  {
    hide Unit, Shl, Pow2, ShapeOf, R.RealOf, On, RoundsPast, TopBit, BitWidth, RoundShift, Past, N.Size, PrecisionBase;
    ShapeIsStandard(f);
    var s := ShapeOf(f);
    var q := 1 - Emax(f) - Precision(f);
    var base := if TopBit(v) < 1 - s.bias then PrecisionBase(s, v) else if v.exponent < q then v.exponent else q;
    var x, n := N.Size(v, base), q - base;
    var m, step := Shl(Pow2(Precision(f)) - 1, n), Pow2(n);
    NormalOnScale(f, base);
    R.ScaledIsReal(v, base);
    PastOnScale(x, m, step, v, mode, Unit(base));
    LeadingBitAt(v, base);
    if TopBit(v) < 1 - s.bias {
      TinyOnScale(s, v, mode, x, m, step);
    } else {
      Pow2Monotone(1 - s.bias - base, TopBit(v) - base);
      BeyondIsPast(x, m, step, mode, v.negative);
    }
  }

  lemma BeyondIsPast(x: nat, m: nat, step: nat, mode: Mode, negative: bool)
    requires x >= m + step && step > 0
    ensures Past(x, m, step, mode, negative)
  {
  }

  lemma TinyOnScale(s: Shape, v: BinaryValue, mode: Mode, x: nat, m: nat, step: nat)
    requires ValidShape(s) && v.magnitude > 0 && TopBit(v) < 1 - s.bias
    requires x == N.Size(v, PrecisionBase(s, v))
    requires var n := 0 - s.bias - s.fraction - PrecisionBase(s, v);
             step == Pow2(n) && m == Shl(Pow2(s.fraction + 1) - 1, n)
    ensures TinyAfterRounding(s, v, mode) <==> !Past(x, m, step, mode, v.negative)
  {
    hide Shl, Pow2, TopBit, BitWidth, RoundShift, N.Size, PrecisionBase;
    var base := PrecisionBase(s, v);
    var n, m0 := 0 - s.bias - s.fraction - base, 1 - s.bias - base;
    LeadingBitAt(v, base);
    if TopBit(v) == 0 - s.bias {
      PastAtEdge(x, n, s.fraction, mode, v.negative);
    } else {
      TinyArithmetic(x, TopBit(v) - s.fraction - base, s.fraction, m0, mode, v.negative);
      BelowEdge(x, n, s.fraction, TopBit(v) - base, mode, v.negative);
    }
  }

  lemma PastAtEdge(x: nat, n: nat, f: nat, mode: Mode, negative: bool)
    ensures Shl(RoundShift(x, n, mode, negative), n) < Pow2(n + f + 1) <==>
            !Past(x, Shl(Pow2(f + 1) - 1, n), Pow2(n), mode, negative)
  {
    hide Shl, Pow2, RoundShift;
    var limit := Pow2(f + 1) - 1;
    NextPower(f);
    PastOddLimit(x, n, limit, mode, negative);
    ShlPow2(f + 1, n);
    ShlOrder(RoundShift(x, n, mode, negative), limit + 1, n);
  }

  lemma BelowEdge(x: nat, n: nat, f: nat, top: nat, mode: Mode, negative: bool)
    requires x < Pow2(top + 1) && top < n + f
    ensures !Past(x, Shl(Pow2(f + 1) - 1, n), Pow2(n), mode, negative)
  {
    hide Shl, Pow2;
    ShlSuccessor(Pow2(f + 1) - 1, n);
    ShlPow2(f + 1, n);
    NextPower(n + f);
    Pow2Monotone(top + 1, n + f);
    Pow2Monotone(n, n + f);
  }

  lemma ScaleSum(x: int, m: int, step: int, u: real)
    ensures On(m + step, u) == On(m, u) + On(step, u)
    ensures On(2 * x, u) == 2.0 * On(x, u)
    ensures On(2 * m + step, u) == 2.0 * On(m, u) + On(step, u)
  {
  }

  lemma OverflowInReals(f: Format, v: BinaryValue, policy: Policy)
    requires v.magnitude > 0
    ensures OverflowAnswer(f, R.RealOf(v), policy, OverflowResult(ShapeOf(f), v.negative, policy))
  {
    hide Unit, Shl, Pow2, ShapeOf, CommonBase, Largest, R.RealOf, MaxFinite, On, OverflowResult, StandardValue, ValueOf,
         SignBit, ExponentField, FractionField, Size, IsNumber, IsWord, Sign, Trailing;
    var s, r := ShapeOf(f), OverflowResult(ShapeOf(f), v.negative, policy);
    SignOfReal(v);
    OverflowMeaning(s, v, policy);
    if r.Ok? {
      var bits := r.value.bits;
      FieldsAreStandard(f, bits);
      LargestOnScale(f, v);
      if IsNumber(f, bits) {
        ValueIsStandard(f, v, bits);
        SizeOnScale(v.negative, MaxFinite(s, v), Unit(CommonBase(s, v)));
      }
    }
  }

  lemma RoundedInReals(f: Format, v: BinaryValue, policy: Policy, r: Result<Converted>)
    requires v.magnitude > 0 && !Overflows(ShapeOf(f), v, policy.rounding) && EncodePromise(ShapeOf(f), v, policy, r)
    ensures RoundedAnswer(f, R.RealOf(v), policy, r)
  {
    hide ShapeOf, R.RealOf, StandardValue, ValueOf, Exact, IsNumber, IsFinite, SignBit, Sign, Overflows, IsBest,
         CorrectlyRounded, TinyAfterRounding, TinyNumber, Representable;
    var s := ShapeOf(f);
    SignOfReal(v);
    TinyIsReal(f, v, policy.rounding);
    RepresentableInReals(f, v);
    if r.Ok? {
      FieldsAreStandard(f, r.value.bits);
      SameAsExact(f, v, r.value.bits);
      BestInReals(f, v, policy.rounding, r.value.bits);
    }
  }

  lemma SameAsExact(f: Format, v: BinaryValue, bits: nat)
    requires IsNumber(f, bits)
    ensures StandardValue(f, bits) == R.RealOf(v) <==> ValueOf(ShapeOf(f), v, bits) == Exact(ShapeOf(f), v)
  {
    hide Unit, On, StandardValue, ValueOf, Exact, R.RealOf, ShapeOf, CommonBase, IsNumber;
    ValueIsStandard(f, v, bits);
    ExactIsReal(f, v);
    ScaleOrder(ValueOf(ShapeOf(f), v, bits), Exact(ShapeOf(f), v), Unit(CommonBase(ShapeOf(f), v)));
  }

  lemma RepresentableInReals(f: Format, v: BinaryValue)
    ensures Representable(ShapeOf(f), v) <==>
              exists bits: nat :: IsNumber(f, bits) && StandardValue(f, bits) == R.RealOf(v)
  {
    hide StandardValue, ValueOf, Exact, R.RealOf, ShapeOf, IsNumber, IsFinite;
    forall bits: nat
      ensures IsNumber(f, bits) <==> IsFinite(ShapeOf(f), bits)
      ensures IsNumber(f, bits) ==>
                (StandardValue(f, bits) == R.RealOf(v) <==> ValueOf(ShapeOf(f), v, bits) == Exact(ShapeOf(f), v))
    {
      FieldsAreStandard(f, bits);
      if IsNumber(f, bits) {
        SameAsExact(f, v, bits);
      }
    }
  }

  lemma BestInReals(f: Format, v: BinaryValue, mode: Mode, bits: nat)
    requires IsNumber(f, bits) && CorrectlyRounded(ShapeOf(f), v, mode, bits)
    ensures IsBest(f, R.RealOf(v), mode, bits)
  {
    hide StandardValue, ValueOf, Exact, R.RealOf, On, Unit, OnTheRightSide, NoBetter, RealSide, RealNoBetter, ShapeOf,
         CommonBase, IsNumber, IsFinite, FractionField, Trailing, RealDistance, Abs;
    var s, x := ShapeOf(f), R.RealOf(v);
    var u := Unit(CommonBase(s, v));
    ExactIsReal(f, v);
    ValueIsStandard(f, v, bits);
    FieldsAreStandard(f, bits);
    RoundingOnScale(mode, Exact(s, v), ValueOf(s, v, bits), ValueOf(s, v, bits), u);
    forall other: nat | IsNumber(f, other)
      ensures RealNoBetter(mode, x, StandardValue(f, bits), StandardValue(f, other))
      ensures mode == NearestTiesEven && StandardValue(f, other) != StandardValue(f, bits)
              && RealDistance(StandardValue(f, other), x) == RealDistance(StandardValue(f, bits), x) ==>
                Trailing(f, bits) % 2 == 0
    {
      ValueIsStandard(f, v, other);
      RoundingOnScale(mode, Exact(s, v), ValueOf(s, v, bits), ValueOf(s, v, other), u);
      EqualDistance(ValueOf(s, v, other), ValueOf(s, v, bits), Exact(s, v), u);
    }
  }

  lemma EqualDistance(a: int, b: int, c: int, u: real)
    requires u > 0.0
    ensures RealDistance(On(a, u), On(c, u)) == RealDistance(On(b, u), On(c, u)) <==> Abs(a - c) == Abs(b - c)
    ensures On(a, u) == On(b, u) <==> a == b
  {
    hide On, RealDistance, Abs;
    UnitDistance(a, c, u);
    UnitDistance(b, c, u);
    ScaleOrder(Abs(a - c), Abs(b - c), u);
    ScaleOrder(a, b, u);
  }
}
