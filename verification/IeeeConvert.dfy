/** Conversions between the IEEE formats (include/vita/codec/ieee_samples.hpp, convert). */
module IeeeConvert {
  import opened Core
  import opened Powers
  import opened Rounding
  import opened IeeeSamples
  import opened IeeeEncoder
  import N = NumericSamples

  function Convert(source: Format, bits: U64, destination: Format, policy: Policy): Result<Converted> {
    var src := DecodeExact(source, bits);
    var dst := ShapeOf(destination);
    if src.Err? then Err(src.error)
    else
      var v := src.value;
      match v.category
      case Finite => EncodeFinite(destination, v.finite, policy)
      case Zero => EncodeFinite(destination, N.BinaryValue(0, 0, v.negative), policy)
      case _ =>
        if policy.nonfinite == RejectNonFinite then Err(InvalidArgument)
        else
          var sign := if v.negative then Pow2(dst.width - 1) else 0;
          var inf := Shl(Pow2(dst.exponent) - 1, dst.fraction);
          if v.category == Infinity then Ok(Converted(sign + inf, NO_FLAGS))
          else ConvertNaN(dst, v, sign, inf, policy)
  }

  function ConvertNaN(dst: Shape, v: DecodedValue, sign: nat, inf: nat, policy: Policy): Result<Converted>
    requires ValidShape(dst)
  {
    var quiet := Pow2(dst.fraction - 1);
    var invalid := v.category == SignalingNaN;
    if policy.payload == CanonicalPayload then
      Ok(Converted(inf + quiet, NO_FLAGS.(invalid := invalid, payloadLoss := v.negative || v.payload != 0)))
    else
      var target := dst.fraction - 1;
      var loss := v.payloadBits > target && Low(v.payload, v.payloadBits - target) != 0;
      var payload :=
        if v.payloadBits > target then Shr(v.payload, v.payloadBits - target)
        else Shl(v.payload, target - v.payloadBits);
      if loss && policy.payload == ExactPayload then Err(InvalidArgument)
      else Ok(Converted(sign + inf + quiet + payload, NO_FLAGS.(invalid := invalid, payloadLoss := loss)))
  }

  // ----- Finite patterns are determined by sign and value -----

  lemma FiniteInjective(s: Shape, v: BinaryValue, a: nat, b: nat)
    requires ValidShape(s) && IsFinite(s, a) && IsFinite(s, b)
    requires SignBit(s, a) == SignBit(s, b) && ValueOf(s, v, a) == ValueOf(s, v, b)
    ensures a == b
  {
    FieldsAssemble(s, a);
    FieldsAssemble(s, b);
    FiniteFits(s, a);
    FiniteFits(s, b);
    hide Shl, Shr, Low, Pow2, CommonBase;
    if Level(s, a) <= Level(s, b) {
      NormalizedUnique(s, Step(s, v, 0), Significand(s, a), Level(s, a), Significand(s, b), Level(s, b));
    } else {
      NormalizedUnique(s, Step(s, v, 0), Significand(s, b), Level(s, b), Significand(s, a), Level(s, a));
    }
  }

  lemma NormalizedUnique(s: Shape, u: nat, k: nat, e: nat, j: nat, d: nat)
    requires e <= d && k < Pow2(s.fraction + 1)
    requires d > 0 ==> j >= Pow2(s.fraction)
    requires Shl(k, u + e) == Shl(j, u + d)
    ensures e == d && k == j
  {
    NextPower(s.fraction);
    hide Shl, Pow2;
    ShlShl(j, d - e, u + e);
    ShlOrder(k, Shl(j, d - e), u + e);
    ShlOrder(Shl(j, d - e), k, u + e);
    ShlGrows(j, d - e);
    if e == d {
      ShlIdentity(j);
    }
  }

  lemma ShlIdentity(x: nat)
    ensures Shl(x, 0) == x
  {
  }

  // ----- Every finite pattern survives decoding and encoding -----

  lemma OwnValueEncodes(format: Format, bits: U64, policy: Policy)
    requires IsFinite(ShapeOf(format), bits)
    requires DecodeExact(format, bits).Ok? && DecodeExact(format, bits).value.category == Finite
    ensures EncodeFinite(format, DecodeExact(format, bits).value.finite, policy) == Ok(Converted(bits, NO_FLAGS))
  {
    var s, d := ShapeOf(format), DecodeExact(format, bits).value;
    var v, r := d.finite, EncodeFinite(format, d.finite, policy);
    hide DecodeExact, EncodeFinite, ShapeOf, ValueOf, CommonBase, Overflows, CorrectlyRounded, TinyAfterRounding,
         SignBit;
    DecodeMeaning(format, bits, v);
    assert Exact(s, v) == ValueOf(s, v, bits);
    EncodeFiniteCorrect(format, v, policy);
    assert Representable(s, v);
    RoundedRepresentable(s, v, policy.rounding, r.value.bits);
    SignIsBit(s, bits);
    FiniteInjective(s, v, r.value.bits, bits);
  }

  lemma SignIsBit(s: Shape, bits: nat)
    requires ValidShape(s) && IsPattern(s, bits)
    ensures SignBit(s, bits) <= 1
  {
    FieldsAssemble(s, bits);
  }

  lemma ZeroPattern(format: Format, bits: U64)
    requires IsFinite(ShapeOf(format), bits)
    requires DecodeExact(format, bits).Ok? && DecodeExact(format, bits).value.category == Zero
    ensures var s := ShapeOf(format);
            bits == if DecodeExact(format, bits).value.negative then Pow2(s.width - 1) else 0
  {
    var s := ShapeOf(format);
    FieldsAssemble(s, bits);
    FiniteFits(s, bits);
    ShlZero(s.fraction);
    hide Shl, Shr, Low, Pow2, N.Canonicalize;
  }

  /** Decoding any finite pattern and encoding it in its own format gives back the same bits and raises no flag. */
  lemma RoundTrip(format: Format, bits: U64, policy: Policy)
    requires IsFinite(ShapeOf(format), bits)
    ensures Convert(format, bits, format, policy) == Ok(Converted(bits, NO_FLAGS))
  {
    hide DecodeExact, ShapeOf, ValueOf, CommonBase, SignBit;
    DecodeMeaning(format, bits, N.BinaryValue(0, 0, false));
    if DecodeExact(format, bits).value.category == Finite {
      OwnValueEncodes(format, bits, policy);
    } else {
      ZeroPattern(format, bits);
    }
  }

  // ----- Widening -----

  predicate Wider(f: Format, g: Format) {
    (f == Binary16 && g != Binary16) || (f == Binary32 && g == Binary64)
  }

  /** Size limits that let a value through a format unrounded. */
  ghost predicate FitsUnrounded(s: Shape, v: BinaryValue) {
    && v.magnitude > 0 && BitWidth(v.magnitude) <= s.fraction + 1
    && v.exponent >= LeastQuantum(s) && TopBit(v) <= s.bias
  }

  lemma DecodedFits(format: Format, bits: U64)
    requires IsFinite(ShapeOf(format), bits)
    requires DecodeExact(format, bits).Ok? && DecodeExact(format, bits).value.category == Finite
    ensures FitsUnrounded(ShapeOf(format), DecodeExact(format, bits).value.finite)
  {
    hide ShapeOf, Shl, Shr, Low, Pow2, BitWidth, N.Canonicalize, TopBit;
    var s := ShapeOf(format);
    FiniteFits(s, bits);
    var raw := N.BinaryValue(Significand(s, bits), LeastQuantum(s) + Level(s, bits), SignBit(s, bits) != 0);
    CanonicalTop(raw);
    BitWidthBound(raw.magnitude, s.fraction + 1);
  }

  /** Canonicalization drops trailing zeros: the leading bit stays where it is. */
  lemma CanonicalTop(raw: BinaryValue)
    requires raw.magnitude > 0
    ensures N.Canonicalize(raw).Ok? ==>
              var c := N.Canonicalize(raw).value;
              && c.magnitude > 0 && c.exponent >= raw.exponent
              && BitWidth(c.magnitude) <= BitWidth(raw.magnitude)
              && TopBit(c) == TopBit(raw) == raw.exponent + BitWidth(raw.magnitude) - 1
  {
    hide Shl, Shr, BitWidth, TrailingZeros;
    var t := TrailingZeros(raw.magnitude);
    BitWidthShl(Shr(raw.magnitude, t), t);
  }

  lemma NoRounding(s: Shape, v: BinaryValue, mode: Mode)
    requires ValidShape(s) && FitsUnrounded(s, v)
    ensures var q := RoundingQuantum(s, v);
            && (v.exponent >= q ==> BitWidth(v.magnitude) + v.exponent - q <= 64)
            && !Round(v, q, mode).inexact
            && Round(v, q, mode).integer < Pow2(s.fraction + 1)
  {
    var shift := v.exponent - RoundingQuantum(s, v);
    hide Shl, Pow2, BitWidth;
    BitWidthShl(v.magnitude, shift);
    BitWidthBound(Shl(v.magnitude, shift), s.fraction + 1);
  }

  /** A value that fits is encoded without change under every policy. */
  lemma FittingEncodes(format: Format, v: BinaryValue, policy: Policy)
    requires FitsUnrounded(ShapeOf(format), v)
    ensures var s, r := ShapeOf(format), EncodeFinite(format, v, policy);
            && r.Ok? && r.value.flags == NO_FLAGS
            && IsFinite(s, r.value.bits)
            && ValueOf(s, v, r.value.bits) == Exact(s, v)
            && SignBit(s, r.value.bits) == (if v.negative then 1 else 0)
  {
    var s := ShapeOf(format);
    NoRounding(s, v, policy.rounding);
    FittingUnfolds(format, v, policy);
    EncodeFiniteCorrect(format, v, policy);
    RoundingMeaning(s, v, policy.rounding);
    OverflowBranches(s, v, policy.rounding);
    hide EncodeFinite, ShapeOf, ValueOf, CommonBase, CorrectlyRounded, TinyAfterRounding, SignBit, Overflows, Round,
         TopBit, Pow2, RoundedAt, FitsUnrounded, InputSize, Representable, IsFinite;
  }

  lemma FittingUnfolds(format: Format, v: BinaryValue, policy: Policy)
    requires FitsUnrounded(ShapeOf(format), v)
    ensures EncodeFinite(format, v, policy).Ok? && !EncodeFinite(format, v, policy).value.flags.inexact
    ensures TopBit(v) <= ShapeOf(format).bias
  {
    var s := ShapeOf(format);
    NoRounding(s, v, policy.rounding);
    hide ShapeOf, Round, Pow2, Tiny, Low, Shl, BitWidth;
  }

  lemma WiderFits(f: Format, g: Format, v: BinaryValue)
    requires Wider(f, g) && FitsUnrounded(ShapeOf(f), v)
    ensures FitsUnrounded(ShapeOf(g), v)
  {
    hide BitWidth;
  }

  /** Widening keeps category, sign and value, and raises no flag. */
  lemma WideningKeeps(f: Format, bits: U64, g: Format, policy: Policy)
    requires Wider(f, g) && IsFinite(ShapeOf(f), bits)
    ensures var r := Convert(f, bits, g, policy);
            && r.Ok? && r.value.flags == NO_FLAGS && r.value.bits <= U64_MAX
            && IsFinite(ShapeOf(g), r.value.bits)
            && DecodeExact(g, r.value.bits) == DecodeExact(f, bits)
  {
    hide DecodeExact, ShapeOf, ValueOf, CommonBase, SignBit, EncodeFinite, IsFinite, FitsUnrounded;
    DecodeMeaning(f, bits, N.BinaryValue(0, 0, false));
    var d := DecodeExact(f, bits).value;
    if d.category == Finite {
      DecodedFits(f, bits);
      WiderFits(f, g, d.finite);
      FittingEncodes(g, d.finite, policy);
      var word := EncodeFinite(g, d.finite, policy).value.bits;
      PatternIsWord(g, word);
      SameDecode(f, bits, g, word, d.finite);
    } else {
      WidenedZero(f, bits, g, policy);
    }
  }

  lemma PatternIsWord(g: Format, bits: nat)
    requires IsFinite(ShapeOf(g), bits)
    ensures bits <= U64_MAX
  {
    hide ShapeOf;
    Pow2Word(ShapeOf(g).width);
  }

  lemma SameDecode(f: Format, bits: U64, g: Format, word: U64, v: BinaryValue)
    requires IsFinite(ShapeOf(f), bits) && IsFinite(ShapeOf(g), word)
    requires DecodeExact(f, bits).Ok? && DecodeExact(f, bits).value.category == Finite
    requires DecodeExact(f, bits).value.finite == v
    requires ValueOf(ShapeOf(g), v, word) == Exact(ShapeOf(g), v)
    requires SignBit(ShapeOf(g), word) == if v.negative then 1 else 0
    ensures DecodeExact(g, word) == DecodeExact(f, bits)
  {
    hide DecodeExact, ShapeOf, ValueOf, CommonBase, SignBit, IsFinite;
    DecodeMeaning(f, bits, v);
    DecodeMeaning(g, word, v);
    N.CanonicalUnique(DecodeExact(g, word).value.finite, v, CommonBase(ShapeOf(g), v));
  }

  lemma WidenedZero(f: Format, bits: U64, g: Format, policy: Policy)
    requires IsFinite(ShapeOf(f), bits)
    requires DecodeExact(f, bits).Ok? && DecodeExact(f, bits).value.category == Zero
    ensures var r := EncodeFinite(g, N.BinaryValue(0, 0, DecodeExact(f, bits).value.negative), policy);
            && r.Ok? && r.value.flags == NO_FLAGS && r.value.bits <= U64_MAX
            && IsFinite(ShapeOf(g), r.value.bits)
            && DecodeExact(g, r.value.bits) == DecodeExact(f, bits)
  {
    hide ShapeOf, Shl, Shr, Low, Pow2, N.Canonicalize, DecodeExact, IsFinite, EncodeFinite, ValueOf, CommonBase,
         N.Scaled;
    var negative := DecodeExact(f, bits).value.negative;
    SignedZero(g, negative);
    ZeroEncodes(g, negative, policy);
    DecodeMeaning(f, bits, N.BinaryValue(0, 0, false));
    NoFinitePart(f, bits);
  }

  lemma ZeroEncodes(g: Format, negative: bool, policy: Policy)
    ensures EncodeFinite(g, N.BinaryValue(0, 0, negative), policy) ==
            Ok(Converted(if negative then Pow2(ShapeOf(g).width - 1) else 0, NO_FLAGS))
  {
    hide Pow2, ShapeOf;
  }

  lemma SignedZero(g: Format, negative: bool)
    ensures var s := ShapeOf(g);
            var word := if negative then Pow2(s.width - 1) else 0;
            && word <= U64_MAX && IsFinite(s, word)
            && DecodeExact(g, word) == Ok(DecodedValue(Zero, negative, N.BinaryValue(0, 0, false), 0, 0))
  {
    hide ShapeOf, Shl, Shr, Low, Pow2, N.Canonicalize;
    var s := ShapeOf(g);
    ShlZero(s.fraction);
    AssembleFields(s, negative, 0, 0, if negative then Pow2(s.width - 1) else 0);
    Pow2Word(s.width);
  }

  /** Widening any finite pattern and narrowing the result gives back the same bits. */
  lemma WidenNarrow(f: Format, bits: U64, g: Format, widen: Policy, narrow: Policy)
    requires Wider(f, g) && IsFinite(ShapeOf(f), bits)
    ensures var w := Convert(f, bits, g, widen);
            && w.Ok? && w.value.bits <= U64_MAX
            && Convert(g, w.value.bits, f, narrow) == Ok(Converted(bits, NO_FLAGS))
  {
    hide DecodeExact, ShapeOf, EncodeFinite, IsFinite;
    WideningKeeps(f, bits, g, widen);
    RoundTrip(f, bits, narrow);
  }

  // ----- Infinities and NaNs -----

  function NonFiniteWord(s: Shape, negative: bool, fraction: nat): nat
    requires ValidShape(s)
  {
    (if negative then Pow2(s.width - 1) else 0) + Shl(Pow2(s.exponent) - 1, s.fraction) + fraction
  }

  lemma NonFiniteDecodes(g: Format, negative: bool, fraction: nat)
    requires fraction < Pow2(ShapeOf(g).fraction)
    ensures var s := ShapeOf(g);
            var word := NonFiniteWord(s, negative, fraction);
            var zero := N.BinaryValue(0, 0, false);
            && word <= U64_MAX
            && DecodeExact(g, word) ==
               if fraction == 0 then Ok(DecodedValue(Infinity, negative, zero, 0, 0))
               else Ok(DecodedValue(if fraction >= Pow2(s.fraction - 1) then QuietNaN else SignalingNaN, negative, zero,
                                    Low(fraction, s.fraction - 1), s.fraction - 1))
  {
    hide ShapeOf, Shl, Shr, Low, Pow2, N.Canonicalize;
    var s := ShapeOf(g);
    AssembleFields(s, negative, 2 * s.bias + 1, fraction, NonFiniteWord(s, negative, fraction));
    Pow2Word(s.width);
    NextPower(s.fraction - 1);
    N.TopBit(fraction, s.fraction);
  }

  function MovedPayload(payload: nat, width: nat, target: nat): nat {
    if width > target then Shr(payload, width - target) else Shl(payload, target - width)
  }

  /** Aligning a payload at the top of the target loses nothing: moving it back restores it. */
  predicate PayloadKept(payload: nat, width: nat, target: nat) {
    MovedPayload(MovedPayload(payload, width, target), target, width) == payload
  }

  /** A payload is kept exactly when no dropped bit is set. */
  lemma PayloadLoss(payload: nat, width: nat, target: nat)
    ensures PayloadKept(payload, width, target) <==> width <= target || Low(payload, width - target) == 0
  {
    hide Shl, Shr, Low, Pow2;
    if width > target {
      assert payload == Shl(Shr(payload, width - target), width - target) + Low(payload, width - target);
    } else {
      ShlZero(0);
      SplitUnique(Shl(payload, target - width), target - width, payload, 0);
      ShlIdentity(payload);
    }
  }

  /** NaNs whose payload the exact policy would have to cut, and all non-finite values under rejection, are refused. */
  ghost predicate Refused(target: nat, d: DecodedValue, policy: Policy) {
    || policy.nonfinite == RejectNonFinite
    || (d.category != Infinity && policy.payload == ExactPayload && !PayloadKept(d.payload, d.payloadBits, target))
  }

  /**
   Infinities stay. A NaN becomes a quiet NaN: the positive one without payload under the canonical policy, else of
   the same sign with its payload aligned at the top. The flags report signalling input and lost sign or payload.
   */
  ghost predicate NonFiniteKept(target: nat, policy: Policy, d: DecodedValue, e: DecodedValue, flags: Flags) {
    if d.category == Infinity then e.category == Infinity && e.negative == d.negative && flags == NO_FLAGS
    else
      var canonical := policy.payload == CanonicalPayload;
      && e.category == QuietNaN && e.negative == (!canonical && d.negative)
      && e.payload == (if canonical then 0 else MovedPayload(d.payload, d.payloadBits, target))
      && flags == NO_FLAGS.(invalid := d.category == SignalingNaN, payloadLoss := flags.payloadLoss)
      && (flags.payloadLoss <==>
            if canonical then d.negative || d.payload != 0 else !PayloadKept(d.payload, d.payloadBits, target))
  }

  /** Every non-finite pattern under every policy: when it is refused, and otherwise what it becomes. */
  lemma NonFiniteConverts(f: Format, bits: U64, g: Format, policy: Policy)
    requires DecodeExact(f, bits).Ok? && DecodeExact(f, bits).value.category !in {Zero, Finite}
    ensures var d, target := DecodeExact(f, bits).value, ShapeOf(g).fraction - 1;
            match Convert(f, bits, g, policy)
            case Err(code) => Refused(target, d, policy) && code == InvalidArgument
            case Ok(c) =>
              && !Refused(target, d, policy) && c.bits <= U64_MAX && DecodeExact(g, c.bits).Ok?
              && NonFiniteKept(target, policy, d, DecodeExact(g, c.bits).value, c.flags)
  {
    hide ShapeOf, Shl, Shr, Low, Pow2, DecodeExact, EncodeFinite, PayloadKept;
    PayloadBounds(f, bits);
    var d, target := DecodeExact(f, bits).value, ShapeOf(g).fraction - 1;
    if policy.nonfinite == Propagate {
      if d.category == Infinity {
        NonFiniteDecodes(g, d.negative, 0);
      } else {
        NaNConverts(g, d, policy);
      }
    }
  }

  lemma NaNConverts(g: Format, d: DecodedValue, policy: Policy)
    requires d.category in {QuietNaN, SignalingNaN} && policy.nonfinite == Propagate && d.payload < Pow2(d.payloadBits)
    ensures var s, target := ShapeOf(g), ShapeOf(g).fraction - 1;
            var sign, infinity := if d.negative then Pow2(s.width - 1) else 0, Shl(Pow2(s.exponent) - 1, s.fraction);
            match ConvertNaN(s, d, sign, infinity, policy)
            case Err(code) => Refused(target, d, policy) && code == InvalidArgument
            case Ok(c) =>
              && !Refused(target, d, policy) && c.bits <= U64_MAX && DecodeExact(g, c.bits).Ok?
              && NonFiniteKept(target, policy, d, DecodeExact(g, c.bits).value, c.flags)
  {
    hide ShapeOf, Shl, Shr, Low, Pow2, DecodeExact, PayloadKept;
    var target := ShapeOf(g).fraction - 1;
    PayloadLoss(d.payload, d.payloadBits, target);
    var canonical := policy.payload == CanonicalPayload;
    var moved := MovedPayload(d.payload, d.payloadBits, target);
    PayloadFits(d.payload, d.payloadBits, target, moved);
    QuietDecodes(g, !canonical && d.negative, if canonical then 0 else moved);
  }

  lemma QuietDecodes(g: Format, negative: bool, payload: nat)
    requires payload < Pow2(ShapeOf(g).fraction - 1)
    ensures var s := ShapeOf(g);
            var word := NonFiniteWord(s, negative, Pow2(s.fraction - 1) + payload);
            && word <= U64_MAX
            && DecodeExact(g, word) ==
               Ok(DecodedValue(QuietNaN, negative, N.BinaryValue(0, 0, false), payload, s.fraction - 1))
  {
    hide ShapeOf, Shl, Shr, Low, Pow2, DecodeExact;
    var target := ShapeOf(g).fraction - 1;
    NextPower(target);
    NonFiniteDecodes(g, negative, Pow2(target) + payload);
    ShlOne(target);
    SplitUnique(Pow2(target) + payload, target, 1, payload);
  }

  lemma PayloadBounds(f: Format, bits: U64)
    requires DecodeExact(f, bits).Ok?
    ensures var d := DecodeExact(f, bits).value;
            d.category == QuietNaN || d.category == SignalingNaN ==>
              d.payload < Pow2(d.payloadBits) && d.payloadBits == ShapeOf(f).fraction - 1
  {
    hide ShapeOf, Shl, Shr, Pow2, N.Canonicalize;
  }

  lemma PayloadFits(payload: nat, width: nat, target: nat, moved: nat)
    requires payload < Pow2(width)
    requires moved == if width > target then Shr(payload, width - target) else Shl(payload, target - width)
    ensures moved < Pow2(target)
  {
    hide Shl, Shr, Pow2, Low;
    if width > target {
      var d := width - target;
      ShlPow2(target, d);
      ShlOrder(Pow2(target), moved, d);
      assert payload == Shl(moved, d) + Low(payload, d);
    } else {
      ShlOrder(payload, Pow2(width), target - width);
      ShlPow2(width, target - width);
    }
  }

  /** A quiet NaN survives widening and narrowing with its payload. */
  lemma QuietNaNWidenNarrow(f: Format, bits: U64, g: Format, widen: Policy, narrow: Policy)
    requires Wider(f, g) && widen.nonfinite == narrow.nonfinite == Propagate
    requires widen.payload != CanonicalPayload && narrow.payload != CanonicalPayload
    requires DecodeExact(f, bits).Ok? && DecodeExact(f, bits).value.category == QuietNaN
    ensures var w := Convert(f, bits, g, widen);
            && w.Ok? && w.value.bits <= U64_MAX
            && var b := Convert(g, w.value.bits, f, narrow);
               && b.Ok? && b.value.bits <= U64_MAX && b.value.flags == NO_FLAGS
               && DecodeExact(f, b.value.bits) == DecodeExact(f, bits)
  {
    hide ShapeOf, Shl, Shr, Low, Pow2, DecodeExact, EncodeFinite;
    WiderFraction(f, g);
    PayloadBounds(f, bits);
    var d := DecodeExact(f, bits).value;
    var shift := ShapeOf(g).fraction - ShapeOf(f).fraction;
    PayloadLoss(d.payload, d.payloadBits, ShapeOf(g).fraction - 1);
    NoFinitePart(f, bits);
    NonFiniteConverts(f, bits, g, widen);
    var w := Convert(f, bits, g, widen).value.bits;
    NoFinitePart(g, w);
    PayloadBounds(g, w);
    ShlZero(shift);
    SplitUnique(Shl(d.payload, shift), shift, d.payload, 0);
    PayloadLoss(Shl(d.payload, shift), ShapeOf(g).fraction - 1, ShapeOf(f).fraction - 1);
    NonFiniteConverts(g, w, f, narrow);
    var b := Convert(g, w, f, narrow).value.bits;
    NoFinitePart(f, b);
    PayloadBounds(f, b);
  }

  lemma WiderFraction(f: Format, g: Format)
    requires Wider(f, g)
    ensures ShapeOf(f).fraction < ShapeOf(g).fraction
  {
  }

  lemma NoFinitePart(f: Format, bits: U64)
    requires DecodeExact(f, bits).Ok?
    ensures DecodeExact(f, bits).value.category in {Zero, Infinity, QuietNaN, SignalingNaN} ==>
              DecodeExact(f, bits).value.finite == N.BinaryValue(0, 0, false)
  {
    hide ShapeOf, Shl, Shr, Pow2, N.Canonicalize, Low;
  }
}
