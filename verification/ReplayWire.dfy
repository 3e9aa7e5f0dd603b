/** Closed form of sample time at one rate, and its inverse (bench/replay_wire.hpp). */
module ReplayWire {
  import opened Core
  import opened NumberTheory
  import opened Time
  import opened SampleTimelines

  const EPOCH_SECONDS: nat := 1000

  const PAIRS: nat := 256

  /** Seconds wrap at 64 bits as in the source; the fraction is computed in 128 bits. */
  function SampleTime(ordinal: U64, rate: U64): ProtocolTime
    requires rate > 0
  {
    FractionFits(ordinal, rate);
    ProtocolTime((EPOCH_SECONDS + ordinal / rate) % 0x1_0000_0000_0000_0000, (ordinal % rate) * PS / rate)
  }

  function SampleOrdinal(time: ProtocolTime, rate: U64): Result<U64> {
    if time.seconds < EPOCH_SECONDS || !ValidTime(time) || rate == 0 then Err(InvalidArgument)
    else
      var ordinal := (time.seconds - EPOCH_SECONDS) * rate +
        (time.picoseconds * rate + 999_999_999_999) / 1_000_000_000_000;
      if ordinal > U64_MAX - PAIRS then Err(Overflow)
      else OrdinalNonNegative(time, rate); Ok(ordinal)
  }

  lemma OrdinalNonNegative(time: ProtocolTime, rate: U64)
    requires time.seconds >= EPOCH_SECONDS
    ensures (time.seconds - EPOCH_SECONDS) * rate + (time.picoseconds * rate + 999_999_999_999) / 1_000_000_000_000 >= 0
  {
    FactorMonotone(rate, 0, time.seconds - EPOCH_SECONDS);
    FactorMonotone(rate, 0, time.picoseconds);
  }

  lemma FractionFits(ordinal: U64, rate: U64)
    requires rate > 0
    ensures 0 <= (ordinal % rate) * PS / rate < PS
    ensures ordinal / rate >= 0
    ensures var r := ordinal % rate; (ordinal / rate) * rate + r == ordinal && 0 <= r < rate
  {
    var r := ordinal % rate;
    var x := r * PS;
    assert x == rate * (x / rate) + x % rate;
    FactorOrder(PS, r, rate);
    FactorOrder(rate, x / rate, PS);
    FactorMonotone(PS, 0, r);
    QuotientNonNegative(x, rate);
    QuotientNonNegative(ordinal, rate);
  }

  /** The closed form is what the timeline reports after advancing from its origin at that rate. */
  lemma SampleTimeIsTimeline(n: U64, rate: U64)
    requires ValidRate(rate)
    ensures var t := CreateTo(ProtocolTime(1000, 0), rate);
            && t.Ok? && WellFormed(t.value)
            && (AdvanceTo(t.value, n).Ok? <==> EPOCH_SECONDS + n / rate <= U64_MAX)
            && (AdvanceTo(t.value, n).Ok? ==> AdvanceTo(t.value, n).value.current.time == SampleTime(n, rate))
  {
    hide AdvanceTo, Gcd, Lcm, Instant, SamplePeriods;
    var t := CreateTo(ProtocolTime(1000, 0), rate).value;
    CreatedIsValid(ProtocolTime(1000, 0), rate);
    FractionFits(n, rate);
    PeriodsFloor(n, rate);
    FloorReads(t, n, n / rate, n % rate * PS / rate);
  }

  /** From the epoch, whole seconds and whole picoseconds of the periods are what the timeline reads. */
  lemma FloorReads(t: Timeline, n: U64, seconds: nat, fraction: nat)
    requires ValidTimeline(t) && t.ordinal == 0 && Instant(t.current) == Total(ProtocolTime(EPOCH_SECONDS, 0)) as real
    requires fraction < PS
    requires (seconds * PS + fraction) as real <= SamplePeriods(n, t.rate) < (seconds * PS + fraction) as real + 1.0
    ensures AdvanceTo(t, n).Ok? <==> EPOCH_SECONDS + seconds <= U64_MAX
    ensures AdvanceTo(t, n).Ok? ==>
              AdvanceTo(t, n).value.current.time == ProtocolTime(EPOCH_SECONDS + seconds, fraction)
  {
    hide AdvanceTo, Gcd, Lcm, Instant, SamplePeriods;
    AdvanceFailure(t, n);
    if AdvanceTo(t, n).Ok? {
      AdvanceIsExact(t, n);
      var u := AdvanceTo(t, n).value.current;
      FloorOf(u, (EPOCH_SECONDS + seconds) * PS + fraction);
      OrderIsTotal(u.time, ProtocolTime(EPOCH_SECONDS + seconds, fraction));
    }
  }

  /** The instant after `n` periods lies in the picosecond that the closed form names. */
  lemma PeriodsFloor(n: nat, rate: nat)
    requires rate > 0
    ensures var whole := (n / rate) * PS + (n % rate) * PS / rate;
            whole as real <= SamplePeriods(n, rate) < whole as real + 1.0
  {
    Divided(n, rate);
    var x := n % rate * PS;
    Divided(x, rate);
    SplitPeriods(n, rate, n / rate, n % rate, x, x / rate, x % rate);
    var whole := n / rate * PS + x / rate;
    RealProduct(n, PS);
    SumOverDenominator(whole, x % rate, 0, rate);
    ProperFraction(x % rate, rate);
  }

  lemma SplitPeriods(n: int, rate: int, q: int, r: int, x: int, w: int, s: int)
    requires n == rate * q + r && x == r * PS && x == rate * w + s
    ensures n * PS == (q * PS + w) * rate + s
  {
    Assoc(rate, q, PS);
    assert n * PS == (rate * q) * PS + x;
    assert (q * PS + w) * rate == rate * (q * PS) + rate * w;
  }

  lemma FloorOf(u: ExactSampleTime, total: int)
    requires ReducedTime(u) && total as real <= Instant(u) < total as real + 1.0
    ensures Total(u.time) == total
  {
    ProperFraction(u.numerator, u.denominator);
  }

  /** What the fraction of the last second loses by rounding down to whole picoseconds, in parts of `1 / rate`. */
  function Lost(ordinal: U64, rate: U64): int
    requires rate > 0
  {
    ordinal % rate * PS % rate
  }

  /**
   At every rate the ordinal comes back exactly if and only if neither field overflows and the picoseconds lost
   less than one sample period.
   */
  lemma OrdinalInvertsTime(ordinal: U64, rate: U64)
    requires rate > 0
    ensures SampleOrdinal(SampleTime(ordinal, rate), rate) == Ok(ordinal) <==>
            EPOCH_SECONDS + ordinal / rate <= U64_MAX && ordinal <= U64_MAX - PAIRS && Lost(ordinal, rate) < PS
  {
    FractionFits(ordinal, rate);
    SecondsFit(ordinal, rate);
    var r := ordinal % rate;
    CeilInverts(r, rate);
    var time := SampleTime(ordinal, rate);
    if EPOCH_SECONDS + ordinal / rate <= U64_MAX {
      assert time.seconds - EPOCH_SECONDS == ordinal / rate;
    }
  }

  /** Rounding the picoseconds down and the ordinal up again is exact just when less than one period was lost. */
  lemma CeilInverts(r: nat, rate: nat)
    requires r < rate
    ensures (r * PS / rate * rate + 999_999_999_999) / 1_000_000_000_000 == r <==> r * PS % rate < PS
  {
    var x := r * PS;
    var w, s := x / rate, x % rate;
    assert x == rate * w + s;
    assert w * rate == x - s;
    CeilOf(r, w * rate, s);
  }

  lemma CeilOf(r: int, y: int, s: int)
    requires y == r * 1_000_000_000_000 - s && s >= 0
    ensures (y + 999_999_999_999) / 1_000_000_000_000 == r <==> s < 1_000_000_000_000
  {
  }

  /** Up to one sample per picosecond nothing is ever lost, so only overflow stands in the way. */
  lemma SlowRatesInvert(ordinal: U64, rate: U64)
    requires 0 < rate <= PS
    ensures SampleOrdinal(SampleTime(ordinal, rate), rate) == Ok(ordinal) <==>
            EPOCH_SECONDS + ordinal / rate <= U64_MAX && ordinal <= U64_MAX - PAIRS
  {
    hide SampleOrdinal, SampleTime;
    OrdinalInvertsTime(ordinal, rate);
  }

  /** Above that rate the law fails already for the first sample after the epoch. */
  lemma FasterRatesCollide(rate: U64)
    requires rate > PS
    ensures SampleOrdinal(SampleTime(1, rate), rate) == Ok(0)
  {
    DivisionUnique(1, rate, 0, 1);
    DivisionUnique(PS, rate, 0, PS);
    assert 1 % rate * PS / rate == 0;
    assert (0 * rate + 999_999_999_999) / 1_000_000_000_000 == 0;
    assert SampleTime(1, rate) == ProtocolTime(1000, 0);
  }
}
