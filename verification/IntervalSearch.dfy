/**
 The bounded search for whole packet intervals before a target time
 (include/vita/runtime/public/runtime.hpp, intervals_on).
 */
module IntervalSearch {
  import opened Core
  import opened Powers
  import opened Time
  import opened SampleTimelines

  predicate AtOrBefore(a: ProtocolTime, b: ProtocolTime) {
    !Before(b, a)
  }

  /** Advancing by `n` samples succeeds and does not pass the target. */
  ghost predicate Reaches(t: Timeline, target: ProtocolTime, n: nat)
    requires WellFormed(t)
  {
    AdvanceTo(t, n).Ok? && AtOrBefore(AdvanceTo(t, n).value.current.time, target)
  }

  /** The same for `k` intervals of `pairs` samples. */
  ghost predicate ReachesIn(t: Timeline, target: ProtocolTime, pairs: nat, k: nat)
    requires WellFormed(t)
  {
    Reaches(t, target, k * pairs)
  }

  /** Whole picoseconds never decrease with the exact instant. */
  lemma FloorMonotone(a: ExactSampleTime, b: ExactSampleTime)
    requires ReducedTime(a) && ReducedTime(b) && Instant(a) <= Instant(b)
    ensures Total(a.time) <= Total(b.time)
  {
    ProperFraction(a.numerator, a.denominator);
    ProperFraction(b.numerator, b.denominator);
  }

  /** An advance reaches exactly the targets from which its exact end is less than a picosecond away. */
  lemma ReachesMeaning(t: Timeline, target: ProtocolTime, n: nat)
    requires ValidTimeline(t) && ValidTime(target)
    ensures Reaches(t, target, n) <==>
            && t.ordinal + n <= U64_MAX
            && Instant(t.current) + SamplePeriods(n, t.rate) < Total(target) as real + 1.0
  {
    hide AdvanceTo, Instant, SamplePeriods, ValidTimeline;
    AdvanceFailure(t, n);
    TargetInTime(target);
    ValidIsWellFormed(t);
    if AdvanceTo(t, n).Ok? {
      AdvanceIsExact(t, n);
      var end := AdvanceTo(t, n).value.current;
      WholePart(end, Total(target));
      OrderIsTotal(target, end.time);
    }
  }

  lemma TargetInTime(target: ProtocolTime)
    requires ValidTime(target)
    ensures Total(target) < END_OF_TIME
  {
  }

  lemma WholePart(t: ExactSampleTime, limit: nat)
    requires ReducedTime(t)
    ensures Total(t.time) <= limit <==> Instant(t) < limit as real + 1.0
  {
    ProperFraction(t.numerator, t.denominator);
  }

  /** A shorter advance reaches the target whenever a longer one does. */
  lemma ReachesMonotone(t: Timeline, target: ProtocolTime, m: nat, n: nat)
    requires ValidTimeline(t) && m <= n && Reaches(t, target, n)
    ensures Reaches(t, target, m)
  {
    hide AdvanceTo, Instant, SamplePeriods, ValidTimeline;
    PeriodsAdd(m, n - m, RateOf(t));
    PeriodsAdd(0, m, RateOf(t));
    AdvanceFailure(t, m);
    AdvanceFailure(t, n);
    ValidIsWellFormed(t);
    AdvanceIsExact(t, m);
    AdvanceIsExact(t, n);
    var a, b := AdvanceTo(t, m).value.current, AdvanceTo(t, n).value.current;
    FloorMonotone(a, b);
    OrderIsTotal(b.time, a.time);
  }

  ghost function RateOf(t: Timeline): (rate: nat)
    requires ValidTimeline(t)
    ensures rate == t.rate > 0
  {
    t.rate
  }

  lemma ValidIsWellFormed(t: Timeline)
    requires ValidTimeline(t)
    ensures WellFormed(t)
  {
  }

  lemma AdvanceZero(t: Timeline)
    requires ValidTimeline(t) && Instant(t.current) < END_OF_TIME as real
    ensures AdvanceTo(t, 0) == Ok(t)
  {
    hide AdvanceTo, Instant;
    AdvanceFailure(t, 0);
    AdvanceIsExact(t, 0);
    assert SamplePeriods(0, t.rate) == 0.0;
    InstantDetermines(AdvanceTo(t, 0).value.current, t.current);
  }

  lemma InstantInRange(t: ExactSampleTime)
    requires ReducedTime(t)
    ensures Instant(t) < END_OF_TIME as real
  {
    ProperFraction(t.numerator, t.denominator);
    assert Total(t.time) + 1 <= END_OF_TIME;
  }

  lemma BeyondOrdinals(t: Timeline, target: ProtocolTime, k: nat, pairs: nat)
    requires WellFormed(t) && pairs > 0 && k > (U64_MAX - t.ordinal) / pairs
    ensures !ReachesIn(t, target, pairs, k)
  {
    FactorLimit(k, pairs, U64_MAX - t.ordinal);
  }

  lemma WithinOrdinals(k: nat, pairs: nat, limit: nat)
    requires pairs > 0 && k <= limit / pairs
    ensures 0 <= k * pairs <= limit
  {
    FactorLimit(k, pairs, limit);
  }

  lemma IntervalsMonotone(t: Timeline, target: ProtocolTime, j: nat, k: nat, pairs: nat)
    requires ValidTimeline(t) && j <= k && ReachesIn(t, target, pairs, k)
    ensures ReachesIn(t, target, pairs, j)
  {
    hide Reaches;
    ProductMonotone(j, k, pairs);
    ReachesMonotone(t, target, j * pairs, k * pairs);
  }

  lemma ProductMonotone(j: nat, k: nat, pairs: nat)
    requires j <= k
    ensures 0 <= j * pairs <= k * pairs
  {
  }

  /** The largest number of whole intervals of `pairs` samples that end at or before the target. */
  ghost predicate LargestReaching(t: Timeline, target: ProtocolTime, pairs: nat, k: nat)
    requires WellFormed(t)
  {
    ReachesIn(t, target, pairs, k) && forall j: nat :: ReachesIn(t, target, pairs, j) ==> j <= k
  }

  method IntervalsOn(timeline: SampleTimeline, target: ProtocolTime, pairs: U64) returns (lo: U64)
    requires timeline.Valid() && pairs > 0
    ensures Before(target, timeline.current.time) ==> lo == 0
    ensures !Before(target, timeline.current.time) ==> LargestReaching(timeline.Value(), target, pairs, lo)
  {
    var t := timeline.Value();
    if Before(target, timeline.current.time) {
      return 0;
    }
    hide AdvanceTo, WellFormed, ValidTimeline, ReachesIn;
    StartReaches(t, target, pairs);
    QuotientNonNegative(U64_MAX - timeline.ordinal, pairs);
    var hi: nat := (U64_MAX - timeline.ordinal) / pairs;
    SecondsFit(U64_MAX - timeline.ordinal, pairs);
    lo := 0;
    Pow2SixtyFour();
    AllWithinOrdinals(t, target, pairs);
    var bit := 0;
    while bit < 64 && lo < hi
      invariant 0 <= bit <= 64 && lo <= hi <= (U64_MAX - t.ordinal) / pairs
      invariant hi - lo < Pow2(64 - bit)
      invariant ReachesIn(t, target, pairs, lo)
      invariant forall j: nat :: ReachesIn(t, target, pairs, j) ==> j <= hi
      invariant t == timeline.Value()
    {
      var mid: U64 := lo + (hi - lo) / 2 + (hi - lo) % 2;
      var reached := Probe(timeline, target, pairs, mid);
      Pow2Double(64 - bit);
      if reached {
        lo := mid;
      } else {
        AllBelow(t, target, mid, pairs);
        hi := mid - 1;
      }
      bit := bit + 1;
    }
    assert Pow2(0) == 1;
  }

  /** Advances a copy of the timeline. */
  method Probe(timeline: SampleTimeline, target: ProtocolTime, pairs: U64, k: U64) returns (reached: bool)
    requires WellFormed(timeline.Value()) && pairs > 0 && k <= (U64_MAX - timeline.ordinal) / pairs
    ensures reached == ReachesIn(timeline.Value(), target, pairs, k)
  {
    hide AdvanceTo, WellFormed, ValidTimeline;
    WithinOrdinals(k, pairs, U64_MAX - timeline.ordinal);
    var copy := new SampleTimeline(timeline.Value());
    var advanced := copy.Advance(k * pairs);
    reached := advanced.Ok? && AtOrBefore(copy.current.time, target);
  }

  lemma AllWithinOrdinals(t: Timeline, target: ProtocolTime, pairs: U64)
    requires WellFormed(t) && pairs > 0
    ensures forall j: nat :: ReachesIn(t, target, pairs, j) ==> j <= (U64_MAX - t.ordinal) / pairs
  {
    hide ReachesIn, WellFormed;
    forall j: nat | ReachesIn(t, target, pairs, j)
      ensures j <= (U64_MAX - t.ordinal) / pairs
    {
      if j > (U64_MAX - t.ordinal) / pairs {
        BeyondOrdinals(t, target, j, pairs);
      }
    }
  }

  lemma AllBelow(t: Timeline, target: ProtocolTime, mid: nat, pairs: U64)
    requires ValidTimeline(t) && WellFormed(t) && pairs > 0 && !ReachesIn(t, target, pairs, mid)
    ensures forall j: nat :: ReachesIn(t, target, pairs, j) ==> j <= mid - 1
  {
    hide ReachesIn, ValidTimeline, WellFormed;
    forall j: nat | ReachesIn(t, target, pairs, j)
      ensures j <= mid - 1
    {
      if j >= mid {
        IntervalsMonotone(t, target, mid, j, pairs);
      }
    }
  }

  lemma StartReaches(t: Timeline, target: ProtocolTime, pairs: nat)
    requires ValidTimeline(t) && AtOrBefore(t.current.time, target)
    ensures WellFormed(t) && ReachesIn(t, target, pairs, 0)
  {
    InstantInRange(t.current);
    AdvanceZero(t);
    assert 0 * pairs == 0;
  }
}
