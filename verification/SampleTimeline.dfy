/**
 Drift-free sample time across rate changes (include/vita/runtime/timing/sample_timeline.hpp).

 `AdvanceTo` is the simple form, over unbounded integers; the class method `Advance` is the
 64-bit form of the source and is proved to compute exactly that.
 */
module SampleTimelines {
  import opened Core
  import opened NumberTheory
  import opened Time

  const MAX_RATE: nat := 100_000_000

  datatype ExactSampleTime = ExactSampleTime(time: ProtocolTime, numerator: U64, denominator: U64)

  /** Value of a timeline object. */
  datatype Timeline = Timeline(current: ExactSampleTime, rate: U64, ordinal: U64, revision: U64)

  predicate ValidRate(rate: nat) {
    0 < rate <= MAX_RATE
  }

  /** Denominator, in lowest terms, of the picoseconds in one sample period. */
  function StepDenominator(rate: nat): (d: nat)
    requires rate > 0
    ensures d > 0
  {
    StepFactors(rate);
    rate / Gcd(PS, rate)
  }

  lemma StepFactors(rate: nat)
    requires rate > 0
    ensures var g := Gcd(PS, rate);
            && g > 0 && PS == g * (PS / g) && rate == g * (rate / g) && rate / g > 0
            && PS % g == 0 && rate % g == 0
  {
    hide Gcd;
    ReducedCoprime(PS, rate, Gcd(PS, rate));
  }

  /** The fraction of a picosecond is a reduced proper fraction. */
  ghost predicate ReducedTime(t: ExactSampleTime) {
    && ValidTime(t.time)
    && t.denominator > 0 && t.numerator < t.denominator
    && Gcd(t.numerator, t.denominator) == 1
  }

  ghost predicate WellFormed(t: Timeline) {
    ReducedTime(t.current) && ValidRate(t.rate)
  }

  /** Reachable timelines: the next fraction always has a 64-bit denominator. */
  ghost predicate ValidTimeline(t: Timeline) {
    WellFormed(t) && Lcm(t.current.denominator, StepDenominator(t.rate)) <= U64_MAX
  }

  /** Exact instant in picoseconds. */
  ghost function Instant(t: ExactSampleTime): real
    requires t.denominator > 0
  {
    Total(t.time) as real + t.numerator as real / t.denominator as real
  }

  ghost function SamplePeriods(n: nat, rate: nat): real
    requires rate > 0
  {
    n as real * PS as real / rate as real
  }

  // ----- The simple form -----

  /** Numerator of the advanced instant over the denominator `d`. */
  ghost function AdvancedNumerator(t: Timeline, n: nat, d: nat): int
    requires WellFormed(t)
  {
    StepFactors(t.rate);
    hide Gcd;
    Total(t.current.time) * d + t.current.numerator * (d / t.current.denominator) +
    n * (PS / Gcd(PS, t.rate)) * (d / StepDenominator(t.rate))
  }

  /** The time whose exact value is `total / d`, in lowest terms. */
  ghost function Lowest(total: int, d: nat): (e: ExactSampleTime)
    requires 0 < d <= U64_MAX && 0 <= total / d < END_OF_TIME
    ensures ReducedTime(e)
  {
    LowestFits(total, d);
    hide Gcd;
    ExactSampleTime(FromTotal(total / d), total % d / Gcd(total % d, d), d / Gcd(total % d, d))
  }

  lemma LowestFits(total: int, d: nat)
    requires 0 < d
    ensures var r := total % d;
            && Gcd(r, d) > 0
            && 0 <= r / Gcd(r, d) < d / Gcd(r, d) <= d
            && Gcd(r / Gcd(r, d), d / Gcd(r, d)) == 1
  {
    hide Gcd;
    var r := total % d;
    ReducedCoprime(r, d, Gcd(r, d));
    ReducedFits(r, d, Gcd(r, d));
  }

  lemma ReducedFits(r: nat, d: nat, g: nat)
    requires g > 0 && r < d && r == g * (r / g) && d == g * (d / g)
    ensures 0 <= r / g < d / g <= d
  {
    FactorOrder(g, r / g, d / g);
    FactorOrder(g, -1, r / g);
    FactorMonotone(d / g, 1, g);
  }

  ghost function AdvanceTo(t: Timeline, n: nat): (r: Result<Timeline>)
    requires WellFormed(t)
    ensures r.Ok? ==> WellFormed(r.value)
  {
    hide Gcd, Lcm, AdvancedNumerator, Lowest;
    if n > U64_MAX - t.ordinal then Err(Overflow)
    else
      var d := Lcm(t.current.denominator, StepDenominator(t.rate));
      LcmDivides(t.current.denominator, StepDenominator(t.rate));
      if d > U64_MAX then Err(ResourceLimit)
      else
        var total := AdvancedNumerator(t, n, d);
        NumeratorNonNegative(t, n, d);
        if total / d >= END_OF_TIME then Err(Overflow)
        else Ok(t.(current := Lowest(total, d), ordinal := t.ordinal + n))
  }

  // ----- Splitting whole seconds, whole picoseconds and the rest -----

  /** The 64-bit decomposition of `n` sample periods is exact; each product stays small. */
  lemma StepSplit(n: nat, rate: nat)
    requires ValidRate(rate)
    ensures var seconds, remaining := n / rate, n % rate;
            var quotient, rest := PS / rate, PS % rate;
            var fraction := remaining * quotient + remaining * rest / rate;
            var residue := remaining * rest % rate;
            && 0 <= remaining * rest < 10_000_000_000_000_000
            && 0 <= remaining * quotient <= PS
            && 0 <= fraction < PS
            && n * PS == (seconds * PS + fraction) * rate + residue
            && 0 <= residue < rate
  {
    var seconds, remaining, quotient, rest := n / rate, n % rate, PS / rate, PS % rate;
    Divided(n, rate);
    Divided(PS, rate);
    SmallProduct(remaining, rest, MAX_RATE);
    Divided(remaining * rest, rate);
    StepParts(n, rate, seconds, remaining, quotient, rest, remaining * rest, remaining * rest / rate,
              remaining * rest % rate, remaining * quotient);
  }

  lemma Divided(n: nat, d: nat)
    requires d > 0
    ensures n == d * (n / d) + n % d && 0 <= n / d && 0 <= n % d < d
  {
  }

  /** The same decomposition, with a name for every part. */
  lemma StepParts(n: nat, rate: nat, seconds: nat, remaining: nat, quotient: nat, rest: nat, product: nat, whole: nat,
                  residue: nat, main: int)
    requires n == rate * seconds + remaining && PS == rate * quotient + rest
    requires product == remaining * rest && product == rate * whole + residue && main == remaining * quotient
    requires remaining < rate && residue < rate
    ensures 0 <= main <= PS && 0 <= main + whole < PS
    ensures n * PS == (seconds * PS + (main + whole)) * rate + residue
  {
    SplitExact(n, rate, seconds, remaining, quotient, rest, whole, residue, product);
    // remaining < rate, so remaining periods are less than one second
    FactorMonotone(PS, remaining + 1, rate);
    assert PS * (remaining + 1) == PS * remaining + PS;
    FactorOrder(rate, main + whole, PS);
    FactorMonotone(quotient, remaining, rate);
    FactorMonotone(remaining, 0, quotient);
  }

  lemma SmallProduct(a: nat, b: nat, limit: nat)
    requires a < limit && b < limit && limit <= 100_000_000
    ensures 0 <= a * b < 10_000_000_000_000_000
  {
    FactorMonotone(a, b, 100_000_000);
    assert a * 100_000_000 <= 99_999_999 * 100_000_000;
  }

  lemma SplitExact(n: nat, rate: nat, seconds: nat, remaining: nat, quotient: nat, rest: nat, whole: int, residue: int,
                   product: nat)
    requires n == rate * seconds + remaining && PS == rate * quotient + rest
    requires product == remaining * rest && product == rate * whole + residue
    ensures PS * remaining == rate * (remaining * quotient + whole) + residue
    ensures n * PS == (seconds * PS + (remaining * quotient + whole)) * rate + residue
  {
    assert remaining * PS == remaining * (rate * quotient) + product;
    Assoc(remaining, rate, quotient);
    assert rate * (remaining * quotient + whole) == rate * (remaining * quotient) + rate * whole;
    Assoc(rate, seconds, PS);
    assert n * PS == (rate * seconds) * PS + remaining * PS;
    assert (seconds * PS + (remaining * quotient + whole)) * rate ==
             rate * (seconds * PS) + rate * (remaining * quotient + whole);
  }

  /** The common divisor of the second and the rate divides the residue. */
  lemma ResidueDivisible(n: nat, rate: nat, x: int, residue: int, g: nat)
    requires rate > 0 && g == Gcd(PS, rate)
    requires n * PS == x * rate + residue
    ensures g > 0 && residue == g * (residue / g) && residue % g == 0
    ensures n * (PS / g) == x * (rate / g) + residue / g
  {
    hide Gcd;
    StepFactors(rate);
    ResidueFactor(n, PS, rate, x, residue, g, PS / g, rate / g);
    ResidueQuotient(n, PS, rate, x, residue, g, PS / g, rate / g, residue / g);
  }

  lemma ResidueFactor(n: int, second: int, rate: int, x: int, residue: int, g: nat, p: int, s: int)
    requires g > 0 && second == g * p && rate == g * s && n * second == x * rate + residue
    ensures residue == g * (residue / g) && residue % g == 0
  {
    Assoc(g, n, p);
    Assoc(g, x, s);
    assert g * (n * p - x * s) == g * (n * p) - g * (x * s);
    DivisionUnique(residue, g, n * p - x * s, 0);
  }

  lemma ResidueQuotient(n: int, second: int, rate: int, x: int, residue: int, g: nat, p: int, s: int, k: int)
    requires g > 0 && second == g * p && rate == g * s && residue == g * k && n * second == x * rate + residue
    ensures n * p == x * s + k
  {
    Assoc(g, n, p);
    Assoc(g, x, s);
    assert g * (x * s + k) == g * (x * s) + g * k;
    FactorOrder(g, n * p, x * s + k);
  }

  /** Over the common denominator, the advance adds whole picoseconds and a proper fraction. */
  lemma NumeratorSplit(t: Timeline, n: nat, d: nat, x: nat, residue: nat)
    requires WellFormed(t) && d == Lcm(t.current.denominator, StepDenominator(t.rate))
    requires n * PS == x * t.rate + residue && residue < t.rate
    ensures var g := Gcd(PS, t.rate);
            && d > 0 && g > 0
            && var a, b :=
              t.current.numerator * (d / t.current.denominator), residue / g * (d / StepDenominator(t.rate));
               && 0 <= a < d && 0 <= b < d
               && AdvancedNumerator(t, n, d) == (Total(t.current.time) + x) * d + a + b
  {
    hide Gcd;
    var g, den, step := Gcd(PS, t.rate), t.current.denominator, StepDenominator(t.rate);
    StepFactors(t.rate);
    LcmDivides(den, step);
    DividesQuotient(den, d);
    DividesQuotient(step, d);
    ResidueDivisible(n, t.rate, x, residue, g);
    var k, i, j := residue / g, d / den, d / step;
    ProperPart(t.current.numerator, den, i, d);
    FactorOrder(g, k, step);
    FactorOrder(g, -1, k);
    ProperPart(k, step, j, d);
    StepTimes(n * (PS / g), x, step, k, j, d);
    assert (Total(t.current.time) + x) * d == Total(t.current.time) * d + x * d;
  }

  lemma ProperPart(k: nat, s: nat, j: int, d: nat)
    requires k < s && d > 0 && d == s * j
    ensures 0 <= k * j < d && j > 0
  {
    FactorOrder(s, 0, j);
    FactorOrder(j, k, s);
    FactorMonotone(j, 0, k);
  }

  lemma StepTimes(total: int, x: int, s: int, k: int, j: int, d: int)
    requires total == x * s + k && d == s * j
    ensures total * j == x * d + k * j
  {
    Assoc(x, s, j);
  }

  lemma NumeratorNonNegative(t: Timeline, n: nat, d: nat)
    requires WellFormed(t) && d == Lcm(t.current.denominator, StepDenominator(t.rate))
    ensures d > 0 && AdvancedNumerator(t, n, d) >= 0 && AdvancedNumerator(t, n, d) / d >= 0
  {
    hide Gcd, AdvancedNumerator, Lcm;
    StepSplit(n, t.rate);
    var x := n / t.rate * PS + (n % t.rate * (PS / t.rate) + n % t.rate * (PS % t.rate) / t.rate);
    QuotientNonNegative(n, t.rate);
    NumeratorSplit(t, n, d, x, n % t.rate * (PS % t.rate) % t.rate);
    FactorMonotone(d, 0, Total(t.current.time) + x);
    QuotientNonNegative(AdvancedNumerator(t, n, d), d);
  }

  lemma QuotientNonNegative(n: int, d: int)
    requires d > 0 && n >= 0
    ensures n / d >= 0
  {
  }

  // ----- Exactness -----

  lemma QuotientIs(a: real, b: real, c: real)
    requires b != 0.0 && a == c * b
    ensures a / b == c
  {
  }

  lemma QuotientTimes(a: real, b: real)
    requires b != 0.0
    ensures a / b * b == a
  {
  }

  lemma RealProduct(a: int, b: int)
    ensures (a * b) as real == a as real * b as real
  {
  }

  /** A common integer factor cancels from a quotient. */
  lemma CancelFactor(x: int, y: int, k: int)
    requires y != 0 && k != 0
    ensures y * k != 0 && (x * k) as real / (y * k) as real == x as real / y as real
  {
    RealProduct(x, k);
    RealProduct(y, k);
    var z := x as real / y as real;
    QuotientTimes(x as real, y as real);
    RegroupReal(z, y as real, k as real);
    NonZeroProduct(y, k);
    QuotientIs((x * k) as real, (y * k) as real, z);
  }

  lemma NonZeroProduct(y: int, k: int)
    requires y != 0 && k != 0
    ensures y * k != 0
  {
  }

  lemma RegroupReal(a: real, b: real, c: real)
    ensures (a * b) * c == a * (b * c)
  {
  }

  lemma SumOverDenominator(a: int, b: int, c: int, d: int)
    requires d != 0
    ensures (a * d + b + c) as real / d as real == a as real + b as real / d as real + c as real / d as real
  {
    RealProduct(a, d);
    var e := d as real;
    QuotientTimes(b as real, e);
    QuotientTimes(c as real, e);
    QuotientIs((a * d + b + c) as real, e, a as real + b as real / e + c as real / e);
  }

  /** The lowest form stands for the quotient it was made from. */
  lemma LowestIsExact(total: int, d: nat)
    requires 0 < d <= U64_MAX && 0 <= total / d < END_OF_TIME
    ensures ReducedTime(Lowest(total, d))
    ensures Instant(Lowest(total, d)) == total as real / d as real
    ensures Divides(Lowest(total, d).denominator, d)
  {
    hide Gcd;
    var q, r := total / d, total % d;
    ReducedCoprime(r, d, Gcd(r, d));
    assert total == q * d + r;
    SplitQuotient(total, q, r, d, Gcd(r, d), r / Gcd(r, d), d / Gcd(r, d));
    Factor(d / Gcd(r, d), d, Gcd(r, d));
  }

  lemma SplitQuotient(total: int, q: int, r: int, d: int, g: int, i: int, j: int)
    requires total == q * d + r && r == g * i && d == g * j && d != 0 && g != 0 && j != 0
    ensures total as real / d as real == q as real + i as real / j as real
  {
    CancelFactor(i, j, g);
    SumOverDenominator(q, r, 0, d);
  }

  lemma AdvancedNumeratorExact(t: Timeline, n: nat, d: nat)
    requires WellFormed(t) && d == Lcm(t.current.denominator, StepDenominator(t.rate))
    ensures d > 0
    ensures AdvancedNumerator(t, n, d) as real / d as real == Instant(t.current) + SamplePeriods(n, t.rate)
  {
    hide Gcd, Lcm, StepDenominator, AdvancedNumerator;
    var g, p, step, i, j := NumeratorParts(t, n, d);
    SumOfFractions(AdvancedNumerator(t, n, d), Total(t.current.time), t.current.numerator, t.current.denominator, i, n,
                   p, g, step, j, d, PS, t.rate);
    RealProduct(n, PS);
  }

  /** The factors that the common denominator brings in. */
  lemma NumeratorParts(t: Timeline, n: nat, d: nat) returns (g: int, p: int, step: int, i: int, j: int)
    requires WellFormed(t) && d == Lcm(t.current.denominator, StepDenominator(t.rate))
    ensures d > 0 && g > 0 && i > 0 && j > 0 && step > 0
    ensures d == t.current.denominator * i == step * j && PS == g * p && t.rate == g * step
    ensures AdvancedNumerator(t, n, d) == Total(t.current.time) * d + t.current.numerator * i + n * p * j
  {
    hide Gcd, Lcm, Divides;
    var den := t.current.denominator;
    g, step := Gcd(PS, t.rate), StepDenominator(t.rate);
    StepFactors(t.rate);
    LcmDivides(den, step);
    DividesQuotient(den, d);
    DividesQuotient(step, d);
    p, i, j := PS / g, d / den, d / step;
    FactorOrder(den, 0, i);
    FactorOrder(step, 0, j);
  }

  lemma SumOfFractions(total: int, whole: int, num: int, den: int, i: int, n: int, p: int, g: int, step: int, j: int,
                       d: int, second: int, rate: int)
    requires den > 0 && step > 0 && g > 0 && i > 0 && j > 0 && d == den * i == step * j
    requires second == g * p && rate == g * step && rate > 0 && d > 0
    requires total == whole * d + num * i + n * p * j
    ensures total as real / d as real ==
            whole as real + num as real / den as real + (n * second) as real / rate as real
  {
    SumOverDenominator(whole, num * i, n * p * j, d);
    CancelFactor(num, den, i);
    CancelFactor(n * p, step, j);
    CancelFactor(n * p, step, g);
    Assoc(n, p, g);
  }

  /** Advancing moves the exact instant by exactly `n` sample periods and keeps the form of the timeline. */
  lemma AdvanceIsExact(t: Timeline, n: nat)
    requires WellFormed(t) && AdvanceTo(t, n).Ok?
    ensures var u := AdvanceTo(t, n).value;
            && WellFormed(u)
            && Instant(u.current) == Instant(t.current) + SamplePeriods(n, t.rate)
            && u.rate == t.rate && u.ordinal == t.ordinal + n && u.revision == t.revision
            && ValidTimeline(u)
  {
    var d := Lcm(t.current.denominator, StepDenominator(t.rate));
    LcmDivides(t.current.denominator, StepDenominator(t.rate));
    NumeratorNonNegative(t, n, d);
    var total := AdvancedNumerator(t, n, d);
    hide Gcd, Lcm, AdvancedNumerator, Instant, SamplePeriods;
    LowestIsExact(total, d);
    AdvancedNumeratorExact(t, n, d);
    var u := AdvanceTo(t, n).value;
    LcmLeast(u.current.denominator, StepDenominator(t.rate), d);
    LcmDivides(u.current.denominator, StepDenominator(t.rate));
    DividesBound(Lcm(u.current.denominator, StepDenominator(t.rate)), d);
  }

  /** A reachable timeline refuses to advance only at the end of ordinals or of time. */
  lemma AdvanceFailure(t: Timeline, n: nat)
    requires ValidTimeline(t)
    ensures AdvanceTo(t, n).Ok? <==>
            n <= U64_MAX - t.ordinal && Instant(t.current) + SamplePeriods(n, t.rate) < END_OF_TIME as real
    ensures AdvanceTo(t, n).Err? ==> AdvanceTo(t, n).error == Overflow
  {
    var d := Lcm(t.current.denominator, StepDenominator(t.rate));
    LcmDivides(t.current.denominator, StepDenominator(t.rate));
    var total := AdvancedNumerator(t, n, d);
    hide Gcd, Lcm, AdvancedNumerator, Instant, SamplePeriods;
    NumeratorNonNegative(t, n, d);
    AdvancedNumeratorExact(t, n, d);
    QuotientReaches(total, d, END_OF_TIME);
  }

  lemma QuotientReaches(total: int, d: nat, limit: nat)
    requires d > 0
    ensures total / d >= limit <==> total as real / d as real >= limit as real
  {
    var q, r := total / d, total % d;
    assert total == q * d + r;
    SumOverDenominator(q, r, 0, d);
    ProperFraction(r, d);
  }

  lemma ProperFraction(r: int, d: int)
    requires 0 <= r < d
    ensures 0.0 <= r as real / d as real < 1.0
  {
    QuotientTimes(r as real, d as real);
  }

  /** A reduced exact time is determined by its instant. */
  lemma InstantDetermines(a: ExactSampleTime, b: ExactSampleTime)
    requires ReducedTime(a) && ReducedTime(b) && Instant(a) == Instant(b)
    ensures a == b
  {
    ProperFraction(a.numerator, a.denominator);
    ProperFraction(b.numerator, b.denominator);
    var d := Total(a.time) - Total(b.time);
    assert -1.0 < d as real < 1.0;
    assert Total(a.time) == Total(b.time);
    OrderIsTotal(a.time, b.time);
    CrossMultiply(a.numerator, a.denominator, b.numerator, b.denominator);
    hide Gcd;
    ReducedUnique(a.numerator, a.denominator, b.numerator, b.denominator);
  }

  lemma CrossMultiply(a: int, b: int, c: int, d: int)
    requires b != 0 && d != 0 && a as real / b as real == c as real / d as real
    ensures a * d == c * b
  {
    var z := a as real / b as real;
    QuotientTimes(a as real, b as real);
    QuotientTimes(c as real, d as real);
    RegroupReal(z, b as real, d as real);
    RegroupReal(z, d as real, b as real);
    RealProduct(a, d);
    RealProduct(c, b);
  }

  lemma PeriodsAdd(m: nat, n: nat, rate: nat)
    requires rate > 0
    ensures SamplePeriods(m + n, rate) == SamplePeriods(m, rate) + SamplePeriods(n, rate)
    ensures SamplePeriods(n, rate) >= 0.0
  {
    var x, y, r := m as real * PS as real, n as real * PS as real, rate as real;
    QuotientTimes(x, r);
    QuotientTimes(y, r);
    QuotientIs(x + y, r, x / r + y / r);
    assert (m + n) as real * PS as real == x + y;
  }

  /** Advancing twice is advancing once by the sum, success and failure included. */
  lemma AdvanceAdds(t: Timeline, m: nat, n: nat)
    requires ValidTimeline(t)
    ensures AdvanceTo(t, m + n).Ok? <==>
            AdvanceTo(t, m).Ok? && AdvanceTo(AdvanceTo(t, m).value, n).Ok?
    ensures AdvanceTo(t, m + n).Ok? ==> AdvanceTo(t, m + n) == AdvanceTo(AdvanceTo(t, m).value, n)
  {
    hide Gcd, Lcm, AdvanceTo, Instant, SamplePeriods;
    PeriodsAdd(m, n, t.rate);
    AdvanceFailure(t, m + n);
    AdvanceFailure(t, m);
    if AdvanceTo(t, m).Ok? {
      var u := AdvanceTo(t, m).value;
      AdvanceIsExact(t, m);
      AdvanceFailure(u, n);
      if AdvanceTo(t, m + n).Ok? {
        AdvanceIsExact(t, m + n);
        AdvanceIsExact(u, n);
        InstantDetermines(AdvanceTo(t, m + n).value.current, AdvanceTo(u, n).value.current);
      }
    }
  }

  // ----- Rate changes, mapping shifts, and whole runs -----

  function CommonDenominator(a: U64, b: U64): Result<U64>
    requires a > 0 && b > 0
  {
    CommonDenominatorFits(a, b);
    var factor := a / Gcd(a, b);
    if factor > U64_MAX / b then Err(ResourceLimit) else Ok(factor * b)
  }

  /** The division test decides exactly whether the least common multiple fits 64 bits. */
  lemma CommonDenominatorFits(a: U64, b: U64)
    requires a > 0 && b > 0
    ensures Gcd(a, b) > 0 && a / Gcd(a, b) * b == Lcm(a, b) > 0
    ensures a / Gcd(a, b) > U64_MAX / b <==> Lcm(a, b) > U64_MAX
  {
    LcmDivides(a, b);
    GcdDivides(a, b);
    var factor := a / Gcd(a, b);
    hide Gcd, Divides;
    FactorLimit(factor, b, U64_MAX);
  }

  lemma FactorLimit(factor: int, b: nat, limit: nat)
    requires b > 0
    ensures factor > limit / b <==> factor * b > limit
  {
    var q, r := limit / b, limit % b;
    assert limit == b * q + r;
    FactorOrder(b, q, factor);
    if factor > q {
      FactorMonotone(b, q + 1, factor);
      assert b * (q + 1) == b * q + b;
    }
  }

  function CreateTo(origin: ProtocolTime, rate: U64): Result<Timeline> {
    if !ValidTime(origin) || !ValidRate(rate) then Err(InvalidArgument)
    else Ok(Timeline(ExactSampleTime(origin, 0, 1), rate, 0, 0))
  }

  function ChangeRateTo(t: Timeline, rate: U64): Result<Timeline>
    requires t.current.denominator > 0
  {
    if !ValidRate(rate) then Err(InvalidArgument)
    else if t.revision == U64_MAX then Err(Overflow)
    else
      StepBound(rate);
      match CommonDenominator(t.current.denominator, StepDenominator(rate))
      case Err(code) => Err(code)
      case Ok(_) => Ok(t.(rate := rate, revision := t.revision + 1))
  }

  lemma StepBound(rate: nat)
    requires rate > 0
    ensures StepDenominator(rate) <= rate
  {
    hide Gcd;
    StepFactors(rate);
    FactorMonotone(rate / Gcd(PS, rate), 1, Gcd(PS, rate));
  }

  function ReanchorTo(t: Timeline, oldNow: ProtocolTime, newNow: ProtocolTime): Result<Timeline> {
    var forward := !Before(newNow, oldNow);
    match if forward then Difference(newNow, oldNow) else Difference(oldNow, newNow)
    case Err(code) => Err(code)
    case Ok(delta) =>
      match if forward then Add(t.current.time, delta) else Subtract(t.current.time, delta)
      case Err(code) => Err(code)
      case Ok(shifted) => Ok(t.(current := t.current.(time := shifted)))
  }

  datatype Operation =
    | Advance(samples: nat)
    | ChangeRate(newRate: U64)
    | Reanchor(oldNow: ProtocolTime, newNow: ProtocolTime)

  ghost function Outcome(t: Timeline, op: Operation): (r: Result<Timeline>)
    requires WellFormed(t)
  {
    match op
    case Advance(n) => AdvanceTo(t, n)
    case ChangeRate(rate) => ChangeRateTo(t, rate)
    case Reanchor(oldNow, newNow) => ReanchorTo(t, oldNow, newNow)
  }

  /** Shift of the exact instant that a successful operation makes. */
  ghost function Shift(t: Timeline, op: Operation): real
    requires WellFormed(t)
  {
    match op
    case Advance(n) => SamplePeriods(n, t.rate)
    case ChangeRate(_) => 0.0
    case Reanchor(oldNow, newNow) => (Total(newNow) - Total(oldNow)) as real
  }

  /** Every successful operation keeps the invariant and shifts the instant exactly. */
  lemma StepIsExact(t: Timeline, op: Operation)
    requires ValidTimeline(t) && Outcome(t, op).Ok?
    ensures var u := Outcome(t, op).value;
            && ValidTimeline(u)
            && Instant(u.current) == Instant(t.current) + Shift(t, op)
            && u.ordinal == t.ordinal + (if op.Advance? then op.samples else 0)
            && u.rate == (if op.ChangeRate? then op.newRate else t.rate)
            && u.revision == t.revision + (if op.ChangeRate? then 1 else 0)
  {
    match op
    case Advance(n) =>
      hide AdvanceTo, Instant, SamplePeriods;
      AdvanceIsExact(t, n);
    case ChangeRate(rate) =>
      hide Gcd;
      StepBound(rate);
      CommonDenominatorFits(t.current.denominator, StepDenominator(rate));
    case Reanchor(oldNow, newNow) =>
      hide Gcd, Lcm;
      ReanchorShift(t, oldNow, newNow);
  }

  lemma ReanchorShift(t: Timeline, oldNow: ProtocolTime, newNow: ProtocolTime)
    requires ReducedTime(t.current) && ReanchorTo(t, oldNow, newNow).Ok?
    ensures var u := ReanchorTo(t, oldNow, newNow).value;
            && ReducedTime(u.current) && u == t.(current := t.current.(time := u.current.time))
            && Total(u.current.time) == Total(t.current.time) + Total(newNow) - Total(oldNow)
  {
    hide Gcd, Total;
    assert ValidTime(oldNow) && ValidTime(newNow);
    OrderIsTotal(newNow, oldNow);
    DifferenceMeaning(newNow, oldNow);
    DifferenceMeaning(oldNow, newNow);
    var forward := !Before(newNow, oldNow);
    var delta := (if forward then Difference(newNow, oldNow) else Difference(oldNow, newNow)).value;
    AddMeaning(t.current.time, delta);
    SubtractMeaning(t.current.time, delta);
  }

  /** State after a run; failed calls change nothing. */
  ghost function After(t: Timeline, ops: seq<Operation>): Timeline
    requires ValidTimeline(t)
    decreases |ops|
  {
    if ops == [] then t
    else
      var r := Outcome(t, ops[0]);
      if r.Ok? then StepIsExact(t, ops[0]); After(r.value, ops[1..]) else After(t, ops[1..])
  }

  /** Sum of the shifts of the calls that succeed, each at the rate in force when it was made. */
  ghost function TotalShift(t: Timeline, ops: seq<Operation>): real
    requires ValidTimeline(t)
    decreases |ops|
  {
    if ops == [] then 0.0
    else
      var r := Outcome(t, ops[0]);
      if r.Ok? then StepIsExact(t, ops[0]); Shift(t, ops[0]) + TotalShift(r.value, ops[1..])
      else TotalShift(t, ops[1..])
  }

  /** No drift over any run: the exact time is the origin plus the sum of all shifts, in lowest terms. */
  lemma {:induction false} RunIsExact(t: Timeline, ops: seq<Operation>)
    requires ValidTimeline(t)
    ensures ValidTimeline(After(t, ops))
    ensures Instant(After(t, ops).current) == Instant(t.current) + TotalShift(t, ops)
    decreases |ops|
  {
    hide Outcome, Instant, Shift, Lcm, Gcd, StepDenominator;
    if ops != [] {
      if Outcome(t, ops[0]).Ok? {
        StepIsExact(t, ops[0]);
        RunIsExact(Outcome(t, ops[0]).value, ops[1..]);
      } else {
        RunIsExact(t, ops[1..]);
      }
    }
  }

  /** From creation on, over any run, no advance is ever refused for want of a 64-bit denominator. */
  lemma NeverResourceLimited(origin: ProtocolTime, rate: U64, ops: seq<Operation>, n: nat)
    requires CreateTo(origin, rate).Ok?
    ensures var t := CreateTo(origin, rate).value;
            && ValidTimeline(t) && Instant(t.current) == Total(origin) as real
            && ValidTimeline(After(t, ops))
            && AdvanceTo(After(t, ops), n) != Err(ResourceLimit)
  {
    var t := CreateTo(origin, rate).value;
    CreatedIsValid(origin, rate);
    hide Gcd, Lcm, AdvanceTo;
    RunIsExact(t, ops);
    AdvanceFailure(After(t, ops), n);
  }

  /** A timeline begins at sample 0 of its first rate, for one to a hundred million samples a second. */
  lemma CreateOutcome(origin: ProtocolTime, rate: U64)
    ensures CreateTo(origin, rate) ==
            if 1 <= rate <= 100_000_000 && origin.picoseconds < 1_000_000_000_000 then
              Ok(Timeline(ExactSampleTime(origin, 0, 1), rate, 0, 0))
            else Err(InvalidArgument)
  {
  }

  /** As many samples as the rate says make one second. */
  lemma OneSecond(rate: nat)
    requires ValidRate(rate)
    ensures SamplePeriods(rate, rate) == 1_000_000_000_000.0
    ensures Total(ProtocolTime(1, 0)) - Total(ProtocolTime(0, 0)) == 1_000_000_000_000
  {
    QuotientIs(rate as real * PS as real, rate as real, PS as real);
  }

  /** When a rate is taken, and why not otherwise. */
  lemma ChangeRateOutcome(t: Timeline, rate: U64)
    requires ValidTimeline(t)
    ensures match ChangeRateTo(t, rate)
            case Ok(u) =>
              && 1 <= rate <= 100_000_000 && t.revision < U64_MAX
              && Lcm(t.current.denominator, StepDenominator(rate)) <= U64_MAX
              && u == t.(rate := rate, revision := t.revision + 1)
            case Err(code) =>
              || (code == InvalidArgument && !(1 <= rate <= 100_000_000))
              || (code == Overflow && 1 <= rate <= 100_000_000 && t.revision == U64_MAX)
              || (code == ResourceLimit && 1 <= rate <= 100_000_000 && t.revision < U64_MAX
                  && Lcm(t.current.denominator, StepDenominator(rate)) > U64_MAX)
  {
    hide Gcd, Lcm, StepDenominator;
    if ValidRate(rate) {
      StepBound(rate);
      CommonDenominatorFits(t.current.denominator, StepDenominator(rate));
    }
  }

  /** The mapping moves with the clock, forward or back, unless time would leave its range. */
  lemma ReanchorOutcome(t: Timeline, oldNow: ProtocolTime, newNow: ProtocolTime)
    requires ReducedTime(t.current)
    ensures var moved := Total(t.current.time) + Total(newNow) - Total(oldNow);
            match ReanchorTo(t, oldNow, newNow)
            case Ok(u) =>
              && ValidTime(oldNow) && ValidTime(newNow) && 0 <= moved < END_OF_TIME
              && u == t.(current := t.current.(time := FromTotal(moved)))
            case Err(code) =>
              || (code == InvalidArgument && !(ValidTime(oldNow) && ValidTime(newNow)))
              || (code == Overflow && ValidTime(oldNow) && ValidTime(newNow) && !(0 <= moved < END_OF_TIME))
  {
    hide Gcd, Total;
    var moved := Total(t.current.time) + Total(newNow) - Total(oldNow);
    if ValidTime(oldNow) && ValidTime(newNow) {
      OrderIsTotal(newNow, oldNow);
      DifferenceMeaning(newNow, oldNow);
      DifferenceMeaning(oldNow, newNow);
      var forward := !Before(newNow, oldNow);
      var delta := (if forward then Difference(newNow, oldNow) else Difference(oldNow, newNow)).value;
      AddMeaning(t.current.time, delta);
      SubtractMeaning(t.current.time, delta);
      if ReanchorTo(t, oldNow, newNow).Ok? {
        ReanchorShift(t, oldNow, newNow);
        TotalRange(ReanchorTo(t, oldNow, newNow).value.current.time);
        OrderIsTotal(ReanchorTo(t, oldNow, newNow).value.current.time, FromTotal(moved));
      }
    }
  }

  lemma TotalRange(t: ProtocolTime)
    requires ValidTime(t)
    ensures 0 <= Total(t) < END_OF_TIME
  {
  }

  lemma CreatedIsValid(origin: ProtocolTime, rate: U64)
    requires CreateTo(origin, rate).Ok?
    ensures ValidTimeline(CreateTo(origin, rate).value)
    ensures Instant(CreateTo(origin, rate).value.current) == Total(origin) as real
  {
    assert Gcd(0, 1) == 1;
    var step := StepDenominator(rate);
    StepBound(rate);
    hide Gcd;
    LcmDivides(1, step);
    Factor(1, step, step);
    Factor(step, step, 1);
    LcmLeast(1, step, step);
    DividesBound(Lcm(1, step), step);
  }

  // ----- The object -----

  class SampleTimeline {
    var current: ExactSampleTime
    var rate: U64
    var ordinal: U64
    var revision: U64

    ghost predicate Valid()
      reads this
    {
      ValidTimeline(Value())
    }

    function Value(): Timeline
      reads this
    {
      Timeline(current, rate, ordinal, revision)
    }

    constructor (value: Timeline)
      ensures Value() == value
    {
      current, rate, ordinal, revision := value.current, value.rate, value.ordinal, value.revision;
    }

    static method Create(origin: ProtocolTime, rate: U64) returns (r: Result<SampleTimeline>)
      ensures match CreateTo(origin, rate)
              case Err(code) => r == Err(code)
              case Ok(value) => r.Ok? && fresh(r.value) && r.value.Value() == value && r.value.Valid()
    {
      if !ValidTime(origin) || rate == 0 || rate > MAX_RATE {
        return Err(InvalidArgument);
      }
      var timeline := new SampleTimeline(Timeline(ExactSampleTime(origin, 0, 1), rate, 0, 0));
      CreatedIsValid(origin, rate);
      return Ok(timeline);
    }

    method ChangeRate(newRate: U64) returns (r: Result<()>)
      requires Valid()
      modifies this
      ensures Valid()
      ensures match ChangeRateTo(old(Value()), newRate)
              case Ok(value) => r.Ok? && Value() == value
              case Err(code) => r == Err(code) && Value() == old(Value())
    {
      ghost var was := Value();
      if newRate == 0 || newRate > MAX_RATE {
        return Err(InvalidArgument);
      }
      if revision == U64_MAX {
        return Err(Overflow);
      }
      StepBound(newRate);
      var denominator := CommonDenominator(current.denominator, StepDenominator(newRate));
      if denominator.Err? {
        return Err(denominator.error);
      }
      rate, revision := newRate, revision + 1;
      StepIsExact(was, Operation.ChangeRate(newRate));
      return Ok(());
    }

    method ReanchorMapping(oldNow: ProtocolTime, newNow: ProtocolTime) returns (r: Result<()>)
      requires Valid()
      modifies this
      ensures Valid()
      ensures match ReanchorTo(old(Value()), oldNow, newNow)
              case Ok(value) => r.Ok? && Value() == value
              case Err(code) => r == Err(code) && Value() == old(Value())
    {
      ghost var was := Value();
      var forward := !Before(newNow, oldNow);
      var delta := if forward then Difference(newNow, oldNow) else Difference(oldNow, newNow);
      if delta.Err? {
        return Err(delta.error);
      }
      var shifted := if forward then Add(current.time, delta.value) else Subtract(current.time, delta.value);
      if shifted.Err? {
        return Err(shifted.error);
      }
      current := current.(time := shifted.value);
      StepIsExact(was, Reanchor(oldNow, newNow));
      return Ok(());
    }

    /** The 64-bit advance: no product or sum leaves 64 bits, and the result is the simple form's. */
    method Advance(samples: U64) returns (r: Result<()>)
      requires WellFormed(Value())
      modifies this
      ensures match AdvanceTo(old(Value()), samples)
              case Ok(value) => r.Ok? && Value() == value && Valid()
              case Err(code) => r == Err(code) && Value() == old(Value())
    {
      hide Gcd, Lcm, AdvancedNumerator, Lowest;
      ghost var was := Value();
      if samples > U64_MAX - ordinal {
        return Err(Overflow);
      }
      StepSplit(samples, rate);
      StepFactors(rate);
      StepBound(rate);
      QuotientNonNegative(samples, rate);
      SecondsFit(samples, rate);
      var seconds: U64, remaining: U64 := samples / rate, samples % rate;
      var quotient, stepRemainder := PS / rate, PS % rate;
      var remainderProduct: U64 := remaining * stepRemainder;
      var fraction: U64 := remaining * quotient + remainderProduct / rate;
      var residue: U64 := remainderProduct % rate;
      var divisor := Gcd(PS, rate);
      var stepDenominator := rate / divisor;
      CommonDenominatorFits(current.denominator, stepDenominator);
      var denominator := CommonDenominator(current.denominator, stepDenominator);
      if denominator.Err? {
        return Err(denominator.error);
      }
      var d := denominator.value;
      NumeratorSplit(was, samples, d, seconds * PS + fraction, residue);
      var a: U64 := current.numerator * (d / current.denominator);
      var b: U64 := residue / divisor * (d / stepDenominator);
      var carry := a >= d - b;
      var numerator: U64 := if carry then a - (d - b) else a + b;
      AddMeaning(current.time, Duration(seconds, fraction));
      SplitTotal(was, samples, d, seconds * PS + fraction, a, b, numerator, carry);
      var next := Add(current.time, Duration(seconds, fraction));
      if next.Err? {
        return Err(next.error);
      }
      if carry {
        AddMeaning(next.value, Duration(0, 1));
        next := Add(next.value, Duration(0, 1));
        if next.Err? {
          return Err(next.error);
        }
      }
      var gcd := Gcd(numerator, d);
      LowestFits(numerator, d);
      FinishAdvance(was, samples, d, next.value, numerator);
      current := ExactSampleTime(next.value, numerator / gcd, d / gcd);
      ordinal := ordinal + samples;
      AdvanceIsExact(was, samples);
      return Ok(());
    }
  }

  lemma SecondsFit(samples: U64, rate: nat)
    requires rate > 0
    ensures samples / rate <= samples
  {
    FactorMonotone(samples / rate, 1, rate);
  }

  /** Whole picoseconds and remainder of the advanced numerator. */
  lemma SplitTotal(t: Timeline, n: nat, d: nat, x: nat, a: nat, b: nat, numerator: nat, carry: bool)
    requires WellFormed(t) && d > 0 && a < d && b < d
    requires AdvancedNumerator(t, n, d) == (Total(t.current.time) + x) * d + a + b
    requires carry <==> a + b >= d
    requires numerator == if carry then a + b - d else a + b
    ensures AdvancedNumerator(t, n, d) / d == Total(t.current.time) + x + (if carry then 1 else 0)
    ensures AdvancedNumerator(t, n, d) % d == numerator
  {
    hide AdvancedNumerator, Gcd;
    CarryOver(AdvancedNumerator(t, n, d), Total(t.current.time) + x, d, a + b);
  }

  lemma CarryOver(total: int, q: int, d: nat, sum: nat)
    requires d > 0 && sum < 2 * d && total == q * d + sum
    ensures total / d == q + (if sum >= d then 1 else 0)
    ensures total % d == if sum >= d then sum - d else sum
  {
    assert (q + 1) * d == q * d + d;
    if sum >= d {
      DivisionUnique(total, d, q + 1, sum - d);
    } else {
      DivisionUnique(total, d, q, sum);
    }
  }

  lemma FinishAdvance(t: Timeline, n: nat, d: U64, next: ProtocolTime, numerator: nat)
    requires WellFormed(t) && n <= U64_MAX - t.ordinal && numerator < d
    requires d == Lcm(t.current.denominator, StepDenominator(t.rate))
    requires ValidTime(next) && Total(next) == AdvancedNumerator(t, n, d) / d
    requires numerator == AdvancedNumerator(t, n, d) % d
    ensures Gcd(numerator, d) > 0
    ensures 0 <= numerator / Gcd(numerator, d) < d / Gcd(numerator, d) <= d
    ensures AdvanceTo(t, n) ==
              Ok(t.(current := ExactSampleTime(next, numerator / Gcd(numerator, d), d / Gcd(numerator, d)),
                                     ordinal := t.ordinal + n))
  {
    LowestFits(numerator, d);
    LowestFits(AdvancedNumerator(t, n, d), d);
    hide Gcd, Lcm, AdvancedNumerator;
    OrderIsTotal(next, FromTotal(Total(next)));
    NumeratorNonNegative(t, n, d);
    SmallRemainder(numerator, d);
  }

  lemma SmallRemainder(numerator: nat, d: nat)
    requires numerator < d
    ensures numerator % d == numerator
  {
  }
}
