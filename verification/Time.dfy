/** Protocol time and durations in whole picoseconds (include/vita/runtime/timing/time.hpp). */
module Time {
  import opened Core

  const PS: nat := 1_000_000_000_000

  datatype ProtocolTime = ProtocolTime(seconds: U64, picoseconds: U64)

  datatype Duration = Duration(seconds: U64, picoseconds: U64)

  predicate ValidTime(t: ProtocolTime) {
    t.picoseconds < PS
  }

  predicate ValidDuration(d: Duration) {
    d.picoseconds < PS
  }

  /** Field-by-field order: seconds first. */
  predicate Before(a: ProtocolTime, b: ProtocolTime) {
    a.seconds < b.seconds || (a.seconds == b.seconds && a.picoseconds < b.picoseconds)
  }

  /** Picoseconds since the epoch. */
  function Total(t: ProtocolTime): nat {
    t.seconds * 1_000_000_000_000 + t.picoseconds
  }

  function Length(d: Duration): nat {
    d.seconds * 1_000_000_000_000 + d.picoseconds
  }

  /** First instant past the 64-bit seconds range. */
  const END_OF_TIME: nat := 0x1_0000_0000_0000_0000 * 1_000_000_000_000

  function Add(t: ProtocolTime, d: Duration): Result<ProtocolTime> {
    if !ValidTime(t) || !ValidDuration(d) then Err(InvalidArgument)
    else
      var fraction: U64 := t.picoseconds + d.picoseconds;
      var carry := fraction / PS;
      if d.seconds > U64_MAX - t.seconds || carry > U64_MAX - t.seconds - d.seconds then Err(Overflow)
      else Ok(ProtocolTime(t.seconds + d.seconds + carry, fraction % PS))
  }

  function Subtract(t: ProtocolTime, d: Duration): Result<ProtocolTime> {
    if !ValidTime(t) || !ValidDuration(d) then Err(InvalidArgument)
    else if Before(t, ProtocolTime(d.seconds, d.picoseconds)) then Err(Overflow)
    else if t.picoseconds < d.picoseconds then
      Ok(ProtocolTime(t.seconds - d.seconds - 1, PS + t.picoseconds - d.picoseconds))
    else Ok(ProtocolTime(t.seconds - d.seconds, t.picoseconds - d.picoseconds))
  }

  function Difference(later: ProtocolTime, earlier: ProtocolTime): Result<Duration> {
    match Subtract(later, Duration(earlier.seconds, earlier.picoseconds))
    case Ok(t) => Ok(Duration(t.seconds, t.picoseconds))
    case Err(code) => Err(code)
  }

  /** Valid times are ordered as their totals, and equal when their totals are. */
  lemma OrderIsTotal(a: ProtocolTime, b: ProtocolTime)
    requires ValidTime(a) && ValidTime(b)
    ensures Before(a, b) <==> Total(a) < Total(b)
    ensures a == b <==> Total(a) == Total(b)
  {
  }

  /** Addition is exact, and fails only past the 64-bit seconds range. */
  lemma AddMeaning(t: ProtocolTime, d: Duration)
    requires ValidTime(t) && ValidDuration(d)
    ensures match Add(t, d)
            case Ok(u) => ValidTime(u) && Total(u) == Total(t) + Length(d)
            case Err(code) => code == Overflow && Total(t) + Length(d) >= END_OF_TIME
  {
  }

  /** Subtraction is exact, and fails only below zero. */
  lemma SubtractMeaning(t: ProtocolTime, d: Duration)
    requires ValidTime(t) && ValidDuration(d)
    ensures match Subtract(t, d)
            case Ok(u) => ValidTime(u) && Total(u) == Total(t) - Length(d)
            case Err(code) => code == Overflow && Total(t) < Length(d)
  {
  }

  lemma DifferenceMeaning(later: ProtocolTime, earlier: ProtocolTime)
    requires ValidTime(later) && ValidTime(earlier)
    ensures match Difference(later, earlier)
            case Ok(d) => ValidDuration(d) && Length(d) == Total(later) - Total(earlier)
            case Err(code) => code == Overflow && Total(later) < Total(earlier)
  {
    SubtractMeaning(later, Duration(earlier.seconds, earlier.picoseconds));
  }

  /** Adding a duration and subtracting it again gives back the time. */
  lemma AddThenSubtract(t: ProtocolTime, d: Duration)
    requires Add(t, d).Ok?
    ensures Subtract(Add(t, d).value, d) == Ok(t)
  {
    AddMeaning(t, d);
    var u := Add(t, d).value;
    SubtractMeaning(u, d);
    OrderIsTotal(t, Subtract(u, d).value);
  }

  /** The time with a given total. */
  function FromTotal(total: nat): (t: ProtocolTime)
    requires total < END_OF_TIME
    ensures ValidTime(t) && Total(t) == total
  {
    ProtocolTime(total / 1_000_000_000_000, total % 1_000_000_000_000)
  }
}
