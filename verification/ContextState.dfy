/**
 Published state snapshots (include/vita/runtime/state/contracts.hpp and the helpers of
 include/vita/runtime/context/revisions.hpp).
 */
module ContextState {
  /** Value of a field other than the state-event indicators; only its equality matters. */
  type SemanticValue(==, !new)

  datatype Profile = GeneratorV1 | FrequencyTunable | SdrRadio

  datatype Field = Absent | Known(value: SemanticValue) | Unknown

  /** The state-event word: six bits that the publisher and receiver interpret, and the rest. */
  datatype Indicators = Indicators(
    calibratedEnable: bool, validEnable: bool, lossEnable: bool,
    calibrated: bool, valid: bool, loss: bool, rest: nat)

  datatype Validity = IsAbsent | IsKnown | IsUnknown

  /** The indicator field keeps its word even while its validity is not known. */
  datatype EventField = EventField(validity: Validity, word: Indicators)

  datatype Snapshot = Snapshot(
    profile: Profile,
    referencePoint: Field, sampleRate: Field, events: EventField, payloadFormat: Field,
    frequency: Field, bandwidth: Field, gain: Field, discrete: Field)

  const CLEAR := Indicators(false, false, false, false, false, false, 0)

  const EMPTY := Snapshot(GeneratorV1, Absent, Absent, EventField(IsAbsent, CLEAR), Absent, Absent, Absent, Absent,
                          Absent)

  predicate SameEvents(a: EventField, b: EventField) {
    a.validity == b.validity && (a.validity == IsKnown ==> a.word == b.word)
  }

  /** Equality on the active fields of the profile; unknown values and inactive fields do not count. */
  predicate SameState(a: Snapshot, b: Snapshot) {
    && a.profile == b.profile
    && a.referencePoint == b.referencePoint && a.sampleRate == b.sampleRate
    && SameEvents(a.events, b.events) && a.payloadFormat == b.payloadFormat
    && (a.profile != GeneratorV1 ==> a.frequency == b.frequency)
    && (a.profile == SdrRadio ==> a.bandwidth == b.bandwidth && a.gain == b.gain && a.discrete == b.discrete)
  }

  predicate RequiredKnown(s: Snapshot) {
    && s.sampleRate.Known? && s.payloadFormat.Known?
    && (s.profile == GeneratorV1 || s.frequency.Known?)
    && (s.profile != SdrRadio || (s.bandwidth.Known? && s.gain.Known?))
  }

  /** Fields outside the profile are absent (validate_snapshot). */
  predicate InProfile(s: Snapshot) {
    && (s.profile == GeneratorV1 ==> s.frequency == Absent)
    && (s.profile != SdrRadio ==> s.bandwidth == Absent && s.gain == Absent && s.discrete == Absent)
  }

  function WithoutLoss(w: Indicators): Indicators {
    w.(lossEnable := false, loss := false)
  }

  // ----- What the profiles require and compare -----

  datatype FieldName = ReferencePoint | SampleRate | PayloadFormat | Frequency | Bandwidth | Gain | Discrete

  function FieldAt(s: Snapshot, n: FieldName): Field {
    match n
    case ReferencePoint => s.referencePoint
    case SampleRate => s.sampleRate
    case PayloadFormat => s.payloadFormat
    case Frequency => s.frequency
    case Bandwidth => s.bandwidth
    case Gain => s.gain
    case Discrete => s.discrete
  }

  /** Fields a profile uses besides the indicators. */
  function Active(p: Profile): set<FieldName> {
    match p
    case GeneratorV1 => {ReferencePoint, SampleRate, PayloadFormat}
    case FrequencyTunable => {ReferencePoint, SampleRate, PayloadFormat, Frequency}
    case SdrRadio => {ReferencePoint, SampleRate, PayloadFormat, Frequency, Bandwidth, Gain, Discrete}
  }

  /** Fields a receiver must know before it can use Data. */
  function Required(p: Profile): set<FieldName> {
    Active(p) - {ReferencePoint, Discrete}
  }

  lemma RequiredMeaning(s: Snapshot)
    ensures RequiredKnown(s) <==> forall n :: n in Required(s.profile) ==> FieldAt(s, n).Known?
  {
    if forall n :: n in Required(s.profile) ==> FieldAt(s, n).Known? {
      assert SampleRate in Required(s.profile) && PayloadFormat in Required(s.profile);
      assert s.profile != GeneratorV1 ==> Frequency in Required(s.profile);
      assert s.profile == SdrRadio ==> Bandwidth in Required(s.profile) && Gain in Required(s.profile);
    }
  }

  lemma SameStateMeaning(a: Snapshot, b: Snapshot)
    ensures SameState(a, b) <==>
            && a.profile == b.profile && (forall n :: n in Active(a.profile) ==> FieldAt(a, n) == FieldAt(b, n))
            && a.events.validity == b.events.validity
            && (a.events.validity == IsKnown ==> a.events.word == b.events.word)
  {
    if a.profile == b.profile && forall n :: n in Active(a.profile) ==> FieldAt(a, n) == FieldAt(b, n) {
      assert forall n :: n in Active(a.profile) ==> FieldAt(a, n) == FieldAt(b, n);
      assert ReferencePoint in Active(a.profile) && SampleRate in Active(a.profile)
             && PayloadFormat in Active(a.profile);
      assert a.profile != GeneratorV1 ==> Frequency in Active(a.profile);
      assert a.profile == SdrRadio ==>
          Bandwidth in Active(a.profile) && Gain in Active(a.profile) && Discrete in Active(a.profile);
    }
  }
}
