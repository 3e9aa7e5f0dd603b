/**
 From publisher to receiver: the Context packet of a frame, its reading, and what a receiver can know
 when packets are lost, repeated or reordered (include/vita/runtime/context/publisher.hpp, encode_context;
 include/vita/runtime/context/receiver.hpp, ReceiverHistory::receive).
 */
module ContextDelivery {
  import opened Core
  import opened Time
  import opened ContextState
  import opened ContextTraces
  import opened ReceiverHistories
  import opened HistoryExpiry

  const UTC: nat := 1

  /** A Context packet: a timestamp and the fields that are present. */
  datatype Wire = Wire(
    epoch: nat, time: Option<ProtocolTime>,
    referencePoint: Option<SemanticValue>, sampleRate: Option<SemanticValue>, indicators: Option<Indicators>,
    payloadFormat: Option<SemanticValue>, frequency: Option<SemanticValue>, bandwidth: Option<SemanticValue>,
    gain: Option<SemanticValue>, discrete: Option<SemanticValue>)

  function Present(f: Field): Option<SemanticValue> {
    if f.Known? then Some(f.value) else None
  }

  function PresentIf(active: bool, f: Field): Option<SemanticValue> {
    if active then Present(f) else None
  }

  /** The packet of a frame. Checks of field values and of the envelope are not modelled. */
  function Encode(f: Frame): Result<Wire> {
    var s := f.state;
    if f.timeKnown && (!ValidTime(f.time) || f.time.seconds > 0xFFFF_FFFF || f.epoch == 0) then Err(InvalidArgument)
    else
      var epoch, time := if f.timeKnown then f.epoch else 0, if f.timeKnown then Some(f.time) else None;
      if s.profile == SdrRadio then
        if f.epoch != UTC || !f.timeKnown || !f.valid then Err(InvalidArgument)
        else if !s.bandwidth.Known? || !s.frequency.Known? || !s.gain.Known?
                || !s.sampleRate.Known? then Err(InvalidState)
        else Ok(Wire(epoch, time, None, Present(s.sampleRate), None, None, Present(s.frequency), Present(s.bandwidth),
                     Present(s.gain), None))
      else
        var known := WordOf(s);
        var word := (if f.refresh then WithoutLoss(known) else known).(validEnable := true, valid := f.valid);
        Ok(Wire(epoch, time, Present(s.referencePoint), Present(s.sampleRate), Some(word), Present(s.payloadFormat),
                PresentIf(s.profile != GeneratorV1, s.frequency), None, None, None))
  }

  /** What a receiver is configured with; `streamId` and `sdrFormat` fill in for a radio's reduced Context. */
  datatype Receiver = Receiver(
    profile: Profile, epoch: nat, reference: Option<SemanticValue>, streamId: SemanticValue, sdrFormat: SemanticValue)

  function FieldFrom(o: Option<SemanticValue>): Field {
    if o.Some? then Known(o.value) else Absent
  }

  function FieldCount(w: Wire): nat {
    (if w.referencePoint.Some? then 1 else 0) + (if w.sampleRate.Some? then 1 else 0) +
      (if w.indicators.Some? then 1 else 0)
    + (if w.payloadFormat.Some? then 1 else 0) + (if w.frequency.Some? then 1 else 0) +
      (if w.bandwidth.Some? then 1 else 0)
    + (if w.gain.Some? then 1 else 0) + (if w.discrete.Some? then 1 else 0)
  }

  /** The snapshot a packet carries, before the receiver fills in a radio's fixed fields. */
  function Carried(profile: Profile, w: Wire): Snapshot {
    Snapshot(profile, FieldFrom(w.referencePoint), FieldFrom(w.sampleRate),
             if w.indicators.Some? then EventField(IsKnown, w.indicators.value) else EventField(IsAbsent, CLEAR),
             FieldFrom(w.payloadFormat), FieldFrom(w.frequency), FieldFrom(w.bandwidth), FieldFrom(w.gain),
             FieldFrom(w.discrete))
  }

  /** Reads a packet of the receiver's association. */
  function Read(rx: Receiver, w: Wire): Result<Snapshot> {
    if w.time.None? || w.epoch == 0 || (rx.epoch != 0 && w.epoch != rx.epoch) then Err(UnsupportedCapability)
    else if !InProfile(Carried(rx.profile, w)) then Err(UnsupportedCapability)
    else if rx.profile == SdrRadio && (w.epoch != UTC || FieldCount(w) != 4) then Err(InvalidArgument)
    else if rx.profile == SdrRadio
            && (w.sampleRate.None? || w.frequency.None? || w.bandwidth.None? || w.gain.None?) then
      Err(InvalidArgument)
    else
      var c := Carried(rx.profile, w);
      var snapshot :=
        if rx.profile == SdrRadio then
          c.(referencePoint := Known(if rx.reference.Some? then rx.reference.value else rx.streamId),
             events := EventField(IsKnown, CLEAR.(validEnable := true, valid := true)),
             payloadFormat := Known(rx.sdrFormat))
        else c;
      if rx.reference.Some? && snapshot.referencePoint != Known(rx.reference.value) then Err(IdentityConflict)
      else Ok(snapshot)
  }

  /** What the receiver makes of a frame that got through. */
  function Image(rx: Receiver, f: Frame): Result<Snapshot> {
    match Encode(f)
    case Ok(w) => Read(rx, w)
    case Err(code) => Err(code)
  }

  /** Frames that agree in time and state are the same to every receiver that reads both. */
  lemma SameImage(rx: Receiver, f: Frame, g: Frame)
    requires Stamped(f) && Stamped(g) && f.time == g.time && SameState(f.state, g.state)
    requires Image(rx, f).Ok? && Image(rx, g).Ok?
    ensures Image(rx, f) == Image(rx, g)
  {
    hide InProfile, FieldCount;
    var v, w := Encode(f).value, Encode(g).value;
    assert v.(epoch := 0) == w.(epoch := 0);
    assert Carried(rx.profile, v) == Carried(rx.profile, w);
  }

  /** Outside the radio profile a receiver of the same profile sees the known fields and the indicators of the frame. */
  lemma ImageIsState(rx: Receiver, f: Frame)
    requires Stamped(f) && rx.profile == f.state.profile != SdrRadio && InProfile(f.state)
    ensures Image(rx, f).Ok? <==>
            && ValidTime(f.time) && f.time.seconds < 0x1_0000_0000 && f.epoch != 0
            && (rx.epoch == 0 || rx.epoch == f.epoch)
            && (rx.reference.Some? ==> f.state.referencePoint == Known(rx.reference.value))
    ensures Image(rx, f).Ok? ==>
              var s := Image(rx, f).value;
              && s.profile == rx.profile && s.events == f.state.events
              && forall n :: FieldAt(s, n) == if FieldAt(f.state, n).Known? then FieldAt(f.state, n) else Absent
  {
  }

  /**
   A radio's Context carries four values and means that its state is valid; the receiver fills in reference, format and
   indicators.
   */
  lemma ImageIsRadioState(rx: Receiver, f: Frame)
    requires Stamped(f) && rx.profile == f.state.profile == SdrRadio
    ensures Image(rx, f).Ok? <==>
            && ValidTime(f.time) && f.time.seconds < 0x1_0000_0000 && f.epoch == 1 && (rx.epoch == 0 || rx.epoch == 1)
            && f.valid && forall n :: n in {SampleRate, Frequency, Bandwidth, Gain} ==> FieldAt(f.state, n).Known?
    ensures Image(rx, f).Ok? ==>
              var s := Image(rx, f).value;
              && s.profile == SdrRadio
              && (forall n :: n in {SampleRate, Frequency, Bandwidth, Gain} ==> FieldAt(s, n) == FieldAt(f.state, n))
              && s.referencePoint == Known(if rx.reference.Some? then rx.reference.value else rx.streamId)
              && s.payloadFormat == Known(rx.sdrFormat) && s.discrete == Absent
              && s.events == EventField(IsKnown, Indicators(false, true, false, false, true, false, 0))
  {
    RadioFields(f.state);
  }

  lemma RadioFields(s: Snapshot)
    ensures (forall n :: n in {SampleRate, Frequency, Bandwidth, Gain} ==> FieldAt(s, n).Known?) <==>
            s.sampleRate.Known? && s.frequency.Known? && s.bandwidth.Known? && s.gain.Known?
  {
    var all := {SampleRate, Frequency, Bandwidth, Gain};
    if forall n :: n in all ==> FieldAt(s, n).Known? {
      assert SampleRate in all && Frequency in all && Bandwidth in all && Gain in all;
      assert FieldAt(s, SampleRate).Known? && FieldAt(s, Frequency).Known?;
      assert FieldAt(s, Bandwidth).Known? && FieldAt(s, Gain).Known?;
    }
  }

  // ----- Delivery -----

  /** A packet of the record arrives, or time passes; `checks` is the verdict on the values of its fields. */
  datatype Arrival = Arrives(index: nat, at: nat, checks: Result<()>) | Expires(now: nat)

  /** The history after one arrival; packets of other associations and rejected ones leave it alone. */
  function Absorb(rx: Receiver, association: nat, capacity: nat, trace: seq<Happening>, s: seq<Entry>,
                  a: Arrival): (t: seq<Entry>)
    requires |s| <= capacity
    ensures |t| <= capacity
  {
    match a
    case Expires(now) => Living(s, now)
    case Arrives(k, at, checks) =>
      if k >= |trace| || !trace[k].ContextSent? || trace[k].frame.association != association then s
      else
        match Image(rx, trace[k].frame)
        case Err(_) => s
        case Ok(state) =>
          if checks.Err? || !ValidTime(trace[k].frame.time) then s
          else
            match Inserted(s, capacity, state, trace[k].frame.time, at, true, NO_LOSS)
            case Ok(t) => t
            case Err(_) => s
  }

  function AbsorbAll(rx: Receiver, association: nat, capacity: nat, trace: seq<Happening>,
                     arrivals: seq<Arrival>): (s: seq<Entry>)
    ensures |s| <= capacity
  {
    if arrivals == [] then []
    else Absorb(rx, association, capacity, trace,
                AbsorbAll(rx, association, capacity, trace, arrivals[..|arrivals| - 1]), arrivals[|arrivals| - 1])
  }

  /** An entry shows a published frame, unaltered but for the loss bits set apart. */
  ghost predicate Shows(rx: Receiver, association: nat, h: Happening, e: Entry) {
    && h.ContextSent? && h.frame.association == association && e.effective == h.frame.time
    && Image(rx, h.frame).Ok? && (e.state, e.events) == SplitLoss(Image(rx, h.frame).value, NO_LOSS)
  }

  ghost predicate Genuine(rx: Receiver, association: nat, trace: seq<Happening>, e: Entry) {
    e.full && !e.conflict && exists k :: 0 <= k < |trace| && Shows(rx, association, trace[k], e)
  }

  ghost predicate AllGenuine(rx: Receiver, association: nat, trace: seq<Happening>, s: seq<Entry>) {
    Sorted(s) && forall i :: 0 <= i < |s| ==> Genuine(rx, association, trace, s[i])
  }

  /** Two frames of one association with one time show the same. */
  lemma OneTimeOneImage(rx: Receiver, trace: seq<Happening>, i: nat, j: nat)
    requires TraceSafe(trace) && i < |trace| && j < |trace| && SameAssociation(trace[i], trace[j])
    requires trace[i].frame.time == trace[j].frame.time && Image(rx, trace[i].frame).Ok?
    requires Image(rx, trace[j].frame).Ok?
    ensures Image(rx, trace[i].frame) == Image(rx, trace[j].frame)
  {
    hide Stamped, SameState, Guarded, Image;
    var f, g := trace[i].frame, trace[j].frame;
    assert Stamped(f) && Stamped(g);
    if i < j {
      assert Follows(f, g);
      SameImage(rx, f, g);
    } else if j < i {
      assert Follows(g, f);
      SameImage(rx, g, f);
    }
  }

  lemma SameStateReflexive(s: Snapshot)
    ensures SameState(s, s)
  {
  }

  lemma InsertGenuine(rx: Receiver, association: nat, capacity: nat, trace: seq<Happening>, s: seq<Entry>, k: nat,
                      at: nat)
    requires TraceSafe(trace) && AllGenuine(rx, association, trace, s) && |s| <= capacity
    requires k < |trace| && trace[k].ContextSent? && trace[k].frame.association == association
    requires Image(rx, trace[k].frame).Ok?
    ensures match Inserted(s, capacity, Image(rx, trace[k].frame).value, trace[k].frame.time, at, true, NO_LOSS)
            case Ok(t) => AllGenuine(rx, association, trace, t)
            case Err(_) => true
  {
    hide Image, SameState, Position, Sorted, TraceSafe, SplitLoss;
    var f := trace[k].frame;
    var state := Image(rx, f).value;
    InsertKeepsSorted(s, capacity, state, f.time, at, true, NO_LOSS);
    var (clean, loss) := SplitLoss(state, NO_LOSS);
    var p := Position(s, f.time);
    if p < |s| && s[p].effective == f.time {
      assert Genuine(rx, association, trace, s[p]);
      var j :| 0 <= j < |trace| && Shows(rx, association, trace[j], s[p]);
      OneTimeOneImage(rx, trace, j, k);
      SameStateReflexive(clean);
    } else {
      var added := Entry(clean, f.time, at, loss, true, false);
      assert Shows(rx, association, trace[k], added);
    }
  }

  lemma AbsorbGenuine(rx: Receiver, association: nat, capacity: nat, trace: seq<Happening>, s: seq<Entry>, a: Arrival)
    requires TraceSafe(trace) && AllGenuine(rx, association, trace, s) && |s| <= capacity
    ensures AllGenuine(rx, association, trace, Absorb(rx, association, capacity, trace, s, a))
  {
    hide Image, TraceSafe, Genuine, Inserted;
    match a
    case Expires(now) =>
      LivingSorted(s, now);
      var t := Living(s, now);
      forall i | 0 <= i < |t|
        ensures Genuine(rx, association, trace, t[i])
      {
        assert t[i] in t;
      }
    case Arrives(k, at, checks) =>
      if k < |trace| && trace[k].ContextSent? && trace[k].frame.association == association
         && Image(rx, trace[k].frame).Ok? {
        InsertGenuine(rx, association, capacity, trace, s, k, at);
      }
  }

  lemma {:induction false} AbsorbAllGenuine(rx: Receiver, association: nat, capacity: nat, trace: seq<Happening>,
                                            arrivals: seq<Arrival>)
    requires TraceSafe(trace)
    ensures AllGenuine(rx, association, trace, AbsorbAll(rx, association, capacity, trace, arrivals))
  {
    hide TraceSafe, Absorb, Genuine;
    if arrivals != [] {
      var front := arrivals[..|arrivals| - 1];
      AbsorbAllGenuine(rx, association, capacity, trace, front);
      AbsorbGenuine(rx, association, capacity, trace, AbsorbAll(rx, association, capacity, trace, front),
                    arrivals[|arrivals| - 1]);
    }
  }

  /**
   A receiver fed any selection of the accepted Context of one association, in any order and with any
   repetition, never finds a conflict and never answers ambiguously; and a certain answer shows a frame
   that was published for exactly the time it names.
   */
  lemma NeverAmbiguous(rx: Receiver, association: nat, capacity: nat, trace: seq<Happening>, arrivals: seq<Arrival>,
                       sample: ProtocolTime, now: nat)
    requires TraceSafe(trace)
    ensures var s := AbsorbAll(rx, association, capacity, trace, arrivals);
            && (forall e :: e in s ==> !e.conflict)
            && Resolved(s, sample, now).confidence != Ambiguous
            && (Resolved(s, sample, now).confidence == Certain ==>
                  exists k, e :: 0 <= k < |trace| && Shows(rx, association, trace[k], e)
                    && Resolved(s, sample, now) == AnswerFrom(e, sample))
  {
    hide TraceSafe, Shows, AbsorbAll, Relevant, ResolvedState, RequiredKnown, EndsBefore;
    var s := AbsorbAll(rx, association, capacity, trace, arrivals);
    AbsorbAllGenuine(rx, association, capacity, trace, arrivals);
    var r := Relevant(s, sample);
    forall e | e in s
      ensures !e.conflict
    {
      var i :| 0 <= i < |s| && s[i] == e;
      assert Genuine(rx, association, trace, s[i]);
    }
    forall e | e in Contributing(r)
      ensures e in s
    {
    }
    CertainMeaning(s, sample, now);
    if Resolved(s, sample, now).confidence == Certain {
      var e := r[|r| - 1];
      assert e == s[|r| - 1];
      assert Genuine(rx, association, trace, s[|r| - 1]);
    }
  }
}
