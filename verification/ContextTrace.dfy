/**
 Context frames and the record of what a publisher handed to its transport
 (include/vita/runtime/context/publisher.hpp).
 */
module ContextTraces {
  import opened Core
  import opened Time
  import opened ContextState
  import opened Revisions

  datatype Frame = Frame(
    state: Snapshot, time: ProtocolTime, epoch: nat, timeKnown: bool, change: bool, refresh: bool, valid: bool,
    revision: nat, association: nat, observation: bool)

  type Packet(==, !new)

  /** A publication group when its Context was sent: its leader, its members, and those Data or loss was tied to. */
  datatype Group = Group(leaderId: nat, leader: Event, members: set<nat>, noted: set<nat>)

  ghost function GroupOf(slots: seq<Revision>, g: nat): Group
    requires g < |slots|
  {
    Group(slots[g].id, slots[g].event,
          set i | 0 <= i < |slots| && InGroup(slots, g, i) :: slots[i].id,
          set i | 0 <= i < |slots| && InGroup(slots, g, i)
                  && (slots[i].dependency || slots[i].event.state.events.word.loss) :: slots[i].id)
  }

  predicate InGroup(slots: seq<Revision>, g: nat, i: nat)
    requires g < |slots| && i < |slots|
  {
    Awaiting(slots[i]) && SameGroup(slots[i].event, slots[g].event)
  }

  /**
   One entry of the record: a Context that the transport accepted or refused, with the revision current at the time,
   or Data handed over, which it took or not.
   */
  datatype Happening =
    | Started
    | Detached
    | ContextSent(frame: Frame, now: ProtocolTime, current: Option<Pin>, about: Option<Group>)
    | ContextRefused(frame: Frame, now: ProtocolTime)
    | DataHanded(packet: Packet, pin: Pin, taken: bool)

  function WordOf(state: Snapshot): Indicators {
    if state.events.validity == IsKnown then state.events.word else CLEAR
  }

  /** Frame for a revision: as a change at its own time, or as a refresh at the present time. */
  function FrameOf(r: Revision, epoch: nat, refresh: bool, now: ProtocolTime, calibrated: bool): Frame {
    var e, valid := r.event, RequiredKnown(r.event.state);
    var word := WordOf(e.state).(calibratedEnable := true, validEnable := true, calibrated := calibrated,
                                 valid := valid);
    Frame(e.state.(events := EventField(IsKnown, if refresh then WithoutLoss(word) else word)),
          if refresh then now else ContextTime(e), epoch, refresh || e.timeKnown, !refresh, refresh, valid, r.id,
          e.association, false)
  }

  /** Frame of a change that is an observation of the state at the present time. */
  function Observation(r: Revision, epoch: nat, now: ProtocolTime, calibrated: bool): Frame {
    FrameOf(r, epoch, true, now, calibrated).(change := true, observation := true)
  }

  /** Frame that withdraws validity after a fault. */
  function InvalidFrame(r: Revision, fault: Option<Snapshot>, epoch: nat, now: ProtocolTime, calibrated: bool): Frame {
    var f := FrameOf(r, epoch, false, now, calibrated);
    var state := if fault.Some? then fault.value else f.state;
    var word := WithoutLoss(WordOf(state)).(valid := false, validEnable := true, calibratedEnable := true,
                                            calibrated := calibrated);
    f.(state := state.(events := EventField(IsKnown, word)), valid := false, refresh := true, time := now,
       timeKnown := true, observation := true)
  }

  /** The indicator word of a frame already says what the encoder would make it say. */
  predicate Stamped(f: Frame) {
    && f.timeKnown && f.state.events.validity == IsKnown
    && f.state.events.word.validEnable && f.state.events.word.valid == f.valid
    && (f.refresh ==> f.state.events.word == WithoutLoss(f.state.events.word))
  }

  // ----- Safety of a record -----

  /** Within an association times never go back and one time has one state. */
  ghost predicate Ordered(trace: seq<Happening>) {
    forall i, j :: 0 <= i < j < |trace| && SameAssociation(trace[i], trace[j]) ==>
        Follows(trace[i].frame, trace[j].frame)
  }

  predicate SameAssociation(a: Happening, b: Happening) {
    a.ContextSent? && b.ContextSent? && a.frame.association == b.frame.association
  }

  predicate Follows(f: Frame, g: Frame) {
    !Before(g.time, f.time) && (f.time == g.time ==> SameState(f.state, g.state))
  }

  // ----- What a frame says -----

  /** The indicator word of a frame for a revision with the word `w`: its loss bits go unless they are news. */
  predicate CarriesIndicators(f: Frame, w: Indicators) {
    var events := f.state.events;
    && events.validity == IsKnown
    && events.word.validEnable && events.word.calibratedEnable && events.word.valid == f.valid
    && events.word.lossEnable == (w.lossEnable && !f.refresh) && events.word.loss == (w.loss && !f.refresh)
    && events.word.rest == w.rest
  }

  /** The frame shows a revision: its identity and its state, and it is valid if that state is complete. */
  predicate ShowsRevision(f: Frame, id: nat, e: Event) {
    && f.revision == id && f.association == e.association && f.timeKnown
    && f.state == e.state.(events := f.state.events) && f.valid == RequiredKnown(e.state)
    && CarriesIndicators(f, if e.state.events.validity == IsKnown then e.state.events.word else CLEAR)
  }

  /** The frame shows the state of a fault, or of the revision current then, and withdraws it. */
  predicate ShowsWithdrawal(f: Frame, id: nat, e: Event, fault: Option<Snapshot>) {
    var state := if fault.Some? then fault.value else e.state;
    && f.revision == id && f.association == e.association && f.timeKnown && !f.valid && f.observation && f.refresh
    && f.state == state.(events := f.state.events)
    && CarriesIndicators(f, if state.events.validity == IsKnown then state.events.word else CLEAR)
  }

  /** A Context of the then current revision, complete, stamped with the then present time. */
  predicate OpensGate(h: Happening) {
    && h.ContextSent? && h.frame.valid && h.frame.time == h.now
    && h.current.Some? && ShowsRevision(h.frame, h.current.value.id, h.current.value.event)
  }

  /** Such a Context was accepted since the run began. */
  ghost predicate GateOpen(trace: seq<Happening>) {
    exists k :: 0 <= k < |trace| && OpensGate(trace[k])
      && forall j :: k < j < |trace| ==> !trace[j].Started? && !trace[j].Detached?
  }

  /**
   A frame that can stand for a group: for a timed one it shows the leader at the leader's time, otherwise the revision
   that is current at the present time.
   */
  predicate Stands(f: Frame, now: ProtocolTime, current: Option<Pin>, group: Group) {
    var e := group.leader;
    if e.timeKnown then
      && f.time == (if e.sampleEpoch.Some? then e.sampleEpoch.value else e.actualTime) && f.change && !f.refresh
      && ShowsRevision(f, group.leaderId, e)
    else
      && f.time == now && f.change && f.observation
      && current.Some? && ShowsRevision(f, current.value.id, current.value.event)
  }

  /**
   A Context accepted for the publication group that a revision was in. It shows the leader's state; where Data or
   loss was already tied to a timed revision, that is the revision's own state.
   */
  predicate Covers(h: Happening, id: nat, e: Event) {
    && h.ContextSent? && h.about.Some? && id in h.about.value.members
    && var leader := h.about.value.leader;
    && h.frame.association == e.association && leader.association == e.association && SameGroup(leader, e)
    && Stands(h.frame, h.now, h.current, h.about.value)
    && (e.timeKnown ==> leader.sampleOrdinal == e.sampleOrdinal)
    && (e.timeKnown && id in h.about.value.noted ==> SameState(e.state, leader.state))
  }

  ghost predicate CoveredIn(trace: seq<Happening>, id: nat, e: Event) {
    exists k :: 0 <= k < |trace| && Covers(trace[k], id, e)
  }

  /** Data of complete revisions only, after the gate of its run and after its Context. */
  ghost predicate DataAllowed(before: seq<Happening>, pin: Pin) {
    GateOpen(before) && CoveredIn(before, pin.id, pin.event) && RequiredKnown(pin.event.state)
  }

  ghost predicate Guarded(trace: seq<Happening>) {
    forall i :: 0 <= i < |trace| && trace[i].DataHanded? ==> DataAllowed(trace[..i], trace[i].pin)
  }

  ghost predicate AllStamped(trace: seq<Happening>) {
    forall i :: 0 <= i < |trace| && trace[i].ContextSent? ==> Stamped(trace[i].frame)
  }

  ghost predicate TraceSafe(trace: seq<Happening>) {
    Ordered(trace) && Guarded(trace) && AllStamped(trace)
  }

  /** The high-water mark is the latest time of the association's Context and holds the state sent then. */
  ghost predicate Crested(trace: seq<Happening>, generation: nat, mark: Option<ProtocolTime>, state: Option<Snapshot>) {
    && (mark.Some? <==> state.Some?)
    && (forall i :: 0 <= i < |trace| && trace[i].ContextSent? ==>
          && trace[i].frame.association <= generation
          && (trace[i].frame.association == generation ==>
                mark.Some? && BelowMark(trace[i].frame, mark.value, state.value)))
    && (mark.Some? ==> exists i :: 0 <= i < |trace| && Reaches(trace[i], generation, mark.value, state.value))
  }

  predicate Reaches(h: Happening, generation: nat, mark: ProtocolTime, state: Snapshot) {
    h.ContextSent? && h.frame.association == generation && h.frame.time == mark && h.frame.state == state
  }

  predicate BelowMark(f: Frame, mark: ProtocolTime, state: Snapshot) {
    !Before(mark, f.time) && (f.time == mark ==> SameState(f.state, state))
  }

  /** A frame may be sent when it is past the mark, or at it with the same state. */
  predicate MayFollow(f: Frame, mark: Option<ProtocolTime>, state: Option<Snapshot>) {
    mark.Some? && !Before(mark.value, f.time) ==> f.time == mark.value && state.Some? && SameState(f.state, state.value)
  }

  // ----- Growing a record -----

  lemma AppendContext(trace: seq<Happening>, h: Happening, generation: nat, mark: Option<ProtocolTime>,
                      state: Option<Snapshot>)
    requires TraceSafe(trace) && Crested(trace, generation, mark, state)
    requires h.ContextSent? && Stamped(h.frame) && h.frame.association == generation && MayFollow(h.frame, mark, state)
    ensures TraceSafe(trace + [h])
    ensures if mark.None? || Before(mark.value, h.frame.time)
            then Crested(trace + [h], generation, Some(h.frame.time), Some(h.frame.state))
            else Crested(trace + [h], generation, mark, state)
  {
    hide Stamped;
    var t := trace + [h];
    hide GateOpen, CoveredIn, RequiredKnown;
    GuardedAppend(trace, h);
    forall i | 0 <= i < |trace| && trace[i].ContextSent? && trace[i].frame.association == generation
      ensures Follows(trace[i].frame, h.frame)
    {
      assert BelowMark(trace[i].frame, mark.value, state.value);
    }
    assert Reaches(t[|trace|], generation, h.frame.time, h.frame.state);
    ReachedGrows(trace, h, generation, mark, state);
  }

  lemma ReachedGrows(trace: seq<Happening>, h: Happening, generation: nat, mark: Option<ProtocolTime>,
                     state: Option<Snapshot>)
    requires Crested(trace, generation, mark, state)
    ensures mark.Some? ==>
              exists i :: 0 <= i < |trace + [h]| && Reaches((trace + [h])[i], generation, mark.value, state.value)
  {
    hide Reaches, BelowMark;
    if mark.Some? {
      var i :| 0 <= i < |trace| && Reaches(trace[i], generation, mark.value, state.value);
      assert Reaches((trace + [h])[i], generation, mark.value, state.value);
    }
  }

  lemma GuardedAppend(trace: seq<Happening>, h: Happening)
    requires Guarded(trace)
    requires h.DataHanded? ==> DataAllowed(trace, h.pin)
    ensures Guarded(trace + [h])
  {
    hide DataAllowed;
    var t := trace + [h];
    forall i | 0 <= i < |t| && t[i].DataHanded?
      ensures DataAllowed(t[..i], t[i].pin)
    {
      assert t[..i] == trace[..i];
      assert i == |trace| ==> t[..i] == trace;
    }
  }

  lemma AppendOther(trace: seq<Happening>, h: Happening, generation: nat, mark: Option<ProtocolTime>,
                    state: Option<Snapshot>)
    requires TraceSafe(trace) && Crested(trace, generation, mark, state)
    requires !h.ContextSent? && (h.DataHanded? ==> DataAllowed(trace, h.pin))
    ensures TraceSafe(trace + [h]) && Crested(trace + [h], generation, mark, state)
  {
    hide DataAllowed, Stamped, Follows, BelowMark, Reaches;
    GuardedAppend(trace, h);
    ReachedGrows(trace, h, generation, mark, state);
  }

  lemma GateGrows(trace: seq<Happening>, h: Happening)
    ensures OpensGate(h) ==> GateOpen(trace + [h])
    ensures GateOpen(trace) && !h.Started? && !h.Detached? ==> GateOpen(trace + [h])
  {
    hide OpensGate;
    var t := trace + [h];
    if OpensGate(h) {
      assert OpensGate(t[|trace|]);
    } else if GateOpen(trace) && !h.Started? && !h.Detached? {
      var k :| 0 <= k < |trace| && OpensGate(trace[k])
        && forall j :: k < j < |trace| ==> !trace[j].Started? && !trace[j].Detached?;
      assert OpensGate(t[k]);
    }
  }

  lemma CoverGrows(trace: seq<Happening>, h: Happening, id: nat, e: Event)
    ensures CoveredIn(trace + [h], id, e) <==> CoveredIn(trace, id, e) || Covers(h, id, e)
  {
    hide Covers;
    var t := trace + [h];
    if CoveredIn(trace, id, e) {
      var k :| 0 <= k < |trace| && Covers(trace[k], id, e);
      assert Covers(t[k], id, e);
    }
    if Covers(h, id, e) {
      assert Covers(t[|trace|], id, e);
    }
  }

  // ----- Published slots -----

  /** No publication failed, and every accepted revision has its Context on record. */
  ghost predicate Settled(slots: seq<Revision>, trace: seq<Happening>) {
    forall i :: 0 <= i < |slots| ==>
      slots[i].publication != Failed
        && (slots[i].committed && slots[i].publication == Accepted ==> CoveredIn(trace, slots[i].id, slots[i].event))
  }

  lemma SettledGrows(slots: seq<Revision>, trace: seq<Happening>, h: Happening)
    requires Settled(slots, trace)
    ensures Settled(slots, trace + [h])
  {
    hide CoveredIn;
    forall i | 0 <= i < |slots|
      ensures CoveredIn(trace, slots[i].id, slots[i].event) ==> CoveredIn(trace + [h], slots[i].id, slots[i].event)
    {
      CoverGrows(trace, h, slots[i].id, slots[i].event);
    }
  }

  /** A Context that stands for the leader covers every member of its consistent group. */
  lemma GroupCovered(slots: seq<Revision>, g: nat, i: nat, h: Happening)
    requires g < |slots| && i < |slots| && IsConsistent(slots, g) && InGroup(slots, g, i)
    requires h.ContextSent? && h.about == Some(GroupOf(slots, g))
    requires Stands(h.frame, h.now, h.current, GroupOf(slots, g))
    requires h.frame.association == slots[g].event.association == slots[i].event.association
    requires DistinctIds(slots) && slots[g].committed
    ensures Covers(h, slots[i].id, slots[i].event)
  {
    hide SameState, Stands, ContextTime;
    assert Agrees(slots[i], slots[g]);
    var group := GroupOf(slots, g);
    assert slots[i].id in group.members;
    if slots[i].event.timeKnown && slots[i].id in group.noted {
      var j :| 0 <= j < |slots| && InGroup(slots, g, j) && Depends(slots[j]) && slots[j].id == slots[i].id;
      assert j == i;
      if slots[i].id == slots[g].id {
        LeaderItself(slots, g, i);
      }
    }
  }

  lemma LeaderItself(slots: seq<Revision>, g: nat, i: nat)
    requires g < |slots| && i < |slots| && DistinctIds(slots) && slots[i].id == slots[g].id
    ensures slots[i].committed && slots[g].committed ==> SameState(slots[i].event.state, slots[g].event.state)
  {
  }

  /** Accepting the group a Context was sent for keeps every accepted revision on record. */
  lemma SettledByAccept(s: Store, g: nat, trace: seq<Happening>, h: Happening)
    requires WellFormed(s) && g < |s.slots| && Settled(s.slots, trace) && h in trace
    requires IsLeader(s.slots, g) && IsConsistent(s.slots, g)
    requires h.ContextSent? && h.about == Some(GroupOf(s.slots, g))
    requires Stands(h.frame, h.now, h.current, GroupOf(s.slots, g))
    requires h.frame.association == s.slots[g].event.association == s.generation
    ensures Settled(AcceptSlots(s.slots, g), trace)
  {
    hide CoveredIn, IsConsistent, Covers, Count, Stands, GroupOf;
    var t := AcceptSlots(s.slots, g);
    forall i | 0 <= i < |t| && Awaiting(s.slots[i]) && !Awaiting(t[i])
      ensures CoveredIn(trace, t[i].id, t[i].event)
    {
      AcceptMember(s.slots, g, i);
      assert SlotOk(s, s.slots[i]);
      GroupCovered(s.slots, g, i, h);
      OnRecord(trace, h, s.slots[i].id, s.slots[i].event);
    }
  }

  lemma OnRecord(trace: seq<Happening>, h: Happening, id: nat, e: Event)
    requires h in trace && Covers(h, id, e)
    ensures CoveredIn(trace, id, e)
  {
    hide Covers;
    var k :| 0 <= k < |trace| && trace[k] == h;
    assert Covers(trace[k], id, e);
  }
}
