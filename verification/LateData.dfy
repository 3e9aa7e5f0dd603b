/**
 Under which state timed Data travels: its own when Data or loss was tied to the revision before its group was
 published, otherwise that of the group's latest revision
 (include/vita/runtime/context/revisions.hpp, publication_group; include/vita/runtime/context/publisher.hpp, submit).
 */
module LateData {
  import opened Core
  import opened Time
  import opened ContextState
  import opened Revisions
  import opened ContextTraces
  import Runs = RevisionRuns

  /** The frame shows a state, indicators apart. */
  predicate Displays(f: Frame, state: Snapshot) {
    SameFields(f.state, state)
  }

  /** Two states agree, indicators apart. */
  predicate SameFields(a: Snapshot, b: Snapshot) {
    SameState(a.(events := b.events), b)
  }

  /**
   Timed Data always has an accepted Context of its time and ordinal, and that Context shows the state of its own
   revision if and only if the dependency was noted before acceptance or the leader's state is the same.
   */
  lemma DataState(trace: seq<Happening>, i: nat) returns (k: nat)
    requires TraceSafe(trace) && i < |trace| && trace[i].DataHanded? && trace[i].pin.event.timeKnown
    ensures k < i && Covers(trace[k], trace[i].pin.id, trace[i].pin.event)
    ensures trace[k].frame.time == ContextTime(trace[i].pin.event)
    ensures Displays(trace[k].frame, trace[i].pin.event.state) <==>
            trace[i].pin.id in trace[k].about.value.noted
            || SameFields(trace[k].about.value.leader.state, trace[i].pin.event.state)
  {
    hide GateOpen, Ordered, AllStamped, RequiredKnown;
    var pin := trace[i].pin;
    assert DataAllowed(trace[..i], pin);
    k :| 0 <= k < i && Covers(trace[..i][k], pin.id, pin.event);
    assert trace[k] == trace[..i][k];
  }

  const START := Store([BLANK, BLANK], 1, 1, 1, None, false)

  /** Two revisions of one time and ordinal, without loss, in different states. */
  predicate Differing(a: Event, b: Event, now: ProtocolTime) {
    && a.association == 1 && b.association == 1 && a.timeKnown && b.timeKnown
    && ContextTime(a) == now && ContextTime(b) == now
    && a.sampleOrdinal == b.sampleOrdinal && a.ordinalKnown == b.ordinalKnown
    && RequiredKnown(a.state) && RequiredKnown(b.state)
    && !a.state.events.word.loss && !b.state.events.word.loss
    && !SameFields(b.state, a.state)
  }

  /** A reserved slot that took an event as revision `id`. */
  function Taken(event: Event, id: nat): Revision {
    Revision(event, id, 1, 0, Pending, true, true, false, false)
  }

  lemma ThreeSteps(s: Store, x: Runs.Step, y: Runs.Step, z: Runs.Step)
    ensures Runs.Run(s, [x, y, z]) == Runs.Apply(Runs.Apply(Runs.Apply(s, x), y), z)
  {
    hide Runs.Apply;
    var steps := [x, y, z];
    assert steps[1..] == [y, z] && [y, z][1..] == [z] && [z][1..] == [];
    var t := Runs.Apply(s, x);
    var u := Runs.Apply(t, y);
    assert Runs.Run(u, [z]) == Runs.Run(Runs.Apply(u, z), []);
    assert Runs.Run(t, [y, z]) == Runs.Run(u, [z]);
  }

  /** Both revisions recorded, neither published. */
  lemma BothRecorded(a: Event, b: Event, now: ProtocolTime)
    requires Differing(a, b, now)
    ensures Runs.Run(START, [Runs.Reserve(2), Runs.Record(a, 1), Runs.Record(b, 1)]) ==
            Store([Taken(a, 1), Taken(b, 2)], 1, 3, 2, Some(1), false)
  {
    hide RequiredKnown, SameState, ContextTime;
    var steps := [Runs.Reserve(2), Runs.Record(a, 1), Runs.Record(b, 1)];
    assert Collect(START) == START;
    assert START.slots[..0] == [] && START.slots[..1] == [BLANK];
    var m := Mark(BLANK, 1);
    assert Count([BLANK], IsFree) == 1 && Count([], IsFree) == 0;
    assert Count(START.slots, IsFree) == 2 && Count(START.slots, IsReserved) == 0;
    assert Take(START.slots, 2, 1) == [m, m];
    var r := START.(slots := [m, m], nextReservation := 2);
    assert Runs.Apply(START, steps[0]) == r;
    assert FirstFor(r.slots, 1) == Some(0);
    var s := Runs.Apply(r, steps[1]);
    assert s == Store([Taken(a, 1), m], 1, 2, 2, Some(0), false);
    assert FirstFor(s.slots, 1) == Some(1);
    var t := Runs.Apply(s, steps[2]);
    assert t == Store([Taken(a, 1), Taken(b, 2)], 1, 3, 2, Some(1), false);
    ThreeSteps(START, steps[0], steps[1], steps[2]);
  }

  /**
   The harder promise, that the Context of timed Data shows its own revision, fails: two revisions of one time are
   published together as the later one, and only then Data is submitted for the earlier.
   */
  lemma LateDataTravelsUnderTheLeader(a: Event, b: Event, now: ProtocolTime, packet: Packet)
    requires Differing(a, b, now)
    ensures var s := Runs.Run(START, [Runs.Reserve(2), Runs.Record(a, 1), Runs.Record(b, 1)]);
            var slots := [Taken(a, 1), Taken(b, 2)];
            && s.slots == slots && IsLeader(slots, 1) && IsConsistent(slots, 1)
            && var h := ContextSent(FrameOf(slots[1], 1, false, now, false), now, Some(Pin(1, 2, b)),
                                    Some(GroupOf(slots, 1)));
            var pin := Pin(0, 1, a);
            && Runs.Run(s, [Runs.Accept(1), Runs.Retain(0), Runs.Note(0)]).slots[0] ==
               Taken(a, 1).(publication := Accepted, references := 1, dependency := true)
            && TraceSafe([Started, h, DataHanded(packet, pin, true)]) && !Displays(h.frame, a.state)
  {
    BothRecorded(a, b, now);
    var slots := [Taken(a, 1), Taken(b, 2)];
    Consistent(a, b, now);
    AfterAcceptance(a, b, now);
    SafeRecord(a, b, now, packet);
  }

  lemma Consistent(a: Event, b: Event, now: ProtocolTime)
    requires Differing(a, b, now)
    ensures IsLeader([Taken(a, 1), Taken(b, 2)], 1) && IsConsistent([Taken(a, 1), Taken(b, 2)], 1)
  {
    hide RequiredKnown, SameState, ContextTime;
  }

  lemma AfterAcceptance(a: Event, b: Event, now: ProtocolTime)
    requires Differing(a, b, now)
    ensures Runs.Run(Store([Taken(a, 1), Taken(b, 2)], 1, 3, 2, Some(1), false),
                     [Runs.Accept(1), Runs.Retain(0), Runs.Note(0)]).slots[0] ==
            Taken(a, 1).(publication := Accepted, references := 1, dependency := true)
  {
    hide RequiredKnown, SameState, ContextTime;
    var s := Store([Taken(a, 1), Taken(b, 2)], 1, 3, 2, Some(1), false);
    var steps := [Runs.Accept(1), Runs.Retain(0), Runs.Note(0)];
    var t := Runs.Apply(s, steps[0]);
    assert t.slots[0] == Taken(a, 1).(publication := Accepted);
    var u := Runs.Apply(t, steps[1]);
    var v := Runs.Apply(u, steps[2]);
    ThreeSteps(s, steps[0], steps[1], steps[2]);
  }

  lemma SafeRecord(a: Event, b: Event, now: ProtocolTime, packet: Packet)
    requires Differing(a, b, now)
    ensures var slots := [Taken(a, 1), Taken(b, 2)];
            var h := ContextSent(FrameOf(slots[1], 1, false, now, false), now, Some(Pin(1, 2, b)),
                                 Some(GroupOf(slots, 1)));
            TraceSafe([Started, h, DataHanded(packet, Pin(0, 1, a), true)]) && !Displays(h.frame, a.state)
  {
    var slots := [Taken(a, 1), Taken(b, 2)];
    var h := ContextSent(FrameOf(slots[1], 1, false, now, false), now, Some(Pin(1, 2, b)), Some(GroupOf(slots, 1)));
    Consistent(a, b, now);
    GroupCovered(slots, 1, 0, h);
    hide RequiredKnown, SameState, ContextTime, GroupOf;
    RecordOfTwo(h);
    OnRecord([Started, h], h, 1, a);
    var handed := DataHanded(packet, Pin(0, 1, a), true);
    assert DataAllowed([Started, h], Pin(0, 1, a));
    hide FrameOf, DataAllowed, Crested, TraceSafe;
    AppendOther([Started, h], handed, 1, Some(h.frame.time), Some(h.frame.state));
    assert [Started, h] + [handed] == [Started, h, handed];
  }

  /** The first Context of an association, one that opens the gate. */
  lemma RecordOfTwo(h: Happening)
    requires h.ContextSent? && Stamped(h.frame) && h.frame.association == 1 && OpensGate(h)
    ensures var trace := [Started, h];
            && TraceSafe(trace) && Crested(trace, 1, Some(h.frame.time), Some(h.frame.state)) && GateOpen(trace)
  {
    hide RequiredKnown, SameState, ContextTime;
    AppendOther([], Started, 1, None, None);
    assert [] + [Started] == [Started];
    AppendContext([Started], h, 1, None, None);
    assert [Started] + [h] == [Started, h];
    GateGrows([Started], h);
  }
}
