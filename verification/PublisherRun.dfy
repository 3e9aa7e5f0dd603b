/**
 Every run of a publisher and its store, from construction on, under any calls and any answers of the
 transport (include/vita/runtime/context/publisher.hpp and revisions.hpp).
 */
module PublisherRuns {
  import opened Core
  import opened Time
  import opened ContextState
  import R = Revisions
  import opened RevisionStores
  import opened ContextTraces
  import opened Slots
  import opened PublisherLedgers
  import opened ContextPublishers

  /** Calls of the application on the store and the publisher. */
  datatype Call =
    | Reserve(count: nat)
    | Record(event: R.Event, token: nat)
    | GiveBack(token: nat)
    | Collect
    | TakeCurrent
    | CopyHandle(slot: nat)
    | DropHandle(slot: nat)
    | Start(at: nat)
    | Submit(packet: Packet, slot: nat, at: nat)
    | SubmitElsewhere(packet: Packet, at: nat)
    | Progress(at: nat, protocolNow: ProtocolTime, epoch: nat, usable: bool, calibrated: bool)
    | Pause
    | BackendFailed(observed: Snapshot)
    | TemporalFault
    | Detach(generation: nat)

  // ----- The store's own calls leave a publisher valid -----

  lemma ReserveEvolves(s: R.Store, count: nat)
    requires R.WellFormed(s)
    ensures Evolves(s.slots, R.Collect(s).slots)
    ensures R.Reserve(s, count).Ok? ==> Evolves(s.slots, R.Reserve(s, count).value.slots)
  {
    hide R.Count, R.Take;
    forall i | 0 <= i < |s.slots|
      ensures R.SlotOk(s, s.slots[i])
    {
    }
    R.TakePointwise(R.Collect(s).slots, count, s.nextReservation);
  }

  lemma RecordEvolves(s: R.Store, event: R.Event, token: nat)
    requires R.WellFormed(s)
    ensures Evolves(s.slots, R.Record(s, event, token).slots)
  {
    hide R.Count;
    forall i | 0 <= i < |s.slots|
      ensures R.SlotOk(s, s.slots[i])
    {
    }
  }

  lemma GiveBackEvolves(s: R.Store, token: nat)
    requires R.WellFormed(s)
    ensures Evolves(s.slots, R.GiveBack(s, token).slots)
  {
    hide R.Count;
    forall i | 0 <= i < |s.slots|
      ensures R.SlotOk(s, s.slots[i])
    {
    }
  }

  method ReserveIn(p: ContextPublisher, count: nat)
    requires p.Valid()
    modifies p.store`nextReservation, p.store.slots
    ensures p.Valid() && p.Core() == old(p.Core()).(store := p.store.State())
  {
    hide InOrder, R.WellFormed, Counted, Evolves, R.Collect, R.Reserve, R.UsedSlots, R.ReservedSlots, SpareOf;
    ghost var v := p.Core();
    StoreInOrder(v);
    ReserveEvolves(v.store, count);
    ReserveGeneration(v.store, count);
    var r := p.store.Reserve(count);
    if p.store.State() != v.store {
      StoreEvolves(v, p.store.State());
    }
  }

  lemma ReserveGeneration(s: R.Store, count: nat)
    ensures R.Collect(s).generation == s.generation
    ensures R.Reserve(s, count).Ok? ==> R.Reserve(s, count).value.generation == s.generation
  {
  }

  method RecordIn(p: ContextPublisher, event: R.Event, token: nat)
    requires p.Valid()
    modifies p.store`nextId, p.store`current, p.store`faulted, p.store.slots
    ensures p.Valid() && p.Core() == old(p.Core()).(store := R.Record(old(p.store.State()), event, token))
  {
    hide InOrder, R.WellFormed, Counted, Evolves, RequiredKnown, SpareOf;
    ghost var v := p.Core();
    StoreInOrder(v);
    RecordEvolves(v.store, event, token);
    p.store.Record(event, token);
    StoreEvolves(v, p.store.State());
  }

  method GiveBackIn(p: ContextPublisher, token: nat)
    requires p.Valid()
    modifies p.store.slots
    ensures p.Valid() && p.Core() == old(p.Core()).(store := R.GiveBack(old(p.store.State()), token))
  {
    hide InOrder, R.WellFormed, Counted, Evolves, SpareOf;
    ghost var v := p.Core();
    StoreInOrder(v);
    GiveBackEvolves(v.store, token);
    p.store.GiveBack(token);
    StoreEvolves(v, p.store.State());
  }

  method RetainIn(p: ContextPublisher, slot: nat)
    requires p.Valid() && slot < p.store.slots.Length && p.store.slots[slot].committed
    modifies p.store`live, p.store.slots
    ensures p.Valid() && Retained(old(p.store.State()), p.store.State(), slot)
    ensures p.Core() == old(p.Core()).(store := p.store.State(), live := p.store.live)
  {
    hide InOrder, R.WellFormed, Counted, OnlyCounts, SpareOf, HeldPins, InRange;
    ghost var v := p.Core();
    StoreInOrder(v);
    HandlesBelow(v);
    p.store.Retain(slot);
    RetainedCounts(v.store, p.store.State(), slot);
    CountsMove(v, p.store.slots[..], p.store.live);
  }

  lemma RetainedCounts(s: R.Store, t: R.Store, slot: nat)
    requires Retained(s, t, slot)
    ensures OnlyCounts(s.slots, t.slots) && t == s.(slots := t.slots)
  {
  }

  // ----- Handles of the application -----

  function HeldOn(h: seq<Option<Held>>, slot: nat): nat {
    if h == [] then 0
    else HeldOn(h[..|h| - 1], slot) + if h[|h| - 1].Some? && h[|h| - 1].value.slot == slot then 1 else 0
  }

  lemma {:induction false} HeldOnCounts(h: seq<Option<Held>>, slots: seq<R.Revision>, slot: nat)
    requires InRange(h, |slots|) && slot < |slots|
    ensures HeldPins(h, slots)[PinOf(slots, slot)] == HeldOn(h, slot)
  {
    if h != [] {
      HeldOnCounts(h[..|h| - 1], slots, slot);
    }
  }

  /** The application has a handle on the slot when there are more handles than the queue owns. */
  method HasHandle(p: ContextPublisher, slot: nat) returns (has: bool)
    requires p.Valid()
    ensures has ==> p.Lends(slot) && p.store.slots[slot].committed
  {
    hide InOrder, R.WellFormed;
    if slot >= p.store.slots.Length {
      return false;
    }
    has := p.store.slots[slot].references > HeldOn(p.held[..], slot);
    if has {
      MoreThanHeld(p.Core(), slot);
    }
  }

  lemma MoreThanHeld(v: Ledger, slot: nat)
    requires InOrder(v) && slot < |v.store.slots| && v.store.slots[slot].references > HeldOn(v.queue, slot)
    ensures PinOf(v.store.slots, slot) in SpareOf(v) && v.store.slots[slot].committed
  {
    StoreInOrder(v);
    QueueInRange(v);
    hide InOrder, R.WellFormed;
    HeldOnCounts(v.queue, v.store.slots, slot);
    assert v.store.slots[slot].references == v.live[PinOf(v.store.slots, slot)];
    assert PinOf(v.store.slots, slot) in v.live;
  }

  /** One call; handle calls need a handle of the application, others are made as they are. */
  method Perform(p: ContextPublisher, call: Call)
    requires p.Valid()
    modifies p, p.held, p.store, p.store.slots
    ensures p.Valid() && old(p.trace) <= p.trace
  {
    hide InOrder, R.WellFormed, Counted, Halted, Cleared, SubmitOutcome, GaveUp, AllClear, Excused, SpareOf, OnlyCounts,
         HeldItems, RequiredKnown;
    ghost var v := p.Core();
    match call
    case Start(at) =>
      var r := p.Start(at);
    case Submit(packet, slot, at) => SubmitIn(p, packet, slot, at);
    case SubmitElsewhere(packet, at) =>
      var r := p.Submit(packet, Elsewhere, at);
    case Progress(at, protocolNow, epoch, usable, calibrated) =>
      var r := p.Progress(at, protocolNow, epoch, usable, calibrated);
    case Detach(generation) => DetachIn(p, generation);
    case Pause => StopIn(p, call);
    case BackendFailed(_) => StopIn(p, call);
    case TemporalFault => StopIn(p, call);
    case _ => PerformOnStore(p, call);
  }

  method SubmitIn(p: ContextPublisher, packet: Packet, slot: nat, at: nat)
    requires p.Valid()
    modifies p, p.held, p.store, p.store.slots
    ensures p.Valid() && old(p.trace) <= p.trace
  {
    hide InOrder, R.WellFormed, SubmitOutcome, SpareOf, RequiredKnown;
    var has := HasHandle(p, slot);
    if has {
      ghost var v, admits := p.Core(), p.Admits(slot);
      var r := p.Submit(packet, At(slot), at);
      if admits {
        SubmitFacts(v, p.Core(), p.held.Length, packet, slot, r);
      }
    }
  }

  method DetachIn(p: ContextPublisher, generation: nat)
    requires p.Valid()
    modifies p, p.held, p.store, p.store.slots
    ensures p.Valid() && old(p.trace) <= p.trace
  {
    hide InOrder, R.WellFormed, Halted, R.Detach;
    var r := p.Detach(generation);
  }

  method StopIn(p: ContextPublisher, call: Call)
    requires p.Valid()
    modifies p, p.held, p.store, p.store.slots
    ensures p.Valid() && p.trace == old(p.trace)
  {
    hide InOrder, Halted, OnlyCounts, SpareOf, HeldItems, RequiredKnown;
    ghost var v := p.Core();
    match call
    case Pause =>
      p.Pause();
      if p.Core() != v {
        HaltedFacts(v, p.Core(), Idle);
      }
    case BackendFailed(observed) =>
      p.BackendFailed(observed);
      HaltedFacts(v.(store := v.store.(faulted := true)), p.Core(), BackendFault);
    case TemporalFault =>
      p.TemporalFault();
      HaltedFacts(v, p.Core(), TemporalAssociation);
    case _ =>
  }

  /** The calls that go to the revision store and its handles. */
  method PerformOnStore(p: ContextPublisher, call: Call)
    requires p.Valid()
    modifies p, p.held, p.store, p.store.slots
    ensures p.Valid() && p.trace == old(p.trace)
  {
    hide InOrder, R.WellFormed, Counted, SpareOf, OnlyCounts, R.Record, R.Collect, R.GiveBack, Retained;
    match call
    case Reserve(count) => ReserveIn(p, count);
    case Record(event, token) => RecordIn(p, event, token);
    case GiveBack(token) => GiveBackIn(p, token);
    case Collect => p.Collect();
    case TakeCurrent =>
      StoreInOrder(p.Core());
      CurrentCommitted(p.store.State());
      if p.store.current.Some? {
        RetainIn(p, p.store.current.value);
      }
    case CopyHandle(slot) =>
      var has := HasHandle(p, slot);
      if has {
        RetainIn(p, slot);
      }
    case DropHandle(slot) =>
      var has := HasHandle(p, slot);
      if has {
        p.GiveUp(slot);
      }
    case _ =>
  }

  lemma CurrentCommitted(s: R.Store)
    requires R.WellFormed(s)
    ensures s.current.Some? ==> s.current.value < |s.slots| && s.slots[s.current.value].committed
  {
  }

  /**
   From construction on, whatever is called and whatever the transport answers, the record is safe, and every packet
   accepted was taken by the transport once, is held, or was discarded when the stream stopped.
   */
  method Run(capacity: nat, generation: nat, queue: nat, bound: bool, calls: seq<Call>) returns (p: ContextPublisher)
    requires capacity > 0
    ensures p.Valid() && TraceSafe(p.trace)
    ensures p.accepted == Handed(p.trace) + HeldItems(p.held[..], p.store.slots[..]) + p.discarded
    ensures p.status != Active ==> forall i :: 0 <= i < p.held.Length ==> p.held[i].None?
  {
    hide InOrder, TraceSafe;
    var store := new RevisionStore(capacity, generation);
    p := new ContextPublisher(store, bound, queue);
    for i := 0 to |calls|
      invariant p.Valid() && fresh(p) && fresh(p.held) && fresh(p.store) && fresh(p.store.slots)
    {
      Perform(p, calls[i]);
    }
    SafeAndConserved(p.Core());
  }

  lemma SafeAndConserved(v: Ledger)
    requires InOrder(v)
    ensures TraceSafe(v.trace) && v.accepted == Handed(v.trace) + HeldItems(v.queue, v.store.slots) + v.discarded
    ensures v.status != Active ==> forall i :: 0 <= i < |v.queue| ==> v.queue[i].None?
  {
    hide HandlesLive, TraceSafe, Crested, Settled, Steady, GateOpen, HeldItems, Handed, Occupied;
    OccupiedBounds(v.queue);
  }
}
