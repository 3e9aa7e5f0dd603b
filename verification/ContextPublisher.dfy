/**
 The publisher that orders Context before Data
 (include/vita/runtime/context/publisher.hpp, ContextPublisher).
 */
module ContextPublishers {
  import opened Core
  import opened Time
  import opened ContextState
  import opened Revisions
  import opened RevisionStores
  import opened ContextTraces
  import opened Slots
  import opened PublisherLedgers

  const BLOCK_NS: nat := 10_000_000
  const REFRESH_NS: nat := 1_000_000_000

  class ContextPublisher {
    const store: RevisionStore
    const bound: bool
    const held: array<Option<Held>>
    var heldCount: nat
    var status: Status
    var blockedSince: Option<nat>
    var refreshAt: nat
    var refreshStarted: bool
    var invalidSent: bool
    var startGate: bool
    var startingRun: bool
    var calibrated: bool
    var highwater: Option<ProtocolTime>
    var highwaterState: Option<Snapshot>
    var faultSnapshot: Option<Snapshot>
    /** What happened so far, in order. */
    ghost var trace: seq<Happening>
    /** Packets that were accepted, and those of them that were discarded. */
    ghost var accepted: multiset<Item>
    ghost var discarded: multiset<Item>

    ghost function Core(): Ledger
      reads this, store, store.slots, held
    {
      Ledger(store.State(), store.live, held[..], heldCount, status, startGate, highwater, highwaterState, trace,
             accepted, discarded)
    }

    ghost predicate Valid()
      reads this, store, store.slots, held
    {
      InOrder(Core())
    }

    /** The handles in the store and the queue agree. */
    ghost predicate Loose()
      reads this, store, store.slots, held
    {
      HandlesLive(store.State(), store.live, held[..])
    }

    constructor (store: RevisionStore, bound: bool, capacity: nat)
      requires store.Valid() && forall i :: 0 <= i < store.slots.Length ==> store.slots[i].publication == Pending
      ensures Valid() && fresh(held) && this.store == store && this.bound == bound && held.Length == capacity
      ensures trace == [] && accepted == discarded == multiset{} && status == Idle && highwater.None?
    {
      this.store, this.bound := store, bound;
      held := new Option<Held>[capacity](_ => None);
      heldCount, status, blockedSince, refreshAt := 0, Idle, None, 0;
      refreshStarted, invalidSent, startGate, startingRun, calibrated := false, false, true, true, false;
      highwater, highwaterState, faultSnapshot := None, None, None;
      trace, accepted, discarded := [], multiset{}, multiset{};
      new;
      hide WellFormed, Counted, InRange, HeldPins, HeldItems, Occupied, Steady, TraceSafe, Crested, Settled;
      OccupiedBounds(held[..]);
      NoPins(held[..], store.slots[..]);
      NoItems(held[..], store.slots[..]);
      NothingRecorded(store.State());
    }

    // ----- Stopping -----

    /** Empties one place of the queue and drops its handle. */
    method DropHeld(i: nat)
      requires Loose() && i < held.Length && held[i].Some?
      modifies held, store`live, store.slots
      ensures Loose() && PlaceDropped(old(Core()), Core(), i) && Emptied(old(Core()), Core())
      ensures store.Valid()
    {
      hide WellFormed, Counted, HeldPins, HeldItems, InRange, SpareOf, OnlyCounts;
      ghost var v := Core();
      PlaceIsLive(v, i);
      var slot := held[i].value.slot;
      held[i] := None;
      store.Release(slot);
      assert Core().queue == v.queue[i := None];
      DropKeeps(v, Core(), i);
    }

    method DropAll()
      requires Loose()
      modifies held, store`live, store.slots
      ensures Emptied(old(Core()), Core())
      ensures forall i :: 0 <= i < held.Length ==> held[i].None?
    {
      hide HandlesLive, OnlyCounts, HeldItems, WellFormed, Counted, Emptied, PlaceDropped, SpareOf;
      ghost var begin := Core();
      EmptiedSelf(begin);
      for i := 0 to held.Length
        invariant Loose() && Emptied(begin, Core())
        invariant forall j :: 0 <= j < i ==> held[j].None?
      {
        if held[i].Some? {
          ghost var was := Core();
          DropHeld(i);
          EmptiedTrans(begin, was, Core());
          OthersStay(was, Core(), i);
        }
      }
    }

    /** Ends streaming: every held packet is discarded. */
    method Stop(reason: Status)
      requires Loose()
      modifies this`status, this`heldCount, this`discarded, held, store`live, store.slots
      ensures Loose() && Halted(old(Core()), Core(), reason)
    {
      hide HandlesLive, Emptied, Halted, HeldItems;
      ghost var v := Core();
      DropAll();
      ghost var w := Core();
      status, heldCount := reason, 0;
      discarded := discarded + HeldItems(v.queue, v.store.slots);
      EmptiedHalts(v, w, reason, Core());
    }

    /** Stopping keeps the record safe. */
    method Halt(reason: Status)
      requires Valid() && reason != Active
      modifies this`status, this`heldCount, this`discarded, held, store`live, store.slots
      ensures Valid() && Halted(old(Core()), Core(), reason)
    {
      hide InOrder, HandlesLive, Halted;
      ghost var v := Core();
      HandlesInOrder(v);
      Stop(reason);
      HaltKeeps(v, Core(), reason);
    }

    /** The store has a complete current revision and no fault. */
    ghost predicate Startable()
      reads this, store, store.slots
    {
      && !store.faulted && store.current.Some? && store.current.value < store.slots.Length
      && RequiredKnown(store.slots[store.current.value].event.state)
    }

    method Start(now: nat) returns (r: Result<()>)
      requires Valid()
      modifies this`trace, this`status, this`refreshAt, this`refreshStarted, this`startGate, this`startingRun,
        this`blockedSince
      ensures Valid()
      ensures r.Ok? <==> old(status) == Idle && bound && Startable()
      ensures r.Ok? ==> Core() == StartedAnew(old(Core()))
      ensures r.Ok? ==> startingRun && blockedSince == Some(now) && !refreshStarted
      ensures r.Err? ==> r.error == InvalidState && Core() == old(Core())
    {
      hide InOrder, WellFormed, Counted, RequiredKnown;
      PublisherLedgers.StoreInOrder(Core());
      if store.current.None? || store.faulted || !RequiredKnown(store.slots[store.current.value].event.state) {
        return Err(InvalidState);
      }
      if !bound || status != Idle {
        return Err(InvalidState);
      }
      ghost var v := Core();
      StartKeeps(v);
      SetTimers(now);
      status, startGate := Active, true;
      trace := trace + [Started];
      assert Core() == StartedAnew(v);
      return Ok(());
    }

    method SetTimers(now: nat)
      modifies this`refreshAt, this`refreshStarted, this`startingRun, this`blockedSince
      ensures refreshAt == now && !refreshStarted && startingRun && blockedSince == Some(now)
    {
      refreshAt, refreshStarted, startingRun, blockedSince := now, false, true, Some(now);
    }

    method BackendFailed(observed: Snapshot)
      requires Valid()
      modifies this`status, this`heldCount, this`discarded, this`faultSnapshot, held, store`live, store`faulted,
        store.slots
      ensures Valid() && faultSnapshot == Some(observed)
      ensures Halted(old(Core()).(store := old(store.State()).(faulted := true)), Core(), BackendFault)
    {
      faultSnapshot := Some(observed);
      MarkFault();
      Halt(BackendFault);
    }

    method MarkFault()
      requires Valid()
      modifies store`faulted
      ensures Valid() && Core() == old(Core()).(store := old(store.State()).(faulted := true))
    {
      ghost var v := Core();
      PublisherLedgers.StoreInOrder(v);
      hide InOrder, WellFormed, Counted;
      store.Fault();
      FaultEvolves(v.store);
      StoreEvolves(v, store.State());
    }

    method TemporalFault()
      requires Valid()
      modifies this`status, this`heldCount, this`discarded, held, store`live, store.slots
      ensures Valid() && Halted(old(Core()), Core(), TemporalAssociation)
    {
      Halt(TemporalAssociation);
    }

    method Pause()
      requires Valid()
      modifies this`status, this`heldCount, this`blockedSince, this`discarded, held, store`live, store.slots
      ensures Valid()
      ensures if old(status) in {Active, ContextUnavailable} && old(Startable())
              then Halted(old(Core()), Core(), Idle) && blockedSince.None?
              else Core() == old(Core()) && blockedSince == old(blockedSince)
    {
      hide InOrder, WellFormed, Counted, RequiredKnown, Halted;
      PublisherLedgers.StoreInOrder(Core());
      if status == Active || status == ContextUnavailable {
        if store.current.Some? && !store.faulted && RequiredKnown(store.slots[store.current.value].event.state) {
          Halt(Idle);
          blockedSince := None;
        }
      }
    }

    // ----- Context -----

    /** Offers a frame to the transport; acceptance is its choice. */
    method Send(frame: Frame, now: ProtocolTime, ghost about: Option<Group>) returns (sent: Result<()>)
      modifies this`trace, this`highwater, this`highwaterState
      ensures Core() == Sent(old(Core()), sent.Ok?, frame, now, about)
    {
      sent := *;
      trace := trace + [Answered(sent.Ok?, frame, now, CurrentOf(store.State()), about)];
      if sent.Ok? {
        if highwater.None? || Before(highwater.value, frame.time) {
          highwater, highwaterState := Some(frame.time), Some(frame.state);
        }
      }
    }

    /** Offers a frame of the present time, later than the mark. */
    method SendPast(frame: Frame, now: ProtocolTime) returns (sent: Result<()>)
      requires Valid() && Stamped(frame) && frame.association == store.generation
      requires highwater.Some? ==> Before(highwater.value, frame.time)
      modifies this`trace, this`highwater, this`highwaterState
      ensures Valid() && Core() == Sent(old(Core()), sent.Ok?, frame, now, None)
    {
      hide InOrder, Stamped, Before, MayFollow, Sent;
      PastMark(frame, highwater, highwaterState);
      SentKeeps(Core(), false, frame, now, None);
      SentKeeps(Core(), true, frame, now, None);
      sent := Send(frame, now, None);
    }

    /** Publishes the next group; the answer says whether there was one. */
    method PublishNext(now: nat, protocolNow: ProtocolTime, epoch: nat)
      returns (r: Result<bool>, ghost g: nat, ghost f: Frame)
      requires Valid() && status == Active && !store.faulted
      modifies this`trace, this`highwater, this`highwaterState, this`refreshAt, this`refreshStarted, this`startGate,
        this`blockedSince, this`status, this`heldCount, this`discarded, held, store`live, store.slots
      ensures Valid()
      ensures r == Ok(false) <==> NothingAwaits(old(store.slots[..]))
      ensures r == Ok(false) ==> Core() == old(Core())
      ensures r == Ok(true) ==> Count(store.slots[..], Awaiting) < Count(old(store.slots[..]), Awaiting)
      ensures r != Ok(false) ==>
                && g < store.slots.Length && IsLeader(old(store.slots[..]), g)
                && if !IsConsistent(old(store.slots[..]), g) then
                     r == Err(IdentityConflict) && Halted(old(Core()), Core(), TemporalAssociation)
                   else LeaderOutcome(old(Core()), Core(), g, startingRun, f, protocolNow, epoch, calibrated,
                                      ErrorOf(r))
    {
      hide InOrder, WellFormed, Counted, Count, IsLeader, IsConsistent, RequiredKnown, LeaderOutcome, Halted;
      PublisherLedgers.StoreInOrder(Core());
      g, f := 0, *;
      var next := store.PublicationGroup();
      if next.Err? {
        if next.error == IdentityConflict {
          g :| 0 <= g < store.slots.Length && IsLeader(store.slots[..], g) && !IsConsistent(store.slots[..], g);
          LeaderInStore(store.State(), g);
          TemporalFault();
          return Err(IdentityConflict), g, f;
        }
        return Ok(false), g, f;
      }
      g := next.value;
      LeaderInStore(store.State(), next.value);
      if blockedSince.None? {
        blockedSince := Some(now);
      }
      var published;
      published, f := PublishLeader(next.value, now, protocolNow, epoch);
      r := match published case Ok(_) => Ok(true) case Err(code) => Err(code);
    }

    /** Publishes the group of a leader unless its Context would contradict what went before. */
    method PublishLeader(g: nat, now: nat, protocolNow: ProtocolTime, epoch: nat)
      returns (r: Result<()>, ghost f: Frame)
      requires Valid() && status == Active && !store.faulted
      requires g < store.slots.Length && IsLeader(store.slots[..], g) && IsConsistent(store.slots[..], g)
      requires store.slots[g].event.association == store.generation && store.slots[g].committed
      requires RequiredKnown(store.slots[g].event.state)
      modifies this`trace, this`highwater, this`highwaterState, this`refreshAt, this`refreshStarted, this`startGate,
        this`status, this`heldCount, this`discarded, held, store`live, store.slots
      ensures Valid()
      ensures LeaderOutcome(old(Core()), Core(), g, startingRun, f, protocolNow, epoch, calibrated, ErrorOf(r))
      ensures r.Ok? ==> Count(store.slots[..], Awaiting) < Count(old(store.slots[..]), Awaiting)
      ensures r.Ok? ==> refreshStarted && refreshAt == now
    {
      hide InOrder, WellFormed, Counted, Count, IsLeader, IsConsistent, RequiredKnown, Halted, Stamped, Stands, GroupOf,
           MayFollow, Published, Sent, SameState, Before;
      f := *;
      PublisherLedgers.StoreInOrder(Core());
      if !store.slots[g].event.timeKnown {
        if !startingRun {
          TemporalFault();
          return Err(InvalidState), f;
        }
        if store.current.None? {
          return Err(InvalidState), f;
        }
      }
      var outgoing := Outgoing(g, protocolNow, epoch);
      f := outgoing;
      MarkAllows(outgoing, highwater, highwaterState);
      if highwater.Some? && !Before(highwater.value, outgoing.time)
         && (Before(outgoing.time, highwater.value) || highwaterState.None?
             || !SameState(outgoing.state, highwaterState.value)) {
        TemporalFault();
        return Err(IdentityConflict), f;
      }
      r := Publish(g, outgoing, now, protocolNow);
    }

    /** The frame for a group: its own time, or at the start of a run an observation of the present state. */
    method Outgoing(g: nat, protocolNow: ProtocolTime, epoch: nat) returns (outgoing: Frame)
      requires store.Valid() && !store.faulted
      requires g < store.slots.Length && store.slots[g].event.association == store.generation
      requires RequiredKnown(store.slots[g].event.state)
      requires !store.slots[g].event.timeKnown ==> store.current.Some?
      ensures Stamped(outgoing) && outgoing.valid && outgoing.association == store.generation
      ensures Stands(outgoing, protocolNow, CurrentOf(store.State()), GroupOf(store.slots[..], g))
      ensures Dated(outgoing, epoch, calibrated)
    {
      hide WellFormed, Counted, Stamped, FrameOf, ShowsRevision, RequiredKnown, Observation;
      CurrentInStore(store.State());
      outgoing := FrameOf(store.slots[g], epoch, false, protocolNow, calibrated);
      FrameFacts(store.slots[g], epoch, protocolNow, calibrated);
      if !outgoing.timeKnown {
        outgoing := Observation(store.slots[store.current.value], epoch, protocolNow, calibrated);
        FrameFacts(store.slots[store.current.value], epoch, protocolNow, calibrated);
      }
    }

    /** Sends the Context of a group and, once accepted, marks the group and perhaps opens the gate. */
    method Publish(g: nat, outgoing: Frame, now: nat, protocolNow: ProtocolTime) returns (r: Result<()>)
      requires Valid() && status == Active
      requires g < store.slots.Length && IsLeader(store.slots[..], g) && IsConsistent(store.slots[..], g)
      requires store.slots[g].event.association == store.generation && store.slots[g].committed
      requires Stamped(outgoing) && outgoing.valid && outgoing.association == store.generation
      requires MayFollow(outgoing, highwater, highwaterState)
      requires Stands(outgoing, protocolNow, CurrentOf(store.State()), GroupOf(store.slots[..], g))
      modifies this`trace, this`highwater, this`highwaterState, this`refreshAt, this`refreshStarted, this`startGate,
        store.slots
      ensures Valid()
      ensures Core() == if r.Ok? then Published(old(Core()), g, outgoing, protocolNow)
                        else Sent(old(Core()), false, outgoing, protocolNow, Some(GroupOf(old(store.slots[..]), g)))
      ensures r.Ok? ==> Count(store.slots[..], Awaiting) < Count(old(store.slots[..]), Awaiting)
      ensures r.Ok? ==> refreshStarted && refreshAt == now
    {
      hide InOrder, WellFormed, Counted, Stamped, Count, IsLeader, IsConsistent, Stands, GroupOf, MayFollow,
           ShowsRevision, AcceptSlots;
      ghost var v, group := Core(), GroupOf(store.slots[..], g);
      PublisherLedgers.StoreInOrder(v);
      StandsTimed(outgoing, protocolNow, CurrentOf(v.store), group);
      SentKeeps(v, false, outgoing, protocolNow, Some(group));
      var sent := Send(outgoing, protocolNow, Some(group));
      if sent.Err? {
        return sent;
      }
      var marked := store.AcceptGroup(At(g));
      refreshAt, refreshStarted := now, true;
      if startGate && store.current.Some? && outgoing.timeKnown && outgoing.time == protocolNow
         && outgoing.revision == store.slots[store.current.value].id {
        startGate := false;
      }
      IdsStay(v.store, g);
      PublishedKeeps(v, g, outgoing, protocolNow);
      return Ok(());
    }

    /** Publishes groups until none is left. */
    method PublishAll(now: nat, protocolNow: ProtocolTime, epoch: nat) returns (r: Result<()>)
      requires Valid() && status == Active && !store.faulted
      modifies this`trace, this`highwater, this`highwaterState, this`refreshAt, this`refreshStarted, this`startGate,
        this`blockedSince, this`status, this`heldCount, this`discarded, held, store`live, store.slots
      ensures Valid() && old(trace) <= trace && store.faulted == old(store.faulted)
      ensures r.Ok? ==> status == Active && NothingAwaits(store.slots[..]) && discarded == old(discarded)
      ensures r.Err? ==> Excused(old(Core()), Core())
    {
      hide InOrder, WellFormed, Counted, Count, LeaderOutcome, IsLeader, IsConsistent, Halted, NothingAwaits;
      ghost var v := Core();
      for i := 0 to store.slots.Length
        invariant Valid() && status == Active && v.trace <= trace && discarded == v.discarded
        invariant Count(store.slots[..], Awaiting) + i <= store.slots.Length
      {
        ghost var was := Core();
        var turn, g, f := PublishNext(now, protocolNow, epoch);
        if turn.Err? {
          TurnExcused(v, was, Core(), g, startingRun, f, protocolNow, epoch, calibrated, ErrorOf(turn));
          return Err(turn.error);
        }
        if !turn.value {
          return Ok(());
        }
        LeaderExcused(was, Core(), g, startingRun, f, protocolNow, epoch, calibrated, None);
      }
      NoneAwaits(store.slots[..]);
      return Ok(());
    }

    /** Opens the gate of the run with an observation of the present state. */
    method OpenGate(now: nat, protocolNow: ProtocolTime, epoch: nat) returns (r: Result<()>, ghost f: Frame)
      requires Valid() && status == Active && !store.faulted && startGate
      modifies this`trace, this`highwater, this`highwaterState, this`refreshAt, this`refreshStarted, this`startGate,
        this`status, this`heldCount, this`discarded, held, store`live, store.slots
      ensures Valid()
      ensures CurrentOutcome(old(Core()), Core(), true, f, protocolNow, epoch, calibrated, ErrorOf(r))
      ensures r.Ok? ==> refreshStarted && refreshAt == now && trace != [] && OpensGate(trace[|trace| - 1])
    {
      hide InOrder, WellFormed, Counted, OnlyCounts, SpareOf, HeldItems, Before, ShowsRevision, Halted, Sent, OpensGate;
      PublisherLedgers.StoreInOrder(Core());
      f := *;
      if store.current.None? {
        return Err(InvalidState), f;
      }
      if highwater.Some? && !Before(highwater.value, protocolNow) {
        TemporalFault();
        return Err(IdentityConflict), f;
      }
      r, f := Observe(protocolNow, epoch);
      if r.Ok? {
        refreshStarted, refreshAt := true, now;
      }
    }

    /** Sends an observation of the current revision; acceptance opens the gate. */
    method Observe(protocolNow: ProtocolTime, epoch: nat) returns (r: Result<()>, ghost f: Frame)
      requires Valid() && status == Active && !store.faulted && store.current.Some?
      requires highwater.Some? ==> Before(highwater.value, protocolNow)
      modifies this`trace, this`highwater, this`highwaterState, this`startGate
      ensures Valid()
      ensures CurrentOutcome(old(Core()), Core(), true, f, protocolNow, epoch, calibrated, ErrorOf(r))
      ensures r.Ok? ==> trace != [] && OpensGate(trace[|trace| - 1])
    {
      hide InOrder, WellFormed, Counted, Stamped, Before, ShowsRevision, RequiredKnown, Observation, Sent, OpensGate;
      ghost var v := Core();
      PublisherLedgers.StoreInOrder(v);
      CurrentInStore(store.State());
      var snapshot := Observation(store.slots[store.current.value], epoch, protocolNow, calibrated);
      f := snapshot;
      FrameFacts(store.slots[store.current.value], epoch, protocolNow, calibrated);
      r := SendPast(snapshot, protocolNow);
      SentGate(v, r.Ok?, snapshot, protocolNow);
      if r.Ok? {
        ObservationOpens(v, snapshot, protocolNow);
        startGate := false;
      }
    }

    /** Repeats the Context once a second. */
    method Refresh(now: nat, protocolNow: ProtocolTime, epoch: nat) returns (r: Result<()>, ghost f: Frame)
      requires Valid() && status == Active
      modifies this`trace, this`highwater, this`highwaterState, this`refreshAt, this`blockedSince, this`status,
        this`heldCount, this`discarded, held, store`live, store.slots
      ensures Valid()
      ensures if refreshStarted && now >= old(refreshAt) && now - old(refreshAt) >= 1_000_000_000
              then CurrentOutcome(old(Core()), Core(), false, f, protocolNow, epoch, calibrated, ErrorOf(r))
              else r.Ok? && Core() == old(Core())
      ensures refreshAt == now || refreshAt == old(refreshAt)
      ensures r.Ok? && Core() != old(Core()) ==> refreshAt == now
    {
      hide InOrder, CurrentOutcome;
      f := *;
      if refreshStarted && now >= refreshAt && now - refreshAt >= REFRESH_NS {
        r, f := Repeat(now, protocolNow, epoch);
        if r.Ok? {
          refreshAt := now;
        }
        return;
      }
      return Ok(()), f;
    }

    /** Offers a refresh of the current revision. */
    method ShowCurrent(protocolNow: ProtocolTime, epoch: nat) returns (r: Result<()>, ghost f: Frame)
      requires Valid() && status == Active && store.current.Some?
      requires highwater.Some? ==> Before(highwater.value, protocolNow)
      modifies this`trace, this`highwater, this`highwaterState
      ensures Valid()
      ensures CurrentOutcome(old(Core()), Core(), false, f, protocolNow, epoch, calibrated, ErrorOf(r))
    {
      hide InOrder, WellFormed, Counted, Stamped, Before, ShowsRevision, RequiredKnown, FrameOf, Sent;
      ghost var v := Core();
      PublisherLedgers.StoreInOrder(v);
      CurrentInStore(store.State());
      var frame := FrameOf(store.slots[store.current.value], epoch, true, protocolNow, calibrated);
      f := frame;
      FrameFacts(store.slots[store.current.value], epoch, protocolNow, calibrated);
      r := SendPast(frame, protocolNow);
      SentGate(v, r.Ok?, frame, protocolNow);
    }

    /** Sends the current revision again. */
    method Repeat(now: nat, protocolNow: ProtocolTime, epoch: nat) returns (r: Result<()>, ghost f: Frame)
      requires Valid() && status == Active
      modifies this`trace, this`highwater, this`highwaterState, this`blockedSince, this`status, this`heldCount,
        this`discarded, held, store`live, store.slots
      ensures Valid() && CurrentOutcome(old(Core()), Core(), false, f, protocolNow, epoch, calibrated, ErrorOf(r))
      ensures trace != old(trace) && r.Err? ==> blockedSince.Some?
    {
      hide InOrder, OnlyCounts, SpareOf, HeldItems, WellFormed, Counted, Stamped, Before, ShowsRevision,
           RequiredKnown, FrameOf, Halted, MayFollow, Sent;
      ghost var v := Core();
      PublisherLedgers.StoreInOrder(v);
      f := *;
      if highwater.Some? && !Before(highwater.value, protocolNow) {
        TemporalFault();
        HaltedFacts(v, Core(), TemporalAssociation);
        return Err(IdentityConflict), f;
      }
      if store.current.None? {
        return Err(InvalidState), f;
      }
      r, f := ShowCurrent(protocolNow, epoch);
      if r.Err? && blockedSince.None? {
        blockedSince := Some(now);
      }
    }

    /** After a fault: withdraws validity once. */
    method Withdraw(protocolNow: ProtocolTime, epoch: nat, clockUsable: bool) returns (r: ErrorCode, ghost f: Frame)
      requires Valid()
      modifies this`trace, this`highwater, this`highwaterState, this`invalidSent
      ensures Valid()
      ensures WithdrawalOutcome(old(Core()), Core(), f, old(invalidSent), clockUsable, faultSnapshot, protocolNow,
                                epoch, calibrated, r, invalidSent)
    {
      hide InOrder, Sent, WellFormed, Counted, Stamped, InvalidFrame, Before, ShowsWithdrawal, MayFollow;
      ghost var v := Core();
      PublisherLedgers.StoreInOrder(v);
      f := *;
      if !invalidSent && clockUsable {
        if highwater.Some? && !Before(highwater.value, protocolNow) {
          return IdentityConflict, f;
        }
        if store.current.Some? {
          CurrentInStore(store.State());
          var invalid := InvalidFrame(store.slots[store.current.value], faultSnapshot, epoch, protocolNow, calibrated);
          f := invalid;
          InvalidFrameFacts(store.slots[store.current.value], faultSnapshot, epoch, protocolNow, calibrated);
              var sent := SendPast(invalid, protocolNow);
          invalidSent := sent.Ok?;
        }
      }
      return InvalidState, f;
    }

    // ----- Data -----

    /** Hands over every held packet whose revision has been published. */
    method SendHeld() returns (r: Result<()>)
      requires Valid() && status == Active && !startGate
      modifies this`trace, this`heldCount, this`accepted, held, store`live, store.slots
      ensures Valid() && old(trace) <= trace && accepted == old(accepted)
      ensures Core() == old(Core()).(store := old(store.State()).(slots := store.slots[..]), live := store.live,
                                     queue := held[..], count := heldCount, trace := trace)
      ensures OnlyCounts(old(store.slots[..]), store.slots[..])
      ensures r.Ok? ==> NonePublished(held[..], store.slots[..], held.Length)
      ensures r.Err? ==> Excused(old(Core()), Core())
    {
      hide InOrder, OnlyCounts, NonePublished, TakenOut, SpareOf, CurrentOf, WellFormed, Counted;
      ghost var v := Core();
      OnlyCountsSelf(v.store.slots);
      NoneYet(held[..], store.slots[..]);
      for i := 0 to held.Length
        invariant Valid() && v.trace <= trace && accepted == v.accepted
        invariant Core() == v.(store := v.store.(slots := store.slots[..]), live := store.live, queue := held[..],
                               count := heldCount, trace := trace)
        invariant OnlyCounts(v.store.slots, store.slots[..]) && NonePublished(held[..], store.slots[..], i)
      {
        ghost var w := Core();
        QueueInOrder(w);
        if held[i].None? {
          OneMore(held[..], store.slots[..], i);
        } else {
          HeldInStore(held[..], store.slots[..], i);
          if store.slots[held[i].value.slot].publication != Accepted {
            OneMore(held[..], store.slots[..], i);
          }
          if store.slots[held[i].value.slot].publication == Accepted {
            r := HandHeld(i);
            if r.Err? {
              return;
            }
            OnlyCountsTrans(v.store.slots, w.store.slots, store.slots[..]);
            StillNone(w.queue, w.store.slots, held[..], store.slots[..], i);
          }
        }
      }
      return Ok(());
    }

    /** Offers one held packet and takes it out once it is handed over. */
    method HandHeld(i: nat) returns (r: Result<()>)
      requires Valid() && status == Active && !startGate && i < held.Length && held[i].Some?
      requires held[i].value.slot < store.slots.Length && store.slots[held[i].value.slot].committed
      requires store.slots[held[i].value.slot].publication == Accepted
      requires RequiredKnown(store.slots[held[i].value.slot].event.state)
      modifies this`trace, this`heldCount, this`accepted, held, store`live, store.slots
      ensures Valid() && accepted == old(accepted)
      ensures trace == old(trace) + [DataHanded(old(held[i]).value.packet,
                                                PinOf(old(store.slots[..]), old(held[i]).value.slot), r.Ok?)]
      ensures Core() == old(Core()).(store := old(store.State()).(slots := store.slots[..]), live := store.live,
                                     queue := held[..], count := heldCount, trace := trace)
      ensures OnlyCounts(old(store.slots[..]), store.slots[..])
      ensures held[..] == if r.Ok? then old(held[..])[i := None] else old(held[..])
      ensures r.Err? ==> Core() == old(Core()).(trace := trace)
    {
      hide InOrder, OnlyCounts, SpareOf, WellFormed, Counted, RequiredKnown;
      ghost var v := Core();
      OnlyCountsSelf(v.store.slots);
      r := HandOver(held[i].value.packet, held[i].value.slot);
      if r.Ok? {
        TakeOut(i);
      }
    }

    /** Offers one packet to the transport. */
    method HandOver(packet: Packet, slot: nat) returns (r: Result<()>)
      requires Valid() && status == Active && !startGate
      requires slot < store.slots.Length && store.slots[slot].committed && store.slots[slot].publication == Accepted
      requires RequiredKnown(store.slots[slot].event.state)
      modifies this`trace, this`accepted
      ensures Valid() && Core() == HandedOver(old(Core()), r.Ok?, packet, slot)
    {
      hide InOrder, RequiredKnown;
      r := *;
      HandedKeeps(Core(), r.Ok?, packet, slot);
      trace := trace + [DataHanded(packet, PinOf(store.slots[..], slot), r.Ok?)];
      if r.Ok? {
        accepted := accepted + multiset{Item(packet, PinOf(store.slots[..], slot))};
      }
    }

    /** Removes a packet that was handed over. */
    method TakeOut(i: nat)
      requires Valid() && i < held.Length && held[i].Some? && held[i].value.slot < store.slots.Length
      modifies this`heldCount, this`accepted, held, store`live, store.slots
      ensures Valid() && TakenOut(old(Core()), Core(), i)
      ensures OnlyCounts(old(store.slots[..]), store.slots[..])
    {
      hide InOrder, HandlesLive, WellFormed, Counted, OnlyCounts, SpareOf, Emptied, ItemOf, Occupied, PlaceDropped;
      ghost var v := Core();
      HandlesInOrder(v);
      QueueInOrder(v);
      OccupiedPlace(v.queue, i);
      DropHeld(i);
      ghost var x := Core();
      heldCount := heldCount - 1;
      accepted := accepted - ItemOf(v.queue[i], v.store.slots);
      assert Core().(count := v.count, accepted := v.accepted) == x;
      TakenKeeps(v, Core(), i);
    }

    // ----- One turn -----

    /**
     One turn of the publisher. Success means that every revision of the association has been published
     and every held packet handed over.
     */
    method Progress(now: nat, protocolNow: ProtocolTime, epoch: nat, clockUsable: bool, clockCalibrated: bool)
      returns (r: Result<()>)
      requires Valid()
      modifies this, held, store`live, store.slots
      ensures Valid() && old(trace) <= trace && accepted == old(accepted)
      ensures calibrated == (clockCalibrated && clockUsable)
      ensures !ValidTime(protocolNow) || epoch == 0 || epoch > 3 ==> r == Err(InvalidArgument) && Core() == old(Core())
      ensures ValidTime(protocolNow) && 0 < epoch <= 3 && !bound ==> r == Err(InvalidState) && Core() == old(Core())
      ensures old(status) in {MetadataUnknown, BackendFault} || old(store.faulted) || !clockUsable || !bound ==> r.Err?
      ensures ValidTime(protocolNow) && 0 < epoch <= 3 && bound && old(store.faulted) && old(status) == Active ==>
                status == MetadataUnknown
                  && discarded == old(discarded) + HeldItems(old(held[..]), old(store.slots[..]))
      ensures r.Ok? ==> status == Active && !startGate && heldCount == 0 && AllClear(Core())
      ensures r.Ok? ==> discarded == old(discarded) && blockedSince.None? && !startingRun
      ensures ValidTime(protocolNow) && 0 < epoch <= 3 && bound && !old(store.faulted) && clockUsable
              && old(status) == Active ==>
                if old(blockedSince).Some? && now >= old(blockedSince).value
                   && now - old(blockedSince).value >= 10_000_000
                then r == Err(CapacityExhausted) && Halted(old(Core()), Core(), ContextUnavailable)
                else r.Ok? || Excused(old(Core()), Core())
    {
      hide InOrder, Halted, AllClear, Excused, WithdrawalOutcome, HeldItems;
      calibrated := clockCalibrated && clockUsable;
      if !ValidTime(protocolNow) || epoch == 0 || epoch > 3 {
        return Err(InvalidArgument);
      }
      if !bound {
        return Err(InvalidState);
      }
      if store.faulted && status == Active {
        ghost var v := Core();
        Halt(MetadataUnknown);
        HaltedFacts(v, Core(), MetadataUnknown);
      }
      if status == MetadataUnknown || status == BackendFault {
        ghost var v, done := Core(), invalidSent;
        var code, f := Withdraw(protocolNow, epoch, clockUsable);
        WithdrawalFacts(v, Core(), f, done, clockUsable, faultSnapshot, protocolNow, epoch, calibrated, code,
                        invalidSent);
        return Err(code);
      }
      if !clockUsable || status != Active {
        return Err(InvalidState);
      }
      if blockedSince.Some? && now >= blockedSince.value && now - blockedSince.value >= BLOCK_NS {
        ghost var v := Core();
        Halt(ContextUnavailable);
        HaltedFacts(v, Core(), ContextUnavailable);
        return Err(CapacityExhausted);
      }
      r := Stream(now, protocolNow, epoch);
    }

    method Stream(now: nat, protocolNow: ProtocolTime, epoch: nat) returns (r: Result<()>)
      requires Valid() && status == Active && !store.faulted
      modifies this`trace, this`highwater, this`highwaterState, this`refreshAt, this`refreshStarted, this`startGate,
        this`blockedSince, this`startingRun, this`status, this`heldCount, this`accepted, this`discarded, held,
        store`live, store.slots
      ensures Valid() && old(trace) <= trace && accepted == old(accepted)
      ensures r.Ok? ==> status == Active && !startGate && heldCount == 0 && AllClear(Core())
      ensures r.Ok? ==> discarded == old(discarded) && blockedSince.None? && !startingRun
      ensures r.Err? ==> Excused(old(Core()), Core())
    {
      hide InOrder, Halted, CurrentOutcome, OnlyCounts, NonePublished, NothingAwaits, CurrentOf, OpensGate, AllClear;
      ghost var v := Core();
      r := PublishAll(now, protocolNow, epoch);
      if r.Err? {
        return;
      }
      if startGate {
        ghost var f, was := *, Core();
        r, f := OpenGate(now, protocolNow, epoch);
        CurrentExcused(was, Core(), true, f, protocolNow, epoch, calibrated, ErrorOf(r));
        if r.Err? {
          return;
        }
      }
      ghost var was := Core();
      r := SendHeld();
      if r.Err? {
        return;
      }
      NothingAwaitsCounts(was.store.slots, store.slots[..]);
      QueueInOrder(Core());
      AllHandedOver(held[..], store.slots[..], trace);
      r := Conclude(now, protocolNow, epoch);
    }

    method Conclude(now: nat, protocolNow: ProtocolTime, epoch: nat) returns (r: Result<()>)
      requires Valid() && status == Active && !startGate && NothingAwaits(store.slots[..])
      requires forall i :: 0 <= i < held.Length ==> held[i].None?
      modifies this`trace, this`highwater, this`highwaterState, this`refreshAt, this`blockedSince, this`startingRun,
        this`status, this`heldCount, this`discarded, held, store`live, store.slots
      ensures Valid() && old(trace) <= trace && accepted == old(accepted)
      ensures r.Ok? ==> status == Active && !startGate && heldCount == 0 && AllClear(Core())
      ensures r.Ok? ==> discarded == old(discarded) && blockedSince.None? && !startingRun
      ensures r.Err? ==> Excused(old(Core()), Core())
    {
      hide InOrder, Halted, CurrentOutcome, NothingAwaits, CurrentOf, Tidy, Occupied;
      ghost var v, f := Core(), *;
      r, f := Refresh(now, protocolNow, epoch);
      if Core() != v || r.Err? {
        CurrentExcused(v, Core(), false, f, protocolNow, epoch, calibrated, ErrorOf(r));
      }
      if r.Err? {
        return;
      }
      blockedSince, startingRun := None, false;
      assert held[..] == v.queue;
      OccupiedBounds(v.queue);
      Collect();
      QueueInOrder(Core());
    }

    /** Collection in the store does not disturb the publisher. */
    method Collect()
      requires Valid()
      modifies store.slots
      ensures Valid() && Tidy(store.State()) && SpareOf(Core()) == SpareOf(old(Core()))
      ensures Core() == old(Core()).(store := Revisions.Collect(old(store.State())))
      ensures NothingAwaits(old(store.slots[..])) ==> NothingAwaits(store.slots[..])
    {
      hide InOrder, WellFormed, Counted, Evolves, NothingAwaits, Tidy, InUse, SpareOf, Revisions.Collect;
      ghost var v := Core();
      PublisherLedgers.StoreInOrder(v);
      CollectEvolves(v.store);
      CollectFreesUnused(v.store);
      store.Collect();
      StoreEvolves(v, store.State());
    }

    // ----- Submitting -----

    /** The caller owns a handle on this slot besides those of the queue. */
    ghost predicate Lends(slot: nat)
      reads this, store, store.slots, held
    {
      slot < store.slots.Length && PinOf(store.slots[..], slot) in SpareOf(Core())
    }

    /** A stream that takes Data for this revision. */
    ghost predicate Admits(slot: nat)
      requires slot < store.slots.Length
      reads this, store, store.slots
    {
      && status == Active && !store.faulted && store.slots[slot].event.association == store.generation
      && RequiredKnown(store.slots[slot].event.state) && !store.slots[slot].detached
    }

    /**
     Accepts a Data packet for a revision: handed over at once when its Context is out and the gate is
     open, held otherwise. The caller's handle is given up in every case.
     */
    method Submit(packet: Packet, h: Handle, now: nat) returns (r: Result<()>)
      requires Valid() && (h.At? ==> Lends(h.slot))
      modifies this`trace, this`blockedSince, this`status, this`heldCount, this`accepted, this`discarded, held,
        store`live, store.slots
      ensures Valid()
      ensures h.Elsewhere? ==> r == Err(InvalidState) && Core() == old(Core())
      ensures h.At? ==>
                SpareOf(Core()) == SpareOf(old(Core())) - multiset{PinOf(old(store.slots[..]), h.slot)}
      ensures h.At? && !old(Admits(h.slot)) ==>
                r.Err? && GaveUp(old(Core()), Core(), h.slot)
      ensures h.At? && old(Admits(h.slot)) ==>
                SubmitOutcome(old(Core()), Core(), held.Length, packet, h.slot, r)
      ensures h.At? && old(Admits(h.slot)) && r.Ok? && trace == old(trace) && old(blockedSince).None? ==>
                blockedSince == Some(now)
    {
      hide InOrder, SpareOf, RouteOutcome, RequiredKnown, GaveUp;
      if h.Elsewhere? {
        return Err(InvalidState);
      }
      ghost var v := Core();
      if status != Active || store.slots[h.slot].event.association != store.generation || store.faulted
         || !RequiredKnown(store.slots[h.slot].event.state) {
        GiveUp(h.slot);
        return Err(InvalidState);
      }
      LentIsLive(v, h.slot);
      var dependency := Depend(h.slot);
      if dependency.Err? {
        GiveUp(h.slot);
        return dependency;
      }
      r := Route(packet, h.slot, now);
    }

    method Depend(slot: nat) returns (r: Result<()>)
      requires Valid() && Lends(slot) && PinOf(store.slots[..], slot) in store.live && store.slots[slot].committed
      modifies store.slots
      ensures Valid() && Lends(slot) && SpareOf(Core()) == SpareOf(old(Core()))
      ensures if old(store.slots[slot]).detached then r == Err(StaleGeneration) && Core() == old(Core())
              else r.Ok? && Core() == Noted(old(Core()), slot)
    {
      hide InOrder, SpareOf, WellFormed, Counted;
      ghost var v := Core();
      PublisherLedgers.StoreInOrder(v);
      r := store.NoteDataDependency(At(slot));
      if r.Ok? {
        NotedKeeps(v, slot);
      }
    }

    /** Hands over or holds a packet that the stream takes. */
    method Route(packet: Packet, slot: nat, now: nat) returns (r: Result<()>)
      requires Valid() && Lends(slot) && Admits(slot) && store.slots[slot].committed
      modifies this`trace, this`blockedSince, this`status, this`heldCount, this`accepted, this`discarded, held,
        store`live, store.slots
      ensures Valid() && RouteOutcome(old(Core()), Core(), held.Length, packet, slot, r)
      ensures SpareOf(Core()) == SpareOf(old(Core())) - multiset{PinOf(old(store.slots[..]), slot)}
      ensures r.Ok? && trace == old(trace) && old(blockedSince).None? ==> blockedSince == Some(now)
    {
      hide InOrder, SpareOf, OnlyCounts, HeldItems, RequiredKnown, GaveUp, Halted, HandedOver, Queued;
      ghost var v := Core();
      if !startGate && store.slots[slot].publication == Accepted {
        r := HandOver(packet, slot);
        OfferedAlike(v, r.Ok?, packet, slot);
        GiveUp(slot);
        return r;
      }
      if blockedSince.None? {
        blockedSince := Some(now);
      }
      if heldCount == held.Length {
        StopFull(slot);
        return Err(CapacityExhausted);
      }
      ghost var i := Hold(packet, slot);
      return Ok(());
    }

    /** The queue is full: the stream stops. */
    method StopFull(slot: nat)
      requires Valid() && Lends(slot)
      modifies this`status, this`heldCount, this`discarded, held, store`live, store.slots
      ensures Valid() && exists x :: Halted(old(Core()), x, ContextUnavailable) && GaveUp(x, Core(), slot)
      ensures SpareOf(Core()) == SpareOf(old(Core())) - multiset{PinOf(old(store.slots[..]), slot)}
    {
      hide InOrder, SpareOf, OnlyCounts, HeldItems, GaveUp, Halted;
      ghost var v := Core();
      Halt(ContextUnavailable);
      HaltedFacts(v, Core(), ContextUnavailable);
      LentStays(v, Core(), slot);
      GiveUp(slot);
    }

    /** Puts a packet with its handle into the first empty place; a queue that is not full has one. */
    method Hold(packet: Packet, slot: nat) returns (ghost i: nat)
      requires Valid() && Lends(slot) && Admits(slot) && store.slots[slot].committed && heldCount != held.Length
      modifies this`heldCount, this`accepted, held
      ensures Valid() && i < held.Length && old(held[..])[i].None?
      ensures Core() == Queued(old(Core()), i, Held(packet, slot))
      ensures SpareOf(Core()) == SpareOf(old(Core())) - multiset{PinOf(store.slots[..], slot)}
    {
      hide InOrder, SpareOf, RequiredKnown, Occupied;
      ghost var v := Core();
      QueueInOrder(v);
      QueueBound(v.queue);
      var place := FreePlace();
      i := place;
      QueuedKeeps(v, place, Held(packet, slot));
      held[place] := Some(Held(packet, slot));
      assert held[..] == v.queue[place := Some(Held(packet, slot))];
      heldCount := heldCount + 1;
      accepted := accepted + multiset{Item(packet, PinOf(store.slots[..], slot))};
    }

    /** Drops the caller's own handle. */
    method GiveUp(slot: nat)
      requires Valid() && Lends(slot)
      modifies store`live, store.slots
      ensures Valid() && GaveUp(old(Core()), Core(), slot) && OnlyCounts(old(store.slots[..]), store.slots[..])
      ensures SpareOf(Core()) == SpareOf(old(Core())) - multiset{PinOf(old(store.slots[..]), slot)}
    {
      hide InOrder, SpareOf, WellFormed, Counted, OnlyCounts;
      ghost var v := Core();
      PublisherLedgers.StoreInOrder(v);
      LentIsLive(v, slot);
      store.Release(slot);
      GiveUpKeeps(v, Core(), slot);
    }

    method FreePlace() returns (i: nat)
      requires Occupied(held[..]) < held.Length
      ensures i < held.Length && held[i].None?
    {
      hide Occupied;
      OccupiedBounds(held[..]);
      i := 0;
      while held[i].Some?
        invariant i < held.Length && forall j :: 0 <= j < i ==> held[j].Some?
        decreases held.Length - i
      {
        assert i + 1 == held.Length ==> forall j :: 0 <= j < held.Length ==> held[..][j].Some?;
        i := i + 1;
      }
    }

    // ----- Another association -----

    /** Begins a new association with nothing published. */
    method Detach(generation: nat) returns (r: Result<()>)
      requires Valid()
      modifies this, held, store`generation, store`current, store`faulted, store`live, store.slots
      ensures Valid()
      ensures r.Ok? <==> generation > old(store.generation)
      ensures r.Ok? ==> Cleared(old(Core()).(store := Revisions.Detach(old(store.State()), generation).value), Core())
                        && blockedSince.None? && !refreshStarted && !invalidSent && faultSnapshot.None?
      ensures r.Err? ==> r.error == StaleGeneration && Core() == old(Core())
    {
      hide InOrder, WellFormed, Counted, Cleared, HandlesLive, HeldItems, Revisions.Detach, SpareOf, Settled;
      ghost var v := Core();
      PublisherLedgers.StoreInOrder(v);
      Revisions.DetachOutcome(v.store, generation);
      r := store.Detach(generation);
      if r.Err? {
        return;
      }
      ghost var s := store.State();
      DetachedHandles(v, generation, s);
      Forget();
      ResetKeeps(v, Core(), s);
    }

    /** Clears everything that belongs to an association that has ended. */
    method Forget()
      requires Loose()
      modifies this`status, this`heldCount, this`discarded, this`blockedSince, this`refreshStarted, this`invalidSent,
        this`highwater, this`faultSnapshot, this`highwaterState, this`trace, held, store`live, store.slots
      ensures Loose() && Cleared(old(Core()), Core())
      ensures blockedSince.None? && !refreshStarted && !invalidSent && faultSnapshot.None?
    {
      hide HandlesLive, Halted, Cleared, OnlyCounts, SpareOf, HeldItems;
      ghost var v := Core();
      Stop(Idle);
      ghost var x := Core();
      HaltedFacts(v, x, Idle);
      ClearTimers();
      highwater, highwaterState := None, None;
      trace := trace + [Detached];
      ClearedIs(v, x, Core());
    }

    method ClearTimers()
      modifies this`blockedSince, this`refreshStarted, this`invalidSent, this`faultSnapshot
      ensures blockedSince.None? && !refreshStarted && !invalidSent && faultSnapshot.None?
    {
      blockedSince, refreshStarted, invalidSent, faultSnapshot := None, false, false, None;
    }
  }
}
