/**
 The publisher's state as a value: its queue, its handles, the record of what it did and what became of its packets,
 and how each step changes them (include/vita/runtime/context/publisher.hpp).
 */
module PublisherLedgers {
  import opened Core
  import opened Time
  import opened ContextState
  import opened Revisions
  import opened RevisionStores
  import opened ContextTraces
  import opened Slots

  datatype Status = Idle | Active | ContextUnavailable | MetadataUnknown | BackendFault | TemporalAssociation

  /** A Data packet waiting for the Context of its revision; it owns one handle. */
  datatype Held = Held(packet: Packet, slot: nat)

  // ----- The queue of held packets -----

  ghost predicate InRange(h: seq<Option<Held>>, n: nat) {
    forall i :: 0 <= i < |h| && h[i].Some? ==> h[i].value.slot < n
  }

  ghost function HandleOf(x: Option<Held>, slots: seq<Revision>): multiset<Pin>
    requires x.Some? ==> x.value.slot < |slots|
  {
    if x.Some? then multiset{PinOf(slots, x.value.slot)} else multiset{}
  }

  /** Handles owned by the queue. */
  ghost function HeldPins(h: seq<Option<Held>>, slots: seq<Revision>): multiset<Pin>
    requires InRange(h, |slots|)
  {
    if h == [] then multiset{} else HeldPins(h[..|h| - 1], slots) + HandleOf(h[|h| - 1], slots)
  }

  lemma Regroup(rest: multiset<Pin>, a: multiset<Pin>, last: multiset<Pin>)
    ensures rest + a + last == rest + last + a
  {
  }

  lemma RangeKept(h: seq<Option<Held>>, i: nat, x: Option<Held>, n: nat)
    requires InRange(h, n) && i < |h| && (x.Some? ==> x.value.slot < n)
    ensures InRange(h[i := x], n) && InRange(h[..|h| - 1], n) && InRange(h[i := x][..|h| - 1], n)
    ensures h[i].Some? ==> h[i].value.slot < n
    ensures h[|h| - 1].Some? ==> h[|h| - 1].value.slot < n
  {
  }

  /** Splits off the handle of one place; replacing that place replaces just this handle. */
  lemma {:induction false} HeldPinsUpdate(h: seq<Option<Held>>, i: nat, x: Option<Held>, slots: seq<Revision>)
    returns (rest: multiset<Pin>)
    requires InRange(h, |slots|) && i < |h| && (x.Some? ==> x.value.slot < |slots|)
    ensures HeldPins(h, slots) == rest + HandleOf(h[i], slots)
    ensures InRange(h[i := x], |slots|) && HeldPins(h[i := x], slots) == rest + HandleOf(x, slots)
  {
    hide HandleOf, InRange;
    RangeKept(h, i, x, |slots|);
    var n := |h| - 1;
    if i == n {
      assert h[i := x][..n] == h[..n];
      rest := HeldPins(h[..n], slots);
    } else {
      assert h[i := x][..n] == h[..n][i := x];
      var inner := HeldPinsUpdate(h[..n], i, x, slots);
      rest := inner + HandleOf(h[n], slots);
      Regroup(inner, HandleOf(h[i], slots), HandleOf(h[n], slots));
      Regroup(inner, HandleOf(x, slots), HandleOf(h[n], slots));
    }
  }

  lemma {:induction false} HeldPinsSame(h: seq<Option<Held>>, slots: seq<Revision>, t: seq<Revision>)
    requires InRange(h, |slots|) && |t| == |slots|
    requires forall i :: 0 <= i < |h| && h[i].Some? ==> PinOf(t, h[i].value.slot) == PinOf(slots, h[i].value.slot)
    ensures HeldPins(h, t) == HeldPins(h, slots)
  {
    if h != [] {
      HeldPinsSame(h[..|h| - 1], slots, t);
    }
  }

  // ----- What becomes of accepted packets -----

  /** A packet with the revision it was submitted for. */
  datatype Item = Item(packet: Packet, pin: Pin)

  ghost function ItemOf(x: Option<Held>, slots: seq<Revision>): multiset<Item> {
    if x.Some? && x.value.slot < |slots| then multiset{Item(x.value.packet, PinOf(slots, x.value.slot))} else multiset{}
  }

  /** Packets in the queue. */
  ghost function HeldItems(h: seq<Option<Held>>, slots: seq<Revision>): multiset<Item> {
    if h == [] then multiset{} else HeldItems(h[..|h| - 1], slots) + ItemOf(h[|h| - 1], slots)
  }

  ghost function ItemIn(x: Happening): multiset<Item> {
    if x.DataHanded? && x.taken then multiset{Item(x.packet, x.pin)} else multiset{}
  }

  /** Packets that the transport took. */
  ghost function Handed(trace: seq<Happening>): multiset<Item> {
    if trace == [] then multiset{} else Handed(trace[..|trace| - 1]) + ItemIn(trace[|trace| - 1])
  }

  lemma HandedGrows(trace: seq<Happening>, x: Happening)
    ensures Handed(trace + [x]) == Handed(trace) + ItemIn(x)
  {
    hide ItemIn;
    assert (trace + [x])[..|trace|] == trace;
  }

  lemma RegroupItems(rest: multiset<Item>, a: multiset<Item>, last: multiset<Item>)
    ensures rest + a + last == rest + last + a
  {
  }

  lemma {:induction false} HeldItemsUpdate(h: seq<Option<Held>>, i: nat, x: Option<Held>, slots: seq<Revision>)
    returns (rest: multiset<Item>)
    requires i < |h|
    ensures HeldItems(h, slots) == rest + ItemOf(h[i], slots)
    ensures HeldItems(h[i := x], slots) == rest + ItemOf(x, slots)
  {
    hide ItemOf;
    var n := |h| - 1;
    if i == n {
      assert h[i := x][..n] == h[..n];
      rest := HeldItems(h[..n], slots);
    } else {
      assert h[i := x][..n] == h[..n][i := x];
      var inner := HeldItemsUpdate(h[..n], i, x, slots);
      rest := inner + ItemOf(h[n], slots);
      RegroupItems(inner, ItemOf(h[i], slots), ItemOf(h[n], slots));
      RegroupItems(inner, ItemOf(x, slots), ItemOf(h[n], slots));
    }
  }

  lemma {:induction false} HeldItemsSame(h: seq<Option<Held>>, slots: seq<Revision>, t: seq<Revision>)
    requires InRange(h, |slots|) && |t| == |slots|
    requires forall i :: 0 <= i < |h| && h[i].Some? ==> PinOf(t, h[i].value.slot) == PinOf(slots, h[i].value.slot)
    ensures HeldItems(h, t) == HeldItems(h, slots)
  {
    if h != [] {
      HeldItemsSame(h[..|h| - 1], slots, t);
    }
  }

  lemma {:induction false} NoItems(h: seq<Option<Held>>, slots: seq<Revision>)
    requires forall i :: 0 <= i < |h| ==> h[i].None?
    ensures HeldItems(h, slots) == multiset{}
  {
    if h != [] {
      NoItems(h[..|h| - 1], slots);
    }
  }

  /** Held revisions stay complete, committed and in the association. */
  ghost predicate Steady(h: seq<Option<Held>>, slots: seq<Revision>) {
    forall i :: 0 <= i < |h| && h[i].Some? ==>
      && h[i].value.slot < |slots| && slots[h[i].value.slot].committed && !slots[h[i].value.slot].detached
      && RequiredKnown(slots[h[i].value.slot].event.state)
  }

  // ----- Steps of the store that leave a publisher alone -----

  /** Pinned slots keep identity and association; nothing becomes published. */
  ghost predicate Evolves(s: seq<Revision>, t: seq<Revision>) {
    && |t| == |s|
    && forall i :: 0 <= i < |s| ==>
         && (s[i].references > 0 ==>
               t[i].committed && t[i].id == s[i].id && t[i].event == s[i].event && t[i].detached == s[i].detached)
         && (t[i].publication == s[i].publication || t[i].publication == Pending)
         && (t[i].committed && t[i].publication == Accepted ==>
               s[i].committed && s[i].event == t[i].event && s[i].id == t[i].id)
  }

  lemma EvolvesKeeps(h: seq<Option<Held>>, s: seq<Revision>, t: seq<Revision>, live: multiset<Pin>,
                     trace: seq<Happening>)
    requires Evolves(s, t) && Counted(s, live) && Steady(h, s) && InRange(h, |s|) && HeldPins(h, s) <= live
    requires Settled(s, trace)
    ensures Steady(h, t) && InRange(h, |t|) && HeldPins(h, t) == HeldPins(h, s) && Settled(t, trace)
    ensures HeldItems(h, t) == HeldItems(h, s)
  {
    hide CoveredIn, RequiredKnown, HeldPins, HeldItems;
    forall i | 0 <= i < |h| && h[i].Some?
      ensures s[h[i].value.slot].references > 0
    {
      var rest := HeldPinsUpdate(h, i, None, s);
      var pin := PinOf(s, h[i].value.slot);
      assert pin in HandleOf(h[i], s);
      assert pin in live;
      assert s[h[i].value.slot].references == live[pin];
    }
    HeldPinsSame(h, s, t);
    HeldItemsSame(h, s, t);
  }

  /** Every revision of the association has been published. */
  ghost predicate NothingAwaits(s: seq<Revision>) {
    forall i :: 0 <= i < |s| ==> !Awaiting(s[i])
  }

  /** Only handle counts differ. */
  ghost predicate OnlyCounts(s: seq<Revision>, t: seq<Revision>) {
    |t| == |s| && forall i :: 0 <= i < |s| ==> t[i] == s[i].(references := t[i].references)
  }

  lemma OnlyCountsSelf(s: seq<Revision>)
    ensures OnlyCounts(s, s)
  {
  }

  lemma OnlyCountsTrans(s: seq<Revision>, t: seq<Revision>, u: seq<Revision>)
    requires OnlyCounts(s, t) && OnlyCounts(t, u)
    ensures OnlyCounts(s, u)
  {
  }

  lemma CountsEvolve(s: seq<Revision>, t: seq<Revision>, live: multiset<Pin>)
    requires OnlyCounts(s, t) && Counted(s, live)
    ensures Evolves(s, t)
  {
    forall i | 0 <= i < |s| && s[i].references > 0
      ensures s[i].committed
    {
      assert s[i].references == live[PinOf(s, i)];
      assert PinOf(s, i) in live;
    }
  }

  lemma NothingAwaitsCounts(s: seq<Revision>, t: seq<Revision>)
    requires OnlyCounts(s, t) && NothingAwaits(s)
    ensures NothingAwaits(t)
  {
    forall i | 0 <= i < |t|
      ensures !Awaiting(t[i])
    {
      assert !Awaiting(s[i]);
    }
  }

  lemma SettledCounts(s: seq<Revision>, t: seq<Revision>, trace: seq<Happening>)
    requires OnlyCounts(s, t) && Settled(s, trace)
    ensures Settled(t, trace)
  {
    hide CoveredIn;
  }

  // ----- The ledger -----

  datatype Ledger = Ledger(
    store: Store, live: multiset<Pin>, queue: seq<Option<Held>>, count: nat, status: Status, gate: bool,
    mark: Option<ProtocolTime>, markState: Option<Snapshot>, trace: seq<Happening>, accepted: multiset<Item>,
    discarded: multiset<Item>)

  /** The store is in order and the queue's handles are live. */
  ghost predicate HandlesLive(s: Store, live: multiset<Pin>, h: seq<Option<Held>>) {
    WellFormed(s) && Counted(s.slots, live) && InRange(h, |s.slots|) && HeldPins(h, s.slots) <= live
  }

  /** Live handles that the queue does not own. */
  ghost function SpareOf(v: Ledger): multiset<Pin> {
    if InRange(v.queue, |v.store.slots|) then v.live - HeldPins(v.queue, v.store.slots) else v.live
  }

  ghost function CurrentOf(s: Store): Option<Pin> {
    if s.current.Some? && s.current.value < |s.slots| then Some(PinOf(s.slots, s.current.value)) else None
  }

  /** The record is safe and agrees with the store, the queue, the high-water mark and the gate. */
  ghost predicate Recorded(v: Ledger) {
    && Steady(v.queue, v.store.slots)
    && (v.status != Active ==> v.count == 0)
    && TraceSafe(v.trace)
    && Crested(v.trace, v.store.generation, v.mark, v.markState)
    && Settled(v.store.slots, v.trace)
    && (v.status == Active && !v.gate ==> GateOpen(v.trace))
  }

  /** Every accepted packet was taken by the transport once, is held, or was discarded with the stream. */
  ghost predicate Conserved(v: Ledger) {
    v.accepted == Handed(v.trace) + HeldItems(v.queue, v.store.slots) + v.discarded
  }

  ghost predicate InOrder(v: Ledger) {
    HandlesLive(v.store, v.live, v.queue) && v.count == Occupied(v.queue) && Recorded(v) && Conserved(v)
  }

  lemma StoreInOrder(v: Ledger)
    requires InOrder(v)
    ensures WellFormed(v.store) && Counted(v.store.slots, v.live)
    ensures v.store.current.Some? ==> v.store.current.value < |v.store.slots|
  {
    hide Counted, HeldPins, Recorded, Conserved, InRange, Occupied, Count;
  }

  lemma HandlesInOrder(v: Ledger)
    requires InOrder(v)
    ensures HandlesLive(v.store, v.live, v.queue)
  {
    hide HandlesLive, Recorded, Conserved, Occupied;
  }

  lemma QueueInOrder(v: Ledger)
    requires InOrder(v)
    ensures v.count == Occupied(v.queue) && Steady(v.queue, v.store.slots) && Settled(v.store.slots, v.trace)
    ensures v.status != Active ==> v.count == 0
  {
    hide HandlesLive, TraceSafe, Crested, Settled, Steady, GateOpen, Occupied, Conserved;
  }

  // ----- Offers to the transport -----

  /** A Context offered to the transport and its answer. */
  function Answered(ok: bool, f: Frame, now: ProtocolTime, current: Option<Pin>, about: Option<Group>): Happening {
    if ok then ContextSent(f, now, current, about) else ContextRefused(f, now)
  }

  /** The transport did not take what it was offered. */
  predicate Refusal(h: Happening) {
    h.ContextRefused? || (h.DataHanded? && !h.taken)
  }

  /** A frame of the publisher at this turn. */
  predicate Dated(f: Frame, epoch: nat, calibrated: bool) {
    f.epoch == epoch && f.state.events.word.calibrated == calibrated
  }

  /** The ledger after offering a frame: an accepted frame past the mark becomes the mark. */
  ghost function Sent(v: Ledger, ok: bool, f: Frame, now: ProtocolTime, about: Option<Group>): Ledger {
    var past := ok && (v.mark.None? || Before(v.mark.value, f.time));
    v.(trace := v.trace + [Answered(ok, f, now, CurrentOf(v.store), about)],
       mark := if past then Some(f.time) else v.mark, markState := if past then Some(f.state) else v.markState)
  }

  lemma SentKeeps(v: Ledger, ok: bool, f: Frame, now: ProtocolTime, about: Option<Group>)
    requires InOrder(v) && Stamped(f) && f.association == v.store.generation && MayFollow(f, v.mark, v.markState)
    ensures InOrder(Sent(v, ok, f, now, about))
  {
    hide HandlesLive, TraceSafe, Crested, GateOpen, Settled, Steady, Occupied, Stamped, HeldItems, Handed, MayFollow,
         CurrentOf;
    var h := Answered(ok, f, now, CurrentOf(v.store), about);
    HandedGrows(v.trace, h);
    SettledGrows(v.store.slots, v.trace, h);
    GateGrows(v.trace, h);
    if ok {
      AppendContext(v.trace, h, v.store.generation, v.mark, v.markState);
    } else {
      AppendOther(v.trace, h, v.store.generation, v.mark, v.markState);
    }
  }

  // ----- Steps of the store -----

  /** The store moves on under the publisher: what its handles show stays, and nothing becomes published. */
  lemma StoreMoves(v: Ledger, s: Store, live: multiset<Pin>)
    requires InOrder(v) && WellFormed(s) && Counted(s.slots, live) && HeldPins(v.queue, v.store.slots) <= live
    requires s.generation == v.store.generation && Evolves(v.store.slots, s.slots)
    ensures var w := v.(store := s, live := live);
            InOrder(w) && HeldPins(w.queue, s.slots) == HeldPins(v.queue, v.store.slots)
  {
    hide WellFormed, Counted, TraceSafe, Crested, GateOpen, Settled, Steady, Occupied, Evolves, HeldPins, HeldItems,
         Handed, InRange;
    EvolvesKeeps(v.queue, v.store.slots, s.slots, v.live, v.trace);
  }

  /** A step that leaves the handles alone. */
  lemma StoreEvolves(v: Ledger, s: Store)
    requires InOrder(v) && WellFormed(s) && Counted(s.slots, v.live)
    requires s.generation == v.store.generation && Evolves(v.store.slots, s.slots)
    ensures InOrder(v.(store := s)) && SpareOf(v.(store := s)) == SpareOf(v)
  {
    HandlesBelow(v);
    hide InOrder, Evolves, HeldPins, WellFormed, Counted;
    StoreMoves(v, s, v.live);
    QueueInRange(v);
    QueueInRange(v.(store := s));
  }

  lemma HandlesBelow(v: Ledger)
    requires InOrder(v)
    ensures InRange(v.queue, |v.store.slots|) && HeldPins(v.queue, v.store.slots) <= v.live
  {
    hide WellFormed, Counted, Recorded, Conserved, HeldPins, InRange, Occupied;
  }

  lemma QueueInRange(v: Ledger)
    requires InOrder(v)
    ensures InRange(v.queue, |v.store.slots|)
  {
    hide WellFormed, Counted, Recorded, Conserved, HeldPins, InRange, Occupied;
  }

  /** Taking or dropping a handle that the queue does not own. */
  lemma CountsMove(v: Ledger, slots: seq<Revision>, live: multiset<Pin>)
    requires InOrder(v) && OnlyCounts(v.store.slots, slots) && WellFormed(v.store.(slots := slots))
    requires InRange(v.queue, |v.store.slots|)
    requires Counted(slots, live) && HeldPins(v.queue, v.store.slots) <= live
    ensures var w := v.(store := v.store.(slots := slots), live := live);
            && InOrder(w)
            && (SpareOf(w) == if InRange(v.queue, |slots|) then live - HeldPins(v.queue, v.store.slots) else live)
  {
    StoreInOrder(v);
    CountsEvolve(v.store.slots, slots, v.live);
    hide InOrder, Evolves, HeldPins, WellFormed, Counted, OnlyCounts;
    StoreMoves(v, v.store.(slots := slots), live);
  }

  // ----- Stopping -----

  /** Places of the queue emptied, with their handles dropped. */
  ghost predicate Emptied(v: Ledger, w: Ledger) {
    && w == v.(store := v.store.(slots := w.store.slots), live := w.live, queue := w.queue)
    && |w.queue| == |v.queue| && OnlyCounts(v.store.slots, w.store.slots)
    && HandlesLive(w.store, w.live, w.queue) && SpareOf(w) == SpareOf(v)
  }

  /** The handle of one place dropped. */
  ghost predicate PlaceDropped(v: Ledger, w: Ledger, i: nat) {
    && i < |v.queue| && v.queue[i].Some? && v.queue[i].value.slot < |v.store.slots|
    && Released(v.store, w.store, v.queue[i].value.slot)
    && w == v.(store := w.store, live := v.live - multiset{PinOf(v.store.slots, v.queue[i].value.slot)},
               queue := v.queue[i := None])
  }

  /** A handle of the queue is live. */
  lemma PlaceIsLive(v: Ledger, i: nat)
    requires HandlesLive(v.store, v.live, v.queue) && i < |v.queue| && v.queue[i].Some?
    ensures v.queue[i].value.slot < |v.store.slots| && PinOf(v.store.slots, v.queue[i].value.slot) in v.live
  {
    hide WellFormed, Counted, HeldPins;
    var rest := HeldPinsUpdate(v.queue, i, None, v.store.slots);
    assert PinOf(v.store.slots, v.queue[i].value.slot) in HandleOf(v.queue[i], v.store.slots);
  }

  lemma DropKeeps(v: Ledger, w: Ledger, i: nat)
    requires HandlesLive(v.store, v.live, v.queue) && PlaceDropped(v, w, i)
    requires WellFormed(w.store) && Counted(w.store.slots, w.live)
    ensures Emptied(v, w)
    ensures HeldItems(w.queue, w.store.slots) == HeldItems(w.queue, v.store.slots)
  {
    hide WellFormed, Counted, HeldPins, HeldItems;
    var pin := PinOf(v.store.slots, v.queue[i].value.slot);
    var rest := HeldPinsUpdate(v.queue, i, None, v.store.slots);
    SpareKept(v.live, rest, pin);
    HeldPinsSame(w.queue, v.store.slots, w.store.slots);
    HeldItemsSame(w.queue, v.store.slots, w.store.slots);
  }

  lemma EmptiedSelf(v: Ledger)
    requires HandlesLive(v.store, v.live, v.queue)
    ensures Emptied(v, v)
  {
    hide HandlesLive, SpareOf;
  }

  lemma EmptiedTrans(v: Ledger, w: Ledger, x: Ledger)
    requires Emptied(v, w) && Emptied(w, x)
    ensures Emptied(v, x)
  {
    hide HandlesLive, SpareOf, OnlyCounts;
    OnlyCountsTrans(v.store.slots, w.store.slots, x.store.slots);
  }

  /** The stream stopped: every held packet is discarded. */
  ghost predicate Halted(v: Ledger, w: Ledger, reason: Status) {
    && w == v.(store := v.store.(slots := w.store.slots), live := w.live, queue := w.queue, count := 0,
               status := reason, discarded := v.discarded + HeldItems(v.queue, v.store.slots))
    && OnlyCounts(v.store.slots, w.store.slots) && |w.queue| == |v.queue| && SpareOf(w) == SpareOf(v)
    && forall i :: 0 <= i < |w.queue| ==> w.queue[i].None?
  }

  lemma HaltKeeps(v: Ledger, w: Ledger, reason: Status)
    requires InOrder(v) && reason != Active && Halted(v, w, reason) && HandlesLive(w.store, w.live, w.queue)
    ensures InOrder(w)
  {
    hide HandlesLive, TraceSafe, Crested, GateOpen, Settled, Steady, OnlyCounts, Occupied, HeldItems, Handed;
    OccupiedBounds(w.queue);
    NoPins(w.queue, w.store.slots);
    NoItems(w.queue, w.store.slots);
    SettledCounts(v.store.slots, w.store.slots, v.trace);
  }

  lemma EmptiedHalts(v: Ledger, w: Ledger, reason: Status, x: Ledger)
    requires Emptied(v, w) && forall i :: 0 <= i < |w.queue| ==> w.queue[i].None?
    requires x == w.(count := 0, status := reason, discarded := v.discarded + HeldItems(v.queue, v.store.slots))
    ensures Halted(v, x, reason) && HandlesLive(x.store, x.live, x.queue)
  {
    hide HandlesLive, OnlyCounts, HeldItems, HeldPins, InRange;
  }

  // ----- Publishing -----

  /** The ledger after the Context of a group was accepted: it may open the gate. */
  ghost function Published(v: Ledger, g: nat, f: Frame, now: ProtocolTime): Ledger
    requires g < |v.store.slots|
  {
    var current := CurrentOf(v.store);
    var opens := current.Some? && f.time == now && f.revision == current.value.id;
    Sent(v, true, f, now, Some(GroupOf(v.store.slots, g))).(
      store := v.store.(slots := AcceptSlots(v.store.slots, g)), gate := v.gate && !opens)
  }

  lemma PublishedKeeps(v: Ledger, g: nat, f: Frame, now: ProtocolTime)
    requires InOrder(v) && g < |v.store.slots| && IsLeader(v.store.slots, g) && IsConsistent(v.store.slots, g)
    requires v.store.slots[g].event.association == v.store.generation && v.store.slots[g].committed
    requires Stamped(f) && f.valid && f.association == v.store.generation && MayFollow(f, v.mark, v.markState)
    requires Stands(f, now, CurrentOf(v.store), GroupOf(v.store.slots, g))
    requires WellFormed(v.store.(slots := AcceptSlots(v.store.slots, g)))
    requires Counted(AcceptSlots(v.store.slots, g), v.live)
    ensures InOrder(Published(v, g, f, now))
    ensures Count(AcceptSlots(v.store.slots, g), Awaiting) < Count(v.store.slots, Awaiting)
  {
    hide Stamped, MayFollow, IsLeader, IsConsistent, Count, Stands, GroupOf, WellFormed, InOrder, Counted, AcceptSlots,
         ShowsRevision;
    var group := GroupOf(v.store.slots, g);
    var s := Sent(v, true, f, now, Some(group));
    var h := ContextSent(f, now, CurrentOf(v.store), Some(group));
    SentKeeps(v, true, f, now, Some(group));
    StoreInOrder(v);
    DistinctWhenWellFormed(v.store);
    AcceptTakesGroup(v.store.slots, g);
    GroupSettles(s, g, h);
    var w := s.(store := v.store.(slots := AcceptSlots(v.store.slots, g)));
    if Published(v, g, f, now).gate != w.gate {
      GroupShowsCurrent(v.store, g, f, now);
      GateGrows(v.trace, h);
      OpeningKeeps(w);
    }
  }

  /** Marking the group whose Context is on record. */
  lemma GroupSettles(v: Ledger, g: nat, h: Happening)
    requires InOrder(v) && g < |v.store.slots| && IsLeader(v.store.slots, g) && IsConsistent(v.store.slots, g)
    requires v.store.slots[g].event.association == v.store.generation && v.store.slots[g].committed
    requires h in v.trace && h.ContextSent? && h.about == Some(GroupOf(v.store.slots, g))
    requires Stands(h.frame, h.now, h.current, GroupOf(v.store.slots, g)) && h.frame.association == v.store.generation
    requires WellFormed(v.store.(slots := AcceptSlots(v.store.slots, g)))
    requires Counted(AcceptSlots(v.store.slots, g), v.live)
    ensures InOrder(v.(store := v.store.(slots := AcceptSlots(v.store.slots, g))))
  {
    hide WellFormed, Counted, HeldPins, HeldItems, TraceSafe, Crested, GateOpen, Settled, Steady, InRange, Occupied,
         Count, IsLeader, IsConsistent, Stands, GroupOf, AcceptSlots, Handed;
    SettledByAccept(v.store, g, v.trace, h);
    AcceptKeepsHeld(v.queue, v.store.slots, g);
    AcceptKeepsRange(v.queue, v.store.slots, g);
  }

  lemma AcceptKeepsRange(h: seq<Option<Held>>, slots: seq<Revision>, g: nat)
    requires g < |slots| && InRange(h, |slots|)
    ensures InRange(h, |AcceptSlots(slots, g)|)
  {
  }

  lemma OpeningKeeps(v: Ledger)
    requires InOrder(v) && GateOpen(v.trace)
    ensures InOrder(v.(gate := false))
  {
    hide HandlesLive, TraceSafe, Crested, Settled, Steady, GateOpen, Occupied, HeldItems, Handed;
  }

  /**
   What comes of publishing the group of a leader: a revision without a time needs the start of a run and a current
   revision; a frame that would go back in time or change the state of a time is not offered; any other is.
   */
  ghost predicate LeaderOutcome(v: Ledger, w: Ledger, g: nat, starting: bool, f: Frame, now: ProtocolTime, epoch: nat,
                                calibrated: bool, error: Option<ErrorCode>)
    requires g < |v.store.slots|
  {
    if !v.store.slots[g].event.timeKnown && !starting then
      error == Some(InvalidState) && Halted(v, w, TemporalAssociation)
    else if !v.store.slots[g].event.timeKnown && CurrentOf(v.store).None? then
      error == Some(InvalidState) && w == v
    else
      && Stands(f, now, CurrentOf(v.store), GroupOf(v.store.slots, g)) && Dated(f, epoch, calibrated)
      && if !MayFollow(f, v.mark, v.markState) then
           error == Some(IdentityConflict) && Halted(v, w, TemporalAssociation)
         else if error.Some? then w == Sent(v, false, f, now, Some(GroupOf(v.store.slots, g)))
         else w == Published(v, g, f, now)
  }

  /** What comes of showing the current revision at the present time, to open the gate or as a refresh. */
  ghost predicate CurrentOutcome(v: Ledger, w: Ledger, opening: bool, f: Frame, now: ProtocolTime, epoch: nat,
                                 calibrated: bool, error: Option<ErrorCode>)
  {
    var current := CurrentOf(v.store);
    if opening && current.None? then error == Some(InvalidState) && w == v
    else if v.mark.Some? && !Before(v.mark.value, now) then
      error == Some(IdentityConflict) && Halted(v, w, TemporalAssociation)
    else if current.None? then error == Some(InvalidState) && w == v
    else
      && Dated(f, epoch, calibrated) && f.time == now && f.refresh && f.change == opening && f.observation == opening
      && ShowsRevision(f, current.value.id, current.value.event)
      && w == Sent(v, error.None?, f, now, None).(gate := v.gate && !(opening && error.None?))
  }

  /** What comes of withdrawing the stream's validity: at most once, with a usable clock, past the mark. */
  ghost predicate WithdrawalOutcome(v: Ledger, w: Ledger, f: Frame, done: bool, usable: bool, fault: Option<Snapshot>,
                                    now: ProtocolTime, epoch: nat, calibrated: bool, code: ErrorCode, after: bool)
  {
    var current := CurrentOf(v.store);
    if done || !usable then code == InvalidState && w == v && after == done
    else if v.mark.Some? && !Before(v.mark.value, now) then code == IdentityConflict && w == v && !after
    else if current.None? then code == InvalidState && w == v && !after
    else
      && code == InvalidState && w == Sent(v, after, f, now, None)
      && Dated(f, epoch, calibrated) && f.time == now
      && ShowsWithdrawal(f, current.value.id, current.value.event, fault)
  }

  function ErrorOf<T>(r: Result<T>): Option<ErrorCode> {
    match r case Ok(_) => None case Err(code) => Some(code)
  }

  /** A turn that failed: the transport refused something, the record forbids going on, or nothing is current. */
  ghost predicate Excused(v: Ledger, w: Ledger) {
    || w.status == TemporalAssociation
    || (w.status == Active && CurrentOf(w.store).None?)
    || (w.status == Active && |v.trace| < |w.trace| && Refusal(w.trace[|w.trace| - 1]))
  }

  lemma LeaderExcused(v: Ledger, w: Ledger, g: nat, starting: bool, f: Frame, now: ProtocolTime, epoch: nat,
                      calibrated: bool, error: Option<ErrorCode>)
    requires g < |v.store.slots| && v.status == Active
    requires LeaderOutcome(v, w, g, starting, f, now, epoch, calibrated, error)
    ensures v.trace <= w.trace
    ensures error.Some? ==> Excused(v, w)
    ensures error.None? ==> w.status == Active && w.discarded == v.discarded && w.accepted == v.accepted
    ensures error.None? ==> w.store == v.store.(slots := AcceptSlots(v.store.slots, g)) && w.queue == v.queue
    ensures w.accepted == v.accepted && w.store.faulted == v.store.faulted
  {
    hide Stands, MayFollow, AcceptSlots, GroupOf, CurrentOf, OnlyCounts, SpareOf;
    if w.status != TemporalAssociation && error.Some? {
      NoCurrentStays(v, w);
    }
  }

  lemma NoCurrentStays(v: Ledger, w: Ledger)
    ensures w == v ==> CurrentOf(w.store) == CurrentOf(v.store)
  {
  }

  lemma CurrentExcused(v: Ledger, w: Ledger, opening: bool, f: Frame, now: ProtocolTime, epoch: nat, calibrated: bool,
                       error: Option<ErrorCode>)
    requires v.status == Active && CurrentOutcome(v, w, opening, f, now, epoch, calibrated, error)
    ensures v.trace <= w.trace
    ensures error.Some? ==> Excused(v, w)
    ensures error.None? ==> w.store == v.store && w.queue == v.queue && w.count == v.count && w.status == Active
    ensures error.None? ==> w.discarded == v.discarded && (w.gate <==> v.gate && !opening)
    ensures w.accepted == v.accepted && w.store.faulted == v.store.faulted
  {
    hide ShowsRevision, CurrentOf, OnlyCounts, SpareOf;
  }

  lemma TurnExcused(v: Ledger, was: Ledger, w: Ledger, g: nat, starting: bool, f: Frame, now: ProtocolTime, epoch: nat,
                    calibrated: bool, error: Option<ErrorCode>)
    requires was.status == Active && v.trace <= was.trace && g < |was.store.slots| && error.Some?
    requires Halted(was, w, TemporalAssociation)
             || LeaderOutcome(was, w, g, starting, f, now, epoch, calibrated, error)
    ensures Excused(v, w) && v.trace <= w.trace && w.store.faulted == was.store.faulted && w.accepted == was.accepted
  {
    hide LeaderOutcome, CurrentOf;
    if !Halted(was, w, TemporalAssociation) {
      LeaderExcused(was, w, g, starting, f, now, epoch, calibrated, error);
    }
  }

  lemma SentGate(v: Ledger, ok: bool, f: Frame, now: ProtocolTime)
    ensures Sent(v, ok, f, now, None).(gate := v.gate) == Sent(v, ok, f, now, None)
    ensures Sent(v, ok, f, now, None).trace == v.trace + [Answered(ok, f, now, CurrentOf(v.store), None)]
    ensures Sent(v, ok, f, now, None).gate == v.gate
  {
  }

  /** A frame later than the mark may follow it. */
  lemma PastMark(f: Frame, mark: Option<ProtocolTime>, state: Option<Snapshot>)
    requires mark.Some? ==> Before(mark.value, f.time)
    ensures MayFollow(f, mark, state)
  {
  }

  /** The frame of a group has a known time. */
  lemma StandsTimed(f: Frame, now: ProtocolTime, current: Option<Pin>, group: Group)
    requires Stands(f, now, current, group)
    ensures f.timeKnown
  {
  }

  lemma IdsStay(s: Store, g: nat)
    requires g < |s.slots|
    ensures CurrentOf(s.(slots := AcceptSlots(s.slots, g))).Some? <==> CurrentOf(s).Some?
    ensures CurrentOf(s).Some? ==>
              CurrentOf(s.(slots := AcceptSlots(s.slots, g))).value.id == CurrentOf(s).value.id
  {
  }

  /** An accepted observation of the current revision opens the gate. */
  lemma ObservationOpens(v: Ledger, f: Frame, now: ProtocolTime)
    requires CurrentOf(v.store).Some? && f.valid && f.time == now
    requires ShowsRevision(f, CurrentOf(v.store).value.id, CurrentOf(v.store).value.event)
    requires InOrder(Sent(v, true, f, now, None))
    ensures OpensGate(ContextSent(f, now, CurrentOf(v.store), None))
    ensures InOrder(Sent(v, true, f, now, None).(gate := false))
  {
    hide ShowsRevision, InOrder, CurrentOf;
    GateGrows(v.trace, ContextSent(f, now, CurrentOf(v.store), None));
    OpeningKeeps(Sent(v, true, f, now, None));
  }

  lemma FaultEvolves(s: Store)
    requires WellFormed(s)
    ensures WellFormed(s.(faulted := true)) && Evolves(s.slots, s.slots)
  {
    hide Count;
  }

  /** With nothing to count, nothing awaits. */
  lemma NoneAwaits(s: seq<Revision>)
    requires Count(s, Awaiting) == 0
    ensures NothingAwaits(s)
  {
    hide Count;
    CountNone(s, Awaiting);
  }

  /** Emptying a place leaves the others empty that were so. */
  lemma OthersStay(v: Ledger, w: Ledger, i: nat)
    requires PlaceDropped(v, w, i)
    ensures w.queue == v.queue[i := None]
  {
  }

  // ----- Data -----

  /** The ledger after offering a packet. */
  ghost function HandedOver(v: Ledger, ok: bool, packet: Packet, slot: nat): Ledger
    requires slot < |v.store.slots|
  {
    var pin := PinOf(v.store.slots, slot);
    v.(trace := v.trace + [DataHanded(packet, pin, ok)],
       accepted := if ok then v.accepted + multiset{Item(packet, pin)} else v.accepted)
  }

  lemma HandedKeeps(v: Ledger, ok: bool, packet: Packet, slot: nat)
    requires InOrder(v) && v.status == Active && !v.gate
    requires slot < |v.store.slots| && v.store.slots[slot].committed && v.store.slots[slot].publication == Accepted
    requires RequiredKnown(v.store.slots[slot].event.state)
    ensures InOrder(HandedOver(v, ok, packet, slot))
  {
    hide HandlesLive, TraceSafe, Crested, GateOpen, CoveredIn, Steady, Occupied, HeldItems, Handed;
    var h := DataHanded(packet, PinOf(v.store.slots, slot), ok);
    assert CoveredIn(v.trace, v.store.slots[slot].id, v.store.slots[slot].event);
    AppendOther(v.trace, h, v.store.generation, v.mark, v.markState);
    SettledGrows(v.store.slots, v.trace, h);
    GateGrows(v.trace, h);
    HandedGrows(v.trace, h);
    RegroupItems(Handed(v.trace), ItemIn(h), HeldItems(v.queue, v.store.slots));
  }

  /** A held packet taken out after it was handed over, when it was counted a second time. */
  ghost predicate TakenOut(v: Ledger, w: Ledger, i: nat)
    requires i < |v.queue|
  {
    && v.count > 0 && PlaceDropped(v, w.(count := v.count, accepted := v.accepted), i)
    && w.count == v.count - 1 && w.accepted == v.accepted - ItemOf(v.queue[i], v.store.slots)
  }

  lemma TakenKeeps(v: Ledger, w: Ledger, i: nat)
    requires InOrder(v) && i < |v.queue| && TakenOut(v, w, i)
    requires WellFormed(w.store) && Counted(w.store.slots, w.live)
    ensures InOrder(w) && OnlyCounts(v.store.slots, w.store.slots) && SpareOf(w) == SpareOf(v)
  {
    hide HandlesLive, TraceSafe, Crested, GateOpen, Settled, Steady, Occupied, HeldItems, Handed, WellFormed, Counted,
         OnlyCounts, SpareOf;
    var x := w.(count := v.count, accepted := v.accepted);
    DropKeeps(v, x, i);
    SpareSame(w, x);
    OccupiedUpdate(v.queue, i, None);
    SteadyWithout(v.queue, v.store.slots, i);
    SteadyCounts(w.queue, v.store.slots, w.store.slots);
    SettledCounts(v.store.slots, w.store.slots, v.trace);
    var rest := HeldItemsUpdate(v.queue, i, None, v.store.slots);
  }

  lemma SpareSame(v: Ledger, w: Ledger)
    requires w.store == v.store && w.live == v.live && w.queue == v.queue
    ensures SpareOf(w) == SpareOf(v)
  {
  }

  /** A packet put into an empty place with the caller's handle. */
  ghost function Queued(v: Ledger, i: nat, x: Held): Ledger
    requires i < |v.queue| && x.slot < |v.store.slots|
  {
    v.(queue := v.queue[i := Some(x)], count := v.count + 1,
       accepted := v.accepted + multiset{Item(x.packet, PinOf(v.store.slots, x.slot))})
  }

  lemma QueuedKeeps(v: Ledger, i: nat, x: Held)
    requires InOrder(v) && v.status == Active && i < |v.queue| && v.queue[i].None?
    requires x.slot < |v.store.slots| && PinOf(v.store.slots, x.slot) in SpareOf(v)
    requires v.store.slots[x.slot].committed && !v.store.slots[x.slot].detached
    requires RequiredKnown(v.store.slots[x.slot].event.state)
    ensures InOrder(Queued(v, i, x)) && SpareOf(Queued(v, i, x)) == SpareOf(v) - multiset{PinOf(v.store.slots, x.slot)}
  {
    hide WellFormed, Counted, HeldPins, HeldItems, TraceSafe, Crested, GateOpen, Settled, Steady, Occupied, Handed,
         RequiredKnown;
    OccupiedUpdate(v.queue, i, Some(x));
    SteadyWith(v.queue, v.store.slots, i, x);
    var rest := HeldPinsUpdate(v.queue, i, Some(x), v.store.slots);
    LendAdds(v.live, rest, PinOf(v.store.slots, x.slot));
    var others := HeldItemsUpdate(v.queue, i, Some(x), v.store.slots);
  }

  /** The ledger after dropping a handle of the application. */
  ghost predicate GaveUp(v: Ledger, w: Ledger, slot: nat) {
    && slot < |v.store.slots| && Released(v.store, w.store, slot)
    && w == v.(store := w.store, live := v.live - multiset{PinOf(v.store.slots, slot)})
  }

  lemma GiveUpKeeps(v: Ledger, w: Ledger, slot: nat)
    requires InOrder(v) && GaveUp(v, w, slot) && PinOf(v.store.slots, slot) in SpareOf(v)
    requires WellFormed(w.store) && Counted(w.store.slots, w.live)
    ensures InOrder(w) && OnlyCounts(v.store.slots, w.store.slots)
    ensures SpareOf(w) == SpareOf(v) - multiset{PinOf(v.store.slots, slot)}
  {
    HandlesBelow(v);
    hide InOrder, HeldPins, WellFormed, Counted, OnlyCounts, InRange;
    var pins, pin := HeldPins(v.queue, v.store.slots), PinOf(v.store.slots, slot);
    assert SpareOf(v) == v.live - pins;
    hide SpareOf;
    ReleasedCounts(v.store, w.store, slot);
    SpareWithout(v.live, pins, pin);
    BelowWithout(v.live, pins, pin);
    CountsMove(v, w.store.slots, w.live);
    RangeOfCounts(v.queue, v.store.slots, w.store.slots);
  }

  lemma ReleasedCounts(s: Store, t: Store, slot: nat)
    requires Released(s, t, slot)
    ensures OnlyCounts(s.slots, t.slots) && t == s.(slots := t.slots)
  {
  }

  lemma RangeOfCounts(h: seq<Option<Held>>, s: seq<Revision>, t: seq<Revision>)
    requires InRange(h, |s|) && OnlyCounts(s, t)
    ensures InRange(h, |t|)
  {
  }

  lemma BelowWithout(live: multiset<Pin>, rest: multiset<Pin>, pin: Pin)
    requires rest <= live && pin in live - rest
    ensures rest <= live - multiset{pin}
  {
  }

  // ----- Accepting packets -----

  /** The ledger with Data noted for a revision. */
  ghost function Noted(v: Ledger, slot: nat): Ledger
    requires slot < |v.store.slots|
  {
    v.(store := v.store.(slots := v.store.slots[slot := v.store.slots[slot].(dependency := true)]))
  }

  lemma NotedKeeps(v: Ledger, slot: nat)
    requires InOrder(v) && slot < |v.store.slots| && v.store.slots[slot].committed
    requires WellFormed(Noted(v, slot).store) && Counted(Noted(v, slot).store.slots, v.live)
    ensures InOrder(Noted(v, slot)) && SpareOf(Noted(v, slot)) == SpareOf(v)
    ensures PinOf(Noted(v, slot).store.slots, slot) == PinOf(v.store.slots, slot)
  {
    StoreInOrder(v);
    DependencyEvolves(v.store.slots, slot, v.live);
    hide InOrder, WellFormed, Counted, Evolves, SpareOf;
    StoreEvolves(v, Noted(v, slot).store);
  }

  /**
   What comes of a packet that the stream takes: Data is noted for its revision; with the gate open and the Context out
   it is offered at once; otherwise it is held, or with the queue full the stream stops.
   */
  ghost predicate SubmitOutcome(v: Ledger, w: Ledger, capacity: nat, packet: Packet, slot: nat, r: Result<()>)
    requires slot < |v.store.slots|
  {
    RouteOutcome(Noted(v, slot), w, capacity, packet, slot, r)
  }

  ghost predicate RouteOutcome(v: Ledger, w: Ledger, capacity: nat, packet: Packet, slot: nat, r: Result<()>)
    requires slot < |v.store.slots|
  {
    if !v.gate && v.store.slots[slot].publication == Accepted then GaveUp(HandedOver(v, r.Ok?, packet, slot), w, slot)
    else if v.count == capacity then
      r == Err(CapacityExhausted) && exists x :: Halted(v, x, ContextUnavailable) && GaveUp(x, w, slot)
    else r.Ok? && exists i :: 0 <= i < |v.queue| && v.queue[i].None? && w == Queued(v, i, Held(packet, slot))
  }

  lemma OfferedAlike(v: Ledger, ok: bool, packet: Packet, slot: nat)
    requires slot < |v.store.slots|
    ensures HandedOver(v, ok, packet, slot).store == v.store && SpareOf(HandedOver(v, ok, packet, slot)) == SpareOf(v)
    ensures |HandedOver(v, ok, packet, slot).trace| == |v.trace| + 1
  {
  }

  /** The record grows, and the packet counts as accepted exactly on success. */
  lemma SubmitFacts(v: Ledger, w: Ledger, capacity: nat, packet: Packet, slot: nat, r: Result<()>)
    requires slot < |v.store.slots| && SubmitOutcome(v, w, capacity, packet, slot, r)
    ensures v.trace <= w.trace
    ensures w.accepted == v.accepted + if r.Ok? then multiset{Item(packet, PinOf(v.store.slots, slot))} else multiset{}
  {
    hide OnlyCounts, SpareOf, HeldItems;
  }

  /** A handle of the application is live and shows a committed revision. */
  lemma LentIsLive(v: Ledger, slot: nat)
    requires InOrder(v) && slot < |v.store.slots| && PinOf(v.store.slots, slot) in SpareOf(v)
    ensures PinOf(v.store.slots, slot) in v.live && v.store.slots[slot].committed
  {
    hide WellFormed, Recorded, Conserved, HeldPins, Occupied;
  }

  /** Stopping and offering leave the application's handles alone. */
  lemma LentStays(v: Ledger, w: Ledger, slot: nat)
    requires slot < |v.store.slots| && PinOf(v.store.slots, slot) in SpareOf(v)
    requires OnlyCounts(v.store.slots, w.store.slots) && SpareOf(w) == SpareOf(v)
    ensures slot < |w.store.slots| && PinOf(w.store.slots, slot) == PinOf(v.store.slots, slot)
    ensures PinOf(w.store.slots, slot) in SpareOf(w)
  {
    hide SpareOf;
  }

  lemma HaltedFacts(v: Ledger, w: Ledger, reason: Status)
    requires Halted(v, w, reason)
    ensures w.status == reason && w.trace == v.trace && w.accepted == v.accepted && w.store.faulted == v.store.faulted
    ensures w.discarded == v.discarded + HeldItems(v.queue, v.store.slots)
    ensures OnlyCounts(v.store.slots, w.store.slots) && SpareOf(w) == SpareOf(v)
  {
    hide OnlyCounts, SpareOf, HeldItems;
  }

  lemma WithdrawalFacts(v: Ledger, w: Ledger, f: Frame, done: bool, usable: bool, fault: Option<Snapshot>,
                        now: ProtocolTime, epoch: nat, calibrated: bool, code: ErrorCode, after: bool)
    requires WithdrawalOutcome(v, w, f, done, usable, fault, now, epoch, calibrated, code, after)
    ensures v.trace <= w.trace && w.status == v.status && w.accepted == v.accepted && w.discarded == v.discarded
  {
    hide CurrentOf, ShowsWithdrawal;
  }

  /** Everything is published, handed over and collected. */
  ghost predicate AllClear(v: Ledger) {
    NothingAwaits(v.store.slots) && Tidy(v.store) && forall i :: 0 <= i < |v.queue| ==> v.queue[i].None?
  }

  /** Among the first `n` places no packet's revision is published. */
  ghost predicate NonePublished(h: seq<Option<Held>>, slots: seq<Revision>, n: nat) {
    forall i :: 0 <= i < n <= |h| && h[i].Some? ==>
      h[i].value.slot < |slots| && slots[h[i].value.slot].publication != Accepted
  }

  lemma NoneYet(h: seq<Option<Held>>, slots: seq<Revision>)
    ensures NonePublished(h, slots, 0)
  {
  }

  lemma OneMore(h: seq<Option<Held>>, slots: seq<Revision>, i: nat)
    requires i < |h| && NonePublished(h, slots, i)
    requires h[i].Some? ==> h[i].value.slot < |slots| && slots[h[i].value.slot].publication != Accepted
    ensures NonePublished(h, slots, i + 1)
  {
  }

  lemma StillNone(h: seq<Option<Held>>, slots: seq<Revision>, k: seq<Option<Held>>, t: seq<Revision>, i: nat)
    requires i < |h| && NonePublished(h, slots, i) && k == h[i := None] && OnlyCounts(slots, t)
    ensures NonePublished(k, t, i + 1)
  {
  }

  lemma OccupiedPlace(h: seq<Option<Held>>, i: nat)
    requires i < |h| && h[i].Some?
    ensures Occupied(h) > 0
  {
    hide Occupied;
    OccupiedBounds(h);
  }

  // ----- Starting and detaching -----

  ghost function StartedAnew(v: Ledger): Ledger {
    v.(status := Active, gate := true, trace := v.trace + [Started])
  }

  lemma StartKeeps(v: Ledger)
    requires InOrder(v) && v.status == Idle
    ensures InOrder(StartedAnew(v))
  {
    hide HandlesLive, Steady, TraceSafe, Crested, Settled, GateOpen, Occupied, HeldItems, Handed;
    AppendOther(v.trace, Started, v.store.generation, v.mark, v.markState);
    SettledGrows(v.store.slots, v.trace, Started);
    HandedGrows(v.trace, Started);
  }

  /** Everything that belongs to an association cleared: the queue emptied, nothing marked. */
  ghost predicate Cleared(v: Ledger, w: Ledger) {
    && Halted(v, w.(mark := v.mark, markState := v.markState, trace := v.trace), Idle)
    && w.mark.None? && w.markState.None? && w.trace == v.trace + [Detached]
  }

  lemma ClearedIs(v: Ledger, x: Ledger, w: Ledger)
    requires Halted(v, x, Idle) && w == x.(mark := None, markState := None, trace := v.trace + [Detached])
    ensures Cleared(v, w) && w.store == x.store && w.live == x.live && w.queue == x.queue
  {
    hide OnlyCounts, SpareOf, HeldItems;
    assert w.(mark := v.mark, markState := v.markState, trace := v.trace) == x;
  }

  /** After the store detached, before the publisher did. */
  lemma DetachedHandles(v: Ledger, generation: nat, s: Store)
    requires InOrder(v) && generation > v.store.generation && s == Revisions.Detach(v.store, generation).value
    requires WellFormed(s) && Counted(s.slots, v.live)
    ensures HandlesLive(s, v.live, v.queue) && HeldItems(v.queue, s.slots) == HeldItems(v.queue, v.store.slots)
    ensures Settled(s.slots, v.trace) && SpareOf(v.(store := s)) == SpareOf(v)
  {
    hide CoveredIn, HeldPins, HeldItems, Count, WellFormed, Counted, TraceSafe, Crested, Steady, GateOpen, Handed,
         Occupied;
    forall i | 0 <= i < |v.queue| && v.queue[i].Some?
      ensures PinOf(s.slots, v.queue[i].value.slot) == PinOf(v.store.slots, v.queue[i].value.slot)
    {
    }
    HeldPinsSame(v.queue, v.store.slots, s.slots);
    HeldItemsSame(v.queue, v.store.slots, s.slots);
  }

  lemma ResetKeeps(v: Ledger, w: Ledger, s: Store)
    requires InOrder(v) && s.generation > v.store.generation && Cleared(v.(store := s), w)
    requires HandlesLive(w.store, w.live, w.queue)
    requires HeldItems(v.queue, s.slots) == HeldItems(v.queue, v.store.slots) && Settled(s.slots, v.trace)
    ensures InOrder(w)
  {
    hide HandlesLive, TraceSafe, Crested, Settled, Steady, OnlyCounts, HeldItems, Handed, Occupied, GateOpen;
    NoPins(w.queue, w.store.slots);
    NoItems(w.queue, w.store.slots);
    OccupiedBounds(w.queue);
    SettledCounts(s.slots, w.store.slots, v.trace);
    NewAssociation(v.trace, v.store.generation, s.generation, v.mark, v.markState);
    AppendOther(v.trace, Detached, s.generation, None, None);
    SettledGrows(w.store.slots, v.trace, Detached);
    HandedGrows(v.trace, Detached);
  }

  lemma NothingRecorded(s: Store)
    requires forall i :: 0 <= i < |s.slots| ==> s.slots[i].publication == Pending
    ensures TraceSafe([]) && Crested([], s.generation, None, None) && Settled(s.slots, [])
  {
  }

  lemma SpareKept(live: multiset<Pin>, rest: multiset<Pin>, pin: Pin)
    ensures live - (rest + multiset{pin}) == live - multiset{pin} - rest
  {
  }

  lemma QueueBound(h: seq<Option<Held>>)
    ensures Occupied(h) <= |h|
  {
  }

  /** A handle moved into the queue is no longer spare. */
  lemma LendAdds(live: multiset<Pin>, rest: multiset<Pin>, pin: Pin)
    requires rest <= live && pin in live - rest
    ensures rest + multiset{pin} <= live
    ensures live - (rest + multiset{pin}) == live - rest - multiset{pin}
  {
  }

  lemma SpareWithout(live: multiset<Pin>, rest: multiset<Pin>, pin: Pin)
    ensures live - multiset{pin} - rest == live - rest - multiset{pin}
  {
  }

  lemma {:induction false} NoPins(h: seq<Option<Held>>, slots: seq<Revision>)
    requires forall i :: 0 <= i < |h| ==> h[i].None?
    ensures InRange(h, |slots|) && HeldPins(h, slots) == multiset{} && Steady(h, slots)
  {
    if h != [] {
      NoPins(h[..|h| - 1], slots);
    }
  }

  lemma CurrentInStore(s: Store)
    requires WellFormed(s)
    ensures s.current.Some? ==>
              s.current.value < |s.slots| && s.slots[s.current.value].event.association == s.generation
    ensures s.current.Some? && !s.faulted ==> RequiredKnown(s.slots[s.current.value].event.state)
  {
    assert s.current.Some? ==> SlotOk(s, s.slots[s.current.value]);
  }

  lemma LeaderInStore(s: Store, g: nat)
    requires WellFormed(s) && IsLeader(s.slots, g)
    ensures g < |s.slots| && s.slots[g].committed && s.slots[g].event.association == s.generation
    ensures !s.faulted ==> RequiredKnown(s.slots[g].event.state)
  {
    assert SlotOk(s, s.slots[g]);
  }

  /** A frame shows its revision, as a change at its own time or as a refresh or observation at the present time. */
  lemma FrameFacts(r: Revision, epoch: nat, now: ProtocolTime, calibrated: bool)
    ensures var f := FrameOf(r, epoch, false, now, calibrated);
            && f.timeKnown == r.event.timeKnown && f.valid == RequiredKnown(r.event.state)
            && f.association == r.event.association && Dated(f, epoch, calibrated)
            && (f.timeKnown ==> Stamped(f) && ShowsRevision(f, r.id, r.event))
            && f.time == ContextTime(r.event) && f.change && !f.refresh
    ensures var f := FrameOf(r, epoch, true, now, calibrated);
            && Stamped(f) && ShowsRevision(f, r.id, r.event) && f.valid == RequiredKnown(r.event.state)
            && f.association == r.event.association && Dated(f, epoch, calibrated)
            && f.time == now && f.refresh && !f.change && !f.observation
    ensures var f := Observation(r, epoch, now, calibrated);
            && Stamped(f) && ShowsRevision(f, r.id, r.event) && f.valid == RequiredKnown(r.event.state)
            && f.association == r.event.association && Dated(f, epoch, calibrated)
            && f.time == now && f.change && f.observation && f.refresh
  {
    hide RequiredKnown;
  }

  lemma InvalidFrameFacts(r: Revision, fault: Option<Snapshot>, epoch: nat, now: ProtocolTime, calibrated: bool)
    ensures var f := InvalidFrame(r, fault, epoch, now, calibrated);
            && Stamped(f) && f.association == r.event.association && f.time == now && Dated(f, epoch, calibrated)
            && ShowsWithdrawal(f, r.id, r.event, fault)
  {
    hide RequiredKnown;
  }

  /** A frame for a group that bears the current revision's identifier shows the current revision. */
  lemma GroupShowsCurrent(s: Store, g: nat, f: Frame, now: ProtocolTime)
    requires WellFormed(s) && g < |s.slots| && s.slots[g].committed
    requires s.current.Some? && s.current.value < |s.slots| && f.revision == s.slots[s.current.value].id
    requires Stands(f, now, Some(PinOf(s.slots, s.current.value)), GroupOf(s.slots, g))
    ensures ShowsRevision(f, s.slots[s.current.value].id, s.slots[s.current.value].event)
  {
    hide Count, CarriesIndicators, RequiredKnown;
  }

  lemma MarkAllows(f: Frame, mark: Option<ProtocolTime>, state: Option<Snapshot>)
    ensures MayFollow(f, mark, state) <==>
            !(mark.Some? && !Before(mark.value, f.time)
              && (Before(f.time, mark.value) || state.None? || !SameState(f.state, state.value)))
  {
    hide SameState;
  }

  lemma AcceptKeepsHeld(h: seq<Option<Held>>, slots: seq<Revision>, g: nat)
    requires g < |slots| && Steady(h, slots) && InRange(h, |slots|)
    ensures Steady(h, AcceptSlots(slots, g)) && HeldPins(h, AcceptSlots(slots, g)) == HeldPins(h, slots)
    ensures HeldItems(h, AcceptSlots(slots, g)) == HeldItems(h, slots)
    ensures forall i :: 0 <= i < |slots| ==> AcceptSlots(slots, g)[i].id == slots[i].id
  {
    hide RequiredKnown, Joins;
    HeldPinsSame(h, slots, AcceptSlots(slots, g));
    HeldItemsSame(h, slots, AcceptSlots(slots, g));
  }

  lemma HeldInStore(h: seq<Option<Held>>, slots: seq<Revision>, i: nat)
    requires Steady(h, slots) && i < |h| && h[i].Some?
    ensures h[i].value.slot < |slots| && slots[h[i].value.slot].committed && !slots[h[i].value.slot].detached
    ensures RequiredKnown(slots[h[i].value.slot].event.state)
  {
  }

  lemma SteadyWithout(h: seq<Option<Held>>, slots: seq<Revision>, i: nat)
    requires Steady(h, slots) && i < |h|
    ensures Steady(h[i := None], slots)
  {
    hide RequiredKnown;
  }

  lemma SteadyWith(h: seq<Option<Held>>, slots: seq<Revision>, i: nat, x: Held)
    requires Steady(h, slots) && i < |h| && x.slot < |slots| && slots[x.slot].committed && !slots[x.slot].detached
    requires RequiredKnown(slots[x.slot].event.state)
    ensures Steady(h[i := Some(x)], slots)
  {
    hide RequiredKnown;
  }

  lemma SteadyCounts(h: seq<Option<Held>>, s: seq<Revision>, t: seq<Revision>)
    requires Steady(h, s) && OnlyCounts(s, t)
    ensures Steady(h, t)
  {
    hide RequiredKnown;
  }

  /** With nothing awaiting, a held packet that could not be handed over does not exist. */
  lemma AllHandedOver(h: seq<Option<Held>>, slots: seq<Revision>, trace: seq<Happening>)
    requires Steady(h, slots) && Settled(slots, trace)
    requires NothingAwaits(slots)
    requires NonePublished(h, slots, |h|)
    ensures forall i :: 0 <= i < |h| ==> h[i].None?
  {
    hide RequiredKnown, CoveredIn;
    forall i | 0 <= i < |h|
      ensures h[i].None?
    {
      if h[i].Some? {
        assert false;
      }
    }
  }

  lemma DependencyEvolves(s: seq<Revision>, i: nat, live: multiset<Pin>)
    requires i < |s| && s[i].committed && Counted(s, live)
    ensures Evolves(s, s[i := s[i].(dependency := true)])
  {
    CountsEvolve(s, s, live);
  }

  lemma CollectEvolves(s: Store)
    requires WellFormed(s)
    ensures Evolves(s.slots, Revisions.Collect(s).slots)
    ensures NothingAwaits(s.slots) ==> NothingAwaits(Revisions.Collect(s).slots)
  {
    hide Count;
    forall i | 0 <= i < |s.slots|
      ensures SlotOk(s, s.slots[i])
    {
    }
  }

  lemma NewAssociation(trace: seq<Happening>, previous: nat, generation: nat, mark: Option<ProtocolTime>,
                       state: Option<Snapshot>)
    requires Crested(trace, previous, mark, state) && generation > previous
    ensures Crested(trace, generation, None, None)
  {
  }
}
