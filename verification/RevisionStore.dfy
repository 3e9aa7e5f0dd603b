/**
 The store of state revisions with counted handles
 (include/vita/runtime/context/revisions.hpp, RevisionStore and RevisionHandle).
 */
module RevisionStores {
  import opened Core
  import opened Time
  import opened ContextState
  import opened Revisions

  /** A handle either refers to a slot of this store or to nothing here. */
  datatype Handle = Elsewhere | At(slot: nat)

  ghost function PinOf(slots: seq<Revision>, i: nat): Pin
    requires i < |slots|
  {
    Pin(i, slots[i].id, slots[i].event)
  }

  /** Every live handle still shows what it showed when taken, and each slot counts its live handles. */
  ghost predicate Counted(slots: seq<Revision>, live: multiset<Pin>) {
    && (forall p :: p in live ==> p.slot < |slots| && slots[p.slot].committed && p == PinOf(slots, p.slot))
    && (forall i :: 0 <= i < |slots| ==> slots[i].references == live[PinOf(slots, i)])
  }

  /** Slots with live handles keep their identity and no count changes. */
  ghost predicate KeepsPinned(slots: seq<Revision>, t: seq<Revision>) {
    && |t| == |slots|
    && (forall i :: 0 <= i < |slots| ==> t[i].references == slots[i].references)
    && (forall i :: 0 <= i < |slots| && slots[i].references > 0 ==>
          t[i].committed && t[i].id == slots[i].id && t[i].event == slots[i].event)
  }

  lemma CountedKept(slots: seq<Revision>, t: seq<Revision>, live: multiset<Pin>)
    requires Counted(slots, live) && KeepsPinned(slots, t)
    ensures Counted(t, live)
  {
    forall p | p in live
      ensures p.slot < |t| && t[p.slot].committed && p == PinOf(t, p.slot)
    {
      assert slots[p.slot].references == live[PinOf(slots, p.slot)];
    }
    forall i | 0 <= i < |t|
      ensures t[i].references == live[PinOf(t, i)]
    {
      assert slots[i].references == live[PinOf(slots, i)];
      if slots[i].references == 0 && PinOf(t, i) in live {
        assert PinOf(t, i) == PinOf(slots, i);
      }
    }
  }

  lemma CountedTaken(slots: seq<Revision>, i: nat, live: multiset<Pin>)
    requires Counted(slots, live) && i < |slots| && slots[i].committed
    ensures Counted(slots[i := slots[i].(references := slots[i].references + 1)], live + multiset{PinOf(slots, i)})
  {
    var t := slots[i := slots[i].(references := slots[i].references + 1)];
    forall k | 0 <= k < |t|
      ensures PinOf(t, k) == PinOf(slots, k)
    {
    }
  }

  lemma CountedDropped(slots: seq<Revision>, i: nat, live: multiset<Pin>)
    requires Counted(slots, live) && i < |slots| && PinOf(slots, i) in live
    ensures slots[i].references > 0 && slots[i].committed
    ensures Counted(slots[i := slots[i].(references := slots[i].references - 1)], live - multiset{PinOf(slots, i)})
  {
    assert slots[i].references == live[PinOf(slots, i)];
    var t := slots[i := slots[i].(references := slots[i].references - 1)];
    forall k | 0 <= k < |t|
      ensures PinOf(t, k) == PinOf(slots, k)
    {
    }
  }

  class RevisionStore {
    const slots: array<Revision>
    var generation: nat
    var nextId: nat
    var nextReservation: nat
    var current: Option<nat>
    var faulted: bool
    /** Handles that exist, with what each showed when it was taken. */
    ghost var live: multiset<Pin>

    ghost function State(): Store
      reads this, slots
    {
      Store(slots[..], generation, nextId, nextReservation, current, faulted)
    }

    ghost predicate Valid()
      reads this, slots
    {
      WellFormed(State()) && Counted(slots[..], live)
    }

    constructor (capacity: nat, generation: nat)
      requires capacity > 0
      ensures Valid() && fresh(slots) && slots.Length == capacity && live == multiset{}
      ensures State() == Store(seq(capacity, _ => BLANK), generation, 1, 1, None, false)
    {
      slots := new Revision[capacity](_ => BLANK);
      this.generation, nextId, nextReservation, current, faulted := generation, 1, 1, None, false;
      live := multiset{};
      new;
      CountNone(slots[..], IsReserved);
      assert slots[..] == seq(capacity, _ => BLANK);
    }

    /** Frees every revision that is superseded, settled and without handles. */
    method Collect()
      requires Valid()
      modifies slots
      ensures Valid() && State() == Revisions.Collect(old(State()))
      ensures forall i :: 0 <= i < slots.Length ==>
                if InUse(old(State()), i) then slots[i] == old(slots[i]) else !slots[i].occupied
    {
      hide WellFormed, Counted, Count, KeepsPinned;
      ghost var was := State();
      CollectFreesUnused(was);
      CollectKeeps(was);
      CollectKeepsPinned(was);
      for i := 0 to slots.Length
        invariant forall j :: 0 <= j < i ==> slots[j] == Revisions.Collect(was).slots[j]
        invariant forall j :: i <= j < slots.Length ==> slots[j] == was.slots[j]
      {
        var s := slots[i];
        if s.occupied && s.committed && current != Some(i) && (s.detached || s.publication != Pending)
           && s.references == 0 {
          slots[i] := s.(occupied := false, committed := false);
        }
      }
      assert slots[..] == Revisions.Collect(was).slots;
      CountedKept(was.slots, slots[..], live);
    }

    /** Counts the free and the reserved slots. */
    method Survey() returns (free: nat, reserved: nat)
      requires Valid()
      ensures free == Count(slots[..], IsFree) && reserved == Count(slots[..], IsReserved)
    {
      free, reserved := 0, 0;
      for i := 0 to slots.Length
        invariant free == Count(slots[..i], IsFree) && reserved == Count(slots[..i], IsReserved)
      {
        assert slots[..i + 1][..i] == slots[..i];
        if IsFree(slots[i]) { free := free + 1; }
        if IsReserved(slots[i]) { reserved := reserved + 1; }
      }
      assert slots[..slots.Length] == slots[..];
    }

    /**
     Sets `count` slots aside under a new token. It succeeds exactly when that many slots are not in use and neither
     tokens nor identifiers run out; a failure may still have collected.
     */
    method Reserve(count: nat) returns (r: Result<nat>)
      requires Valid()
      modifies this`nextReservation, slots
      ensures Valid()
      ensures match Revisions.Reserve(old(State()), count)
              case Ok(s) => r == Ok(old(nextReservation)) && State() == s
              case Err(code) =>
                r == Err(code) && (State() == old(State()) || State() == Revisions.Collect(old(State())))
      ensures r.Ok? <==>
              && 1 <= count <= slots.Length - |UsedSlots(old(State()))|
              && old(nextReservation) < U64_MAX && nextId + |ReservedSlots(old(State()))| + count <= U64_MAX
      ensures r == Err(CapacityExhausted) <==>
              1 <= count <= slots.Length && count > slots.Length - |UsedSlots(old(State()))|
    {
      hide Revisions.Collect, WellFormed, Count, Take, Counted, KeepsPinned, UsedSlots, ReservedSlots;
      ReserveOutcome(State(), count);
      if count == 0 || count > slots.Length {
        return Err(InvalidArgument);
      }
      Collect();
      var free, reserved := Survey();
      if free < count {
        return Err(CapacityExhausted);
      }
      if nextReservation == U64_MAX || nextId > U64_MAX - count - reserved {
        return Err(Overflow);
      }
      ReserveKeeps(old(State()), count);
      var token := nextReservation;
      TakeKeepsPinned(State(), count, token);
      Occupy(count, token);
      CountedKept(Revisions.Collect(old(State())).slots, slots[..], live);
      nextReservation := token + 1;
      return Ok(token);
    }

    method Occupy(count: nat, token: nat)
      modifies slots
      ensures slots[..] == Take(old(slots[..]), count, token)
    {
      hide Take, Count, Mark;
      ghost var was := slots[..];
      ghost var goal := Take(was, count, token);
      var left := count;
      NoneTaken(was);
      for i := 0 to slots.Length
        invariant forall j :: 0 <= j < i ==> slots[j] == goal[j]
        invariant forall j :: i <= j < slots.Length ==> slots[j] == was[j]
        invariant left == count - Min(count, Count(was[..i], IsFree))
      {
        TakenAt(was, count, token, i);
        if !slots[i].occupied && left > 0 {
          slots[i] := Mark(slots[i], token);
          left := left - 1;
        }
      }
      assert slots[..] == goal;
    }

    /** Commits an effective event to the first slot of its reservation. */
    method Record(event: Event, token: nat)
      requires Valid()
      modifies this`nextId, this`current, this`faulted, slots
      ensures Valid() && State() == Revisions.Record(old(State()), event, token)
    {
      hide WellFormed, Count, Counted, KeepsPinned, FirstFor, RequiredKnown;
      ghost var was := State();
      RecordKeeps(was, event, token);
      RecordKeepsPinned(was, event, token);
      if event.association != generation {
        return;
      }
      var i := FindReserved(token);
      if i == slots.Length {
        faulted := true;
        return;
      }
      slots[i] := slots[i].(event := event, id := nextId, committed := true, publication := Pending);
      nextId, current := nextId + 1, Some(i);
      if !RequiredKnown(event.state) {
        faulted := true;
      }
      CountedKept(was.slots, slots[..], live);
    }

    method FindReserved(token: nat) returns (i: nat)
      ensures i <= slots.Length
      ensures FirstFor(slots[..], token) == if i < slots.Length then Some(i) else None
    {
      i := 0;
      while i < slots.Length && !ReservedFor(slots[i], token)
        invariant i <= slots.Length
        invariant forall j :: 0 <= j < i ==> !ReservedFor(slots[j], token)
      {
        i := i + 1;
      }
    }

    /** A dropped reservation frees what it did not use. */
    method GiveBack(token: nat)
      requires Valid()
      modifies slots
      ensures Valid() && State() == Revisions.GiveBack(old(State()), token)
    {
      hide WellFormed, Counted, Count, KeepsPinned;
      ghost var was := State();
      GiveBackKeeps(was, token);
      GiveBackKeepsPinned(was, token);
      for i := 0 to slots.Length
        invariant forall j :: 0 <= j < i ==> slots[j] == Revisions.GiveBack(was, token).slots[j]
        invariant forall j :: i <= j < slots.Length ==> slots[j] == was.slots[j]
      {
        if ReservedFor(slots[i], token) {
          slots[i] := slots[i].(occupied := false);
        }
      }
      assert slots[..] == Revisions.GiveBack(was, token).slots;
      CountedKept(was.slots, slots[..], live);
    }

    /** Installs the first revision of an association and hands out a handle on it. */
    method Initial(event: Event, checks: Result<()>) returns (r: Result<nat>)
      requires Valid()
      modifies this`nextReservation, this`nextId, this`current, this`faulted, this`live, slots
      ensures Valid()
      ensures checks.Err? ==> r == Err(checks.error)
      ensures checks.Ok? && (old(current).Some? || event.association != generation || !RequiredKnown(event.state)) ==>
                r == Err(InvalidState)
      ensures r.Err? ==> current == old(current) && nextId == old(nextId) && faulted == old(faulted)
                         && live == old(live)
      ensures r.Ok? ==> current == Some(r.value) && r.value < slots.Length && Awaiting(slots[r.value])
                        && slots[r.value].event == event && slots[r.value].id == old(nextId)
                        && nextId == old(nextId) + 1
                        && faulted == old(faulted) && live == old(live) + multiset{PinOf(slots[..], r.value)}
    {
      hide WellFormed, Count, Counted, Revisions.Collect, Take;
      if checks.Err? {
        return Err(checks.error);
      }
      if current.Some? || event.association != generation || !RequiredKnown(event.state) {
        return Err(InvalidState);
      }
      var reservation := Reserve(1);
      if reservation.Err? {
        return Err(reservation.error);
      }
      ReservedHasSlot(old(State()), reservation.value);
      Record(event, reservation.value);
      GiveBack(reservation.value);
      r := Current();
    }

    /** Takes a handle on the current revision. */
    method Current() returns (r: Result<nat>)
      requires Valid()
      modifies this`live, slots
      ensures Valid()
      ensures current.None? ==> r == Err(InvalidState) && State() == old(State()) && live == old(live)
      ensures current.Some? ==> r == Ok(current.value) && Retained(old(State()), State(), current.value)
                                && live == old(live) + multiset{PinOf(slots[..], current.value)}
    {
      if current.None? {
        return Err(InvalidState);
      }
      Retain(current.value);
      return Ok(current.value);
    }

    method Retain(i: nat)
      requires Valid() && i < slots.Length && slots[i].committed
      modifies this`live, slots
      ensures Valid() && Retained(old(State()), State(), i)
      ensures live == old(live) + multiset{PinOf(slots[..], i)}
    {
      hide WellFormed, Counted, Count;
      TouchKeeps(State(), i, slots[i].(references := slots[i].references + 1));
      CountedTaken(slots[..], i, live);
      live := live + multiset{PinOf(slots[..], i)};
      slots[i] := slots[i].(references := slots[i].references + 1);
    }

    method Release(i: nat)
      requires Valid() && i < slots.Length && PinOf(slots[..], i) in live
      modifies this`live, slots
      ensures Valid() && Released(old(State()), State(), i)
      ensures live == old(live) - multiset{PinOf(slots[..], i)}
    {
      hide WellFormed, Counted, Count;
      CountedDropped(slots[..], i, live);
      var one := slots[i].(references := slots[i].references - 1);
      TouchKeeps(State(), i, one);
      live := live - multiset{PinOf(slots[..], i)};
      slots[i] := one;
    }

    /** Records that Data relies on a revision. */
    method NoteDataDependency(h: Handle) returns (r: Result<()>)
      requires Valid() && (h.At? ==> h.slot < slots.Length && PinOf(slots[..], h.slot) in live)
      modifies slots
      ensures Valid()
      ensures h.Elsewhere? ==> r == Err(InvalidArgument) && State() == old(State())
      ensures h.At? && old(slots[h.slot]).detached ==> r == Err(StaleGeneration) && State() == old(State())
      ensures h.At? && !old(slots[h.slot]).detached ==>
                r == Ok(()) && State() ==
                    old(State()).(slots := old(slots[..])[h.slot := old(slots[h.slot]).(dependency := true)])
    {
      if h.Elsewhere? {
        return Err(InvalidArgument);
      }
      if !(slots[h.slot].committed && !slots[h.slot].detached) {
        return Err(StaleGeneration);
      }
      ghost var was := State();
      TouchKeeps(was, h.slot, slots[h.slot].(dependency := true));
      slots[h.slot] := slots[h.slot].(dependency := true);
      CountedKept(was.slots, slots[..], live);
      return Ok(());
    }

    method NextPublication() returns (r: Result<nat>)
      requires Valid()
      ensures r.Ok? ==> IsNext(slots[..], r.value)
      ensures r.Err? ==> r.error == InvalidState && forall j :: 0 <= j < slots.Length ==> !Awaiting(slots[j])
    {
      hide IsNext, Sooner;
      var next: Option<nat> := None;
      for i := 0 to slots.Length
        invariant NextUpTo(slots[..i], next)
      {
        NextGrows(slots[..i], slots[i], next);
        assert slots[..i + 1] == slots[..i] + [slots[i]];
        if Awaiting(slots[i]) && (next.None? || Sooner(slots[i], slots[next.value])) {
          next := Some(i);
        }
      }
      assert slots[..slots.Length] == slots[..];
      return if next.Some? then Ok(next.value) else Err(InvalidState);
    }

    /** Selects the revision whose Context stands for every awaiting revision of the earliest time. */
    method PublicationGroup() returns (r: Result<nat>)
      requires Valid()
      ensures r.Ok? ==> IsLeader(slots[..], r.value) && IsConsistent(slots[..], r.value)
      ensures r == Err(InvalidState) <==> forall j :: 0 <= j < slots.Length ==> !Awaiting(slots[j])
      ensures r.Err? && r.error != InvalidState ==>
                r.error == IdentityConflict
                  && exists g :: 0 <= g < slots.Length && IsLeader(slots[..], g) && !IsConsistent(slots[..], g)
    {
      var first := NextPublication();
      if first.Err? {
        return Err(first.error);
      }
      assert Awaiting(slots[first.value]);
      if slots[first.value].event.timeKnown {
        r := TimedGroup(first.value);
      } else {
        r := UntimedGroup(first.value);
      }
    }

    /** Revisions without a time are one group; none of them may have Data or loss tied to it. */
    method UntimedGroup(final: nat) returns (r: Result<nat>)
      requires Valid() && IsNext(slots[..], final) && !slots[final].event.timeKnown
      ensures GroupVerdict(slots[..], r)
    {
      hide Before, ContextTime, SameState, WellFormed, Counted;
      for i := 0 to slots.Length
        invariant forall j :: 0 <= j < i && Awaiting(slots[j]) ==> !Depends(slots[j])
      {
        var s := slots[i];
        if Awaiting(s) && !s.event.timeKnown && Depends(s) {
          assert IsLeader(slots[..], final);
          assert SameGroup(slots[..][i].event, slots[..][final].event) && !Agrees(slots[..][i], slots[..][final]);
          assert !IsConsistent(slots[..], final);
          return Err(IdentityConflict);
        }
      }
      return Ok(final);
    }

    /** Revisions of one known time: same ordinal, and Data or loss only where the state is the leader's. */
    method TimedGroup(first: nat) returns (r: Result<nat>)
      requires Valid() && IsNext(slots[..], first) && slots[first].event.timeKnown
      ensures GroupVerdict(slots[..], r)
    {
      hide Before, SameState, WellFormed, Counted;
      ghost var all := slots[..];
      var final: nat := first;
      for i := 0 to slots.Length
        invariant final < slots.Length && Awaiting(slots[final]) && SameGroup(slots[final].event, slots[first].event)
        invariant SameOrdinal(slots[final].event, slots[first].event)
        invariant forall j :: 0 <= j < i && Awaiting(slots[j]) && SameGroup(slots[j].event, slots[first].event) ==>
                    SameOrdinal(slots[j].event, slots[first].event) && slots[j].id <= slots[final].id
        invariant slots[final].id >= slots[first].id
      {
        var s := slots[i];
        if Awaiting(s) && s.event.timeKnown && ContextTime(s.event) == ContextTime(slots[final].event) {
          if s.event.sampleOrdinal != slots[final].event.sampleOrdinal
             || s.event.ordinalKnown != slots[final].event.ordinalKnown {
            OrdinalConflict(all, first, i);
            return Err(IdentityConflict);
          }
          if s.id > slots[final].id {
            final := i;
          }
        }
      }
      NextGroupLeads(all, first, final);
      for i := 0 to slots.Length
        invariant forall j :: 0 <= j < i && Awaiting(slots[j]) && SameGroup(slots[j].event, slots[final].event) ==>
                    Agrees(slots[j], slots[final])
      {
        var s := slots[i];
        if Awaiting(s) && s.id != slots[final].id && s.event.timeKnown
           && ContextTime(s.event) == ContextTime(slots[final].event) {
          if Depends(s) && !SameState(s.event.state, slots[final].event.state) {
            assert SameGroup(all[i].event, all[final].event) && !Agrees(all[i], all[final]);
            return Err(IdentityConflict);
          }
        }
      }
      return Ok(final);
    }

    /** Marks the group that a Context was accepted for. */
    method AcceptGroup(h: Handle) returns (r: Result<()>)
      requires Valid() && (h.At? ==> h.slot < slots.Length && slots[h.slot].committed)
      modifies slots
      ensures Valid()
      ensures r.Ok? <==> h.At? && old(slots[h.slot]).event.association == generation
                         && IsLeader(old(slots[..]), h.slot) && IsConsistent(old(slots[..]), h.slot)
      ensures r.Ok? ==> State() == old(State()).(slots := AcceptSlots(old(slots[..]), h.slot))
      ensures r.Err? ==> State() == old(State())
    {
      DistinctWhenWellFormed(State());
      hide WellFormed, Count, Counted, IsLeader, IsConsistent, AcceptSlots, DistinctIds;
      if h.Elsewhere? {
        return Err(InvalidArgument);
      }
      if slots[h.slot].event.association != generation {
        return Err(StaleGeneration);
      }
      var selected := PublicationGroup();
      if selected.Err? {
        NoOtherLeader(slots[..], h.slot);
        return Err(selected.error);
      }
      SelectedIs(slots[..], selected.value, h.slot);
      if slots[selected.value].id != slots[h.slot].id {
        return Err(InvalidState);
      }
      ghost var was := State();
      MarkAccepted(h.slot);
      AcceptKeeps(was, h.slot);
      AcceptKeepsPinned(was, h.slot);
      CountedKept(was.slots, slots[..], live);
      return Ok(());
    }

    method MarkAccepted(g: nat)
      requires g < slots.Length
      modifies slots
      ensures slots[..] == AcceptSlots(old(slots[..]), g)
    {
      hide ContextTime;
      ghost var was := slots[..];
      for i := 0 to slots.Length
        invariant forall j :: 0 <= j < i ==> slots[j] == AcceptSlots(was, g)[j]
        invariant forall j :: i <= j < slots.Length ==> slots[j] == was[j]
      {
        var s := slots[i];
        JoinsAccepted(was, g, s);
        if Awaiting(s) && Joins(s, slots[g]) {
          slots[i] := s.(publication := Accepted);
        }
      }
      assert slots[..] == AcceptSlots(was, g);
    }

    method Fault()
      requires Valid()
      modifies this`faulted
      ensures Valid() && State() == old(State()).(faulted := true)
    {
      faulted := true;
    }

    /** Ends the association: reservations vanish, revisions live on only while handles do. */
    method Detach(next: nat) returns (r: Result<()>)
      requires Valid()
      modifies this`generation, this`current, this`faulted, slots
      ensures Valid()
      ensures match Revisions.Detach(old(State()), next)
              case Ok(s) => r.Ok? && State() == s
              case Err(code) => r == Err(code) && State() == old(State())
    {
      hide WellFormed, Counted, Count, KeepsPinned, Revisions.Collect, DetachSlots;
      if next <= generation {
        return Err(StaleGeneration);
      }
      ghost var was := State();
      DetachedSlotsKeep(was, next);
      DetachAll();
      current, generation, faulted := None, next, false;
      assert State() == Detaching(was, next);
      CountedKept(was.slots, slots[..], live);
      Collect();
      return Ok(());
    }

    method DetachAll()
      modifies slots
      ensures slots[..] == DetachSlots(old(slots[..]))
    {
      ghost var was := slots[..];
      for i := 0 to slots.Length
        invariant forall j :: 0 <= j < i ==> slots[j] == DetachSlots(was)[j]
        invariant forall j :: i <= j < slots.Length ==> slots[j] == was[j]
      {
        if slots[i].occupied {
          if slots[i].committed {
            slots[i] := slots[i].(detached := true);
          } else {
            slots[i] := slots[i].(occupied := false);
          }
        }
      }
      assert slots[..] == DetachSlots(was);
    }
  }

  /** What selecting a publication group reports once some revision awaits. */
  ghost predicate GroupVerdict(s: seq<Revision>, r: Result<nat>) {
    match r
    case Ok(g) => IsLeader(s, g) && IsConsistent(s, g)
    case Err(code) => code == IdentityConflict && exists g :: 0 <= g < |s| && IsLeader(s, g) && !IsConsistent(s, g)
  }

  predicate SameOrdinal(a: Event, b: Event) {
    a.sampleOrdinal == b.sampleOrdinal && a.ordinalKnown == b.ordinalKnown
  }

  /** The latest awaiting revision of the next revision's group leads it. */
  lemma NextGroupLeads(s: seq<Revision>, first: nat, g: nat)
    requires IsNext(s, first) && g < |s| && Awaiting(s[g]) && SameGroup(s[g].event, s[first].event)
    requires forall j :: 0 <= j < |s| && Awaiting(s[j]) && SameGroup(s[j].event, s[first].event) ==> s[j].id <= s[g].id
    ensures IsLeader(s, g)
  {
    hide Before, ContextTime;
  }

  lemma {:induction false} LargestMember(s: seq<Revision>, first: nat, n: nat) returns (g: nat)
    requires first < |s| && Awaiting(s[first]) && n <= |s|
    ensures g < |s| && Awaiting(s[g]) && SameGroup(s[g].event, s[first].event) && s[g].id >= s[first].id
    ensures forall j :: 0 <= j < n && Awaiting(s[j]) && SameGroup(s[j].event, s[first].event) ==> s[j].id <= s[g].id
  {
    hide ContextTime;
    if n == 0 {
      return first;
    }
    g := LargestMember(s, first, n - 1);
    if Awaiting(s[n - 1]) && SameGroup(s[n - 1].event, s[first].event) && s[n - 1].id > s[g].id {
      g := n - 1;
    }
  }

  lemma OrdinalConflict(s: seq<Revision>, first: nat, i: nat)
    requires IsNext(s, first) && s[first].event.timeKnown && i < |s| && Awaiting(s[i])
    requires SameGroup(s[i].event, s[first].event) && !SameOrdinal(s[i].event, s[first].event)
    ensures exists g :: 0 <= g < |s| && IsLeader(s, g) && !IsConsistent(s, g)
  {
    hide Before, ContextTime, SameState;
    var g := LargestMember(s, first, |s|);
    NextGroupLeads(s, first, g);
    assert !Agrees(s[i], s[g]) || !Agrees(s[first], s[g]);
    assert SameGroup(s[i].event, s[g].event) && SameGroup(s[first].event, s[g].event);
  }

  lemma NoOtherLeader(s: seq<Revision>, h: nat)
    requires DistinctIds(s)
    requires (forall j :: 0 <= j < |s| ==> !Awaiting(s[j]))
             || exists g :: 0 <= g < |s| && IsLeader(s, g) && !IsConsistent(s, g)
    ensures !(h < |s| && IsLeader(s, h) && IsConsistent(s, h))
  {
    hide IsConsistent;
    if h < |s| && IsLeader(s, h) {
      assert Awaiting(s[h]);
      var g :| 0 <= g < |s| && IsLeader(s, g) && !IsConsistent(s, g);
      LeaderUnique(s, g, h);
    }
  }

  lemma SelectedIs(s: seq<Revision>, g: nat, h: nat)
    requires DistinctIds(s) && IsLeader(s, g) && IsConsistent(s, g) && h < |s| && s[h].committed
    ensures s[g].id == s[h].id <==> IsLeader(s, h) && IsConsistent(s, h)
  {
    hide IsConsistent;
    if IsLeader(s, h) {
      LeaderUnique(s, g, h);
    }
  }

  lemma CollectKeepsPinned(s: Store)
    requires WellFormed(s)
    ensures KeepsPinned(s.slots, Collect(s).slots)
  {
  }

  lemma AcceptKeepsPinned(s: Store, g: nat)
    requires WellFormed(s) && g < |s.slots|
    ensures KeepsPinned(s.slots, AcceptSlots(s.slots, g))
  {
  }

  lemma ReservedHasSlot(s: Store, token: nat)
    requires WellFormed(s) && Reserve(s, 1).Ok? && token == s.nextReservation
    ensures FirstFor(Reserve(s, 1).value.slots, token).Some?
    ensures forall i :: 0 <= i < |s.slots| && ReservedFor(Reserve(s, 1).value.slots[i], token) ==>
              !Reserve(s, 1).value.slots[i].detached
  {
    ReserveKeeps(s, 1);
    hide Reserve;
    CountNone(Reserve(s, 1).value.slots, Holding(token));
  }

  lemma DistinctWhenWellFormed(s: Store)
    requires WellFormed(s)
    ensures DistinctIds(s.slots)
  {
  }

  lemma RecordKeepsPinned(s: Store, event: Event, token: nat)
    requires WellFormed(s)
    ensures KeepsPinned(s.slots, Record(s, event, token).slots)
  {
  }

  lemma TakeKeepsPinned(s: Store, count: nat, token: nat)
    requires WellFormed(s)
    ensures KeepsPinned(s.slots, Take(s.slots, count, token))
  {
    hide Count, Take;
    TakePointwise(s.slots, count, token);
    forall i | 0 <= i < |s.slots|
      ensures SlotOk(s, s.slots[i])
    {
    }
  }

  lemma GiveBackKeepsPinned(s: Store, token: nat)
    requires WellFormed(s)
    ensures KeepsPinned(s.slots, GiveBack(s, token).slots)
  {
  }

  /** The leader's own publication does not matter to who joins it. */
  lemma JoinsAccepted(s: seq<Revision>, g: nat, r: Revision)
    requires g < |s|
    ensures Joins(r, AcceptSlots(s, g)[g]) == Joins(r, s[g])
  {
  }

  ghost function Detaching(s: Store, next: nat): Store {
    s.(slots := DetachSlots(s.slots), current := None, generation := next, faulted := false)
  }

  lemma DetachedSlotsKeep(s: Store, next: nat)
    requires WellFormed(s) && next > s.generation
    ensures WellFormed(Detaching(s, next))
    ensures KeepsPinned(s.slots, DetachSlots(s.slots))
  {
    DetachedIsWellFormed(s, next);
    hide Count;
  }

  /** Order in which awaiting revisions are published. */
  predicate Sooner(a: Revision, b: Revision) {
    if a.event.timeKnown != b.event.timeKnown then a.event.timeKnown
    else if a.event.timeKnown then Before(ContextTime(a.event), ContextTime(b.event))
    else a.id > b.id
  }

  ghost predicate NextUpTo(s: seq<Revision>, next: Option<nat>) {
    match next
    case Some(g) => IsNext(s, g)
    case None => forall j :: 0 <= j < |s| ==> !Awaiting(s[j])
  }

  lemma NextGrows(s: seq<Revision>, r: Revision, next: Option<nat>)
    requires NextUpTo(s, next)
    ensures next.Some? ==> next.value < |s|
    ensures NextUpTo(s + [r], if Awaiting(r) && (next.None? || Sooner(r, s[next.value])) then Some(|s|) else next)
  {
  }

  lemma NoneTaken(s: seq<Revision>)
    ensures Count(s[..0], IsFree) == 0
  {
  }

  /** What the marking does with one slot, in terms of the free slots before it. */
  lemma TakenAt(s: seq<Revision>, count: nat, token: nat, i: nat)
    requires i < |s|
    ensures Take(s, count, token)[i] == if !s[i].occupied && Count(s[..i], IsFree) < count then Mark(s[i], token)
                                        else s[i]
    ensures Count(s[..i + 1], IsFree) == Count(s[..i], IsFree) + if s[i].occupied then 0 else 1
  {
    hide Count;
    CountNext(s, IsFree, i);
  }

  ghost predicate Released(s: Store, t: Store, i: nat) {
    i < |s.slots| && s.slots[i].references > 0
    && t == s.(slots := s.slots[i := s.slots[i].(references := s.slots[i].references - 1)])
  }

  ghost predicate Retained(s: Store, t: Store, i: nat) {
    i < |s.slots| && t == s.(slots := s.slots[i := s.slots[i].(references := s.slots[i].references + 1)])
  }
}
