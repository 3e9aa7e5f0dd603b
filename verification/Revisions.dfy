/**
 State revisions as values: slots, reservations, publication groups and collection
 (include/vita/runtime/context/revisions.hpp).
 */
module Revisions {
  import opened Core
  import opened Time
  import opened ContextState

  datatype Publication = Pending | Accepted | Failed

  /** A change of state that took effect. */
  datatype Event = Event(
    state: Snapshot, actualTime: ProtocolTime, sampleOrdinal: nat, association: nat,
    timeKnown: bool, ordinalKnown: bool, sampleEpoch: Option<ProtocolTime>)

  function ContextTime(e: Event): ProtocolTime {
    match e.sampleEpoch
    case Some(t) => t
    case None => e.actualTime
  }

  datatype Revision = Revision(
    event: Event, id: nat, reservation: nat, references: nat, publication: Publication,
    occupied: bool, committed: bool, detached: bool, dependency: bool)

  datatype Store = Store(
    slots: seq<Revision>, generation: nat, nextId: nat, nextReservation: nat, current: Option<nat>, faulted: bool)

  const BLANK := Revision(Event(EMPTY, ProtocolTime(0, 0), 0, 0, false, false, None), 0, 0, 0, Pending, false, false,
                          false, false)

  /** What a handle shows of its slot. */
  datatype Pin = Pin(slot: nat, id: nat, event: Event)

  predicate IsFree(r: Revision) { !r.occupied }

  predicate IsReserved(r: Revision) { r.occupied && !r.committed }

  predicate ReservedFor(r: Revision, token: nat) { IsReserved(r) && r.reservation == token }

  /** Committed, not detached and not yet published. */
  predicate Awaiting(r: Revision) { r.committed && !r.detached && r.publication == Pending }

  function Holding(token: nat): Revision -> bool { r => ReservedFor(r, token) }

  function Count(s: seq<Revision>, p: Revision -> bool): (n: nat)
    ensures n <= |s|
  {
    if s == [] then 0 else Count(s[..|s| - 1], p) + if p(s[|s| - 1]) then 1 else 0
  }

  // ----- Transitions -----

  predicate Collectable(s: Store, i: nat)
    requires i < |s.slots|
  {
    var r := s.slots[i];
    r.occupied && r.committed && s.current != Some(i) && (r.detached || r.publication != Pending) && r.references == 0
  }

  function Collect(s: Store): Store {
    s.(slots := seq(|s.slots|, i requires 0 <= i < |s.slots| =>
      if Collectable(s, i) then s.slots[i].(occupied := false, committed := false) else s.slots[i]))
  }

  function Mark(r: Revision, token: nat): Revision {
    r.(occupied := true, committed := false, detached := false, dependency := false, reservation := token,
       publication := Pending)
  }

  /** The first `count` free slots, marked. */
  function Take(s: seq<Revision>, count: nat, token: nat): (t: seq<Revision>)
    ensures |t| == |s|
  {
    seq(|s|, i requires 0 <= i < |s| => if !s[i].occupied && Count(s[..i], IsFree) < count then Mark(s[i], token)
                                        else s[i])
  }

  /** A reservation of `count` slots; its token is the old `nextReservation`. */
  function Reserve(s: Store, count: nat): Result<Store> {
    var c := Collect(s);
    if count == 0 || count > |s.slots| then Err(InvalidArgument)
    else if Count(c.slots, IsFree) < count then Err(CapacityExhausted)
    else if s.nextReservation == U64_MAX || s.nextId > U64_MAX - count - Count(c.slots, IsReserved) then Err(Overflow)
    else Ok(c.(slots := Take(c.slots, count, s.nextReservation), nextReservation := s.nextReservation + 1))
  }

  function FirstFor(s: seq<Revision>, token: nat): (k: Option<nat>)
    ensures k.Some? ==> k.value < |s| && ReservedFor(s[k.value], token)
                        && forall j :: 0 <= j < k.value ==> !ReservedFor(s[j], token)
    ensures k.None? ==> forall j :: 0 <= j < |s| ==> !ReservedFor(s[j], token)
  {
    if s == [] then None
    else
      var front := FirstFor(s[..|s| - 1], token);
      if front.Some? then front else if ReservedFor(s[|s| - 1], token) then Some(|s| - 1) else None
  }

  /** An effective event takes one reserved slot and becomes current. */
  function Record(s: Store, event: Event, token: nat): Store {
    if event.association != s.generation then s
    else
      match FirstFor(s.slots, token)
      case None => s.(faulted := true)
      case Some(k) =>
        s.(slots := s.slots[k := s.slots[k].(event := event, id := s.nextId, committed := true,
                                             publication := Pending)],
           nextId := s.nextId + 1, current := Some(k), faulted := s.faulted || !RequiredKnown(event.state))
  }

  /** The unused rest of a reservation is given back. */
  function GiveBack(s: Store, token: nat): Store {
    s.(slots := seq(|s.slots|, i requires 0 <= i < |s.slots| =>
      if ReservedFor(s.slots[i], token) then s.slots[i].(occupied := false) else s.slots[i]))
  }

  function DetachSlots(slots: seq<Revision>): seq<Revision> {
    seq(|slots|, i requires 0 <= i < |slots| =>
      if !slots[i].occupied then slots[i]
      else if slots[i].committed then slots[i].(detached := true)
      else slots[i].(occupied := false))
  }

  function Detach(s: Store, generation: nat): Result<Store> {
    if generation <= s.generation then Err(StaleGeneration)
    else Ok(Collect(s.(slots := DetachSlots(s.slots), current := None, generation := generation, faulted := false)))
  }

  // ----- Invariant -----

  ghost predicate SlotOk(s: Store, r: Revision) {
    && (r.committed ==> r.occupied && r.id < s.nextId)
    && (r.committed && !r.detached ==> r.event.association == s.generation)
    && (IsReserved(r) ==>
          !r.detached && !r.dependency && r.publication == Pending && r.reservation < s.nextReservation)
    && (r.references > 0 ==> r.committed)
    && (r.committed && !r.detached && !s.faulted ==> RequiredKnown(r.event.state))
  }

  ghost predicate DistinctIds(slots: seq<Revision>) {
    forall i, j :: 0 <= i < j < |slots| && slots[i].committed && slots[j].committed ==> slots[i].id != slots[j].id
  }

  ghost predicate WellFormed(s: Store) {
    && (forall i :: 0 <= i < |s.slots| ==> SlotOk(s, s.slots[i]))
    && DistinctIds(s.slots)
    && (s.current.Some? ==> s.current.value < |s.slots| && s.slots[s.current.value].committed
                            && !s.slots[s.current.value].detached)
    && s.nextReservation <= U64_MAX
    && s.nextId + Count(s.slots, IsReserved) <= U64_MAX
  }

  // ----- Counting -----

  lemma {:induction false} CountUpdate(s: seq<Revision>, i: nat, r: Revision, p: Revision -> bool)
    requires i < |s|
    ensures Count(s[i := r], p) == Count(s, p) - (if p(s[i]) then 1 else 0) + (if p(r) then 1 else 0)
  {
    var n := |s| - 1;
    if i == n {
      assert s[i := r][..n] == s[..n];
    } else {
      assert s[i := r][..n] == s[..n][i := r];
      CountUpdate(s[..n], i, r, p);
    }
  }

  /** A mask that shrinks slot by slot counts no more, and less if some slot left it. */
  lemma {:induction false} CountShrinks(s: seq<Revision>, t: seq<Revision>, p: Revision -> bool)
    requires |s| == |t|
    requires forall i :: 0 <= i < |s| ==> p(t[i]) ==> p(s[i])
    ensures Count(t, p) <= Count(s, p)
    ensures (exists i :: 0 <= i < |s| && p(s[i]) && !p(t[i])) ==> Count(t, p) < Count(s, p)
  {
    if s != [] {
      CountShrinks(s[..|s| - 1], t[..|t| - 1], p);
    }
  }

  lemma {:induction false} CountSame(s: seq<Revision>, t: seq<Revision>, p: Revision -> bool)
    requires |s| == |t|
    requires forall i :: 0 <= i < |s| ==> (p(t[i]) <==> p(s[i]))
    ensures Count(t, p) == Count(s, p)
  {
    CountShrinks(s, t, p);
    CountShrinks(t, s, p);
  }

  lemma {:induction false} CountNone(s: seq<Revision>, p: Revision -> bool)
    ensures Count(s, p) == 0 <==> forall i :: 0 <= i < |s| ==> !p(s[i])
  {
    if s != [] {
      CountNone(s[..|s| - 1], p);
      assert s == s[..|s| - 1] + [s[|s| - 1]];
    }
  }

  function Min(a: nat, b: nat): nat { if a < b then a else b }

  lemma CountNothing(p: Revision -> bool)
    ensures Count([], p) == 0 == Count([], IsFree)
  {
  }

  lemma CountNext(s: seq<Revision>, p: Revision -> bool, i: nat)
    requires i < |s|
    ensures Count(s[..i + 1], p) == Count(s[..i], p) + if p(s[i]) then 1 else 0
  {
    assert s[..i + 1][..i] == s[..i];
  }

  /** Marking `count` free slots raises every count of marked slots by just as many. */
  lemma {:induction false} TakeCounts(s: seq<Revision>, count: nat, token: nat, p: Revision -> bool, i: nat)
    requires i <= |s|
    requires forall r: Revision :: !r.occupied ==> !p(r) && p(Mark(r, token))
    ensures Count(Take(s, count, token)[..i], p) == Count(s[..i], p) + Min(count, Count(s[..i], IsFree))
  {
    hide Count, Mark;
    if i == 0 {
      CountNothing(p);
    } else {
      TakeCounts(s, count, token, p, i - 1);
      var t := Take(s, count, token);
      CountNext(t, p, i - 1);
      CountNext(s, p, i - 1);
      CountNext(s, IsFree, i - 1);
    }
  }

  /** Marking leaves a count alone when it holds neither free nor marked slots. */
  lemma TakeKeeps(s: seq<Revision>, count: nat, token: nat, p: Revision -> bool)
    requires forall r: Revision :: !r.occupied ==> !p(r) && !p(Mark(r, token))
    ensures Count(Take(s, count, token), p) == Count(s, p)
  {
    CountSame(s, Take(s, count, token), p);
  }

  // ----- Every transition keeps the invariant -----

  lemma CollectKeeps(s: Store)
    requires WellFormed(s)
    ensures WellFormed(Collect(s))
    ensures forall p: Revision -> bool :: (forall r: Revision :: p(r) ==> IsReserved(r)) ==>
              Count(Collect(s).slots, p) == Count(s.slots, p)
  {
    var c := Collect(s);
    forall p: Revision -> bool | forall r: Revision :: p(r) ==> IsReserved(r)
      ensures Count(c.slots, p) == Count(s.slots, p)
    {
      CountSame(s.slots, c.slots, p);
    }
    CountSame(s.slots, c.slots, IsReserved);
  }

  lemma TakeKeepsSlots(s: Store, count: nat)
    requires WellFormed(s) && s.nextReservation < U64_MAX
    requires count <= Count(s.slots, IsFree) && s.nextId + count + Count(s.slots, IsReserved) <= U64_MAX
    ensures WellFormed(s.(slots := Take(s.slots, count, s.nextReservation), nextReservation := s.nextReservation + 1))
  {
    hide Count, Take, WellFormed;
    var t := Take(s.slots, count, s.nextReservation);
    assert t[..|t|] == t && s.slots[..|t|] == s.slots;
    TakeCounts(s.slots, count, s.nextReservation, IsReserved, |t|);
    TakePointwise(s.slots, count, s.nextReservation);
    MarkedKeep(s, t);
  }

  lemma MarkedKeep(s: Store, t: seq<Revision>)
    requires WellFormed(s) && s.nextReservation < U64_MAX && |t| == |s.slots|
    requires forall i :: 0 <= i < |t| ==>
               t[i] == s.slots[i] || (!s.slots[i].occupied && t[i] == Mark(s.slots[i], s.nextReservation))
    requires s.nextId + Count(t, IsReserved) <= U64_MAX
    ensures WellFormed(s.(slots := t, nextReservation := s.nextReservation + 1))
  {
    hide Count;
  }

  lemma TakePointwise(s: seq<Revision>, count: nat, token: nat)
    ensures var t := Take(s, count, token);
            forall i :: 0 <= i < |t| ==> t[i] == s[i] || (!s[i].occupied && t[i] == Mark(s[i], token))
  {
  }

  lemma TakeHolds(s: Store, count: nat, token: nat)
    requires WellFormed(s) && token == s.nextReservation && count <= Count(s.slots, IsFree)
    ensures Count(Take(s.slots, count, token), Holding(token)) == count
    ensures forall other :: other != token ==>
              Count(Take(s.slots, count, token), Holding(other)) == Count(s.slots, Holding(other))
  {
    var t := Take(s.slots, count, token);
    assert t[..|t|] == t && s.slots[..|t|] == s.slots;
    TakeCounts(s.slots, count, token, Holding(token), |t|);
    CountNone(s.slots, Holding(token));
    forall other | other != token
      ensures Count(t, Holding(other)) == Count(s.slots, Holding(other))
    {
      TakeKeeps(s.slots, count, token, Holding(other));
    }
  }

  /** A reservation holds as many slots as it asked for and takes none from another. */
  lemma ReserveKeeps(s: Store, count: nat)
    requires WellFormed(s) && Reserve(s, count).Ok?
    ensures WellFormed(Reserve(s, count).value)
    ensures Count(Reserve(s, count).value.slots, Holding(s.nextReservation)) == count
    ensures forall token :: token != s.nextReservation ==>
              Count(Reserve(s, count).value.slots, Holding(token)) == Count(s.slots, Holding(token))
  {
    hide Take, WellFormed, Count;
    CollectKeeps(s);
    assert Collect(s).nextReservation == s.nextReservation <= U64_MAX by { WellFormedBounds(s); }
    TakeKeepsSlots(Collect(s), count);
    TakeHolds(Collect(s), count, s.nextReservation);
    forall token | token != s.nextReservation
      ensures Count(Reserve(s, count).value.slots, Holding(token)) == Count(s.slots, Holding(token))
    {
      assert Count(Collect(s).slots, Holding(token)) == Count(s.slots, Holding(token));
    }
  }

  lemma WellFormedBounds(s: Store)
    requires WellFormed(s)
    ensures s.nextReservation <= U64_MAX && s.nextId <= U64_MAX
  {
  }

  lemma RecordKeeps(s: Store, event: Event, token: nat)
    requires WellFormed(s)
    ensures WellFormed(Record(s, event, token))
    ensures forall other :: Count(Record(s, event, token).slots, Holding(other)) ==
                            Count(s.slots, Holding(other)) -
                            if other == token && event.association == s.generation
                               && Count(s.slots, Holding(token)) > 0 then 1 else 0
  {
    CountNone(s.slots, Holding(token));
    if event.association == s.generation && FirstFor(s.slots, token).Some? {
      var k := FirstFor(s.slots, token).value;
      var r := s.slots[k].(event := event, id := s.nextId, committed := true, publication := Pending);
      assert Holding(token)(s.slots[k]);
      CountUpdate(s.slots, k, r, IsReserved);
      forall other
        ensures Count(s.slots[k := r], Holding(other)) == Count(s.slots, Holding(other)) - if other == token then 1
                                                                                           else 0
      {
        CountUpdate(s.slots, k, r, Holding(other));
      }
    }
  }

  lemma GiveBackKeeps(s: Store, token: nat)
    requires WellFormed(s)
    ensures WellFormed(GiveBack(s, token))
    ensures Count(GiveBack(s, token).slots, Holding(token)) == 0
    ensures forall other :: other != token ==>
              Count(GiveBack(s, token).slots, Holding(other)) == Count(s.slots, Holding(other))
    ensures var t := GiveBack(s, token);
            && t == s.(slots := t.slots) && |t.slots| == |s.slots|
            && forall i :: 0 <= i < |s.slots| ==>
                 if s.slots[i].occupied && !s.slots[i].committed && s.slots[i].reservation == token
                 then !t.slots[i].occupied else t.slots[i] == s.slots[i]
  {
    hide Count;
    var t := GiveBack(s, token).slots;
    CountShrinks(s.slots, t, IsReserved);
    CountNone(t, Holding(token));
    forall other | other != token
      ensures Count(t, Holding(other)) == Count(s.slots, Holding(other))
    {
      CountSame(s.slots, t, Holding(other));
    }
  }

  lemma DetachKeeps(s: Store, generation: nat)
    requires WellFormed(s) && generation > s.generation
    ensures WellFormed(Detach(s, generation).value)
    ensures forall i :: 0 <= i < |s.slots| ==> !IsReserved(Detach(s, generation).value.slots[i])
    ensures forall i :: 0 <= i < |s.slots| ==> !Awaiting(Detach(s, generation).value.slots[i])
  {
    var d := s.(slots := DetachSlots(s.slots), current := None, generation := generation, faulted := false);
    DetachedIsWellFormed(s, generation);
    hide WellFormed, Count;
    CollectKeeps(d);
  }

  lemma DetachedIsWellFormed(s: Store, generation: nat)
    requires WellFormed(s)
    ensures WellFormed(s.(slots := DetachSlots(s.slots), current := None, generation := generation, faulted := false))
  {
    hide Count;
    CountShrinks(s.slots, DetachSlots(s.slots), IsReserved);
  }

  // ----- What stays in use, and when a reservation succeeds -----

  /** A slot that is reserved, current, awaiting publication or under a handle. */
  ghost predicate InUse(s: Store, i: nat)
    requires i < |s.slots|
  {
    var r := s.slots[i];
    || (r.occupied && !r.committed)
    || (r.committed && (s.current == Some(i) || r.references > 0 || (!r.detached && r.publication == Pending)))
  }

  ghost function UsedSlots(s: Store): set<nat> {
    set i | 0 <= i < |s.slots| && InUse(s, i)
  }

  ghost function ReservedSlots(s: Store): set<nat> {
    set i | 0 <= i < |s.slots| && s.slots[i].occupied && !s.slots[i].committed
  }

  /** Every occupied slot is in use. */
  ghost predicate Tidy(s: Store) {
    forall i :: 0 <= i < |s.slots| && s.slots[i].occupied ==> InUse(s, i)
  }

  /** Collection frees exactly the slots that are not in use and changes no other. */
  lemma CollectFreesUnused(s: Store)
    requires WellFormed(s)
    ensures Collect(s) == s.(slots := Collect(s).slots) && |Collect(s).slots| == |s.slots|
    ensures forall i :: 0 <= i < |s.slots| ==>
              if InUse(s, i) then Collect(s).slots[i] == s.slots[i] else !Collect(s).slots[i].occupied
    ensures Tidy(Collect(s)) && UsedSlots(Collect(s)) == UsedSlots(s)
  {
    hide Count;
    var c := Collect(s);
    forall i | 0 <= i < |s.slots|
      ensures InUse(c, i) <==> InUse(s, i)
      ensures if InUse(s, i) then c.slots[i] == s.slots[i] else !c.slots[i].occupied
    {
      assert SlotOk(s, s.slots[i]);
    }
  }

  ghost function Places(s: seq<Revision>, p: Revision -> bool): set<nat> {
    set i | 0 <= i < |s| && p(s[i])
  }

  lemma {:induction false} CountIsCard(s: seq<Revision>, p: Revision -> bool)
    ensures Count(s, p) == |Places(s, p)|
  {
    if s != [] {
      var front := s[..|s| - 1];
      CountIsCard(front, p);
      var last := if p(s[|s| - 1]) then {|s| - 1} else {};
      assert Places(s, p) == Places(front, p) + last;
      assert Places(front, p) !! last;
    } else {
      assert Places(s, p) == {};
    }
  }

  ghost function Indices(n: nat): (r: set<nat>)
    ensures forall i: nat :: i in r <==> i < n
    ensures |r| == n
  {
    if n == 0 then {} else Indices(n - 1) + {n - 1}
  }

  lemma FreeAfterCollect(s: Store)
    requires WellFormed(s)
    ensures Count(Collect(s).slots, IsFree) == |s.slots| - |UsedSlots(s)|
    ensures Count(Collect(s).slots, IsReserved) == |ReservedSlots(s)|
  {
    hide Count, WellFormed, Collect, InUse, UsedSlots, Places;
    var c := Collect(s);
    CollectFreesUnused(s);
    CountIsCard(c.slots, IsFree);
    CountIsCard(s.slots, IsReserved);
    ReservedPlaces(s);
    CollectKeeps(s);
    FreeIsUnused(c);
  }

  lemma ReservedPlaces(s: Store)
    ensures Places(s.slots, IsReserved) == ReservedSlots(s)
  {
  }

  /** In a tidy store the free slots are those not in use. */
  lemma FreeIsUnused(s: Store)
    requires WellFormed(s) && Tidy(s)
    ensures |Places(s.slots, IsFree)| == |s.slots| - |UsedSlots(s)|
  {
    hide WellFormed, InUse;
    UsedAreOccupied(s);
    var all := Indices(|s.slots|);
    assert Places(s.slots, IsFree) == all - UsedSlots(s);
    assert UsedSlots(s) <= all;
  }

  lemma UsedAreOccupied(s: Store)
    requires WellFormed(s)
    ensures forall i :: 0 <= i < |s.slots| && InUse(s, i) ==> s.slots[i].occupied
  {
    hide Count;
    forall i | 0 <= i < |s.slots|
      ensures SlotOk(s, s.slots[i])
    {
    }
  }

  /** When a reservation succeeds, and what refuses it otherwise. */
  lemma ReserveOutcome(s: Store, count: nat)
    requires WellFormed(s)
    ensures match Reserve(s, count)
            case Ok(_) =>
              && 1 <= count <= |s.slots| - |UsedSlots(s)|
              && s.nextReservation < U64_MAX && s.nextId + |ReservedSlots(s)| + count <= U64_MAX
            case Err(code) =>
              if count < 1 || count > |s.slots| then code == InvalidArgument
              else if count > |s.slots| - |UsedSlots(s)| then code == CapacityExhausted
              else
                && code == Overflow
                && (s.nextReservation == U64_MAX || s.nextId + |ReservedSlots(s)| + count > U64_MAX)
  {
    hide Count, WellFormed, Collect, InUse;
    FreeAfterCollect(s);
    WellFormedBounds(s);
  }

  /** What recording does, slot by slot. */
  lemma RecordOutcome(s: Store, event: Event, token: nat)
    requires WellFormed(s)
    ensures var t := Record(s, event, token);
            if event.association != s.generation then t == s
            else if forall i :: 0 <= i < |s.slots| ==> !ReservedFor(s.slots[i], token) then t == s.(faulted := true)
            else
              && t.current.Some? && |t.slots| == |s.slots| && t.nextId == s.nextId + 1
              && t.faulted == (s.faulted || !RequiredKnown(event.state))
              && t.generation == s.generation && t.nextReservation == s.nextReservation
              && var k := t.current.value;
                 && k < |s.slots| && ReservedFor(s.slots[k], token) && Awaiting(t.slots[k])
                 && t.slots[k].event == event && t.slots[k].id == s.nextId && t.slots[k].references == 0
                 && !t.slots[k].dependency
                 && forall j :: 0 <= j < |s.slots| && j != k ==> t.slots[j] == s.slots[j]
  {
    hide Count;
    forall i | 0 <= i < |s.slots|
      ensures SlotOk(s, s.slots[i])
    {
    }
  }

  /** What detaching leaves: only revisions under handles, and a store as after construction otherwise. */
  lemma DetachOutcome(s: Store, generation: nat)
    requires WellFormed(s)
    ensures match Detach(s, generation)
            case Err(code) => code == StaleGeneration && generation <= s.generation
            case Ok(t) =>
              && generation > s.generation && t.generation == generation && t.current.None? && !t.faulted
              && t.nextId == s.nextId && t.nextReservation == s.nextReservation && |t.slots| == |s.slots|
              && forall i :: 0 <= i < |s.slots| ==>
                   if s.slots[i].references > 0 then t.slots[i] == s.slots[i].(detached := true)
                   else !t.slots[i].occupied
  {
    hide Count;
    forall i | 0 <= i < |s.slots|
      ensures SlotOk(s, s.slots[i])
    {
    }
  }

  // ----- Publication groups -----

  predicate SameGroup(a: Event, b: Event) {
    a.timeKnown == b.timeKnown && (a.timeKnown ==> ContextTime(a) == ContextTime(b))
  }

  /** Data relies on this revision, or it reports sample loss. */
  predicate Depends(r: Revision) { r.dependency || r.event.state.events.word.loss }

  /** Awaiting with the earliest known time, or the latest id when no time is known. */
  ghost predicate IsNext(s: seq<Revision>, g: nat) {
    && g < |s| && Awaiting(s[g])
    && forall j :: 0 <= j < |s| && Awaiting(s[j]) ==>
         && (s[j].event.timeKnown ==> s[g].event.timeKnown && !Before(ContextTime(s[j].event), ContextTime(s[g].event)))
         && (!s[g].event.timeKnown ==> s[j].id <= s[g].id)
  }

  /** The latest revision of the group that is to be published next. */
  ghost predicate IsLeader(s: seq<Revision>, g: nat) {
    && IsNext(s, g)
    && forall j :: 0 <= j < |s| && Awaiting(s[j]) && SameGroup(s[j].event, s[g].event) ==> s[j].id <= s[g].id
  }

  /** One Context can stand for revision `r` when it stands for the leader. */
  predicate Agrees(r: Revision, leader: Revision) {
    if leader.event.timeKnown then
      && r.event.sampleOrdinal == leader.event.sampleOrdinal && r.event.ordinalKnown == leader.event.ordinalKnown
      && (r.id != leader.id && Depends(r) ==> SameState(r.event.state, leader.event.state))
    else !Depends(r)
  }

  ghost predicate IsConsistent(s: seq<Revision>, g: nat)
    requires g < |s|
  {
    forall j :: 0 <= j < |s| && Awaiting(s[j]) && SameGroup(s[j].event, s[g].event) ==> Agrees(s[j], s[g])
  }

  predicate Joins(r: Revision, leader: Revision) {
    || r.id == leader.id
    || (!r.event.timeKnown && !leader.event.timeKnown)
    || (r.event.timeKnown && leader.event.timeKnown && ContextTime(r.event) == ContextTime(leader.event)
        && r.event.sampleOrdinal == leader.event.sampleOrdinal)
  }

  function AcceptSlots(s: seq<Revision>, g: nat): (t: seq<Revision>)
    requires g < |s|
    ensures |t| == |s|
  {
    seq(|s|, i requires 0 <= i < |s| => if Awaiting(s[i]) && Joins(s[i], s[g]) then s[i].(publication := Accepted)
                                        else s[i])
  }

  lemma LeaderUnique(s: seq<Revision>, g: nat, h: nat)
    requires DistinctIds(s) && IsLeader(s, g) && IsLeader(s, h)
    ensures g == h
  {
  }

  /**
   When one Context can stand for a group. At a known time its revisions share their sample ordinal, and those that
   Data relies on or that report loss share the leader's state; without a time nothing may rely on any of them.
   */
  lemma ConsistentMeaning(s: seq<Revision>, g: nat)
    requires DistinctIds(s) && IsLeader(s, g)
    ensures var leader := s[g].event;
            IsConsistent(s, g) <==>
            forall j :: 0 <= j < |s| && Awaiting(s[j]) && s[j].event.timeKnown == leader.timeKnown
                        && (leader.timeKnown ==> ContextTime(s[j].event) == ContextTime(leader)) ==>
              var e, relied := s[j].event, s[j].dependency || s[j].event.state.events.word.loss;
              if leader.timeKnown then
                && e.sampleOrdinal == leader.sampleOrdinal && e.ordinalKnown == leader.ordinalKnown
                && (relied && j != g ==> SameState(e.state, leader.state))
              else !relied
  {
    hide SameState, ContextTime, Before;
  }

  /** The leader goes first: no awaiting revision has an earlier time, or a later id in the same group. */
  lemma LeaderMeaning(s: seq<Revision>, g: nat)
    requires g < |s|
    ensures IsLeader(s, g) <==>
            && s[g].committed && !s[g].detached && s[g].publication == Pending
            && forall j :: 0 <= j < |s| && s[j].committed && !s[j].detached && s[j].publication == Pending ==>
                 var e, leader := s[j].event, s[g].event;
                 if e.timeKnown then
                   leader.timeKnown && !Before(ContextTime(e), ContextTime(leader))
                   && (ContextTime(e) == ContextTime(leader) ==> s[j].id <= s[g].id)
                 else !leader.timeKnown ==> s[j].id <= s[g].id
  {
    hide ContextTime, Before;
  }

  lemma AcceptMember(s: seq<Revision>, g: nat, i: nat)
    requires DistinctIds(s) && IsLeader(s, g) && IsConsistent(s, g) && i < |s|
    ensures Awaiting(AcceptSlots(s, g)[i]) <==> Awaiting(s[i]) && !SameGroup(s[i].event, s[g].event)
  {
    hide SameState, Before, ContextTime, Depends;
    if Awaiting(s[i]) && SameGroup(s[i].event, s[g].event) {
      assert Agrees(s[i], s[g]);
      assert Joins(s[i], s[g]);
    }
  }

  /** Accepting a consistent group takes exactly its members out of waiting, and at least one. */
  lemma AcceptTakesGroup(s: seq<Revision>, g: nat)
    requires DistinctIds(s) && IsLeader(s, g) && IsConsistent(s, g)
    ensures forall i :: 0 <= i < |s| ==>
              (Awaiting(AcceptSlots(s, g)[i]) <==> Awaiting(s[i]) && !SameGroup(s[i].event, s[g].event))
    ensures forall i :: 0 <= i < |s| && AcceptSlots(s, g)[i] != s[i] ==>
              Awaiting(s[i]) && AcceptSlots(s, g)[i] == s[i].(publication := Accepted)
    ensures Count(AcceptSlots(s, g), Awaiting) < Count(s, Awaiting)
  {
    var t := AcceptSlots(s, g);
    assert Awaiting(s[g]) && !Awaiting(t[g]);
    assert forall i :: 0 <= i < |s| && t[i] != s[i] ==> Awaiting(s[i]) && t[i] == s[i].(publication := Accepted);
    hide AcceptSlots, IsConsistent, SameState, Before, ContextTime;
    forall i | 0 <= i < |s|
      ensures Awaiting(t[i]) <==> Awaiting(s[i]) && !SameGroup(s[i].event, s[g].event)
    {
      AcceptMember(s, g, i);
    }
    CountShrinks(s, t, Awaiting);
  }

  lemma AcceptKeeps(s: Store, g: nat)
    requires WellFormed(s) && g < |s.slots|
    ensures WellFormed(s.(slots := AcceptSlots(s.slots, g)))
    ensures forall token :: Count(AcceptSlots(s.slots, g), Holding(token)) == Count(s.slots, Holding(token))
  {
    var t := AcceptSlots(s.slots, g);
    CountSame(s.slots, t, IsReserved);
    forall token
      ensures Count(t, Holding(token)) == Count(s.slots, Holding(token))
    {
      CountSame(s.slots, t, Holding(token));
    }
  }

  /** Changing a committed slot without uncommitting it or touching its identity. */
  lemma TouchKeeps(s: Store, i: nat, r: Revision)
    requires WellFormed(s) && i < |s.slots| && s.slots[i].committed
    requires r == s.slots[i].(references := r.references, dependency := r.dependency)
    ensures WellFormed(s.(slots := s.slots[i := r]))
    ensures forall token :: Count(s.slots[i := r], Holding(token)) == Count(s.slots, Holding(token))
  {
    CountUpdate(s.slots, i, r, IsReserved);
    forall token
      ensures Count(s.slots[i := r], Holding(token)) == Count(s.slots, Holding(token))
    {
      CountUpdate(s.slots, i, r, Holding(token));
    }
  }
}
