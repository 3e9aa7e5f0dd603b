/**
 Whole runs of the revision store: reservations are honoured, identifiers never repeat or overflow,
 and nothing in use is collected (include/vita/runtime/context/revisions.hpp).
 */
module RevisionRuns {
  import opened Core
  import R = Revisions

  datatype Step =
    | Reserve(count: nat)
    | Record(event: R.Event, token: nat)
    | GiveBack(token: nat)
    | Collect
    | Accept(slot: nat)
    | Note(slot: nat)
    | Retain(slot: nat)
    | Release(slot: nat)
    | Fault
    | Detach(generation: nat)

  function Touch(s: R.Store, i: nat, r: R.Revision): R.Store
    requires i < |s.slots|
  {
    s.(slots := s.slots[i := r])
  }

  /** One call; a call that is refused changes nothing but may have collected. */
  function Apply(s: R.Store, step: Step): R.Store {
    match step
    case Reserve(count) =>
      (match R.Reserve(s, count)
       case Ok(t) => t
       case Err(code) => if code == InvalidArgument then s else R.Collect(s))
    case Record(event, token) => R.Record(s, event, token)
    case GiveBack(token) => R.GiveBack(s, token)
    case Collect => R.Collect(s)
    case Accept(i) => if i < |s.slots| then s.(slots := R.AcceptSlots(s.slots, i)) else s
    case Note(i) =>
      if i < |s.slots| && s.slots[i].committed && !s.slots[i].detached then Touch(s, i, s.slots[i].(dependency := true))
      else s
    case Retain(i) =>
      if i < |s.slots| && s.slots[i].committed then Touch(s, i, s.slots[i].(references := s.slots[i].references + 1))
      else s
    case Release(i) =>
      if i < |s.slots| && s.slots[i].committed && s.slots[i].references > 0
      then Touch(s, i, s.slots[i].(references := s.slots[i].references - 1)) else s
    case Fault => s.(faulted := true)
    case Detach(generation) => (match R.Detach(s, generation) case Ok(t) => t case Err(_) => s)
  }

  function Run(s: R.Store, steps: seq<Step>): R.Store
    decreases |steps|
  {
    if steps == [] then s else Run(Apply(s, steps[0]), steps[1..])
  }

  lemma ApplyKeeps(s: R.Store, step: Step)
    requires R.WellFormed(s)
    ensures R.WellFormed(Apply(s, step)) && |Apply(s, step).slots| == |s.slots|
  {
    hide R.WellFormed, R.Count, R.Collect, R.Take, R.FirstFor, R.AcceptSlots, R.DetachSlots;
    SlotsKept(s, step);
    match step
    case Reserve(count) =>
      R.CollectKeeps(s);
      if R.Reserve(s, count).Ok? {
        R.ReserveKeeps(s, count);
      }
    case Record(event, token) => R.RecordKeeps(s, event, token);
    case GiveBack(token) => R.GiveBackKeeps(s, token);
    case Collect => R.CollectKeeps(s);
    case Accept(i) =>
      if i < |s.slots| {
        R.AcceptKeeps(s, i);
      }
    case Detach(generation) =>
      if generation > s.generation {
        R.DetachKeeps(s, generation);
      }
    case Fault => FaultKeeps(s);
    case Note(i) =>
      if i < |s.slots| && s.slots[i].committed && !s.slots[i].detached {
        R.TouchKeeps(s, i, s.slots[i].(dependency := true));
      }
    case Retain(i) =>
      if i < |s.slots| && s.slots[i].committed {
        R.TouchKeeps(s, i, s.slots[i].(references := s.slots[i].references + 1));
      }
    case Release(i) =>
      if i < |s.slots| && s.slots[i].committed && s.slots[i].references > 0 {
        R.TouchKeeps(s, i, s.slots[i].(references := s.slots[i].references - 1));
      }
  }

  lemma SlotsKept(s: R.Store, step: Step)
    ensures |Apply(s, step).slots| == |s.slots|
  {
  }

  lemma FaultKeeps(s: R.Store)
    requires R.WellFormed(s)
    ensures R.WellFormed(s.(faulted := true))
  {
  }

  /** The invariant, and with it the absence of identifier overflow, holds after every run. */
  lemma {:induction false} RunKeeps(s: R.Store, steps: seq<Step>)
    requires R.WellFormed(s)
    ensures R.WellFormed(Run(s, steps)) && |Run(s, steps).slots| == |s.slots|
    decreases |steps|
  {
    hide R.WellFormed, Apply;
    if steps != [] {
      ApplyKeeps(s, steps[0]);
      RunKeeps(Apply(s, steps[0]), steps[1..]);
    }
  }

  // ----- Reservations -----

  function Held(s: R.Store, token: nat): nat { R.Count(s.slots, R.Holding(token)) }

  /** Events of the current association recorded under a token. */
  function RecordsFor(steps: seq<Step>, token: nat, generation: nat): nat {
    if steps == [] then 0
    else (if IsRecordFor(steps[0], token, generation) then 1 else 0) + RecordsFor(steps[1..], token, generation)
  }

  predicate IsRecordFor(step: Step, token: nat, generation: nat) {
    step.Record? && step.token == token && step.event.association == generation
  }

  predicate Leaves(step: Step, token: nat) { step != GiveBack(token) && !step.Detach? }

  lemma ApplyHolds(s: R.Store, step: Step, token: nat)
    requires R.WellFormed(s) && token < s.nextReservation && Leaves(step, token)
    ensures Held(Apply(s, step), token) ==
            Held(s, token) - if IsRecordFor(step, token, s.generation) && Held(s, token) > 0 then 1 else 0
    ensures token < Apply(s, step).nextReservation && Apply(s, step).generation == s.generation
  {
    hide R.WellFormed, R.Count, R.Take, R.FirstFor, R.AcceptSlots;
    match step
    case Reserve(count) =>
      R.CollectKeeps(s);
      assert R.Count(R.Collect(s).slots, R.Holding(token)) == R.Count(s.slots, R.Holding(token));
      if R.Reserve(s, count).Ok? {
        R.ReserveKeeps(s, count);
      }
    case Record(event, t) => R.RecordKeeps(s, event, t);
    case GiveBack(t) => R.GiveBackKeeps(s, t);
    case Collect =>
      R.CollectKeeps(s);
      assert R.Count(R.Collect(s).slots, R.Holding(token)) == R.Count(s.slots, R.Holding(token));
    case Accept(i) =>
      if i < |s.slots| {
        R.AcceptKeeps(s, i);
      }
    case Fault =>
    case Note(i) =>
      if i < |s.slots| && s.slots[i].committed && !s.slots[i].detached {
        R.TouchKeeps(s, i, s.slots[i].(dependency := true));
      }
    case Retain(i) =>
      if i < |s.slots| && s.slots[i].committed {
        R.TouchKeeps(s, i, s.slots[i].(references := s.slots[i].references + 1));
      }
    case Release(i) =>
      if i < |s.slots| && s.slots[i].committed && s.slots[i].references > 0 {
        R.TouchKeeps(s, i, s.slots[i].(references := s.slots[i].references - 1));
      }
  }

  /**
   A reservation takes as many events of its association as it has slots, whatever else happens in
   between: each one uses a slot of its own.
   */
  lemma {:induction false} ReservationHonoured(s: R.Store, steps: seq<Step>, token: nat)
    requires R.WellFormed(s) && token < s.nextReservation
    requires forall step :: step in steps ==> Leaves(step, token)
    requires RecordsFor(steps, token, s.generation) <= Held(s, token)
    ensures Held(Run(s, steps), token) == Held(s, token) - RecordsFor(steps, token, s.generation)
    decreases |steps|
  {
    hide R.WellFormed, Apply, Held;
    if steps != [] {
      assert steps[0] in steps;
      ApplyKeeps(s, steps[0]);
      ApplyHolds(s, steps[0], token);
      ReservationHonoured(Apply(s, steps[0]), steps[1..], token);
    }
  }

  // ----- Identifiers -----

  /** Identifiers given out along a run, in order. */
  function Issued(s: R.Store, steps: seq<Step>): seq<nat>
    decreases |steps|
  {
    if steps == [] then []
    else
      var t := Apply(s, steps[0]);
      (if t.nextId != s.nextId then [s.nextId] else []) + Issued(t, steps[1..])
  }

  lemma ApplyIssues(s: R.Store, step: Step)
    ensures Apply(s, step).nextId == s.nextId || Apply(s, step).nextId == s.nextId + 1
  {
  }

  /** Identifiers increase strictly, never repeat one given out before, and stay in 64 bits. */
  lemma {:induction false} IdentifiersIncrease(s: R.Store, steps: seq<Step>)
    requires R.WellFormed(s)
    ensures forall k :: 0 <= k < |Issued(s, steps)| ==> s.nextId <= Issued(s, steps)[k] <= U64_MAX
    ensures forall j, k :: 0 <= j < k < |Issued(s, steps)| ==> Issued(s, steps)[j] < Issued(s, steps)[k]
    decreases |steps|
  {
    hide R.WellFormed, Apply;
    if steps != [] {
      ApplyKeeps(s, steps[0]);
      ApplyIssues(s, steps[0]);
      R.WellFormedBounds(s);
      IdentifiersIncrease(Apply(s, steps[0]), steps[1..]);
    }
  }

  // ----- What is in use is kept -----

  predicate SameRevision(a: R.Revision, b: R.Revision) {
    a.committed && b.committed && a.id == b.id && a.event == b.event
  }

  /** A slot with a handle keeps its revision through any step. */
  lemma PinnedKept(s: R.Store, step: Step, i: nat)
    requires R.WellFormed(s) && i < |s.slots| && s.slots[i].references > 0
    ensures i < |Apply(s, step).slots| && SameRevision(s.slots[i], Apply(s, step).slots[i])
  {
    hide R.Count, R.WellFormed;
    SlotsKept(s, step);
    CommittedWhenPinned(s, i);
  }

  /** A handle held throughout a run shows the same event and identifier all along. */
  lemma {:induction false} HandleIsStable(s: R.Store, steps: seq<Step>, i: nat)
    requires R.WellFormed(s) && i < |s.slots|
    requires forall k :: 0 <= k <= |steps| ==>
               i < |Run(s, steps[..k]).slots| && Run(s, steps[..k]).slots[i].references > 0
    ensures i < |Run(s, steps).slots| && SameRevision(s.slots[i], Run(s, steps).slots[i])
    decreases |steps|
  {
    hide R.WellFormed, Apply;
    assert Run(s, steps[..0]) == s;
    if steps == [] {
      CommittedWhenPinned(s, i);
    } else {
      var t := Apply(s, steps[0]);
      PinnedKept(s, steps[0], i);
      ApplyKeeps(s, steps[0]);
      forall k | 0 <= k <= |steps[1..]|
        ensures i < |Run(t, steps[1..][..k]).slots| && Run(t, steps[1..][..k]).slots[i].references > 0
      {
        assert steps[..k + 1][1..] == steps[1..][..k];
        assert Run(s, steps[..k + 1]) == Run(t, steps[1..][..k]);
      }
      HandleIsStable(t, steps[1..], i);
    }
  }

  lemma CommittedWhenPinned(s: R.Store, i: nat)
    requires R.WellFormed(s) && i < |s.slots| && s.slots[i].references > 0
    ensures s.slots[i].committed && s.slots[i].occupied
  {
    assert R.SlotOk(s, s.slots[i]);
  }

  /** Within an association an awaiting revision stays until published, and the current one while it is current. */
  lemma InUseKept(s: R.Store, step: Step, i: nat)
    requires R.WellFormed(s) && i < |s.slots| && !step.Detach?
    ensures i < |Apply(s, step).slots|
    ensures R.Awaiting(s.slots[i]) ==>
              SameRevision(s.slots[i], Apply(s, step).slots[i]) && (R.Awaiting(Apply(s, step).slots[i]) || step.Accept?)
    ensures s.current == Some(i) ==>
              SameRevision(s.slots[i], Apply(s, step).slots[i]) && !Apply(s, step).slots[i].detached
  {
    hide R.Count;
    SlotsKept(s, step);
    assert R.SlotOk(s, s.slots[i]);
  }

  /** Slot `i` after the first `k` steps of a run. */
  ghost function SlotAfter(s: R.Store, steps: seq<Step>, k: nat, i: nat): R.Revision
    requires R.WellFormed(s) && i < |s.slots| && k <= |steps|
  {
    RunKeeps(s, steps[..k]);
    Run(s, steps[..k]).slots[i]
  }

  lemma SlotAfterNext(s: R.Store, steps: seq<Step>, k: nat, i: nat)
    requires R.WellFormed(s) && i < |s.slots| && k < |steps|
    ensures R.WellFormed(Apply(s, steps[0])) && i < |Apply(s, steps[0]).slots|
    ensures SlotAfter(s, steps, k + 1, i) == SlotAfter(Apply(s, steps[0]), steps[1..], k, i)
  {
    hide R.WellFormed, Apply;
    ApplyKeeps(s, steps[0]);
    assert steps[..k + 1][0] == steps[0] && steps[..k + 1][1..] == steps[1..][..k];
  }

  /**
   Over any run within an association an awaiting revision stays, awaiting and unchanged, up to the step that
   accepts it; if there is no such step it stays to the end.
   */
  lemma {:induction false} AwaitingUntilAccepted(s: R.Store, steps: seq<Step>, i: nat) returns (k: nat)
    requires R.WellFormed(s) && i < |s.slots| && R.Awaiting(s.slots[i])
    requires forall step :: step in steps ==> !step.Detach?
    ensures k <= |steps|
    ensures forall j :: 0 <= j <= k ==>
              SameRevision(s.slots[i], SlotAfter(s, steps, j, i)) && R.Awaiting(SlotAfter(s, steps, j, i))
    ensures k < |steps| ==>
              && steps[k].Accept? && SameRevision(s.slots[i], SlotAfter(s, steps, k + 1, i))
              && SlotAfter(s, steps, k + 1, i).publication == R.Accepted
    decreases |steps|
  {
    hide R.WellFormed, Apply, SlotAfter;
    StartOf(s, steps, i);
    if steps == [] {
      return 0;
    }
    assert steps[0] in steps;
    var t := Apply(s, steps[0]);
    SlotAfterNext(s, steps, 0, i);
    StartOf(t, steps[1..], i);
    InUseKept(s, steps[0], i);
    AcceptedOrAwaiting(s, steps[0], i);
    if !R.Awaiting(t.slots[i]) {
      return 0;
    }
    var rest := AwaitingUntilAccepted(t, steps[1..], i);
    k := rest + 1;
    forall j | 0 <= j <= k
      ensures SameRevision(s.slots[i], SlotAfter(s, steps, j, i)) && R.Awaiting(SlotAfter(s, steps, j, i))
    {
      if j > 0 {
        SlotAfterNext(s, steps, j - 1, i);
      }
    }
    if k < |steps| {
      SlotAfterNext(s, steps, k, i);
    }
  }

  lemma StartOf(s: R.Store, steps: seq<Step>, i: nat)
    requires R.WellFormed(s) && i < |s.slots|
    ensures SlotAfter(s, steps, 0, i) == s.slots[i]
  {
    assert steps[..0] == [];
  }

  lemma AcceptedOrAwaiting(s: R.Store, step: Step, i: nat)
    requires R.WellFormed(s) && i < |s.slots| && R.Awaiting(s.slots[i]) && !step.Detach?
    ensures i < |Apply(s, step).slots|
    ensures !R.Awaiting(Apply(s, step).slots[i]) ==> Apply(s, step).slots[i].publication == R.Accepted
  {
    hide R.Count;
    SlotsKept(s, step);
    assert R.SlotOk(s, s.slots[i]);
  }

  /** A revision that stays current through a run is the same committed revision all along. */
  lemma {:induction false} CurrentIsStable(s: R.Store, steps: seq<Step>, i: nat)
    requires R.WellFormed(s) && i < |s.slots|
    requires forall k :: 0 <= k <= |steps| ==> Run(s, steps[..k]).current == Some(i)
    requires forall step :: step in steps ==> !step.Detach?
    ensures SameRevision(s.slots[i], SlotAfter(s, steps, |steps|, i)) && !SlotAfter(s, steps, |steps|, i).detached
    decreases |steps|
  {
    hide R.WellFormed, Apply, SlotAfter;
    StartOf(s, steps, i);
    assert Run(s, steps[..0]) == s;
    CurrentIsCommitted(s, i);
    if steps != [] {
      assert steps[0] in steps;
      var t := Apply(s, steps[0]);
      InUseKept(s, steps[0], i);
      SlotAfterNext(s, steps, |steps| - 1, i);
      forall k | 0 <= k <= |steps[1..]|
        ensures Run(t, steps[1..][..k]).current == Some(i)
      {
        assert steps[..k + 1][1..] == steps[1..][..k];
        assert Run(s, steps[..k + 1]) == Run(t, steps[1..][..k]);
      }
      CurrentIsStable(t, steps[1..], i);
    }
  }

  lemma CurrentIsCommitted(s: R.Store, i: nat)
    requires R.WellFormed(s) && s.current == Some(i)
    ensures i < |s.slots| && s.slots[i].committed && !s.slots[i].detached
  {
  }

  /** Nothing is reserved, awaits publication or has a handle. */
  ghost predicate Quiet(s: R.Store) {
    forall i :: 0 <= i < |s.slots| ==>
      !R.IsReserved(s.slots[i]) && !R.Awaiting(s.slots[i]) && s.slots[i].references == 0
  }

  /**
   A store never fills up for good: after any run, once everything is published and no handle is left, only the current
   revision keeps a slot from being reserved.
   */
  lemma QuietStoreAdmits(s: R.Store, steps: seq<Step>, count: nat)
    requires R.WellFormed(s) && Quiet(Run(s, steps))
    ensures var t := Run(s, steps);
            R.Reserve(t, count).Ok? <==>
            && 1 <= count <= |s.slots| - (if t.current.Some? then 1 else 0)
            && t.nextReservation < U64_MAX && t.nextId + count <= U64_MAX
  {
    hide R.WellFormed, R.Reserve;
    var t := Run(s, steps);
    RunKeeps(s, steps);
    R.ReserveOutcome(t, count);
    assert R.ReservedSlots(t) == {};
    CurrentInRange(t);
    assert R.UsedSlots(t) == if t.current.Some? then {t.current.value} else {};
  }

  lemma CurrentInRange(s: R.Store)
    requires R.WellFormed(s)
    ensures s.current.Some? ==> s.current.value < |s.slots| && s.slots[s.current.value].committed
  {
  }
}
