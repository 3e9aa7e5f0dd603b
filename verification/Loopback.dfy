/**
 The loopback transport: lanes of slots, acceptance order, counters and lane credits
 (include/vita/adapters/loopback/loopback.hpp; include/vita/runtime/execution/admission.hpp).
 */
module Loopbacks {
  import opened Core
  import opened Counters

  /** Slots are divided among data, control and cancellation traffic. */
  datatype Lane = DataLane | ControlLane | CancellationLane

  datatype Fault = Fault(rejects: bool, fails: bool, loses: bool, duplicates: bool, holds: bool)

  /** A submission; `creditOk` and `reserved` are the checks on its completion credit and ticket. */
  datatype Submission = Submission(
    counter: CounterKey, creditOk: bool, reserved: bool, sourceKnown: bool, bytes: nat, segments: nat, cancelBit: bool,
    fault: Fault)

  datatype Capabilities = Capabilities(
    controlSlots: nat, cancellationSlots: nat, perStreamLimit: nat, maxPacketBytes: nat, maxSegments: nat,
    maxFragments: nat, otherwiseValid: bool)

  /** What parsing the copied packet shows. */
  datatype Parsed = Parsed(kind: nat, streamId: Option<nat>, packetCount: nat, cancel: bool)

  /** Answers of the buffer pool, the parser and the completion credits to one submission. */
  datatype Answers = Answers(buffer: Result<()>, parsed: Result<Parsed>, completion: Result<()>)

  datatype Slot = Slot(
    generation: nat, sequence: nat, processing: bool, quarantined: bool, retired: bool, submission: Option<Submission>,
    credit: Option<Lane>)

  /** An accepted packet. */
  datatype Acceptance = Acceptance(key: CounterKey, count: nat, lane: Lane, slot: nat)

  predicate IsOccupied(s: Slot) { s.submission.Some? || s.quarantined }

  predicate IsFree(s: Slot) { s.submission.None? && !s.quarantined && !s.retired }

  // ----- Lanes -----

  predicate ValidCapabilities(c: Capabilities, n: nat) {
    && c.controlSlots > 0 && c.cancellationSlots > 0 && c.controlSlots < n && c.cancellationSlots < n - c.controlSlots
    && 0 < c.perStreamLimit <= 256 && 0 < c.maxSegments <= 3 && 0 < c.maxFragments <= 16 && c.otherwiseValid
  }

  function LaneBegin(c: Capabilities, n: nat, lane: Lane): int {
    match lane
    case DataLane => 0
    case ControlLane => n - c.controlSlots - c.cancellationSlots
    case CancellationLane => n - c.cancellationSlots
  }

  function LaneEnd(c: Capabilities, n: nat, lane: Lane): int {
    match lane
    case DataLane => n - c.controlSlots - c.cancellationSlots
    case ControlLane => n - c.cancellationSlots
    case CancellationLane => n
  }

  predicate InLane(c: Capabilities, n: nat, lane: Lane, i: nat) { LaneBegin(c, n, lane) <= i < LaneEnd(c, n, lane) }

  /** Lanes divide the slots: data first, then as many control and cancellation slots as configured. */
  lemma LanesPartition(c: Capabilities, n: nat, i: nat)
    requires ValidCapabilities(c, n)
    ensures InLane(c, n, DataLane, i) <==> i + c.controlSlots + c.cancellationSlots < n
    ensures InLane(c, n, CancellationLane, i) <==> i < n <= i + c.cancellationSlots
    ensures InLane(c, n, ControlLane, i) <==>
            i < n && !InLane(c, n, DataLane, i) && !InLane(c, n, CancellationLane, i)
  {
  }

  predicate IsData(kind: nat) { kind <= 3 }

  function LaneOf(kind: nat, cancel: bool): Lane {
    if IsData(kind) then DataLane else if cancel then CancellationLane else ControlLane
  }

  // ----- Credits -----

  datatype Credits = Credits(data: nat, control: nat, cancellation: nat)

  function Get(c: Credits, lane: Lane): nat {
    match lane
    case DataLane => c.data
    case ControlLane => c.control
    case CancellationLane => c.cancellation
  }

  function Set(c: Credits, lane: Lane, n: nat): Credits {
    match lane
    case DataLane => c.(data := n)
    case ControlLane => c.(control := n)
    case CancellationLane => c.(cancellation := n)
  }

  /** Slots holding a credit of a lane. */
  function Holders(slots: seq<Slot>, lane: Lane): nat {
    if slots == [] then 0
    else Holders(slots[..|slots| - 1], lane) + if slots[|slots| - 1].credit == Some(lane) then 1 else 0
  }

  lemma {:induction false} HoldersUpdate(slots: seq<Slot>, i: nat, s: Slot, lane: Lane)
    requires i < |slots|
    ensures Holders(slots[i := s], lane) ==
            Holders(slots, lane) - (if slots[i].credit == Some(lane) then 1 else 0) +
              (if s.credit == Some(lane) then 1 else 0)
  {
    var n := |slots| - 1;
    if i == n {
      assert slots[i := s][..n] == slots[..n];
    } else {
      assert slots[i := s][..n] == slots[..n][i := s];
      HoldersUpdate(slots[..n], i, s, lane);
    }
  }

  /** The pool's use is that of others plus one credit per holding slot. */
  ghost predicate Accounted(used: Credits, others: Credits, slots: seq<Slot>) {
    forall lane :: Get(used, lane) == Get(others, lane) + Holders(slots, lane)
  }

  class CreditPool {
    const capacity: Credits
    var used: Credits
    var open: bool

    constructor (capacity: Credits)
      ensures this.capacity == capacity && used == Credits(0, 0, 0) && open
    {
      this.capacity, used, open := capacity, Credits(0, 0, 0), true;
    }

    method Acquire(lane: Lane) returns (r: Result<()>)
      modifies this`used
      ensures r == if !open then Err(InvalidState)
                   else if Get(old(used), lane) < Get(capacity, lane) then Ok(()) else Err(CapacityExhausted)
      ensures used == if r.Ok? then Set(old(used), lane, Get(old(used), lane) + 1) else old(used)
    {
      if !open {
        return Err(InvalidState);
      }
      if Get(used, lane) >= Get(capacity, lane) {
        return Err(CapacityExhausted);
      }
      used := Set(used, lane, Get(used, lane) + 1);
      return Ok(());
    }

    method Release(lane: Lane)
      requires Get(used, lane) > 0
      modifies this`used
      ensures used == Set(old(used), lane, Get(old(used), lane) - 1)
    {
      used := Set(used, lane, Get(used, lane) - 1);
    }
  }

  // ----- The queue -----

  /** Slots with a submission are exactly the accepted packets not yet completed. */
  ghost predicate Queued(slots: seq<Slot>, accepted: seq<Acceptance>, done: nat) {
    && done <= |accepted|
    && (forall i :: 0 <= i < |slots| && slots[i].submission.Some? ==> IsPending(slots, accepted, done, i))
    && (forall k :: done <= k < |accepted| ==> StandsIn(slots, accepted[k], k))
  }

  ghost predicate IsPending(slots: seq<Slot>, accepted: seq<Acceptance>, done: nat, i: nat)
    requires i < |slots| && slots[i].submission.Some?
  {
    var s := slots[i];
    && done < s.sequence <= |accepted| && accepted[s.sequence - 1].slot == i
    && accepted[s.sequence - 1].key == s.submission.value.counter
    && !s.quarantined && s.credit == Some(accepted[s.sequence - 1].lane)
  }

  ghost predicate StandsIn(slots: seq<Slot>, a: Acceptance, k: nat) {
    a.slot < |slots| && slots[a.slot].submission.Some? && slots[a.slot].sequence == k + 1
  }

  /** Occupied slots hold one credit of the lane they lie in. */
  ghost predicate InLanes(slots: seq<Slot>, c: Capabilities) {
    forall i :: 0 <= i < |slots| ==>
      && (slots[i].credit.Some? <==> IsOccupied(slots[i]))
      && (slots[i].credit.Some? ==> InLane(c, |slots|, slots[i].credit.value, i))
  }

  /** Accepted packets were put into slots of their lane. */
  ghost predicate LanesKept(accepted: seq<Acceptance>, c: Capabilities, n: nat) {
    forall k :: 0 <= k < |accepted| ==>
        InLane(c, n, accepted[k].lane, accepted[k].slot)
          && (accepted[k].lane == DataLane <==> IsData(accepted[k].key.kind))
  }

  /** The counter log is the accepted packets. */
  ghost predicate SameLog(log: seq<Counted>, accepted: seq<Acceptance>) {
    |log| == |accepted| && forall k :: 0 <= k < |log| ==> log[k] == Counted(accepted[k].key, accepted[k].count)
  }

  /** Completed so far: the first ones accepted, in order. */
  ghost predicate InOrder(completed: seq<nat>) {
    forall k :: 0 <= k < |completed| ==> completed[k] == k
  }

  /** Only the current packet, the earliest one not completed, is being processed. */
  ghost predicate OnlyProcessing(slots: seq<Slot>, current: Option<nat>, done: nat) {
    && (current.Some? ==> current.value < |slots| && slots[current.value].submission.Some?
                          && slots[current.value].sequence == done + 1)
    && forall i :: 0 <= i < |slots| ==> (slots[i].processing <==> current == Some(i))
  }

  /** Packets of a key that are not yet completed. */
  function Waiting(slots: seq<Slot>, key: CounterKey): nat {
    if slots == [] then 0
    else
      var last := slots[|slots| - 1];
      Waiting(slots[..|slots| - 1], key) + if last.submission.Some? && last.submission.value.counter == key then 1
                                           else 0
  }

  class Loopback {
    const slots: array<Slot>
    const capabilities: Capabilities
    const counters: CounterRegistry
    const pool: CreditPool
    var nextSequence: nat
    var open: bool
    /** Slot being processed. */
    var current: Option<nat>
    ghost var accepted: seq<Acceptance>
    ghost var completed: seq<nat>
    ghost var others: Credits

    ghost predicate Valid()
      reads this, slots, counters, counters.entries, pool
    {
      && counters.Valid() && SameLog(counters.log, accepted)
      && nextSequence == |accepted| + 1 && nextSequence <= U64_MAX
      && InOrder(completed) && Queued(slots[..], accepted, |completed|)
      && InLanes(slots[..], capabilities) && LanesKept(accepted, capabilities, slots.Length)
      && Accounted(pool.used, others, slots[..])
      && OnlyProcessing(slots[..], current, |completed|)
    }

    constructor (n: nat, capabilities: Capabilities, counters: CounterRegistry, pool: CreditPool)
      requires counters.Valid() && counters.log == []
      ensures Valid() && fresh(slots) && slots.Length == n && this.counters == counters && this.pool == pool
      ensures this.capabilities == capabilities && accepted == [] && completed == [] && others == pool.used
    {
      slots := new Slot[n](_ => Slot(1, 0, false, false, false, None, None));
      this.capabilities, this.counters, this.pool := capabilities, counters, pool;
      nextSequence, open, current := 1, true, None;
      accepted, completed, others := [], [], pool.used;
      new;
      NoHolders(slots[..]);
    }

    method Close()
      requires Valid()
      modifies this`open
      ensures Valid() && !open
    {
      open := false;
    }

    /** First free slot of a lane, or the number of slots. */
    method FirstFree(lane: Lane) returns (i: nat)
      requires ValidCapabilities(capabilities, slots.Length)
      ensures i <= slots.Length
      ensures i < slots.Length ==> InLane(capabilities, slots.Length, lane, i) && IsFree(slots[i])
      ensures i == slots.Length ==>
                forall j :: 0 <= j < slots.Length && InLane(capabilities, slots.Length, lane, j) ==> !IsFree(slots[j])
    {
      i := LaneBegin(capabilities, slots.Length, lane);
      while i < LaneEnd(capabilities, slots.Length, lane) && !IsFree(slots[i])
        invariant LaneBegin(capabilities, slots.Length, lane) <= i <= LaneEnd(capabilities, slots.Length, lane)
        invariant forall j :: LaneBegin(capabilities, slots.Length, lane) <= j < i ==> !IsFree(slots[j])
      {
        i := i + 1;
      }
      if i == LaneEnd(capabilities, slots.Length, lane) {
        i := slots.Length;
      }
    }

    method PendingOf(key: CounterKey) returns (n: nat)
      ensures n == Waiting(slots[..], key)
    {
      n := 0;
      for i := 0 to slots.Length
        invariant n == Waiting(slots[..i], key)
      {
        assert slots[..i + 1][..i] == slots[..i];
        if slots[i].submission.Some? && slots[i].submission.value.counter == key {
          n := n + 1;
        }
      }
      assert slots[..slots.Length] == slots[..];
    }

    /** Checks that look at the submission and the configuration alone. */
    function Screen(s: Submission): Option<ErrorCode> {
      if !s.creditOk then Some(InvalidArgument)
      else if !ValidCapabilities(capabilities, slots.Length) then Some(InvalidArgument)
      else if s.fault.rejects then Some(CapacityExhausted)
      else if !s.reserved || !s.sourceKnown || (s.fault.holds && !s.fault.fails) then Some(InvalidArgument)
      else if s.bytes == 0 || s.bytes > capabilities.maxPacketBytes
              || s.segments > capabilities.maxSegments then Some(UnsupportedCapability)
      else if s.bytes < 4 then Some(ShortInput)
      else None
    }

    /** A slot of the lane is free. */
    ghost predicate HasRoom(lane: Lane)
      reads slots
    {
      exists i :: 0 <= i < slots.Length && InLane(capabilities, slots.Length, lane, i) && IsFree(slots[i])
    }

    /** A submission in order, by itself and beside what waits already; the first word of the packet tells its lane. */
    ghost predicate Admissible(s: Submission, answers: Answers)
      reads this, slots
    {
      && open && ValidCapabilities(capabilities, slots.Length)
      && s.creditOk && s.reserved && s.sourceKnown && !s.fault.rejects && (s.fault.holds ==> s.fault.fails)
      && 4 <= s.bytes <= capabilities.maxPacketBytes && s.segments <= capabilities.maxSegments
      && (s.counter.kind < 4 ==> Waiting(slots[..], s.counter) < capabilities.perStreamLimit)
      && HasRoom(if s.counter.kind < 4 then DataLane else if s.counter.kind >= 6 && s.cancelBit then CancellationLane
                 else ControlLane)
      && nextSequence < U64_MAX && answers.buffer.Ok? && answers.parsed.Ok?
      && answers.parsed.value.kind == s.counter.kind && answers.parsed.value.streamId == s.counter.streamId
    }

    /** When a packet is accepted: it is also next in its count, and its final lane has a slot and a credit for it. */
    ghost predicate Accepts(s: Submission, answers: Answers)
      reads this, slots, counters, counters.entries, pool
    {
      && Admissible(s, answers)
      && counters.frozen && Registered(counters.entries[..], s.counter)
      && answers.parsed.value.packetCount == Tally(counters.log, s.counter) % 16
      && var lane := if s.counter.kind < 4 then DataLane
                     else if answers.parsed.value.cancel then CancellationLane else ControlLane;
      HasRoom(lane) && answers.completion.Ok? && pool.open && Get(pool.used, lane) < Get(pool.capacity, lane)
    }

    /** The checks before the packet's count; the slot found for data is final. */
    method Admit(s: Submission, answers: Answers) returns (r: Result<nat>)
      requires Valid()
      ensures !open ==> r == Err(InvalidState)
      ensures open && Screen(s).Some? ==> r == Err(Screen(s).value)
      ensures r.Ok? <==> Admissible(s, answers)
      ensures r.Ok? && IsData(s.counter.kind) ==>
                r.value < slots.Length && InLane(capabilities, slots.Length, DataLane, r.value)
                  && IsFree(slots[r.value])
    {
      hide Queued, InLanes, LanesKept, Accounted, OnlyProcessing, InOrder, SameLog, Expecting, InSequence, Waiting,
           InLane;
      if !open {
        return Err(InvalidState);
      }
      if Screen(s).Some? {
        return Err(Screen(s).value);
      }
      var data := IsData(s.counter.kind);
      var index := FirstFree(LaneOf(s.counter.kind, s.counter.kind >= 6 && s.cancelBit));
      if data {
        var pending := PendingOf(s.counter);
        if pending >= capabilities.perStreamLimit {
          return Err(CapacityExhausted);
        }
      }
      if index == slots.Length {
        return Err(CapacityExhausted);
      }
      if nextSequence == U64_MAX {
        return Err(Overflow);
      }
      if answers.buffer.Err? {
        return Err(answers.buffer.error);
      }
      if answers.parsed.Err? {
        return Err(answers.parsed.error);
      }
      if answers.parsed.value.streamId != s.counter.streamId || answers.parsed.value.kind != s.counter.kind {
        return Err(InvalidArgument);
      }
      return Ok(index);
    }

    /** Accepts a packet into a slot of its lane, or rejects it and changes nothing. */
    method TrySend(s: Submission, answers: Answers) returns (r: Result<(nat, nat)>)
      requires Valid()
      modifies this`nextSequence, this`accepted, slots, counters`log, counters.entries, pool`used
      ensures Valid()
      ensures !open ==> r == Err(InvalidState)
      ensures open && Screen(s).Some? ==> r == Err(Screen(s).value)
      ensures r.Ok? <==> old(Accepts(s, answers))
      ensures r.Err? ==> slots[..] == old(slots[..]) && counters.log == old(counters.log) && pool.used == old(pool.used)
                         && accepted == old(accepted) && nextSequence == old(nextSequence)
      ensures r.Ok? ==>
                && answers.parsed.Ok?
                && var index, lane := r.value.0, LaneOf(s.counter.kind, answers.parsed.value.cancel);
                && accepted == old(accepted) + [Acceptance(s.counter, answers.parsed.value.packetCount, lane, index)]
                && index < slots.Length && IsFree(old(slots[..])[index])
                && r.value.1 == old(slots[..])[index].generation
                && slots[..] == old(slots[..])[index := old(slots[..])[index].(
                     sequence := |accepted|, submission := Some(s), credit := Some(lane))]
                && pool.used == Set(old(pool.used), lane, Get(old(pool.used), lane) + 1)
    {
      hide Queued, InLanes, LanesKept, Accounted, OnlyProcessing, InOrder, SameLog, Expecting, InSequence, Tally,
           Registered, Waiting, InLane;
      var admitted := Admit(s, answers);
      if admitted.Err? {
        return Err(admitted.error);
      }
      var index, envelope := admitted.value, answers.parsed.value;
      var expected := counters.Next(s.counter);
      if expected.Err? {
        return Err(expected.error);
      }
      if expected.value != envelope.packetCount {
        return Err(StaleGeneration);
      }
      var lane := LaneOf(s.counter.kind, envelope.cancel);
      if !IsData(s.counter.kind) {
        index := FirstFree(lane);
        if index == slots.Length {
          return Err(CapacityExhausted);
        }
      }
      if answers.completion.Err? {
        return Err(answers.completion.error);
      }
      var credits := pool.Acquire(lane);
      if credits.Err? {
        return Err(credits.error);
      }
      SameLogSize(counters.log, accepted);
      var committed := counters.Accept(s.counter, envelope.packetCount);
      Occupy(index, s, lane, envelope.packetCount);
      return Ok((index, slots[index].generation));
    }

    /** Moves an accepted submission into its slot; the credit and the count are already committed. */
    method Occupy(index: nat, s: Submission, lane: Lane, count: nat)
      requires index < slots.Length && IsFree(slots[index]) && InLane(capabilities, slots.Length, lane, index)
      requires lane == DataLane <==> IsData(s.counter.kind)
      requires nextSequence == |accepted| + 1 && nextSequence < U64_MAX
      requires counters.Valid() && |counters.log| == |accepted| + 1
      requires counters.log[|accepted|] == Counted(s.counter, count)
      requires SameLog(counters.log[..|accepted|], accepted)
      requires InOrder(completed) && Queued(slots[..], accepted, |completed|)
      requires InLanes(slots[..], capabilities) && LanesKept(accepted, capabilities, slots.Length)
      requires Get(pool.used, lane) > 0 && Accounted(Set(pool.used, lane, Get(pool.used, lane) - 1), others, slots[..])
      requires OnlyProcessing(slots[..], current, |completed|)
      modifies this`nextSequence, this`accepted, slots
      ensures Valid() && accepted == old(accepted) + [Acceptance(s.counter, count, lane, index)]
      ensures slots[..] == old(slots[..])[index := old(slots[..])[index].(
                sequence := |accepted|, submission := Some(s), credit := Some(lane))]
    {
      hide Queued, InLanes, LanesKept, Accounted, OnlyProcessing, InOrder, SameLog, Expecting, InSequence, Tally,
           Registered;
      ghost var was, a := slots[..], Acceptance(s.counter, count, lane, index);
      var slot := slots[index].(sequence := nextSequence, submission := Some(s), credit := Some(lane));
      InLanesFree(was, capabilities, index);
      slots[index] := slot;
      assert slots[..] == was[index := slot];
      OccupyQueued(was, accepted, |completed|, index, slot, a);
      OccupyLanes(was, capabilities, accepted, index, slot, a);
      OccupyAccounted(pool.used, others, was, index, slot, lane);
      OccupyProcessing(was, current, |completed|, index, slot);
      SameLogAppend(counters.log, accepted, a);
      accepted := accepted + [a];
      nextSequence := nextSequence + 1;
    }

    /** Takes the earliest accepted packet that is not yet completed; the answer is none when there is none. */
    method BeginNext() returns (r: Result<Option<nat>>)
      requires Valid()
      modifies this`current, slots
      ensures Valid()
      ensures old(current).Some? ==> r == Err(WouldDeadlock) && slots[..] == old(slots[..]) && current == old(current)
      ensures old(current).None? && |completed| == |accepted| ==>
                r == Ok(None) && current.None? && slots[..] == old(slots[..])
      ensures old(current).None? && |completed| < |accepted| ==>
                r == Ok(Some(accepted[|completed|].slot)) && current == r.value && current.value < slots.Length
                && slots[current.value].sequence == |completed| + 1
                && slots[..] == old(slots[..])[current.value := slots[current.value]]
                && slots[current.value] == old(slots[..])[current.value].(processing := true)
    {
      hide Queued, InLanes, LanesKept, Accounted, OnlyProcessing, InOrder, SameLog, Expecting, InSequence, Tally,
           Registered;
      if current.Some? {
        return Err(WouldDeadlock);
      }
      QueuedBounds(slots[..], accepted, |completed|);
      var index := Earliest();
      if index == slots.Length {
        return Ok(None);
      }
      ghost var was := slots[..];
      slots[index] := slots[index].(processing := true);
      current := Some(index);
      assert slots[..] == was[index := was[index].(processing := true)];
      BeginKeeps(was, accepted, |completed|, capabilities, pool.used, others, index);
      return Ok(Some(index));
    }

    method Earliest() returns (index: nat)
      requires Queued(slots[..], accepted, |completed|) && OnlyProcessing(slots[..], None, |completed|)
      requires |accepted| < U64_MAX
      ensures |completed| == |accepted| ==> index == slots.Length
      ensures |completed| < |accepted| ==> index == accepted[|completed|].slot && index < slots.Length
                                           && slots[index].submission.Some? && slots[index].sequence == |completed| + 1
    {
      hide Queued, OnlyProcessing;
      index := slots.Length;
      var sequence := U64_MAX;
      for i := 0 to slots.Length
        invariant index <= slots.Length && (index == slots.Length ==> sequence == U64_MAX)
        invariant index < slots.Length ==>
                    index < i && slots[index].submission.Some? && slots[index].sequence == sequence
        invariant forall j :: 0 <= j < i && slots[j].submission.Some? ==> sequence <= slots[j].sequence
      {
        NotProcessing(slots[..], i);
        if slots[i].submission.Some? && !slots[i].processing && slots[i].sequence < sequence {
          index, sequence := i, slots[i].sequence;
        }
      }
      EarliestIs(slots[..], accepted, |completed|, index, sequence);
    }

    /**
     Ends the processing of the current packet. `delivery` and `arming` are the outcomes of handing the packet to
     its route and of keeping its storage for device quiescence; `published` says whether its ticket was still open.
     */
    method Finish(delivery: Result<()>, arming: Result<()>, published: bool) returns (r: Result<()>)
      requires Valid() && current.Some?
      modifies this`current, this`completed, slots, pool`used
      ensures Valid() && current.None? && accepted == old(accepted)
      ensures old(current.value < slots.Length && slots[current.value].submission.Some?)
      ensures var fault := old(slots[current.value]).submission.value.fault;
              if !fault.fails && !fault.loses && delivery.Err? then
                && r == delivery && completed == old(completed) && pool.used == old(pool.used)
                && slots[..] == Stopped(old(slots[..]), old(current).value)
              else if fault.holds && arming.Err? then
                && r == arming && completed == old(completed) && pool.used == old(pool.used)
                && slots[..] == Stopped(old(slots[..]), old(current).value)
              else
                && r == (if published then Ok(()) else Err(InvalidState))
                && completed == old(completed) + [|old(completed)|]
                && slots[..] == Ended(old(slots[..]), old(current).value, fault.holds)
                && pool.used == UsedAfter(old(pool.used), old(slots[..]), old(current).value, fault.holds)
    {
      hide Queued, InLanes, LanesKept, Accounted, OnlyProcessing, InOrder, SameLog, Expecting, InSequence, Tally,
           Registered;
      CurrentPending(slots[..], accepted, |completed|, current);
      var index := current.value;
      var fault := slots[index].submission.value.fault;
      if !fault.fails && !fault.loses && delivery.Err? {
        Abandon(index);
        return delivery;
      }
      if fault.holds && arming.Err? {
        Abandon(index);
        return arming;
      }
      Complete(index, fault.holds);
      return if published then Ok(()) else Err(InvalidState);
    }

    /** Gives up for now; the packet stays first in line. */
    method Abandon(index: nat)
      requires Valid() && current == Some(index) && index < slots.Length
      modifies this`current, slots
      ensures Valid() && current.None? && slots[..] == Stopped(old(slots[..]), index)
    {
      hide Queued, InLanes, LanesKept, Accounted, OnlyProcessing, InOrder, SameLog, Expecting, InSequence, Tally,
           Registered;
      ghost var was := slots[..];
      slots[index] := slots[index].(processing := false);
      current := None;
      assert slots[..] == was[index := was[index].(processing := false)];
      AbandonKeeps(was, accepted, |completed|, capabilities, pool.used, others, index);
    }

    /** Completes the current packet; held storage keeps the slot and its credit. */
    method Complete(index: nat, holds: bool)
      requires Valid() && current == Some(index) && index < slots.Length && slots[index].submission.Some?
      requires slots[index].credit.Some?
      modifies this`current, this`completed, slots, pool`used
      ensures Valid() && current.None? && completed == old(completed) + [|old(completed)|]
      ensures slots[..] == Ended(old(slots[..]), index, holds)
      ensures pool.used == UsedAfter(old(pool.used), old(slots[..]), index, holds)
    {
      hide Queued, InLanes, LanesKept, Accounted, OnlyProcessing, InOrder, SameLog, Expecting, InSequence, Tally,
           Registered;
      ghost var was, done := slots[..], |completed|;
      CreditUsed(pool.used, others, was, index);
      if holds {
        slots[index] := slots[index].(quarantined := true, submission := None, processing := false);
      } else {
        pool.Release(slots[index].credit.value);
        slots[index] := Released(slots[index]);
      }
      var slot := slots[index];
      assert slots[..] == was[index := slot];
      CompleteQueued(was, accepted, done, index, slot, current);
      CompleteLanes(was, capabilities, index, slot);
      CompleteAccounted(old(pool.used), pool.used, others, was, index, slot);
      CompleteProcessing(was, current, done, index, slot);
      InOrderAppend(completed);
      completed := completed + [done];
      current := None;
    }

    /** Evidence of device quiescence frees a held slot. */
    method ProveQuiescent(index: nat, generation: nat, proved: bool) returns (r: Result<()>)
      requires Valid()
      modifies slots, pool`used
      ensures Valid()
      ensures r == if index >= slots.Length then Err(InvalidArgument)
                   else if old(slots[..])[index].generation != generation
                           || !old(slots[..])[index].quarantined then Err(StaleGeneration)
                   else if !proved then Err(InvalidState) else Ok(())
      ensures r.Err? ==> slots[..] == old(slots[..]) && pool.used == old(pool.used)
      ensures r.Ok? ==> slots[..] == old(slots[..])[index := Released(old(slots[..])[index])]
    {
      hide Queued, InLanes, LanesKept, Accounted, OnlyProcessing, InOrder, SameLog, Expecting, InSequence, Tally,
           Registered;
      if index >= slots.Length {
        return Err(InvalidArgument);
      }
      if slots[index].generation != generation || !slots[index].quarantined {
        return Err(StaleGeneration);
      }
      if !proved {
        return Err(InvalidState);
      }
      ghost var was := slots[..];
      QuarantinedHolds(was, accepted, |completed|, capabilities, current, index);
      CreditUsed(pool.used, others, was, index);
      pool.Release(slots[index].credit.value);
      slots[index] := Released(slots[index]);
      assert slots[..] == was[index := slots[index]];
      ReleaseQueued(was, accepted, |completed|, index);
      CompleteLanes(was, capabilities, index, slots[index]);
      CompleteAccounted(old(pool.used), pool.used, others, was, index, slots[index]);
      ReleaseProcessing(was, current, |completed|, index);
      return Ok(());
    }
  }

  /** A freed slot starts a new generation, or retires with the last one. */
  function Released(s: Slot): Slot {
    var freed := s.(submission := None, credit := None, processing := false, quarantined := false);
    if s.generation == U64_MAX then freed.(retired := true) else freed.(generation := s.generation + 1)
  }

  /** Processing given up: the packet waits on. */
  function Stopped(slots: seq<Slot>, i: nat): seq<Slot> {
    if i < |slots| then slots[i := slots[i].(processing := false)] else slots
  }

  /** Processing ended: the slot is freed, or held without its packet until the device is quiescent. */
  function Ended(slots: seq<Slot>, i: nat, holds: bool): seq<Slot> {
    if i >= |slots| then slots
    else if holds then slots[i := slots[i].(quarantined := true, submission := None, processing := false)]
    else slots[i := Released(slots[i])]
  }

  function UsedAfter(used: Credits, slots: seq<Slot>, i: nat, holds: bool): Credits {
    if holds || i >= |slots| || slots[i].credit.None? || Get(used, slots[i].credit.value) == 0 then used
    else Set(used, slots[i].credit.value, Get(used, slots[i].credit.value) - 1)
  }

  /** A token is good once: a freed slot is free for another packet under another generation, or never again. */
  lemma ReleasedMeaning(s: Slot)
    requires s.generation <= U64_MAX && !s.retired
    ensures var t := Released(s);
            && t.submission.None? && t.credit.None? && !t.processing && !t.quarantined
            && if s.generation < U64_MAX then IsFree(t) && t.generation == s.generation + 1
               else t.retired && !IsFree(t)
  {
  }

  // ----- Proofs about slots as values -----

  lemma {:induction false} NoHolders(slots: seq<Slot>)
    requires forall i :: 0 <= i < |slots| ==> slots[i].credit.None?
    ensures forall lane :: Holders(slots, lane) == 0
  {
    if slots != [] {
      NoHolders(slots[..|slots| - 1]);
    }
  }

  lemma InLanesFree(slots: seq<Slot>, c: Capabilities, i: nat)
    requires InLanes(slots, c) && i < |slots| && IsFree(slots[i])
    ensures slots[i].credit.None?
  {
  }

  lemma OccupyQueued(slots: seq<Slot>, accepted: seq<Acceptance>, done: nat, index: nat, slot: Slot, a: Acceptance)
    requires Queued(slots, accepted, done) && index < |slots| && IsFree(slots[index])
    requires slot.submission.Some? && slot.sequence == |accepted| + 1 && !slot.quarantined
    requires a.slot == index && a.key == slot.submission.value.counter && slot.credit == Some(a.lane)
    ensures Queued(slots[index := slot], accepted + [a], done)
  {
    var t, grown := slots[index := slot], accepted + [a];
    forall i | 0 <= i < |t| && t[i].submission.Some?
      ensures IsPending(t, grown, done, i)
    {
      if i != index {
        assert IsPending(slots, accepted, done, i);
      }
    }
    forall k | done <= k < |grown|
      ensures StandsIn(t, grown[k], k)
    {
      if k < |accepted| {
        assert StandsIn(slots, accepted[k], k);
      }
    }
  }

  lemma OccupyLanes(slots: seq<Slot>, c: Capabilities, accepted: seq<Acceptance>, index: nat, slot: Slot, a: Acceptance)
    requires InLanes(slots, c) && LanesKept(accepted, c, |slots|) && index < |slots|
    requires slot.credit == Some(a.lane) && slot.submission.Some? && a.slot == index
    requires InLane(c, |slots|, a.lane, index)
    requires a.lane == DataLane <==> IsData(a.key.kind)
    ensures InLanes(slots[index := slot], c) && LanesKept(accepted + [a], c, |slots|)
  {
    hide InLane;
  }

  lemma OccupyAccounted(used: Credits, others: Credits, slots: seq<Slot>, index: nat, slot: Slot, lane: Lane)
    requires Get(used, lane) > 0 && Accounted(Set(used, lane, Get(used, lane) - 1), others, slots)
    requires index < |slots| && slots[index].credit.None? && slot.credit == Some(lane)
    ensures Accounted(used, others, slots[index := slot])
  {
    hide Holders;
    forall l
      ensures Get(used, l) == Get(others, l) + Holders(slots[index := slot], l)
    {
      HoldersUpdate(slots, index, slot, l);
      assert Get(Set(used, lane, Get(used, lane) - 1), l) == Get(others, l) + Holders(slots, l);
    }
  }

  lemma OccupyProcessing(slots: seq<Slot>, current: Option<nat>, done: nat, index: nat, slot: Slot)
    requires OnlyProcessing(slots, current, done) && index < |slots| && IsFree(slots[index])
    requires slot.processing == slots[index].processing
    ensures OnlyProcessing(slots[index := slot], current, done)
  {
  }

  lemma SameLogAppend(log: seq<Counted>, accepted: seq<Acceptance>, a: Acceptance)
    requires |log| == |accepted| + 1 && log[|accepted|] == Counted(a.key, a.count)
    requires SameLog(log[..|accepted|], accepted)
    ensures SameLog(log, accepted + [a])
  {
    forall k | 0 <= k < |accepted|
      ensures log[k] == Counted(accepted[k].key, accepted[k].count)
    {
      assert log[k] == log[..|accepted|][k];
    }
  }

  lemma SameLogSize(log: seq<Counted>, accepted: seq<Acceptance>)
    requires SameLog(log, accepted)
    ensures |log| == |accepted|
  {
  }

  lemma NotProcessing(slots: seq<Slot>, i: nat)
    requires (exists done :: OnlyProcessing(slots, None, done)) && i < |slots|
    ensures !slots[i].processing
  {
  }

  lemma QueuedBounds(slots: seq<Slot>, accepted: seq<Acceptance>, done: nat)
    requires Queued(slots, accepted, done)
    ensures done <= |accepted|
  {
  }

  lemma EarliestIs(slots: seq<Slot>, accepted: seq<Acceptance>, done: nat, index: nat, sequence: nat)
    requires Queued(slots, accepted, done) && |accepted| < U64_MAX && index <= |slots|
    requires index == |slots| ==> sequence == U64_MAX
    requires index < |slots| ==> slots[index].submission.Some? && slots[index].sequence == sequence
    requires forall j :: 0 <= j < |slots| && slots[j].submission.Some? ==> sequence <= slots[j].sequence
    ensures done == |accepted| ==> index == |slots|
    ensures done < |accepted| ==> index == accepted[done].slot && index < |slots| && sequence == done + 1
  {
    if index < |slots| {
      assert IsPending(slots, accepted, done, index);
    }
    if done < |accepted| {
      assert StandsIn(slots, accepted[done], done);
    }
  }

  lemma SameButProcessing(slots: seq<Slot>, accepted: seq<Acceptance>, done: nat, c: Capabilities, used: Credits,
                          others: Credits, index: nat, p: bool)
    requires Queued(slots, accepted, done) && InLanes(slots, c) && Accounted(used, others, slots) && index < |slots|
    ensures var t := slots[index := slots[index].(processing := p)];
            Queued(t, accepted, done) && InLanes(t, c) && Accounted(used, others, t)
  {
    hide Holders, InLane;
    var t := slots[index := slots[index].(processing := p)];
    forall l
      ensures Holders(t, l) == Holders(slots, l)
    {
      HoldersUpdate(slots, index, t[index], l);
    }
    forall i | 0 <= i < |t| && t[i].submission.Some?
      ensures IsPending(t, accepted, done, i)
    {
      assert IsPending(slots, accepted, done, i);
    }
    forall k | done <= k < |accepted|
      ensures StandsIn(t, accepted[k], k)
    {
      assert StandsIn(slots, accepted[k], k);
    }
  }

  lemma BeginKeeps(slots: seq<Slot>, accepted: seq<Acceptance>, done: nat, c: Capabilities, used: Credits,
                   others: Credits, index: nat)
    requires Queued(slots, accepted, done) && InLanes(slots, c) && Accounted(used, others, slots)
    requires OnlyProcessing(slots, None, done)
    requires index < |slots| && slots[index].submission.Some? && slots[index].sequence == done + 1
    ensures var t := slots[index := slots[index].(processing := true)];
            Queued(t, accepted, done) && InLanes(t, c) && Accounted(used, others, t)
              && OnlyProcessing(t, Some(index), done)
  {
    hide Queued, InLanes, Accounted;
    SameButProcessing(slots, accepted, done, c, used, others, index, true);
  }

  lemma AbandonKeeps(slots: seq<Slot>, accepted: seq<Acceptance>, done: nat, c: Capabilities, used: Credits,
                     others: Credits, index: nat)
    requires Queued(slots, accepted, done) && InLanes(slots, c) && Accounted(used, others, slots)
    requires OnlyProcessing(slots, Some(index), done)
    requires index < |slots|
    ensures var t := slots[index := slots[index].(processing := false)];
            Queued(t, accepted, done) && InLanes(t, c) && Accounted(used, others, t) && OnlyProcessing(t, None, done)
  {
    hide Queued, InLanes, Accounted;
    SameButProcessing(slots, accepted, done, c, used, others, index, false);
  }

  lemma CurrentPending(slots: seq<Slot>, accepted: seq<Acceptance>, done: nat, current: Option<nat>)
    requires Queued(slots, accepted, done) && OnlyProcessing(slots, current, done) && current.Some?
    ensures current.value < |slots| && slots[current.value].submission.Some? && slots[current.value].credit.Some?
  {
    assert IsPending(slots, accepted, done, current.value);
  }

  /** A slot that holds a credit accounts for one in use. */
  lemma CreditUsed(used: Credits, others: Credits, slots: seq<Slot>, index: nat)
    requires Accounted(used, others, slots) && index < |slots| && slots[index].credit.Some?
    ensures Get(used, slots[index].credit.value) > 0
  {
    HoldersUpdate(slots, index, slots[index].(credit := None), slots[index].credit.value);
  }

  lemma CompleteQueued(slots: seq<Slot>, accepted: seq<Acceptance>, done: nat, index: nat, slot: Slot,
                       current: Option<nat>)
    requires Queued(slots, accepted, done) && OnlyProcessing(slots, current, done) && current == Some(index)
    requires index < |slots|
    requires slot.submission.None?
    ensures Queued(slots[index := slot], accepted, done + 1)
  {
    assert IsPending(slots, accepted, done, index);
    var t := slots[index := slot];
    forall i | 0 <= i < |t| && t[i].submission.Some?
      ensures IsPending(t, accepted, done + 1, i)
    {
      assert IsPending(slots, accepted, done, i);
    }
    forall k | done + 1 <= k < |accepted|
      ensures StandsIn(t, accepted[k], k)
    {
      assert StandsIn(slots, accepted[k], k);
    }
  }

  lemma CompleteLanes(slots: seq<Slot>, c: Capabilities, index: nat, slot: Slot)
    requires InLanes(slots, c) && index < |slots|
    requires slot.credit.Some? <==> IsOccupied(slot)
    requires slot.credit.Some? ==> slot.credit == slots[index].credit
    ensures InLanes(slots[index := slot], c)
  {
    hide InLane;
  }

  lemma CompleteAccounted(used: Credits, now: Credits, others: Credits, slots: seq<Slot>, index: nat, slot: Slot)
    requires Accounted(used, others, slots) && index < |slots| && slots[index].credit.Some?
    requires Get(used, slots[index].credit.value) > 0
    requires (slot.credit == slots[index].credit && now == used)
             || (slot.credit.None? && now ==
                 Set(used, slots[index].credit.value, Get(used, slots[index].credit.value) - 1))
    ensures Accounted(now, others, slots[index := slot])
  {
    hide Holders;
    forall l
      ensures Get(now, l) == Get(others, l) + Holders(slots[index := slot], l)
    {
      HoldersUpdate(slots, index, slot, l);
      assert Get(used, l) == Get(others, l) + Holders(slots, l);
    }
  }

  lemma CompleteProcessing(slots: seq<Slot>, current: Option<nat>, done: nat, index: nat, slot: Slot)
    requires OnlyProcessing(slots, current, done) && current == Some(index) && index < |slots| && !slot.processing
    ensures OnlyProcessing(slots[index := slot], None, done + 1)
  {
  }

  lemma InOrderAppend(completed: seq<nat>)
    requires InOrder(completed)
    ensures InOrder(completed + [|completed|])
  {
  }

  lemma QuarantinedHolds(slots: seq<Slot>, accepted: seq<Acceptance>, done: nat, c: Capabilities, current: Option<nat>,
                         index: nat)
    requires Queued(slots, accepted, done) && InLanes(slots, c) && OnlyProcessing(slots, current, done)
    requires index < |slots| && slots[index].quarantined
    ensures slots[index].submission.None? && slots[index].credit.Some? && current != Some(index)
  {
  }

  lemma ReleaseQueued(slots: seq<Slot>, accepted: seq<Acceptance>, done: nat, index: nat)
    requires Queued(slots, accepted, done) && index < |slots| && slots[index].submission.None?
    ensures Queued(slots[index := Released(slots[index])], accepted, done)
  {
    var t := slots[index := Released(slots[index])];
    forall i | 0 <= i < |t| && t[i].submission.Some?
      ensures IsPending(t, accepted, done, i)
    {
      assert IsPending(slots, accepted, done, i);
    }
    forall k | done <= k < |accepted|
      ensures StandsIn(t, accepted[k], k)
    {
      assert StandsIn(slots, accepted[k], k);
    }
  }

  lemma ReleaseProcessing(slots: seq<Slot>, current: Option<nat>, done: nat, index: nat)
    requires OnlyProcessing(slots, current, done) && index < |slots| && slots[index].submission.None?
    ensures OnlyProcessing(slots[index := Released(slots[index])], current, done)
  {
  }

  // ----- Every run -----

  /** Calls on the transport; a callback may submit while a packet is being processed. */
  datatype Call =
    | Send(submission: Submission, answers: Answers)
    | Begin
    | Finish(delivery: Result<()>, arming: Result<()>, published: bool)
    | Quiesce(index: nat, generation: nat, proved: bool)
    | Close

  method Perform(l: Loopback, call: Call)
    requires l.Valid()
    modifies l, l.slots, l.counters, l.counters.entries, l.pool
    ensures l.Valid() && old(l.accepted) <= l.accepted && old(l.completed) <= l.completed && l.others == old(l.others)
  {
    hide Queued, InLanes, LanesKept, Accounted, OnlyProcessing, InOrder, SameLog, Expecting, InSequence;
    match call
    case Send(s, answers) =>
      var r := l.TrySend(s, answers);
    case Begin =>
      var r := l.BeginNext();
    case Finish(delivery, arming, published) =>
      if l.current.Some? {
        var r := l.Finish(delivery, arming, published);
      }
    case Quiesce(index, generation, proved) =>
      var r := l.ProveQuiescent(index, generation, proved);
    case Close => l.Close();
  }

  /** What holds after every run. */
  ghost predicate Orderly(accepted: seq<Acceptance>, completed: seq<nat>, c: Capabilities, n: nat) {
    && InOrder(completed) && |completed| <= |accepted|
    && LanesKept(accepted, c, n)
    && forall k :: 0 <= k < |accepted| ==> accepted[k].count == EarlierOf(accepted[..k], accepted[k].key) % 16
  }

  /** Packets of a key among accepted ones. */
  function EarlierOf(accepted: seq<Acceptance>, key: CounterKey): nat {
    if accepted == [] then 0
    else EarlierOf(accepted[..|accepted| - 1], key) + if accepted[|accepted| - 1].key == key then 1 else 0
  }

  lemma {:induction false} TallyIsEarlier(log: seq<Counted>, accepted: seq<Acceptance>, key: CounterKey)
    requires SameLog(log, accepted)
    ensures Tally(log, key) == EarlierOf(accepted, key)
  {
    if log != [] {
      TallyIsEarlier(log[..|log| - 1], accepted[..|accepted| - 1], key);
    }
  }

  lemma CountsInSequence(log: seq<Counted>, accepted: seq<Acceptance>)
    requires SameLog(log, accepted) && InSequence(log)
    ensures forall k :: 0 <= k < |accepted| ==> accepted[k].count == EarlierOf(accepted[..k], accepted[k].key) % 16
  {
    forall k | 0 <= k < |accepted|
      ensures accepted[k].count == EarlierOf(accepted[..k], accepted[k].key) % 16
    {
      TallyIsEarlier(log[..k], accepted[..k], accepted[k].key);
      assert log[k].count == Tally(log[..k], log[k].key) % 16;
    }
  }

  /**
   Whatever is called and answered: packets complete in the order of acceptance and once each, each key counts
   0 to 15 over and over, every packet sits in a slot of its lane, and each lane's credits are its occupied slots.
   */
  method Run(n: nat, capabilities: Capabilities, keys: seq<CounterKey>, capacity: Credits, calls: seq<Call>)
    returns (l: Loopback)
    ensures l.Valid() && Orderly(l.accepted, l.completed, capabilities, n)
    ensures forall lane :: Get(l.pool.used, lane) == Holders(l.slots[..], lane)
  {
    var counters := new CounterRegistry(|keys|);
    for i := 0 to |keys|
      invariant counters.Valid() && counters.log == [] && fresh(counters) && fresh(counters.entries)
    {
      var r := counters.Add(keys[i]);
    }
    counters.Freeze();
    var pool := new CreditPool(capacity);
    l := new Loopback(n, capabilities, counters, pool);
    for i := 0 to |calls|
      invariant l.Valid() && fresh(l) && fresh(l.slots) && fresh(l.counters) && fresh(l.counters.entries)
      invariant fresh(l.pool)
      invariant l.others == Credits(0, 0, 0) && l.capabilities == capabilities && l.slots.Length == n
    {
      Perform(l, calls[i]);
    }
    CountsInSequence(l.counters.log, l.accepted);
    assert forall lane :: Get(l.others, lane) == 0;
  }
}
