/**
 What a call on the completion slots achieves, alone and among other threads
 (include/vita/runtime/completion/ticket.hpp). The laws of `CompletionArenas` say what no interleaving can
 break; these say when a reservation, a publication and a consumption succeed and what they leave.
 */
module CompletionProgress {
  import opened Core
  import opened CompletionArenas

  // ----- Runs in parts -----

  lemma {:induction false} RunParts(s: Arena, a: seq<Action>, b: seq<Action>)
    ensures Run(s, a + b) == Run(Run(s, a), b)
    decreases |a|
  {
    hide Step;
    if a == [] {
      assert a + b == b;
    } else {
      assert (a + b)[1..] == a[1..] + b;
      RunParts(Step(s, a[0]), a[1..], b);
    }
  }

  /** A fresh arena: every slot free in the chosen generation, or in the last one there is. */
  lemma FreshArena(count: nat, generation: nat)
    ensures var s := Initial(count, generation);
            && |s.slots| == count && s.tasks == map[] && s.lock == None && s.rejected == 0 && s.log == []
            && forall i :: 0 <= i < count ==>
                 && s.slots[i].state == Free
                 && s.slots[i].generation == if generation < 0x100_0000_0000_0000 then generation
                                             else 0xFF_FFFF_FFFF_FFFF
  {
  }

  // ----- One thread at a time -----

  predicate FirstFree(s: Arena, k: nat) {
    k < |s.slots| && s.slots[k].state == Free && forall i :: 0 <= i < k ==> s.slots[i].state != Free
  }

  function Loads(t: nat, n: nat): seq<Action> { seq(n, _ => LoadFree(t)) }

  function Reserving(t: nat, operation: nat, k: nat): seq<Action> {
    [Lock(t, operation)] + Loads(t, k + 1) + [StoreOperation(t), StoreReserved(t), Unlock(t)]
  }

  function Publishing(t: nat, slot: nat, generation: nat, result: CompletionResult): seq<Action> {
    [TryClaim(t, slot, generation), StorePayload(t, result), StoreReady(t)]
  }

  function Consuming(t: nat, slot: nat): seq<Action> {
    [LoadReady(t, slot), TrySeize(t), LoadRecord(t), ClearPayload(t), StoreFree(t)]
  }

  /** Slots in use are passed one by one. */
  lemma {:induction false} ScanPasses(s: Arena, t: nat, operation: nat, n: nat, k: nat)
    requires t in s.tasks && s.tasks[t] == Scanning(operation, n) && n <= k <= |s.slots|
    requires forall i :: n <= i < k ==> s.slots[i].state != Free
    ensures Run(s, Loads(t, k - n)) == Becomes(s, t, Scanning(operation, k))
    decreases k - n
  {
    if n == k {
      assert Becomes(s, t, s.tasks[t]) == s;
    } else {
      var u := Step(s, LoadFree(t));
      assert u == Becomes(s, t, Scanning(operation, n + 1));
      ScanPasses(u, t, operation, n + 1, k);
      assert Loads(t, k - n)[1..] == Loads(t, k - n - 1);
      assert Becomes(u, t, Scanning(operation, k)) == Becomes(s, t, Scanning(operation, k));
    }
  }

  /** Taking the lock and passing slots in use. */
  lemma LockThenScan(s: Arena, t: nat, operation: nat, k: nat, rest: seq<Action>)
    requires t !in s.tasks && s.lock == None && k <= |s.slots|
    requires forall i :: 0 <= i < k ==> s.slots[i].state != Free
    ensures Run(s, [Lock(t, operation)] + Loads(t, k) + rest) ==
            Run(Becomes(s.(lock := Some(t)), t, Scanning(operation, k)), rest)
  {
    var locked := Step(s, Lock(t, operation));
    assert locked == Becomes(s.(lock := Some(t)), t, Scanning(operation, 0));
    ScanPasses(locked, t, operation, 0, k);
    assert Becomes(locked, t, Scanning(operation, k)) ==
           Becomes(s.(lock := Some(t)), t, Scanning(operation, k));
    hide Step, Loads;
    assert Run(s, [Lock(t, operation)]) == locked;
    hide Run;
    RunParts(s, [Lock(t, operation)] + Loads(t, k), rest);
    RunParts(s, [Lock(t, operation)], Loads(t, k));
  }

  /** A free slot is granted, the first one, in the generation it has; nothing else changes. */
  lemma ReserveGrants(s: Arena, t: nat, operation: nat, k: nat)
    requires t !in s.tasks && s.lock == None && FirstFree(s, k)
    ensures Run(s, Reserving(t, operation, k)) ==
            s.(slots := s.slots[k := s.slots[k].(operation := operation, state := Reserved)],
               log := s.log + [WasReserved(k, s.slots[k].generation, operation)])
  {
    var scanned := Becomes(s.(lock := Some(t)), t, Scanning(operation, k));
    var found := Step(scanned, LoadFree(t));
    assert found == Becomes(s.(lock := Some(t)), t, Found(operation, k, s.slots[k].generation));
    hide Step;
    assert Run(scanned, [LoadFree(t)]) == found;
    hide Run;
    var stores := [StoreOperation(t), StoreReserved(t), Unlock(t)];
    assert Reserving(t, operation, k) == [Lock(t, operation)] + Loads(t, k) + ([LoadFree(t)] + stores);
    LockThenScan(s, t, operation, k, [LoadFree(t)] + stores);
    RunParts(scanned, [LoadFree(t)], stores);
    StoresReserve(s, found, t, operation, k);
  }

  /** The last three steps of a reservation. */
  lemma StoresReserve(s: Arena, found: Arena, t: nat, operation: nat, k: nat)
    requires t !in s.tasks && s.lock == None && k < |s.slots| && s.slots[k].state == Free
    requires found == Becomes(s.(lock := Some(t)), t, Found(operation, k, s.slots[k].generation))
    ensures Run(found, [StoreOperation(t), StoreReserved(t), Unlock(t)]) ==
            s.(slots := s.slots[k := s.slots[k].(operation := operation, state := Reserved)],
               log := s.log + [WasReserved(k, s.slots[k].generation, operation)])
  {
    var named := Step(found, StoreOperation(t));
    var stored := Step(named, StoreReserved(t));
    var left := Step(stored, Unlock(t));
    assert left.tasks == s.tasks;
    ThreeSteps(found, StoreOperation(t), StoreReserved(t), Unlock(t));
  }

  lemma ThreeSteps(s: Arena, a: Action, b: Action, c: Action)
    ensures Run(s, [a, b, c]) == Step(Step(Step(s, a), b), c)
  {
    hide Step;
    assert [a, b, c][1..] == [b, c] && [b, c][1..] == [c] && [c][1..] == [];
    assert Run(s, [a, b, c]) == Run(Step(s, a), [b, c]);
    assert Run(Step(s, a), [b, c]) == Run(Step(Step(s, a), b), [c]);
    assert Run(Step(Step(s, a), b), [c]) == Run(Step(Step(Step(s, a), b), c), []);
  }

  /** With every slot in use a reservation ends without effect. */
  lemma ReserveFindsNone(s: Arena, t: nat, operation: nat)
    requires t !in s.tasks && s.lock == None && forall i :: 0 <= i < |s.slots| ==> s.slots[i].state != Free
    ensures Run(s, [Lock(t, operation)] + Loads(t, |s.slots|) + [LoadFree(t), Unlock(t)]) == s
  {
    LockThenScan(s, t, operation, |s.slots|, [LoadFree(t), Unlock(t)]);
    var scanned := Becomes(s.(lock := Some(t)), t, Scanning(operation, |s.slots|));
    TwoSteps(scanned, LoadFree(t), Unlock(t));
    hide Run;
    var leaving := Step(scanned, LoadFree(t));
    assert leaving == Becomes(s.(lock := Some(t)), t, Leaving);
    assert Step(leaving, Unlock(t)).tasks == s.tasks;
  }

  lemma TwoSteps(s: Arena, a: Action, b: Action)
    ensures Run(s, [a, b]) == Step(Step(s, a), b)
  {
    hide Step;
    assert [a, b][1..] == [b] && [b][1..] == [];
    assert Run(s, [a, b]) == Run(Step(s, a), [b]);
    assert Run(Step(s, a), [b]) == Run(Step(Step(s, a), b), []);
  }

  /** A publication succeeds exactly on a slot still reserved in its generation; otherwise it is only counted. */
  lemma PublishDecides(s: Arena, t: nat, slot: nat, generation: nat, result: CompletionResult)
    requires t !in s.tasks && slot < |s.slots|
    ensures Run(s, Publishing(t, slot, generation, result)) ==
            if s.slots[slot].state == Reserved && s.slots[slot].generation == generation then
              s.(slots := s.slots[slot := s.slots[slot].(state := Ready, payload := result)],
                 log := s.log + [WasClaimed(slot, generation, t), WasFinished(slot, generation, t, result)])
            else s.(rejected := s.rejected + 1)
  {
    ThreeSteps(s, TryClaim(t, slot, generation), StorePayload(t, result), StoreReady(t));
    hide Run;
    if s.slots[slot].state == Reserved && s.slots[slot].generation == generation {
      ClaimedIsFinished(s, t, slot, generation, result);
    } else {
      var rejected := s.(rejected := s.rejected + 1);
      assert Step(s, TryClaim(t, slot, generation)) == rejected;
      assert Step(rejected, StorePayload(t, result)) == rejected && Step(rejected, StoreReady(t)) == rejected;
    }
  }

  lemma ClaimedIsFinished(s: Arena, t: nat, i: nat, generation: nat, result: CompletionResult)
    requires t !in s.tasks && At(s, i, generation, Reserved)
    ensures Step(Step(Step(s, TryClaim(t, i, generation)), StorePayload(t, result)), StoreReady(t)) ==
            s.(slots := s.slots[i := s.slots[i].(state := Ready, payload := result)],
               log := s.log + [WasClaimed(i, generation, t), WasFinished(i, generation, t, result)])
  {
    var claimed := Step(s, TryClaim(t, i, generation));
    var filled := Step(claimed, StorePayload(t, result));
    assert filled == Becomes(s.(slots := s.slots[i := s.slots[i].(state := Writing, payload := result)],
                                log := s.log + [WasClaimed(i, generation, t)]), t, Filled(i, generation, result));
    var ready := Step(filled, StoreReady(t));
    assert ready.tasks == s.tasks;
    assert ready.slots == s.slots[i := s.slots[i].(state := Ready, payload := result)];
  }

  /** The slot after its record was taken: free in the next generation, or retired after the last. */
  function Emptied(slot: Slot): Slot {
    if slot.generation == 0xFF_FFFF_FFFF_FFFF then slot.(state := Retired, payload := BLANK)
    else slot.(generation := slot.generation + 1, state := Free, payload := BLANK)
  }

  lemma FiveSteps(s: Arena, a: Action, b: Action, c: Action, d: Action, e: Action)
    ensures Run(s, [a, b, c, d, e]) == Step(Step(Step(Step(Step(s, a), b), c), d), e)
  {
    hide Step;
    assert [a, b, c, d, e][1..] == [b, c, d, e] && [b, c, d, e][1..] == [c, d, e];
    ThreeSteps(Step(Step(s, a), b), c, d, e);
    assert Run(s, [a, b, c, d, e]) == Run(Step(s, a), [b, c, d, e]);
    assert Run(Step(s, a), [b, c, d, e]) == Run(Step(Step(s, a), b), [c, d, e]);
  }

  /** A finished slot gives its record once and is free again; any other slot gives nothing. */
  lemma ConsumeDecides(s: Arena, t: nat, slot: nat)
    requires t !in s.tasks && slot < |s.slots|
    ensures Run(s, Consuming(t, slot)) ==
            if s.slots[slot].state == Ready then
              s.(slots := s.slots[slot := Emptied(s.slots[slot])],
                 log := s.log + [WasConsumed(slot, s.slots[slot].generation,
                                             Record(s.slots[slot].operation, s.slots[slot].payload))])
            else s
  {
    hide Run;
    FiveSteps(s, LoadReady(t, slot), TrySeize(t), LoadRecord(t), ClearPayload(t), StoreFree(t));
    if s.slots[slot].state == Ready {
      var seized := Step(Step(s, LoadReady(t, slot)), TrySeize(t));
      assert seized == Becomes(s.(slots := s.slots[slot := s.slots[slot].(state := Reading)]), t,
                               Seized(slot, s.slots[slot].generation));
      SeizedIsConsumed(s, seized, t, slot);
    }
  }

  /** The last three steps of a consumption. */
  lemma SeizedIsConsumed(s: Arena, seized: Arena, t: nat, i: nat)
    requires t !in s.tasks && i < |s.slots|
    requires seized == Becomes(s.(slots := s.slots[i := s.slots[i].(state := Reading)]), t,
                               Seized(i, s.slots[i].generation))
    ensures Step(Step(Step(seized, LoadRecord(t)), ClearPayload(t)), StoreFree(t)) ==
            s.(slots := s.slots[i := Emptied(s.slots[i])],
               log := s.log + [WasConsumed(i, s.slots[i].generation,
                                           Record(s.slots[i].operation, s.slots[i].payload))])
  {
    var record := Record(s.slots[i].operation, s.slots[i].payload);
    var held := Step(seized, LoadRecord(t));
    assert held == Becomes(seized, t, Holding(i, s.slots[i].generation, record));
    var cleared := Step(held, ClearPayload(t));
    var freed := Step(cleared, StoreFree(t));
    assert freed.tasks == s.tasks;
    assert freed.slots == s.slots[i := Emptied(s.slots[i])];
  }

  /**
   From reservation to consumption: the record handed out is the operation reserved and the result published,
   and the slot is free for its next generation.
   */
  lemma ReservedPublishedConsumed(s: Arena, t: nat, p: nat, c: nat, operation: nat, result: CompletionResult, k: nat)
    requires t !in s.tasks && p !in s.tasks && c !in s.tasks && s.lock == None && FirstFree(s, k)
    ensures var g := s.slots[k].generation;
            var u := Run(s, Reserving(t, operation, k) + Publishing(p, k, g, result) + Consuming(c, k));
            && u.log == s.log + [WasReserved(k, g, operation), WasClaimed(k, g, p), WasFinished(k, g, p, result),
                                 WasConsumed(k, g, Record(operation, result))]
            && |u.slots| == |s.slots| && (forall i :: 0 <= i < |s.slots| && i != k ==> u.slots[i] == s.slots[i])
            && u.slots[k].state == (if g == 0xFF_FFFF_FFFF_FFFF then Retired else Free)
            && u.slots[k].generation == (if g == 0xFF_FFFF_FFFF_FFFF then g else g + 1)
            && u.tasks == s.tasks && u.lock == None && u.rejected == s.rejected
  {
    hide Run, Reserving, Publishing, Consuming;
    var g := s.slots[k].generation;
    var reserved := Run(s, Reserving(t, operation, k));
    var published := Run(reserved, Publishing(p, k, g, result));
    RunParts(s, Reserving(t, operation, k) + Publishing(p, k, g, result), Consuming(c, k));
    RunParts(s, Reserving(t, operation, k), Publishing(p, k, g, result));
    ReserveGrants(s, t, operation, k);
    PublishDecides(reserved, p, k, g, result);
    ConsumeDecides(published, c, k);
  }

  // ----- Among other threads -----

  /** A turn of the thread in question, or an action of another one. */
  datatype Turn = Own | Other(action: Action)

  /** What a thread that reserves does next. */
  function NextStep(t: nat, task: Task): Action {
    match task
    case Scanning(_, _) => LoadFree(t)
    case Found(_, _, _) => StoreOperation(t)
    case Named(_, _, _) => StoreReserved(t)
    case _ => Unlock(t)
  }

  function Turned(s: Arena, t: nat, turn: Turn): Arena {
    match turn
    case Own => if t in s.tasks then Step(s, NextStep(t, s.tasks[t])) else s
    case Other(a) => Step(s, a)
  }

  function Interleaved(s: Arena, t: nat, turns: seq<Turn>): Arena
    decreases |turns|
  {
    if turns == [] then s else Interleaved(Turned(s, t, turns[0]), t, turns[1..])
  }

  function OwnTurns(turns: seq<Turn>): nat {
    if turns == [] then 0 else (if turns[0].Own? then 1 else 0) + OwnTurns(turns[1..])
  }

  /** A reservation on the way to slot `k` or an earlier one. */
  predicate Underway(s: Arena, t: nat, operation: nat, k: nat) {
    && t in s.tasks && k < |s.slots|
    && match s.tasks[t]
       case Scanning(o, n) => o == operation && n <= k && s.slots[k].state == Free
       case Found(o, i, _) => o == operation && i <= k
       case Named(o, i, _) => o == operation && i <= k
       case _ => false
  }

  /** Own turns it still needs at most. */
  function TurnsLeft(task: Task, k: nat): nat {
    match task
    case Scanning(_, n) => if n <= k then k - n + 3 else 0
    case Found(_, _, _) => 2
    case Named(_, _, _) => 1
    case _ => 0
  }

  ghost predicate Granted(log: seq<Happening>, from: nat, operation: nat, k: nat) {
    exists j, i: nat, g: nat :: from <= j < |log| && i <= k && log[j] == WasReserved(i, g, operation)
  }

  lemma OwnTurnAdvances(s: Arena, t: nat, operation: nat, k: nat)
    requires Inv(s) && Underway(s, t, operation, k)
    ensures var u := Turned(s, t, Own);
            || Granted(u.log, |s.log|, operation, k)
            || (Underway(u, t, operation, k) && TurnsLeft(u.tasks[t], k) < TurnsLeft(s.tasks[t], k))
  {
    hide LogOk, Exclusive, SlotOk, Paired;
    assert TaskOk(s, t);
    var u := Turned(s, t, Own);
    if s.tasks[t].Named? {
      var task := s.tasks[t];
      assert u.log[|s.log|] == WasReserved(task.slot, task.generation, operation);
    }
  }

  /** While one thread scans under the lock, no other takes a free slot from it. */
  lemma OtherTurnKeeps(s: Arena, t: nat, operation: nat, k: nat, a: Action)
    requires Inv(s) && Underway(s, t, operation, k) && a.t != t
    ensures Underway(Step(s, a), t, operation, k) && Step(s, a).tasks[t] == s.tasks[t]
  {
    hide LogOk, Exclusive, SlotOk, Paired;
    assert TaskOk(s, t);
    assert a.t in s.tasks ==> TaskOk(s, a.t);
  }

  lemma {:induction false} LogOnlyGrows(s: Arena, t: nat, turns: seq<Turn>)
    ensures s.log <= Interleaved(s, t, turns).log
    decreases |turns|
  {
    if turns != [] {
      assert s.log <= Turned(s, t, turns[0]).log;
      hide Turned;
      LogOnlyGrows(Turned(s, t, turns[0]), t, turns[1..]);
    }
  }

  lemma GrantedLater(log: seq<Happening>, grown: seq<Happening>, early: nat, from: nat, operation: nat, k: nat)
    requires Granted(log, from, operation, k) && early <= from && log <= grown
    ensures Granted(grown, early, operation, k)
  {
    var j, i: nat, g: nat :| from <= j < |log| && i <= k && log[j] == WasReserved(i, g, operation);
    assert grown[j] == log[j];
  }

  /**
   A reservation that scans while slot `k` is free is granted, whatever the others do meanwhile: after at most
   one turn of its own for each slot up to `k` and two more, it has reserved slot `k` or an earlier one.
   */
  lemma {:induction false} ReservationIsGranted(s: Arena, t: nat, operation: nat, k: nat, turns: seq<Turn>)
    requires Inv(s) && Underway(s, t, operation, k)
    requires forall turn :: turn in turns && turn.Other? ==> turn.action.t != t
    requires OwnTurns(turns) >= TurnsLeft(s.tasks[t], k)
    ensures Granted(Interleaved(s, t, turns).log, |s.log|, operation, k)
    decreases |turns|
  {
    hide Inv, Step, Underway, Granted;
    assert TurnsLeft(s.tasks[t], k) > 0 by {
      assert Underway(s, t, operation, k);
      UnderwayNeedsTurns(s, t, operation, k);
    }
    var u := Turned(s, t, turns[0]);
    var last := Interleaved(s, t, turns);
    LogOnlyGrows(s, t, [turns[0]]);
    assert Interleaved(s, t, [turns[0]]) == u;
    AnyTurnKeeps(s, t, turns[0]);
    match turns[0]
    case Own =>
      OwnTurnAdvances(s, t, operation, k);
      if Granted(u.log, |s.log|, operation, k) {
        LogOnlyGrows(u, t, turns[1..]);
        GrantedLater(u.log, last.log, |s.log|, |s.log|, operation, k);
      } else {
        ReservationIsGranted(u, t, operation, k, turns[1..]);
        GrantedLater(last.log, last.log, |s.log|, |u.log|, operation, k);
      }
    case Other(a) =>
      assert turns[0] in turns;
      OtherTurnKeeps(s, t, operation, k, a);
      ReservationIsGranted(u, t, operation, k, turns[1..]);
      GrantedLater(last.log, last.log, |s.log|, |u.log|, operation, k);
  }

  lemma UnderwayNeedsTurns(s: Arena, t: nat, operation: nat, k: nat)
    requires Underway(s, t, operation, k)
    ensures t in s.tasks && TurnsLeft(s.tasks[t], k) > 0
  {
  }

  lemma AnyTurnKeeps(s: Arena, t: nat, turn: Turn)
    requires Inv(s)
    ensures Inv(Turned(s, t, turn))
  {
    hide Inv, Step;
    match turn
    case Own =>
      if t in s.tasks {
        AnyStepKeeps(s, NextStep(t, s.tasks[t]));
      }
    case Other(a) => AnyStepKeeps(s, a);
  }
}
