/**
 Completion slots shared by many threads: reservation, claim, completion and consumption as interleaved
 atomic steps (include/vita/runtime/completion/ticket.hpp). A tag is the pair of a generation and a state,
 changed as one word; memory is sequentially consistent.
 */
module CompletionArenas {
  import opened Core

  /** Largest generation that fits beside the state in a tag. */
  const MAX_GENERATION: nat := 0xFF_FFFF_FFFF_FFFF

  datatype Status = Succeeded | Failed | Cancelled | Abandoned

  datatype CompletionResult = CompletionResult(status: Status, error: ErrorCode, value: nat, effectiveNs: nat)

  const BLANK := CompletionResult(Succeeded, InvalidState, 0, 0)

  datatype Record = Record(operation: nat, result: CompletionResult)

  datatype TicketState = Free | Reserved | Writing | Ready | Reading | Retired

  datatype Slot = Slot(generation: nat, state: TicketState, operation: nat, payload: CompletionResult)

  /** A thread in the middle of a call, with what it has read so far. */
  datatype Task =
    | Scanning(operation: nat, next: nat)
    | Found(operation: nat, slot: nat, generation: nat)
    | Named(operation: nat, slot: nat, generation: nat)
    | Leaving
    | Claimed(slot: nat, generation: nat)
    | Filled(slot: nat, generation: nat, result: CompletionResult)
    | Looking(slot: nat, generation: nat)
    | Seized(slot: nat, generation: nat)
    | Holding(slot: nat, generation: nat, record: Record)
    | Cleared(slot: nat, generation: nat, record: Record)

  /** What has happened to a slot in one generation. */
  datatype Happening =
    | WasReserved(slot: nat, generation: nat, operation: nat)
    | WasClaimed(slot: nat, generation: nat, claimant: nat)
    | WasFinished(slot: nat, generation: nat, claimant: nat, result: CompletionResult)
    | WasConsumed(slot: nat, generation: nat, record: Record)

  datatype Arena = Arena(slots: seq<Slot>, tasks: map<nat, Task>, lock: Option<nat>, rejected: nat, log: seq<Happening>)

  /** One step of one thread. */
  datatype Action =
    | Lock(t: nat, operation: nat)
    | LoadFree(t: nat)
    | StoreOperation(t: nat)
    | StoreReserved(t: nat)
    | Unlock(t: nat)
    | TryClaim(t: nat, slot: nat, generation: nat)
    | StorePayload(t: nat, result: CompletionResult)
    | StoreReady(t: nat)
    | LoadReady(t: nat, slot: nat)
    | TrySeize(t: nat)
    | LoadRecord(t: nat)
    | ClearPayload(t: nat)
    | StoreFree(t: nat)

  function Initial(count: nat, generation: nat): Arena {
    var g := if generation <= MAX_GENERATION then generation else MAX_GENERATION;
    Arena(seq(count, _ => Slot(g, Free, 0, BLANK)), map[], None, 0, [])
  }

  function SetTag(s: Arena, i: nat, generation: nat, state: TicketState): Arena
    requires i < |s.slots|
  {
    s.(slots := s.slots[i := s.slots[i].(generation := generation, state := state)])
  }

  function Becomes(s: Arena, t: nat, task: Task): Arena {
    s.(tasks := s.tasks[t := task])
  }

  function Ends(s: Arena, t: nat): Arena {
    s.(tasks := s.tasks - {t})
  }

  function Logs(s: Arena, h: Happening): Arena {
    s.(log := s.log + [h])
  }

  predicate At(s: Arena, slot: nat, generation: nat, state: TicketState) {
    slot < |s.slots| && s.slots[slot].generation == generation && s.slots[slot].state == state
  }

  /** The step of an action; an action whose thread is elsewhere does nothing. */
  function Step(s: Arena, a: Action): Arena {
    match a
    case Lock(t, operation) =>
      if t !in s.tasks && s.lock.None? then Becomes(s.(lock := Some(t)), t, Scanning(operation, 0)) else s
    case LoadFree(t) =>
      if t in s.tasks && s.tasks[t].Scanning? then
        var task := s.tasks[t];
        if task.next >= |s.slots| then Becomes(s, t, Leaving)
        else if s.slots[task.next].state != Free then Becomes(s, t, task.(next := task.next + 1))
        else Becomes(s, t, Found(task.operation, task.next, s.slots[task.next].generation))
      else s
    case StoreOperation(t) =>
      if t in s.tasks && s.tasks[t].Found? && s.tasks[t].slot < |s.slots| then
        var task := s.tasks[t];
        Becomes(s.(slots := s.slots[task.slot := s.slots[task.slot].(operation := task.operation)]), t,
                Named(task.operation, task.slot, task.generation))
      else s
    case StoreReserved(t) =>
      if t in s.tasks && s.tasks[t].Named? && s.tasks[t].slot < |s.slots| then
        var task := s.tasks[t];
        Logs(Becomes(SetTag(s, task.slot, task.generation, Reserved), t, Leaving),
             WasReserved(task.slot, task.generation, task.operation))
      else s
    case Unlock(t) =>
      if t in s.tasks && s.tasks[t].Leaving? then Ends(s.(lock := None), t) else s
    case TryClaim(t, slot, generation) =>
      if t in s.tasks || slot >= |s.slots| then s
      else if At(s, slot, generation, Reserved) then
        Logs(Becomes(SetTag(s, slot, generation, Writing), t, Claimed(slot, generation)),
             WasClaimed(slot, generation, t))
      else s.(rejected := s.rejected + 1)
    case StorePayload(t, result) =>
      if t in s.tasks && s.tasks[t].Claimed? && s.tasks[t].slot < |s.slots| then
        var task := s.tasks[t];
        Becomes(s.(slots := s.slots[task.slot := s.slots[task.slot].(payload := result)]), t,
                Filled(task.slot, task.generation, result))
      else s
    case StoreReady(t) =>
      if t in s.tasks && s.tasks[t].Filled? && s.tasks[t].slot < |s.slots| then
        var task := s.tasks[t];
        Logs(Ends(SetTag(s, task.slot, task.generation, Ready), t),
             WasFinished(task.slot, task.generation, t, task.result))
      else s
    case LoadReady(t, slot) =>
      if t !in s.tasks && slot < |s.slots| && s.slots[slot].state == Ready then
        Becomes(s, t, Looking(slot, s.slots[slot].generation))
      else s
    case TrySeize(t) =>
      if t in s.tasks && s.tasks[t].Looking? then
        var task := s.tasks[t];
        if At(s, task.slot, task.generation, Ready) then
          Becomes(SetTag(s, task.slot, task.generation, Reading), t, Seized(task.slot, task.generation))
        else Ends(s, t)
      else s
    case LoadRecord(t) =>
      if t in s.tasks && s.tasks[t].Seized? && s.tasks[t].slot < |s.slots| then
        var task := s.tasks[t];
        Becomes(s, t, Holding(task.slot, task.generation,
                              Record(s.slots[task.slot].operation, s.slots[task.slot].payload)))
      else s
    case ClearPayload(t) =>
      if t in s.tasks && s.tasks[t].Holding? && s.tasks[t].slot < |s.slots| then
        var task := s.tasks[t];
        Becomes(s.(slots := s.slots[task.slot := s.slots[task.slot].(payload := BLANK)]), t,
                Cleared(task.slot, task.generation, task.record))
      else s
    case StoreFree(t) =>
      if t in s.tasks && s.tasks[t].Cleared? && s.tasks[t].slot < |s.slots| then
        var task := s.tasks[t];
        var freed := if task.generation == MAX_GENERATION then SetTag(s, task.slot, task.generation, Retired)
                     else SetTag(s, task.slot, task.generation + 1, Free);
        Logs(Ends(freed, t), WasConsumed(task.slot, task.generation, task.record))
      else s
  }

  function Run(s: Arena, actions: seq<Action>): Arena
    decreases |actions|
  {
    if actions == [] then s else Run(Step(s, actions[0]), actions[1..])
  }

  // ----- What a log promises -----

  function Phase(h: Happening): nat {
    match h
    case WasReserved(_, _, _) => 1
    case WasClaimed(_, _, _) => 2
    case WasFinished(_, _, _, _) => 3
    case WasConsumed(_, _, _) => 4
  }

  /** Place of a happening in the life of its slot: by generation, then by phase. */
  function Key(h: Happening): nat { 5 * h.generation + Phase(h) }

  /**
   In each slot happenings come in strict order of generation and phase. So each generation is reserved,
   claimed, finished and consumed at most once each, in that order, and never after a later generation began.
   */
  ghost predicate Advancing(log: seq<Happening>) {
    forall i, j :: 0 <= i < j < |log| && log[i].slot == log[j].slot ==> Key(log[i]) < Key(log[j])
  }

  /** A record is the operation reserved in its generation with the result of the one who claimed it. */
  ghost predicate Paired(log: seq<Happening>, slot: nat, generation: nat, record: Record) {
    && WasReserved(slot, generation, record.operation) in log
    && exists claimant :: WasClaimed(slot, generation, claimant) in log
         && WasFinished(slot, generation, claimant, record.result) in log
  }

  ghost predicate AllPaired(log: seq<Happening>) {
    forall h :: h in log && h.WasConsumed? ==> Paired(log, h.slot, h.generation, h.record)
  }

  // ----- Invariant -----

  /** How far the life of a slot has come, on the scale of `Key`. */
  function Level(slot: Slot): nat {
    5 * slot.generation +
    match slot.state
    case Free => 0
    case Reserved => 1
    case Writing => 2
    case Ready => 3
    case Reading => 3
    case Retired => 4
  }

  ghost predicate LogOk(s: Arena) {
    && (forall h :: h in s.log ==> h.slot < |s.slots| && Key(h) <= Level(s.slots[h.slot]))
    && Advancing(s.log) && AllPaired(s.log)
  }

  /** A slot in use has its reservation on record, and while readable its result. */
  ghost predicate SlotOk(s: Arena, i: nat)
    requires i < |s.slots|
  {
    var slot := s.slots[i];
    && slot.generation <= MAX_GENERATION
    && (slot.state == Retired ==> slot.generation == MAX_GENERATION)
    && (slot.state in {Reserved, Writing, Ready, Reading} ==> WasReserved(i, slot.generation, slot.operation) in s.log)
    && (slot.state == Ready ==> Paired(s.log, i, slot.generation, Record(slot.operation, slot.payload)))
  }

  predicate Writes(task: Task) { task.Claimed? || task.Filled? }
  predicate Reads(task: Task) { task.Seized? || task.Holding? || task.Cleared? }
  predicate Allocates(task: Task) { task.Scanning? || task.Found? || task.Named? || task.Leaving? }

  ghost predicate TaskOk(s: Arena, t: nat)
    requires t in s.tasks
  {
    var task := s.tasks[t];
    && (Allocates(task) ==> s.lock == Some(t))
    && (task.Found? || task.Named? ==> At(s, task.slot, task.generation, Free))
    && (task.Named? ==> s.slots[task.slot].operation == task.operation)
    && (Writes(task) ==> At(s, task.slot, task.generation, Writing)
                         && WasClaimed(task.slot, task.generation, t) in s.log)
    && (task.Filled? ==> s.slots[task.slot].payload == task.result)
    && (Reads(task) ==> At(s, task.slot, task.generation, Reading))
    && (task.Seized? ==>
          Paired(s.log, task.slot, task.generation, Record(s.slots[task.slot].operation, s.slots[task.slot].payload)))
    && (task.Holding? || task.Cleared? ==> Paired(s.log, task.slot, task.generation, task.record))
  }

  /** No two threads write, or read, one slot. */
  ghost predicate Exclusive(s: Arena) {
    forall t, u :: t in s.tasks && u in s.tasks && t != u ==> Apart(s.tasks[t], s.tasks[u])
  }

  predicate Apart(a: Task, b: Task) {
    (Writes(a) && Writes(b)) || (Reads(a) && Reads(b)) ==> a.slot != b.slot
  }

  ghost predicate Inv(s: Arena) {
    && LogOk(s) && Exclusive(s)
    && (forall i :: 0 <= i < |s.slots| ==> SlotOk(s, i))
    && (forall t :: t in s.tasks ==> TaskOk(s, t))
  }

  lemma InitialInv(count: nat, generation: nat)
    ensures Inv(Initial(count, generation))
  {
  }

  // ----- Growing the log -----

  lemma AppendKeeps(log: seq<Happening>, h: Happening)
    requires Advancing(log) && forall e :: e in log && e.slot == h.slot ==> Key(e) < Key(h)
    requires AllPaired(log) && (h.WasConsumed? ==> Paired(log, h.slot, h.generation, h.record))
    ensures Advancing(log + [h]) && AllPaired(log + [h])
  {
    hide Key;
    var grown := log + [h];
    forall e | e in grown && e.WasConsumed?
      ensures Paired(grown, e.slot, e.generation, e.record)
    {
      assert e in log || e == h;
      PairedGrows(log, h, e.slot, e.generation, e.record);
    }
  }

  lemma PairedGrows(log: seq<Happening>, h: Happening, slot: nat, generation: nat, record: Record)
    requires Paired(log, slot, generation, record)
    ensures Paired(log + [h], slot, generation, record)
  {
    var claimant :| WasClaimed(slot, generation, claimant) in log
      && WasFinished(slot, generation, claimant, record.result) in log;
    assert WasClaimed(slot, generation, claimant) in log + [h];
  }

  // ----- Every step keeps the invariant -----

  /** Only thread `t` differs among the threads. */
  ghost predicate OthersKeep(s: Arena, u: Arena, t: nat) {
    forall v :: v != t ==> (v in u.tasks <==> v in s.tasks) && (v in s.tasks ==> u.tasks[v] == s.tasks[v])
  }

  predicate Touches(task: Task, i: nat) {
    (task.Found? || task.Named? || Writes(task) || Reads(task)) && task.slot == i
  }

  /** No other thread is at work on the slot. */
  ghost predicate Undisturbed(s: Arena, t: nat, i: nat) {
    forall v :: v in s.tasks && v != t ==> !Touches(s.tasks[v], i)
  }

  lemma OwnerUndisturbed(s: Arena, t: nat, i: nat)
    requires Inv(s) && t in s.tasks && Touches(s.tasks[t], i)
    ensures Undisturbed(s, t, i)
  {
    hide Paired, LogOk;
    forall v | v in s.tasks && v != t
      ensures !Touches(s.tasks[v], i)
    {
      assert TaskOk(s, t) && TaskOk(s, v);
      assert Apart(s.tasks[t], s.tasks[v]);
    }
  }

  lemma UnownedUndisturbed(s: Arena, t: nat, i: nat)
    requires Inv(s) && i < |s.slots| && s.slots[i].state in {Reserved, Ready}
    ensures Undisturbed(s, t, i)
  {
    hide Paired, LogOk;
    forall v | v in s.tasks && v != t
      ensures !Touches(s.tasks[v], i)
    {
      assert TaskOk(s, v);
    }
  }

  /** Other threads do not notice work on a slot they are not at. */
  lemma OtherTaskKept(s: Arena, u: Arena, t: nat, i: nat, v: nat)
    requires Inv(s) && v in s.tasks && v != t && OthersKeep(s, u, t) && !Touches(s.tasks[v], i)
    requires |u.slots| == |s.slots| && u.lock == s.lock
    requires forall j :: 0 <= j < |s.slots| && j != i ==> u.slots[j] == s.slots[j]
    requires u.log == s.log || exists h :: u.log == s.log + [h]
    ensures TaskOk(u, v)
  {
    hide LogOk, Exclusive, SlotOk;
    assert TaskOk(s, v);
    var task := s.tasks[v];
    if u.log != s.log {
      var h :| u.log == s.log + [h];
      if task.Seized? {
        PairedGrows(s.log, h, task.slot, task.generation,
                    Record(s.slots[task.slot].operation, s.slots[task.slot].payload));
      } else if task.Holding? || task.Cleared? {
        PairedGrows(s.log, h, task.slot, task.generation, task.record);
      }
    }
  }

  lemma OtherSlotKept(s: Arena, u: Arena, i: nat, j: nat)
    requires j < |s.slots| && SlotOk(s, j) && j != i && |u.slots| == |s.slots| && u.slots[j] == s.slots[j]
    requires u.log == s.log || exists h :: u.log == s.log + [h]
    ensures SlotOk(u, j)
  {
    hide Paired;
    if u.log != s.log && s.slots[j].state == Ready {
      var h :| u.log == s.log + [h];
      PairedGrows(s.log, h, j, s.slots[j].generation, Record(s.slots[j].operation, s.slots[j].payload));
    }
  }

  /** A happening beyond the level of its slot extends the log. */
  lemma LogGrows(s: Arena, u: Arena, i: nat, h: Happening)
    requires LogOk(s) && i < |s.slots| == |u.slots| && h.slot == i && u.log == s.log + [h]
    requires forall j :: 0 <= j < |s.slots| && j != i ==> u.slots[j] == s.slots[j]
    requires Level(s.slots[i]) < Key(h) <= Level(u.slots[i])
    requires h.WasConsumed? ==> Paired(s.log, i, h.generation, h.record)
    ensures LogOk(u)
  {
    hide Paired, Key, Level;
    AppendKeeps(s.log, h);
    hide Advancing, AllPaired;
  }

  lemma LogStays(s: Arena, u: Arena)
    requires LogOk(s) && |s.slots| == |u.slots| && u.log == s.log
    requires forall j :: 0 <= j < |s.slots| ==> Level(s.slots[j]) <= Level(u.slots[j])
    ensures LogOk(u)
  {
    hide Paired, Key, Level, Advancing, AllPaired;
    forall h | h in u.log
      ensures h.slot < |u.slots| && Key(h) <= Level(u.slots[h.slot])
    {
    }
  }

  lemma ExclusiveKept(s: Arena, u: Arena, t: nat, i: nat)
    requires Exclusive(s) && OthersKeep(s, u, t) && Undisturbed(s, t, i)
    requires t in u.tasks && (Writes(u.tasks[t]) || Reads(u.tasks[t])) ==> u.tasks[t].slot == i
    ensures Exclusive(u)
  {
    forall v, w | v in u.tasks && w in u.tasks && v != w
      ensures Apart(u.tasks[v], u.tasks[w])
    {
      if v != t && w != t {
        assert Apart(s.tasks[v], s.tasks[w]);
      }
    }
  }

  /** A step of thread `t` on slot `i` alone. */
  lemma StepKeeps(s: Arena, u: Arena, t: nat, i: nat, h: Option<Happening>)
    requires Inv(s) && i < |s.slots| == |u.slots| && Undisturbed(s, t, i) && OthersKeep(s, u, t) && u.lock == s.lock
    requires forall j :: 0 <= j < |s.slots| && j != i ==> u.slots[j] == s.slots[j]
    requires Level(s.slots[i]) <= Level(u.slots[i])
    requires match h
             case None => u.log == s.log
             case Some(e) =>
               && u.log == s.log + [e] && e.slot == i && Level(s.slots[i]) < Key(e) <= Level(u.slots[i])
               && (e.WasConsumed? ==> Paired(s.log, i, e.generation, e.record))
    requires SlotOk(u, i) && (t in u.tasks ==> TaskOk(u, t))
    requires t in u.tasks && (Writes(u.tasks[t]) || Reads(u.tasks[t])) ==> u.tasks[t].slot == i
    ensures Inv(u)
  {
    hide Paired, Key, Level, LogOk, Exclusive, SlotOk, TaskOk, Undisturbed;
    ExclusiveKept(s, u, t, i);
    if h.Some? {
      LogGrows(s, u, i, h.value);
    } else {
      LogStays(s, u);
    }
    forall j | 0 <= j < |u.slots| && j != i
      ensures SlotOk(u, j)
    {
      OtherSlotKept(s, u, i, j);
    }
    forall v | v in u.tasks && v != t
      ensures TaskOk(u, v)
    {
      NotTouching(s, t, i, v);
      OtherTaskKept(s, u, t, i, v);
    }
  }

  lemma NotTouching(s: Arena, t: nat, i: nat, v: nat)
    requires Undisturbed(s, t, i) && v in s.tasks && v != t
    ensures !Touches(s.tasks[v], i)
  {
  }

  /** A step that changes only the thread itself and perhaps the lock. */
  lemma TaskStepKeeps(s: Arena, u: Arena, t: nat)
    requires Inv(s) && u.slots == s.slots && u.log == s.log && OthersKeep(s, u, t)
    requires u.lock == s.lock || s.lock.None? || s.lock == Some(t)
    requires t in u.tasks ==> TaskOk(u, t)
    requires t in u.tasks ==> !Writes(u.tasks[t])
    requires t in u.tasks && Reads(u.tasks[t]) ==>
               t in s.tasks && Reads(s.tasks[t]) && s.tasks[t].slot == u.tasks[t].slot
    ensures Inv(u)
  {
    hide Paired, Key, Level, LogOk;
    LogStays(s, u);
    forall v, w | v in u.tasks && w in u.tasks && v != w
      ensures Apart(u.tasks[v], u.tasks[w])
    {
      if v in s.tasks && w in s.tasks {
        assert Apart(s.tasks[v], s.tasks[w]);
      }
    }
    forall v | v in u.tasks && v != t
      ensures TaskOk(u, v)
    {
      assert TaskOk(s, v);
    }
    forall j | 0 <= j < |u.slots|
      ensures SlotOk(u, j)
    {
      assert SlotOk(s, j);
    }
  }

  lemma AllocationKeeps(s: Arena, a: Action)
    requires Inv(s) && (a.Lock? || a.LoadFree? || a.Unlock?)
    ensures Inv(Step(s, a))
  {
    hide Paired, LogOk, Exclusive, SlotOk;
    if Step(s, a) != s {
      assert a.t in s.tasks ==> TaskOk(s, a.t);
      TaskStepKeeps(s, Step(s, a), a.t);
    }
  }

  lemma StoreOperationKeeps(s: Arena, t: nat)
    requires Inv(s) && t in s.tasks && s.tasks[t].Found?
    ensures Inv(Step(s, StoreOperation(t)))
  {
    hide Paired, LogOk, Exclusive;
    var task := s.tasks[t];
    assert TaskOk(s, t) && SlotOk(s, task.slot);
    OwnerUndisturbed(s, t, task.slot);
    StepKeeps(s, Step(s, StoreOperation(t)), t, task.slot, None);
  }

  lemma StoreReservedKeeps(s: Arena, t: nat)
    requires Inv(s) && t in s.tasks && s.tasks[t].Named?
    ensures Inv(Step(s, StoreReserved(t)))
  {
    hide Paired, LogOk, Exclusive;
    var task := s.tasks[t];
    assert TaskOk(s, t) && SlotOk(s, task.slot);
    OwnerUndisturbed(s, t, task.slot);
    StepKeeps(s, Step(s, StoreReserved(t)), t, task.slot,
              Some(WasReserved(task.slot, task.generation, task.operation)));
  }

  lemma TryClaimKeeps(s: Arena, t: nat, slot: nat, generation: nat)
    requires Inv(s) && t !in s.tasks && At(s, slot, generation, Reserved)
    ensures Inv(Step(s, TryClaim(t, slot, generation)))
  {
    hide Paired, LogOk, Exclusive;
    assert SlotOk(s, slot);
    UnownedUndisturbed(s, t, slot);
    StepKeeps(s, Step(s, TryClaim(t, slot, generation)), t, slot, Some(WasClaimed(slot, generation, t)));
  }

  lemma RejectKeeps(s: Arena)
    requires Inv(s)
    ensures Inv(s.(rejected := s.rejected + 1))
  {
    hide Paired, Key, Level, Advancing, AllPaired;
    var u := s.(rejected := s.rejected + 1);
    forall t | t in u.tasks
      ensures TaskOk(u, t)
    {
      assert TaskOk(s, t);
    }
    forall j | 0 <= j < |u.slots|
      ensures SlotOk(u, j)
    {
      assert SlotOk(s, j);
    }
  }

  lemma StorePayloadKeeps(s: Arena, t: nat, result: CompletionResult)
    requires Inv(s) && t in s.tasks && s.tasks[t].Claimed?
    ensures Inv(Step(s, StorePayload(t, result)))
  {
    hide Paired, LogOk, Exclusive;
    var task := s.tasks[t];
    assert TaskOk(s, t) && SlotOk(s, task.slot);
    OwnerUndisturbed(s, t, task.slot);
    StepKeeps(s, Step(s, StorePayload(t, result)), t, task.slot, None);
  }

  /** Finishing completes the pair: the operation of the reservation and the claimant's own result. */
  lemma StoreReadyKeeps(s: Arena, t: nat)
    requires Inv(s) && t in s.tasks && s.tasks[t].Filled?
    ensures Inv(Step(s, StoreReady(t)))
  {
    hide LogOk, Exclusive;
    var task := s.tasks[t];
    assert TaskOk(s, t) && SlotOk(s, task.slot);
    OwnerUndisturbed(s, t, task.slot);
    var h := WasFinished(task.slot, task.generation, t, task.result);
    var log := s.log + [h];
    assert h in log && WasClaimed(task.slot, task.generation, t) in log;
    assert Paired(log, task.slot, task.generation, Record(s.slots[task.slot].operation, task.result));
    StepKeeps(s, Step(s, StoreReady(t)), t, task.slot, Some(h));
  }

  lemma LoadReadyKeeps(s: Arena, t: nat, slot: nat)
    requires Inv(s)
    ensures Inv(Step(s, LoadReady(t, slot)))
  {
    hide Paired, LogOk, Exclusive, SlotOk;
    if Step(s, LoadReady(t, slot)) != s {
      TaskStepKeeps(s, Step(s, LoadReady(t, slot)), t);
    }
  }

  lemma TrySeizeKeeps(s: Arena, t: nat)
    requires Inv(s) && t in s.tasks && s.tasks[t].Looking?
    ensures Inv(Step(s, TrySeize(t)))
  {
    hide Paired, LogOk, Exclusive;
    var task := s.tasks[t];
    if At(s, task.slot, task.generation, Ready) {
      assert SlotOk(s, task.slot);
      UnownedUndisturbed(s, t, task.slot);
      StepKeeps(s, Step(s, TrySeize(t)), t, task.slot, None);
    } else {
      TaskStepKeeps(s, Step(s, TrySeize(t)), t);
    }
  }

  lemma LoadRecordKeeps(s: Arena, t: nat)
    requires Inv(s) && t in s.tasks && s.tasks[t].Seized?
    ensures Inv(Step(s, LoadRecord(t)))
  {
    hide Paired, LogOk, Exclusive, SlotOk;
    assert TaskOk(s, t);
    TaskStepKeeps(s, Step(s, LoadRecord(t)), t);
  }

  lemma ClearPayloadKeeps(s: Arena, t: nat)
    requires Inv(s) && t in s.tasks && s.tasks[t].Holding?
    ensures Inv(Step(s, ClearPayload(t)))
  {
    hide Paired, LogOk, Exclusive;
    var task := s.tasks[t];
    assert TaskOk(s, t) && SlotOk(s, task.slot);
    OwnerUndisturbed(s, t, task.slot);
    StepKeeps(s, Step(s, ClearPayload(t)), t, task.slot, None);
  }

  lemma StoreFreeKeeps(s: Arena, t: nat)
    requires Inv(s) && t in s.tasks && s.tasks[t].Cleared?
    ensures Inv(Step(s, StoreFree(t)))
  {
    hide Paired, LogOk, Exclusive;
    var task := s.tasks[t];
    assert TaskOk(s, t) && SlotOk(s, task.slot);
    OwnerUndisturbed(s, t, task.slot);
    StepKeeps(s, Step(s, StoreFree(t)), t, task.slot, Some(WasConsumed(task.slot, task.generation, task.record)));
  }

  lemma AnyStepKeeps(s: Arena, a: Action)
    requires Inv(s)
    ensures Inv(Step(s, a))
  {
    hide Inv;
    if Step(s, a) == s {
      return;
    }
    match a
    case Lock(_, _) => AllocationKeeps(s, a);
    case LoadFree(_) => AllocationKeeps(s, a);
    case Unlock(_) => AllocationKeeps(s, a);
    case StoreOperation(t) => StoreOperationKeeps(s, t);
    case StoreReserved(t) => StoreReservedKeeps(s, t);
    case TryClaim(t, slot, generation) =>
      if At(s, slot, generation, Reserved) {
        TryClaimKeeps(s, t, slot, generation);
      } else {
        RejectKeeps(s);
      }
    case StorePayload(t, result) => StorePayloadKeeps(s, t, result);
    case StoreReady(t) => StoreReadyKeeps(s, t);
    case LoadReady(t, slot) => LoadReadyKeeps(s, t, slot);
    case TrySeize(t) => TrySeizeKeeps(s, t);
    case LoadRecord(t) => LoadRecordKeeps(s, t);
    case ClearPayload(t) => ClearPayloadKeeps(s, t);
    case StoreFree(t) => StoreFreeKeeps(s, t);
  }

  lemma {:induction false} RunKeeps(s: Arena, actions: seq<Action>)
    requires Inv(s)
    ensures Inv(Run(s, actions))
    decreases |actions|
  {
    hide Inv, Step;
    if actions != [] {
      AnyStepKeeps(s, actions[0]);
      RunKeeps(Step(s, actions[0]), actions[1..]);
    }
  }

  // ----- Main results -----

  /**
   Every interleaving from a fresh arena: each generation of a slot is reserved, claimed, finished and
   consumed at most once, in that order and before the next generation; and every record consumed pairs the
   operation reserved in its generation with the result of its one claimant.
   */
  lemma EveryRunIsSafe(count: nat, generation: nat, actions: seq<Action>)
    ensures Advancing(Run(Initial(count, generation), actions).log)
    ensures AllPaired(Run(Initial(count, generation), actions).log)
  {
    hide Run, Advancing, AllPaired;
    InitialInv(count, generation);
    RunKeeps(Initial(count, generation), actions);
  }

  /** Order by key makes happenings of one slot, generation and phase unique. */
  lemma AtMostOnce(log: seq<Happening>, i: nat, j: nat)
    requires Advancing(log) && i < |log| && j < |log|
    requires log[i].slot == log[j].slot && log[i].generation == log[j].generation && Phase(log[i]) == Phase(log[j])
    ensures i == j
  {
  }

  /** Happenings of one slot stand in the order of their keys. */
  lemma Earlier(log: seq<Happening>, i: nat, j: nat)
    requires Advancing(log) && i < |log| && j < |log| && log[i].slot == log[j].slot && Key(log[i]) < Key(log[j])
    ensures i < j
  {
  }

  /** The pairs of a consumed record come in order and are the only ones of their generation. */
  lemma ConsumedAfterItsPair(log: seq<Happening>, k: nat) returns (r: nat, c: nat, f: nat)
    requires Advancing(log) && AllPaired(log) && k < |log| && log[k].WasConsumed?
    ensures r < c < f < k
    ensures log[r] == WasReserved(log[k].slot, log[k].generation, log[k].record.operation)
    ensures log[c].WasClaimed? && log[f].WasFinished? && log[c].claimant == log[f].claimant
    ensures log[f].result == log[k].record.result
    ensures log[c].slot == log[f].slot == log[k].slot && log[c].generation == log[f].generation == log[k].generation
  {
    hide Advancing;
    var h := log[k];
    assert h in log;
    assert Paired(log, h.slot, h.generation, h.record);
    var claimant :| WasClaimed(h.slot, h.generation, claimant) in log
                    && WasFinished(h.slot, h.generation, claimant, h.record.result) in log;
    r :| 0 <= r < |log| && log[r] == WasReserved(h.slot, h.generation, h.record.operation);
    c :| 0 <= c < |log| && log[c] == WasClaimed(h.slot, h.generation, claimant);
    f :| 0 <= f < |log| && log[f] == WasFinished(h.slot, h.generation, claimant, h.record.result);
    Earlier(log, r, c);
    Earlier(log, c, f);
    Earlier(log, f, k);
  }

  lemma StepAdvances(s: Arena, a: Action, i: nat)
    requires Inv(s) && i < |s.slots|
    ensures i < |Step(s, a).slots| && Level(s.slots[i]) <= Level(Step(s, a).slots[i])
    ensures s.slots[i].state == Retired ==> Step(s, a).slots[i] == s.slots[i]
  {
    hide Paired, LogOk, Exclusive;
    assert forall t :: t in s.tasks ==> TaskOk(s, t);
  }

  /** No slot goes back in its life, whoever acts; a retired one never changes again. */
  lemma {:induction false} SlotsNeverGoBack(s: Arena, actions: seq<Action>, i: nat)
    requires Inv(s) && i < |s.slots|
    ensures i < |Run(s, actions).slots| && Level(s.slots[i]) <= Level(Run(s, actions).slots[i])
    ensures s.slots[i].state == Retired ==> Run(s, actions).slots[i] == s.slots[i]
    decreases |actions|
  {
    hide Inv, Step, Level;
    if actions != [] {
      AnyStepKeeps(s, actions[0]);
      StepAdvances(s, actions[0], i);
      SlotsNeverGoBack(Step(s, actions[0]), actions[1..], i);
    }
  }

  lemma StepLogs(s: Arena, a: Action, i: nat)
    requires Inv(s) && i < |s.slots|
    ensures s.log <= Step(s, a).log
    ensures forall k :: |s.log| <= k < |Step(s, a).log| && Step(s, a).log[k].slot == i ==>
              Step(s, a).log[k].generation >= s.slots[i].generation
  {
    hide Paired, LogOk, Exclusive, SlotOk;
    assert forall t :: t in s.tasks ==> TaskOk(s, t);
  }

  /**
   A publisher of an earlier generation is powerless: whatever happens from here on, nothing more is ever
   claimed, finished or consumed in a slot for a generation that is over.
   */
  lemma {:induction false} StalePublisherIsPowerless(s: Arena, actions: seq<Action>, i: nat)
    requires Inv(s) && i < |s.slots|
    ensures s.log <= Run(s, actions).log
    ensures forall k :: |s.log| <= k < |Run(s, actions).log| && Run(s, actions).log[k].slot == i ==>
              Run(s, actions).log[k].generation >= s.slots[i].generation
    decreases |actions|
  {
    hide Inv, Step;
    if actions != [] {
      var t := Step(s, actions[0]);
      AnyStepKeeps(s, actions[0]);
      StepAdvances(s, actions[0], i);
      StepLogs(s, actions[0], i);
      StalePublisherIsPowerless(t, actions[1..], i);
      var log := Run(s, actions).log;
      forall k | |s.log| <= k < |log| && log[k].slot == i
        ensures log[k].generation >= s.slots[i].generation
      {
        if k < |t.log| {
          assert log[k] == t.log[k];
        }
      }
    }
  }
}
