/**
 The receiver that pairs Data with Context, holding packets until their Context arrives
 (include/vita/runtime/context/receiver.hpp, ContextReceiver; include/vita/memory/envelope.hpp, RetentionQuota).
 */
module ContextReceivers {
  import opened Core
  import opened Time
  import opened ContextState
  import opened ReceiverHistories
  import opened HistoryExpiry
  import opened ContextTraces
  import opened Slots

  const PATIENCE_NS: nat := 10_000_000

  datatype Pending = Pending(packet: Packet, sample: ProtocolTime, arrival: nat)

  /** A bounded number of retained packets. */
  class RetentionQuota {
    const limit: nat
    var active: nat
    var enabled: bool

    constructor (limit: nat)
      ensures this.limit == limit && active == 0 && enabled
    {
      this.limit, active, enabled := limit, 0, true;
    }

    method Take() returns (ok: bool)
      modifies this`active
      ensures ok == (enabled && old(active) < limit)
      ensures active == old(active) + if ok then 1 else 0
    {
      ok := enabled && active < limit;
      if ok {
        active := active + 1;
      }
    }

    method Release()
      requires active > 0
      modifies this`active
      ensures active == old(active) - 1
    {
      active := active - 1;
    }
  }

  predicate Deliverable(m: Metadata) {
    m.confidence == Certain && m.validData
  }

  predicate Aged(p: Pending, now: nat) {
    now >= p.arrival && now - p.arrival >= PATIENCE_NS
  }

  function Forgotten(f: Field): Field {
    if f.Known? then Unknown else f
  }

  /** Metadata shown without certainty: nothing is known but a fixed payload format. */
  function Masked(m: Metadata, format: SemanticValue): Metadata {
    var s := m.state;
    m.(state := Snapshot(s.profile, Forgotten(s.referencePoint), Forgotten(s.sampleRate),
                         if s.events.validity == IsKnown then s.events.(validity := IsUnknown) else s.events,
                         Known(format), Forgotten(s.frequency), Forgotten(s.bandwidth), Forgotten(s.gain),
                         Forgotten(s.discrete)))
  }

  // ----- The waiting packets -----

  ghost function PacketOf(x: Option<Pending>): multiset<Packet> {
    if x.Some? then multiset{x.value.packet} else multiset{}
  }

  ghost function Packets(w: seq<Option<Pending>>): multiset<Packet> {
    if w == [] then multiset{} else Packets(w[..|w| - 1]) + PacketOf(w[|w| - 1])
  }

  datatype Fate = Stays | IsDelivered | IsDropped

  /** What one turn does with a waiting packet. */
  ghost function FateOf(p: Pending, contents: seq<Entry>, now: nat): Fate {
    if Aged(p, now) then IsDropped
    else if Deliverable(Resolved(contents, p.sample, now)) then IsDelivered
    else Stays
  }

  /** What became of a packet: shown with metadata, or lost with the confidence it had. */
  datatype Outcome = Shown(packet: Packet, metadata: Metadata) | Lost(packet: Packet, confidence: Confidence)

  /** What one turn reports of a place: after ten milliseconds a packet is lost, a certain answer delivers it. */
  ghost function OutcomeOf(x: Option<Pending>, contents: seq<Entry>, now: nat): seq<Outcome> {
    if x.None? then []
    else
      var p := x.value;
      var m := Resolved(contents, p.sample, now);
      if now >= p.arrival + 10_000_000 then [Lost(p.packet, m.confidence)]
      else if m.confidence == Certain && m.validData then [Shown(p.packet, m)]
      else []
  }

  ghost function Outcomes(w: seq<Option<Pending>>, contents: seq<Entry>, now: nat): seq<Outcome> {
    if w == [] then [] else Outcomes(w[..|w| - 1], contents, now) + OutcomeOf(w[|w| - 1], contents, now)
  }

  lemma OutcomesStep(w: seq<Option<Pending>>, i: nat, contents: seq<Entry>, now: nat, before: seq<Outcome>)
    requires i < |w|
    ensures before + Outcomes(w[..i], contents, now) + OutcomeOf(w[i], contents, now) ==
            before + Outcomes(w[..i + 1], contents, now)
  {
    hide OutcomeOf;
    assert w[..i + 1][..i] == w[..i];
  }

  ghost function Left(x: Option<Pending>, contents: seq<Entry>, now: nat): Option<Pending> {
    if x.Some? && FateOf(x.value, contents, now) == Stays then x else None
  }

  ghost function Fated(w: seq<Option<Pending>>, contents: seq<Entry>, now: nat, fate: Fate): multiset<Packet> {
    if w == [] then multiset{}
    else Fated(w[..|w| - 1], contents, now, fate) + Share(w[|w| - 1], contents, now, fate)
  }

  ghost function Share(x: Option<Pending>, contents: seq<Entry>, now: nat, fate: Fate): multiset<Packet> {
    if x.Some? && FateOf(x.value, contents, now) == fate then multiset{x.value.packet} else multiset{}
  }

  /** The fate, as the tests of one turn decide it. */
  lemma FateIs(p: Pending, contents: seq<Entry>, now: nat, m: Metadata)
    requires m == Resolved(contents, p.sample, now)
    ensures var fate := if Aged(p, now) then IsDropped else if Deliverable(m) then IsDelivered else Stays;
            && Left(Some(p), contents, now) == (if fate == Stays then Some(p) else None)
            && (forall f :: Share(Some(p), contents, now, f) == if f == fate then multiset{p.packet} else multiset{})
            && OutcomeOf(Some(p), contents, now) ==
               match fate
               case Stays => []
               case IsDelivered => [Shown(p.packet, m)]
               case IsDropped => [Lost(p.packet, m.confidence)]
  {
    hide Resolved;
  }

  lemma FatedStep(w: seq<Option<Pending>>, i: nat, contents: seq<Entry>, now: nat, fate: Fate, before: multiset<Packet>)
    requires i < |w|
    ensures before + Fated(w[..i], contents, now, fate) + Share(w[i], contents, now, fate) ==
              before + Fated(w[..i + 1], contents, now, fate)
  {
    hide Share;
    assert w[..i + 1][..i] == w[..i];
  }

  lemma FatedNone(contents: seq<Entry>, now: nat)
    ensures forall fate :: Fated([], contents, now, fate) == multiset{}
    ensures Outcomes([], contents, now) == []
  {
  }

  lemma NothingShared(contents: seq<Entry>, now: nat)
    ensures Left(None, contents, now).None? && OutcomeOf(None, contents, now) == []
    ensures forall fate :: Share(None, contents, now, fate) == multiset{}
  {
  }

  lemma NotAged(x: Option<Pending>, contents: seq<Entry>, now: nat)
    ensures Left(x, contents, now).Some? ==> now < Left(x, contents, now).value.arrival + 10_000_000
  {
    hide Resolved;
  }

  lemma Regroup(rest: multiset<Packet>, a: multiset<Packet>, last: multiset<Packet>)
    ensures rest + a + last == rest + last + a
  {
  }

  /** Replacing one place replaces just its packet. */
  lemma {:induction false} PacketsUpdate(w: seq<Option<Pending>>, i: nat, x: Option<Pending>)
    returns (rest: multiset<Packet>)
    requires i < |w|
    ensures Packets(w) == rest + PacketOf(w[i])
    ensures Packets(w[i := x]) == rest + PacketOf(x)
  {
    hide PacketOf;
    var n := |w| - 1;
    if i == n {
      assert w[i := x][..n] == w[..n];
      rest := Packets(w[..n]);
    } else {
      assert w[i := x][..n] == w[..n][i := x];
      var inner := PacketsUpdate(w[..n], i, x);
      rest := inner + PacketOf(w[n]);
      Regroup(inner, PacketOf(w[i]), PacketOf(w[n]));
      Regroup(inner, PacketOf(x), PacketOf(w[n]));
    }
  }

  lemma PacketsGain(w: seq<Option<Pending>>, i: nat, p: Pending)
    requires i < |w| && w[i].None?
    ensures Packets(w[i := Some(p)]) == Packets(w) + multiset{p.packet}
  {
    hide Packets;
    var rest := PacketsUpdate(w, i, Some(p));
  }

  lemma PacketsLose(w: seq<Option<Pending>>, i: nat)
    requires i < |w| && w[i].Some?
    ensures Packets(w) == Packets(w[i := None]) + multiset{w[i].value.packet}
  {
    hide Packets;
    var rest := PacketsUpdate(w, i, None);
  }

  lemma {:induction false} NoPackets(w: seq<Option<Pending>>)
    requires forall i :: 0 <= i < |w| ==> w[i].None?
    ensures Packets(w) == multiset{}
  {
    if w != [] {
      NoPackets(w[..|w| - 1]);
    }
  }

  /** What was accepted was delivered, dropped, discarded or still waits. */
  ghost predicate Accounted(accepted: multiset<Packet>, delivered: multiset<Packet>, dropped: multiset<Packet>,
                            discarded: multiset<Packet>, waiting: multiset<Packet>) {
    accepted == delivered + dropped + discarded + waiting
  }

  lemma AccountIn(a: multiset<Packet>, d: multiset<Packet>, r: multiset<Packet>, x: multiset<Packet>,
                  w: multiset<Packet>, p: multiset<Packet>)
    requires Accounted(a, d, r, x, w)
    ensures Accounted(a + p, d + p, r, x, w) && Accounted(a + p, d, r, x, w + p)
  {
  }

  lemma AccountOut(a: multiset<Packet>, d: multiset<Packet>, r: multiset<Packet>, x: multiset<Packet>,
                   w: multiset<Packet>, p: multiset<Packet>)
    requires Accounted(a, d, r, x, w + p)
    ensures Accounted(a, d + p, r, x, w) && Accounted(a, d, r + p, x, w) && Accounted(a, d, r, x + p, w)
  {
  }

  /** The private quota counts exactly the occupied places, and the shared one at least those. */
  ghost predicate Meters(w: seq<Option<Pending>>, count: nat, mine: nat, limit: nat, enabled: bool, shared: nat) {
    limit == |w| && enabled && mine == count == Occupied(w) && count <= shared
  }

  lemma MeterBound(w: seq<Option<Pending>>, count: nat, mine: nat, limit: nat, enabled: bool, shared: nat)
    requires Meters(w, count, mine, limit, enabled, shared)
    ensures limit == |w| && enabled && mine == count == Occupied(w) <= shared
  {
  }

  /** A time finds a place: it is already there, or there is room, or an older entry to give up. */
  ghost predicate Inserts(s: seq<Entry>, capacity: nat, t: ProtocolTime) {
    || |s| < capacity
    || exists e :: e in s && (e.effective == t || Before(e.effective, t))
  }

  lemma InsertsWhen(s: seq<Entry>, capacity: nat, state: Snapshot, t: ProtocolTime, arrival: nat, full: bool)
    requires Sorted(s) && |s| <= capacity
    ensures Inserted(s, capacity, state, t, arrival, full, NO_LOSS).Ok? <==> Inserts(s, capacity, t)
  {
    hide Inserted, Sorted;
    if i :| 0 <= i < |s| && s[i].effective == t {
      InsertedAgain(s, capacity, state, t, arrival, full, NO_LOSS, i);
      assert s[i] in s;
    } else {
      InsertedNew(s, capacity, state, t, arrival, full, NO_LOSS);
      if |s| == capacity && s != [] && Before(s[0].effective, t) {
        assert s[0] in s;
      }
    }
  }

  lemma ArrivingUsable(state: Snapshot, t: ProtocolTime, at: nat, later: nat)
    requires RequiredKnown(state) && at <= later < at + 2_000_000_000
    ensures var x := Arriving(state, t, at, true, NO_LOSS);
            Usable(x) && Recent(x, later) && Lives(x, at) && x.effective == t && x.arrival == at
  {
  }

  /**
   A complete Context of a new time answers for that time from its arrival until two seconds later, whatever the history
   held before.
   */
  lemma FreshContextAnswers(s: seq<Entry>, capacity: nat, state: Snapshot, t: ProtocolTime, at: nat, later: nat)
    requires Sorted(s) && |s| <= capacity && forall i :: 0 <= i < |s| ==> s[i].effective != t
    requires RequiredKnown(state) && ValidTime(t) && at <= later < at + 2_000_000_000
    requires Inserted(s, capacity, state, t, at, true, NO_LOSS).Ok?
    ensures var r := Inserted(s, capacity, state, t, at, true, NO_LOSS).value;
            Resolved(Living(r, at), t, later) == AnswerFrom(Arriving(state, t, at, true, NO_LOSS), t)
  {
    var x := Arriving(state, t, at, true, NO_LOSS);
    ArrivingUsable(state, t, at, later);
    hide Inserted, Arriving, Resolved, Living, Relevant, EndsBefore, Usable, Recent, Lives;
    InsertedNew(s, capacity, state, t, at, true, NO_LOSS);
    var r := Inserted(s, capacity, state, t, at, true, NO_LOSS).value;
    LivingSorted(r, at);
    var live := Living(r, at);
    var k :| 0 <= k < |live| && live[k] == x;
    EndsWith(live, k);
    EndsBeforeMeaning(t, t);
    CertainMeaning(live, t, later);
  }

  /** What a sorted history says about the time of one of its entries ends with that entry. */
  lemma EndsWith(s: seq<Entry>, k: nat)
    requires Sorted(s) && k < |s|
    ensures Relevant(s, s[k].effective) == s[..k + 1]
  {
    hide Relevant;
    forall i | 0 <= i < k + 1
      ensures !Before(s[k].effective, s[i].effective)
    {
      assert i < k ==> Before(s[i].effective, s[k].effective);
    }
    assert k + 1 < |s| ==> Before(s[k].effective, s[k + 1].effective);
    RelevantUnique(s, s[k].effective, k + 1);
  }

  class ContextReceiver {
    const history: ReceiverHistory
    const local: RetentionQuota
    const global: RetentionQuota
    const waiting: array<Option<Pending>>
    const delivers: bool
    const allowUnknown: bool
    const fixedFormat: Option<SemanticValue>
    var waitingCount: nat
    /** Packets by what became of them. */
    ghost var accepted: multiset<Packet>
    ghost var delivered: multiset<Packet>
    ghost var dropped: multiset<Packet>
    ghost var discarded: multiset<Packet>
    /** Deliveries and losses in order, with what was reported. */
    ghost var log: seq<Outcome>

    ghost predicate Metered()
      reads this, local, global, waiting
    {
      local != global && Meters(waiting[..], waitingCount, local.active, local.limit, local.enabled, global.active)
    }

    /** Every accepted packet is in exactly one place. */
    ghost predicate Balanced()
      reads this, waiting
    {
      Accounted(accepted, delivered, dropped, discarded, Packets(waiting[..]))
    }

    ghost predicate Valid()
      reads this, local, global, waiting, history, history.entries
    {
      Metered() && Balanced() && history.Valid()
    }

    constructor (history: ReceiverHistory, global: RetentionQuota, places: nat, delivers: bool, allowUnknown: bool,
                 fixedFormat: Option<SemanticValue>)
      requires history.Valid()
      ensures Valid() && fresh(local) && fresh(waiting) && this.history == history && this.global == global
      ensures waiting.Length == places && accepted == multiset{} && log == []
    {
      this.history, this.global, this.delivers, this.allowUnknown, this.fixedFormat :=
        history, global, delivers, allowUnknown, fixedFormat;
      local := new RetentionQuota(places);
      waiting := new Option<Pending>[places](_ => None);
      waitingCount := 0;
      accepted, delivered, dropped, discarded, log := multiset{}, multiset{}, multiset{}, multiset{}, [];
      new;
      OccupiedBounds(waiting[..]);
      NoPackets(waiting[..]);
    }

    /** Delivers a Data packet at once, or keeps it until its Context is known. */
    method ReceiveData(packet: Packet, fragments: nat, sample: ProtocolTime, generation: nat, now: nat)
      returns (r: Result<()>, shown: Option<Metadata>)
      requires Valid()
      modifies this, local`active, global`active, waiting
      ensures Valid() && dropped == old(dropped) && discarded == old(discarded)
      ensures accepted == old(accepted) + if r.Ok? then multiset{packet} else multiset{}
      ensures delivered == old(delivered) + if shown.Some? then multiset{packet} else multiset{}
      ensures log == old(log) + if shown.Some? then [Shown(packet, shown.value)] else []
      ensures waitingCount == old(waitingCount) + if r.Ok? && shown.None? then 1 else 0
      ensures generation != history.generation ==> r == Err(StaleGeneration)
      ensures generation == history.generation
              && (!delivers || !ValidTime(sample) || (allowUnknown && fixedFormat.None?)) ==>
                r == Err(InvalidArgument)
      ensures generation == history.generation && delivers && ValidTime(sample)
              && (allowUnknown ==> fixedFormat.Some?) ==>
                var m := Resolved(old(history.Contents()), sample, now);
                if m.confidence == Certain && m.validData then r.Ok? && shown == Some(m)
                else if allowUnknown && m.confidence != Certain then
                  r.Ok? && shown == Some(Masked(m, fixedFormat.value))
                else shown.None? && r == if fragments == 0 then Err(InvalidState)
                                         else if old(waitingCount) < waiting.Length && old(global.enabled)
                                                 && old(global.active) < global.limit then Ok(())
                                         else Err(CapacityExhausted)
    {
      hide Resolved, Packets, Masked, Accounted, Sorted, Meters;
      if generation != history.generation {
        return Err(StaleGeneration), None;
      }
      if !delivers || !ValidTime(sample) || (allowUnknown && fixedFormat.None?) {
        return Err(InvalidArgument), None;
      }
      var metadata := history.Resolve(sample, now);
      if Deliverable(metadata) {
        Hand(packet, metadata);
        return Ok(()), Some(metadata);
      }
      if allowUnknown && metadata.confidence != Certain {
        Hand(packet, Masked(metadata, fixedFormat.value));
        return Ok(()), Some(Masked(metadata, fixedFormat.value));
      }
      if fragments == 0 {
        return Err(InvalidState), None;
      }
      var kept := Retain(Pending(packet, sample, now));
      return if kept then Ok(()) else Err(CapacityExhausted), None;
    }

    /** A packet goes to the application at once. */
    ghost method Hand(packet: Packet, m: Metadata)
      requires Balanced()
      modifies this`accepted, this`delivered, this`log
      ensures Balanced() && log == old(log) + [Shown(packet, m)]
      ensures accepted == old(accepted) + multiset{packet} && delivered == old(delivered) + multiset{packet}
    {
      hide Packets, Accounted;
      AccountIn(accepted, delivered, dropped, discarded, Packets(waiting[..]), multiset{packet});
      accepted, delivered := accepted + multiset{packet}, delivered + multiset{packet};
      log := log + [Shown(packet, m)];
    }

    /** Keeps a packet if both quotas have room. */
    method Retain(p: Pending) returns (kept: bool)
      requires Metered() && Balanced()
      modifies this`waitingCount, this`accepted, local`active, global`active, waiting
      ensures Metered() && Balanced()
      ensures kept == (old(waitingCount) < waiting.Length && global.enabled && old(global.active) < global.limit)
      ensures accepted == old(accepted) + if kept then multiset{p.packet} else multiset{}
      ensures waitingCount == old(waitingCount) + if kept then 1 else 0
    {
      hide Packets, Accounted, Occupied;
      var mine := local.Take();
      if !mine {
        return false;
      }
      var shared := global.Take();
      if !shared {
        local.Release();
        return false;
      }
      Park(p);
      return true;
    }

    /** Puts a retained packet into the first empty place: having got a quota, there is one. */
    method Park(p: Pending)
      requires local != global && local.limit == waiting.Length && local.enabled && Balanced()
      requires local.active == waitingCount + 1 == Occupied(waiting[..]) + 1 <= local.limit
      requires local.active <= global.active
      modifies this`waitingCount, this`accepted, waiting
      ensures Metered() && Balanced()
      ensures accepted == old(accepted) + multiset{p.packet} && waitingCount == old(waitingCount) + 1
    {
      hide Occupied, Packets, Accounted;
      ghost var was := waiting[..];
      var i := FreePlace();
      OccupiedUpdate(was, i, Some(p));
      waiting[i] := Some(p);
      assert waiting[..] == was[i := Some(p)];
      PacketsGain(was, i, p);
      AccountIn(accepted, delivered, dropped, discarded, Packets(was), multiset{p.packet});
      waitingCount := waitingCount + 1;
      accepted := accepted + multiset{p.packet};
    }

    method FreePlace() returns (i: nat)
      requires Occupied(waiting[..]) < waiting.Length
      ensures i < waiting.Length && waiting[i].None?
    {
      hide Occupied;
      OccupiedBounds(waiting[..]);
      i := 0;
      while waiting[i].Some?
        invariant i < waiting.Length && forall j :: 0 <= j < i ==> waiting[j].Some?
        decreases waiting.Length - i
      {
        assert i + 1 == waiting.Length ==> forall j :: 0 <= j < waiting.Length ==> waiting[..][j].Some?;
        i := i + 1;
      }
    }

    /** Empties an occupied place; the caller says where its packet went. */
    method Clear(i: nat)
      requires Metered() && i < waiting.Length && waiting[i].Some?
      modifies this`waitingCount, local`active, global`active, waiting
      ensures Metered() && waiting[..] == old(waiting[..])[i := None]
      ensures old(Packets(waiting[..])) == Packets(waiting[..]) + multiset{old(waiting[i]).value.packet}
    {
      hide Occupied, Packets;
      ghost var was := waiting[..];
      OccupiedUpdate(was, i, None);
      PacketsLose(was, i);
      waiting[i] := None;
      assert waiting[..] == was[i := None];
      local.Release();
      global.Release();
      waitingCount := waitingCount - 1;
    }

    /** Settles every waiting packet that can be settled, then lets the history expire. */
    method Progress(now: nat)
      requires Valid()
      modifies this, local`active, global`active, waiting, history`count, history.entries
      ensures Valid() && accepted == old(accepted) && discarded == old(discarded)
      ensures forall i :: 0 <= i < waiting.Length ==> waiting[i] == Left(old(waiting[i]), old(history.Contents()), now)
      ensures delivered == old(delivered) + Fated(old(waiting[..]), old(history.Contents()), now, IsDelivered)
      ensures dropped == old(dropped) + Fated(old(waiting[..]), old(history.Contents()), now, IsDropped)
      ensures log == old(log) + Outcomes(old(waiting[..]), old(history.Contents()), now)
      ensures forall i :: 0 <= i < waiting.Length && waiting[i].Some? ==> now < waiting[i].value.arrival + 10_000_000
      ensures history.Contents() == Living(old(history.Contents()), now)
    {
      hide Resolved, Packets, Meters, Living, Accounted, Sorted, FateOf, Left, Share, Fated, Aged, Outcomes, OutcomeOf;
      ghost var was, contents := waiting[..], history.Contents();
      assert was[..0] == [];
      FatedNone(contents, now);
      for i := 0 to waiting.Length
        invariant Valid() && accepted == old(accepted) && discarded == old(discarded) && history.Contents() == contents
        invariant forall j :: 0 <= j < i ==> waiting[j] == Left(was[j], contents, now)
        invariant forall j :: i <= j < waiting.Length ==> waiting[j] == was[j]
        invariant delivered == old(delivered) + Fated(was[..i], contents, now, IsDelivered)
        invariant dropped == old(dropped) + Fated(was[..i], contents, now, IsDropped)
        invariant log == old(log) + Outcomes(was[..i], contents, now)
      {
        OutcomesStep(was, i, contents, now, old(log));
        FatedStep(was, i, contents, now, IsDelivered, old(delivered));
        FatedStep(was, i, contents, now, IsDropped, old(dropped));
        NothingShared(contents, now);
        if waiting[i].Some? {
          Settle(i, now);
        }
      }
      assert was[..waiting.Length] == was;
      forall i | 0 <= i < waiting.Length && waiting[i].Some?
        ensures now < waiting[i].value.arrival + 10_000_000
      {
        NotAged(was[i], contents, now);
      }
      history.Expire(now);
    }

    method Settle(i: nat, now: nat)
      requires Valid() && i < waiting.Length && waiting[i].Some?
      modifies this`waitingCount, this`delivered, this`dropped, this`log, local`active, global`active, waiting
      ensures Valid() && log == old(log) + OutcomeOf(old(waiting[i]), history.Contents(), now)
      ensures waiting[..] == old(waiting[..])[i := Left(old(waiting[i]), history.Contents(), now)]
      ensures delivered == old(delivered) + Share(old(waiting[i]), history.Contents(), now, IsDelivered)
      ensures dropped == old(dropped) + Share(old(waiting[i]), history.Contents(), now, IsDropped)
    {
      hide Resolved, Packets, Accounted, Sorted, Aged, Meters, Share, Left, OutcomeOf;
      var p := waiting[i].value;
      var metadata := history.Resolve(p.sample, now);
      FateIs(p, history.Contents(), now, metadata);
      if Aged(p, now) {
        TakeOut(i, IsDropped);
        log := log + [Lost(p.packet, metadata.confidence)];
      } else if Deliverable(metadata) {
        TakeOut(i, IsDelivered);
        log := log + [Shown(p.packet, metadata)];
      }
    }

    /** Takes a packet out of its place to its fate. */
    method TakeOut(i: nat, ghost fate: Fate)
      requires Metered() && Balanced() && i < waiting.Length && waiting[i].Some? && fate != Stays
      modifies this`waitingCount, this`delivered, this`dropped, local`active, global`active, waiting
      ensures Metered() && Balanced() && waiting[..] == old(waiting[..])[i := None]
      ensures delivered == old(delivered) + if fate == IsDelivered then multiset{old(waiting[i]).value.packet}
                                            else multiset{}
      ensures dropped == old(dropped) + if fate == IsDropped then multiset{old(waiting[i]).value.packet} else multiset{}
    {
      hide Packets, Accounted, Meters;
      ghost var p := multiset{waiting[i].value.packet};
      Clear(i);
      AccountOut(accepted, delivered, dropped, discarded, Packets(waiting[..]), p);
      if fate == IsDelivered {
        delivered := delivered + p;
      } else {
        dropped := dropped + p;
      }
    }

    /**
     New Context enters the history and may settle waiting packets. It is taken if it is for this association, readable,
     of this profile and time, and the history knows its time, has room, or holds something older.
     */
    method ReceiveContext(read: Result<Snapshot>, checks: Result<()>, effective: ProtocolTime, generation: nat,
                          now: nat, full: bool)
      returns (r: Result<()>)
      requires Valid() && (read.Ok? && checks.Ok? ==> InProfile(read.value))
      modifies this, local`active, global`active, waiting, history`count, history.entries
      ensures Valid() && accepted == old(accepted) && discarded == old(discarded)
      ensures generation != history.generation ==> r == Err(StaleGeneration)
      ensures generation == history.generation && read.Err? ==> r == Err(read.error)
      ensures r.Ok? <==>
              && generation == history.generation && read.Ok? && checks.Ok? && read.value.profile == history.profile
              && ValidTime(effective) && Inserts(old(history.Contents()), history.entries.Length, effective)
      ensures r.Err? ==> delivered == old(delivered) && dropped == old(dropped) && waiting[..] == old(waiting[..])
                         && history.Contents() == old(history.Contents()) && log == old(log)
      ensures r.Ok? ==>
                var s := Inserted(old(history.Contents()), history.entries.Length, read.value, effective, now, full,
                                  NO_LOSS);
                && s.Ok? && history.Contents() == Living(s.value, now)
                && (forall i :: 0 <= i < waiting.Length ==> waiting[i] == Left(old(waiting[i]), s.value, now))
                && delivered == old(delivered) + Fated(old(waiting[..]), s.value, now, IsDelivered)
                && dropped == old(dropped) + Fated(old(waiting[..]), s.value, now, IsDropped)
                && log == old(log) + Outcomes(old(waiting[..]), s.value, now)
      ensures r.Ok? ==>
                forall i :: 0 <= i < waiting.Length && waiting[i].Some? ==> now < waiting[i].value.arrival + 10_000_000
    {
      hide Resolved, Packets, Meters, Living, Accounted, Inserted, Left, Fated, Outcomes, Inserts;
      if generation != history.generation {
        return Err(StaleGeneration);
      }
      if read.Err? {
        return Err(read.error);
      }
      InsertsWhen(history.Contents(), history.entries.Length, read.value, effective, now, full);
      hide Sorted;
      r := history.Insert(read.value, checks, effective, now, full, NO_LOSS);
      if r.Err? {
        return;
      }
      Progress(now);
    }

    /** Ends the association: what still waits is discarded. */
    method Detach(generation: nat) returns (r: Result<()>)
      requires Valid()
      modifies this`waitingCount, this`discarded, local`active, global`active, waiting, history`count,
        history`generation
      ensures Valid() && accepted == old(accepted) && delivered == old(delivered) && dropped == old(dropped)
      ensures r.Ok? <==> generation > old(history.generation)
      ensures r.Ok? ==> waitingCount == 0 && local.active == 0 && history.Contents() == []
                        && history.generation == generation
                        && discarded == old(discarded) + old(Packets(waiting[..]))
      ensures r.Err? ==> discarded == old(discarded) && waitingCount == old(waitingCount)
    {
      hide Packets, Meters, Occupied, Accounted, Sorted;
      r := history.Detach(generation);
      if r.Err? {
        return;
      }
      ghost var all := Packets(waiting[..]);
      for i := 0 to waiting.Length
        invariant Metered() && Balanced()
        invariant history.Valid() && history.Contents() == [] && history.generation == generation
        invariant discarded + Packets(waiting[..]) == old(discarded) + all
        invariant forall j :: 0 <= j < i ==> waiting[j].None?
      {
        if waiting[i].Some? {
          Discard(i);
        }
      }
      OccupiedBounds(waiting[..]);
      NoPackets(waiting[..]);
      MeterBound(waiting[..], waitingCount, local.active, local.limit, local.enabled, global.active);
    }

    method Discard(i: nat)
      requires Metered() && Balanced() && i < waiting.Length && waiting[i].Some?
      modifies this`waitingCount, this`discarded, local`active, global`active, waiting
      ensures Metered() && Balanced() && waiting[..] == old(waiting[..])[i := None]
      ensures discarded + Packets(waiting[..]) == old(discarded) + old(Packets(waiting[..]))
    {
      hide Packets, Meters, Accounted;
      ghost var p := multiset{waiting[i].value.packet};
      Clear(i);
      AccountOut(accepted, delivered, dropped, discarded, Packets(waiting[..]), p);
      Regroup(discarded, p, Packets(waiting[..]));
      discarded := discarded + p;
    }
  }

  /** Metadata shown without certainty claims nothing but the fixed format. */
  lemma MaskedMeaning(m: Metadata, format: SemanticValue)
    ensures var k := Masked(m, format);
            && k == m.(state := k.state) && k.state.profile == m.state.profile
            && (forall n :: n != PayloadFormat ==>
                  FieldAt(k.state, n) == if FieldAt(m.state, n).Known? then Unknown else FieldAt(m.state, n))
            && k.state.payloadFormat == Known(format) && k.state.events.validity != IsKnown
  {
  }

  /** Over two calls: once a complete Context is taken, Data of its time is delivered with its state. */
  method ContextThenData(rx: ContextReceiver, state: Snapshot, t: ProtocolTime, at: nat, packet: Packet, fragments: nat,
                         later: nat)
    returns (taken: Result<()>, r: Result<()>, shown: Option<Metadata>)
    requires rx.Valid() && rx.delivers && (rx.allowUnknown ==> rx.fixedFormat.Some?)
    requires InProfile(state) && RequiredKnown(state) && ValidTime(t) && at <= later < at + 2_000_000_000
    requires state.events.validity == IsKnown && state.events.word.validEnable && state.events.word.valid
    requires forall i :: 0 <= i < rx.history.count <= rx.history.entries.Length ==> rx.history.entries[i].effective != t
    modifies rx, rx.local`active, rx.global`active, rx.waiting, rx.history`count, rx.history.entries
    ensures taken.Ok? ==> r.Ok? && shown.Some? && shown.value.confidence == Certain && shown.value.validData
                          && shown.value.effective == t
                          && shown.value.state == state.(events := shown.value.state.events)
                          && rx.log != [] && rx.log[|rx.log| - 1] == Shown(packet, shown.value)
  {
    hide Resolved, Left, Fated, Outcomes, Inserts, Inserted, Living, Meters, Accounted, Packets, Masked, RequiredKnown;
    ghost var s := rx.history.Contents();
    taken := rx.ReceiveContext(Ok(state), Ok(()), t, rx.history.generation, at, true);
    if taken.Err? {
      return taken, taken, None;
    }
    FreshContextAnswers(s, rx.history.entries.Length, state, t, at, later);
    r, shown := rx.ReceiveData(packet, fragments, t, rx.history.generation, later);
  }
}
