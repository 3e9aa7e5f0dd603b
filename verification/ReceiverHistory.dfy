/**
 The receiver's bounded, time-ordered history of Context
 (include/vita/runtime/context/receiver.hpp, ReceiverHistory).
 */
module ReceiverHistories {
  import opened Core
  import opened Time
  import opened ContextState

  const LIFETIME_NS: nat := 2_000_000_000

  /** Sample-loss bits, kept apart from the state. */
  datatype LossEvents = LossEvents(enable: bool, indicator: bool)

  datatype Entry = Entry(state: Snapshot, effective: ProtocolTime, arrival: nat, events: LossEvents, full: bool,
                         conflict: bool)

  datatype Confidence = Certain | Missing | Stale | Ambiguous | IncompleteDelta

  datatype Metadata = Metadata(state: Snapshot, effective: ProtocolTime, confidence: Confidence, events: LossEvents,
                               validData: bool)

  const NO_LOSS := LossEvents(false, false)

  // ----- The history as a value -----

  ghost predicate Sorted(s: seq<Entry>) {
    forall i, j :: 0 <= i < j < |s| ==> Before(s[i].effective, s[j].effective)
  }

  /** Number of entries strictly before a time; for a sorted history, the insertion point. */
  function Position(s: seq<Entry>, t: ProtocolTime): (p: nat)
    ensures p <= |s|
    ensures forall i :: 0 <= i < p ==> Before(s[i].effective, t)
    ensures p < |s| ==> !Before(s[p].effective, t)
  {
    if s == [] || !Before(s[0].effective, t) then 0 else 1 + Position(s[1..], t)
  }

  /** Loss bits move from the indicator word to the entry's events. */
  function SplitLoss(state: Snapshot, events: LossEvents): (Snapshot, LossEvents) {
    if state.events.validity == IsKnown then
      (state.(events := state.events.(word := WithoutLoss(state.events.word))),
       LossEvents(events.enable || state.events.word.lossEnable, events.indicator || state.events.word.loss))
    else (state, events)
  }

  predicate Differs(e: Entry, state: Snapshot, events: LossEvents, full: bool) {
    e.full != full || !SameState(e.state, state) || e.events != events
  }

  /** History after accepting a snapshot, or the error that leaves it alone. */
  function Inserted(s: seq<Entry>, capacity: nat, state: Snapshot, effective: ProtocolTime, arrival: nat, full: bool,
                    events: LossEvents): Result<seq<Entry>>
    requires |s| <= capacity
  {
    var (clean, loss) := SplitLoss(state, events);
    var p := Position(s, effective);
    if p < |s| && s[p].effective == effective then
      Ok(if Differs(s[p], clean, loss, full) then s[p := s[p].(conflict := true)] else s)
    else if |s| == capacity && p == 0 then Err(CapacityExhausted)
    else
      var added := Entry(clean, effective, arrival, loss, full, false);
      if |s| == capacity then Ok(s[1..p] + [added] + s[p..]) else Ok(s[..p] + [added] + s[p..])
  }

  predicate Lives(e: Entry, now: nat) {
    now < e.arrival || now - e.arrival < LIFETIME_NS
  }

  function Living(s: seq<Entry>, now: nat): (r: seq<Entry>)
    ensures |r| <= |s|
  {
    if s == [] then []
    else if Lives(s[|s| - 1], now) then Living(s[..|s| - 1], now) + [s[|s| - 1]]
    else Living(s[..|s| - 1], now)
  }

  // ----- What a history says about a sample -----

  /** Entries at or before the sample. */
  function Relevant(s: seq<Entry>, sample: ProtocolTime): (r: seq<Entry>)
    ensures |r| <= |s| && r == s[..|r|]
    ensures forall i :: 0 <= i < |r| ==> !Before(sample, r[i].effective)
    ensures |r| < |s| ==> Before(sample, s[|r|].effective)
  {
    if s == [] || Before(sample, s[0].effective) then []
    else
      var rest := Relevant(s[1..], sample);
      assert [s[0]] + rest == s[..|rest| + 1];
      [s[0]] + rest
  }

  /** Index just past the last entry before which nothing matters: the last full one, or none. */
  function LastFull(s: seq<Entry>): (k: Option<nat>)
    ensures k.Some? ==> k.value < |s| && s[k.value].full && forall i :: k.value < i < |s| ==> !s[i].full
    ensures k.None? ==> forall i :: 0 <= i < |s| ==> !s[i].full
  {
    if s == [] then None
    else if s[|s| - 1].full then Some(|s| - 1)
    else LastFull(s[..|s| - 1])
  }

  function OverlayField(base: Field, delta: Field): Field {
    if delta == Absent then base else delta
  }

  /** A delta replaces the fields it carries. */
  function Overlay(base: Snapshot, delta: Snapshot): Snapshot {
    Snapshot(base.profile,
             OverlayField(base.referencePoint, delta.referencePoint),
             OverlayField(base.sampleRate, delta.sampleRate),
             if delta.events.validity == IsAbsent then base.events else delta.events,
             OverlayField(base.payloadFormat, delta.payloadFormat),
             OverlayField(base.frequency, delta.frequency),
             OverlayField(base.bandwidth, delta.bandwidth),
             OverlayField(base.gain, delta.gain),
             OverlayField(base.discrete, delta.discrete))
  }

  function OverlayAll(base: Snapshot, deltas: seq<Entry>): Snapshot {
    if deltas == [] then base else Overlay(OverlayAll(base, deltas[..|deltas| - 1]), deltas[|deltas| - 1].state)
  }

  /** The deltas since the last full entry, laid over it. */
  function ResolvedState(relevant: seq<Entry>): Snapshot {
    match LastFull(relevant)
    case Some(k) => OverlayAll(relevant[k].state, relevant[k + 1..])
    case None => OverlayAll(EMPTY, relevant)
  }

  /** Entries that contribute to the answer. */
  function Contributing(relevant: seq<Entry>): seq<Entry> {
    match LastFull(relevant)
    case Some(k) => relevant[k..]
    case None => relevant
  }

  predicate EndsBefore(t: ProtocolTime, sample: ProtocolTime) {
    match Add(t, Duration(2, 0))
    case Ok(end) => !Before(sample, end)
    case Err(_) => false
  }

  ghost function Resolved(s: seq<Entry>, sample: ProtocolTime, now: nat): Metadata {
    var relevant := Relevant(s, sample);
    if relevant == [] then Metadata(EMPTY, ProtocolTime(0, 0), Missing, NO_LOSS, false)
    else
      var last, state := relevant[|relevant| - 1], ResolvedState(relevant);
      var answer := Metadata(state, last.effective, Missing, if sample == last.effective then last.events else NO_LOSS,
                             false);
      if exists e :: e in Contributing(relevant) && e.conflict then answer.(confidence := Ambiguous)
      else if now < last.arrival || now - last.arrival >= LIFETIME_NS then answer.(confidence := Stale)
      else if EndsBefore(last.effective, sample) then answer.(confidence := Stale)
      else if LastFull(relevant).None? || !RequiredKnown(state) then answer
      else
        answer.(validData := state.events.validity == IsKnown && state.events.word.validEnable
                && state.events.word.valid, confidence := if last.full then Certain else IncompleteDelta)
  }

  // ----- The object -----

  class ReceiverHistory {
    const profile: Profile
    const entries: array<Entry>
    var count: nat
    var generation: nat

    ghost predicate Valid()
      reads this, entries
    {
      count <= entries.Length && Sorted(Contents())
    }

    ghost function Contents(): seq<Entry>
      reads this, entries
      requires count <= entries.Length
    {
      entries[..count]
    }

    constructor (capacity: nat, profile: Profile, generation: nat)
      ensures Valid() && fresh(entries) && Contents() == []
      ensures entries.Length == capacity && this.profile == profile && this.generation == generation
    {
      this.profile, this.generation := profile, generation;
      entries := new Entry[capacity](_ => Entry(EMPTY, ProtocolTime(0, 0), 0, NO_LOSS, true, false));
      count := 0;
    }

    /**
     Inserts a snapshot in time order. `checks` is the verdict on the snapshot's fields, of which
     only the profile part is modelled.
     */
    method Insert(state: Snapshot, checks: Result<()>, effective: ProtocolTime, arrival: nat, full: bool,
                  events: LossEvents)
      returns (r: Result<()>)
      requires Valid() && (checks.Ok? ==> InProfile(state))
      modifies this`count, entries
      ensures Valid()
      ensures checks.Err? ==> r == checks
      ensures checks.Ok? && state.profile != profile ==> r == Err(IdentityConflict)
      ensures checks.Ok? && state.profile == profile && !ValidTime(effective) ==> r == Err(InvalidArgument)
      ensures checks.Ok? && state.profile == profile && ValidTime(effective) ==>
                match Inserted(old(Contents()), entries.Length, state, effective, arrival, full, events)
                case Ok(s) => r.Ok? && Contents() == s
                case Err(code) => r == Err(code)
      ensures r.Err? ==> Contents() == old(Contents())
    {
      if checks.Err? {
        return checks;
      }
      if state.profile != profile {
        return Err(IdentityConflict);
      }
      if !ValidTime(effective) {
        return Err(InvalidArgument);
      }
      var (clean, loss) := SplitLoss(state, events);
      ghost var was := Contents();
      var index := 0;
      while index < count && Before(entries[index].effective, effective)
        invariant index <= count
        invariant forall i :: 0 <= i < index ==> Before(entries[i].effective, effective)
      {
        index := index + 1;
      }
      PositionUnique(was, effective, index);
      InsertKeepsSorted(was, entries.Length, state, effective, arrival, full, events);
      hide SameState, Before, Position, Sorted, WithoutLoss;
      if index < count && entries[index].effective == effective {
        if Differs(entries[index], clean, loss, full) {
          entries[index] := entries[index].(conflict := true);
        }
        assert Contents() == if Differs(was[index], clean, loss, full) then was[index := was[index].(conflict := true)]
                             else was;
        return Ok(());
      }
      if count == entries.Length && index == 0 {
        return Err(CapacityExhausted);
      }
      Place(index, Entry(clean, effective, arrival, loss, full, false));
      return Ok(());
    }

    /** Makes room for an entry, over the oldest if need be. */
    method Place(index: nat, entry: Entry)
      requires index <= count <= entries.Length && (count == entries.Length ==> index > 0)
      modifies this`count, entries
      ensures count <= entries.Length
      ensures var was := old(Contents());
              Contents() == was[if |was| == entries.Length then 1 else 0..index] + [entry] + was[index..]
    {
      ghost var was := Contents();
      if count == entries.Length {
        DropFirst();
        assert was[1..][..index - 1] == was[1..index] && was[1..][index - 1..] == was[index..];
        InsertAt(index - 1, entry);
      } else {
        InsertAt(index, entry);
      }
    }

    /** Shifts every entry one place down, over the first. */
    method DropFirst()
      requires count <= entries.Length && count > 0
      modifies this`count, entries
      ensures count == old(count) - 1 && count <= entries.Length
      ensures Contents() == old(Contents())[1..]
    {
      ghost var was := Contents();
      var i := 1;
      while i < count
        invariant 1 <= i <= count == old(count)
        invariant forall k :: 0 <= k < i - 1 ==> entries[k] == was[k + 1]
        invariant forall k :: i - 1 <= k < count ==> entries[k] == was[k]
      {
        entries[i - 1] := entries[i];
        i := i + 1;
      }
      count := count - 1;
    }

    /** Shifts the entries from `index` on one place up and writes the new one. */
    method InsertAt(index: nat, entry: Entry)
      requires index <= count < entries.Length
      modifies this`count, entries
      ensures count == old(count) + 1 && count <= entries.Length
      ensures Contents() == old(Contents())[..index] + [entry] + old(Contents())[index..]
    {
      ghost var was := Contents();
      var i := count;
      while i > index
        invariant index <= i <= count == old(count)
        invariant forall k :: 0 <= k < i ==> entries[k] == was[k]
        invariant forall k :: i < k <= count ==> entries[k] == was[k - 1]
      {
        entries[i] := entries[i - 1];
        i := i - 1;
      }
      entries[index] := entry;
      count := count + 1;
      MovedUp(was, index, entry, Contents());
    }

    /** One pass over the entries at or before the sample. */
    method Scan(sample: ProtocolTime) returns (n: nat, state: Snapshot, anchored: bool, ambiguous: bool, delta: bool)
      requires Valid()
      ensures n <= count && Relevant(Contents(), sample) == Contents()[..n]
      ensures ScanState(Contents()[..n], state, anchored, ambiguous, delta)
    {
      hide Overlay, ScanState, Relevant, Before, Sorted;
      n, state := 0, EMPTY;
      anchored, ambiguous, delta := false, false, false;
      ScanStart();
      while n < count && !Before(sample, entries[n].effective)
        invariant n <= count
        invariant forall k :: 0 <= k < n ==> !Before(sample, Contents()[k].effective)
        invariant ScanState(Contents()[..n], state, anchored, ambiguous, delta)
      {
        var entry := entries[n];
        assert Contents()[..n + 1] == Contents()[..n] + [entry];
        ScanStep(Contents()[..n], entry, state, anchored, ambiguous, delta);
        if entry.full {
          state := entry.state;
          anchored, ambiguous, delta := true, entry.conflict, false;
        } else {
          state := Overlay(state, entry.state);
          ambiguous, delta := ambiguous || entry.conflict, true;
        }
        n := n + 1;
      }
      RelevantUnique(Contents(), sample, n);
    }

    /** Answers for a sample time. */
    method Resolve(sample: ProtocolTime, now: nat) returns (result: Metadata)
      requires Valid()
      ensures result == Resolved(Contents(), sample, now)
    {
      hide LastFull, ResolvedState, Contributing, RequiredKnown, Relevant, Add, Sorted, Before;
      var n, state, anchored, ambiguous, delta := Scan(sample);
      if n == 0 {
        return Metadata(EMPTY, ProtocolTime(0, 0), Missing, NO_LOSS, false);
      }
      var last := entries[n - 1];
      result := Metadata(state, last.effective, Missing, if sample == last.effective then last.events else NO_LOSS,
                         false);
      if ambiguous {
        return result.(confidence := Ambiguous);
      }
      if now < last.arrival || now - last.arrival >= LIFETIME_NS {
        return result.(confidence := Stale);
      }
      var end := Add(last.effective, Duration(2, 0));
      if end.Ok? && !Before(sample, end.value) {
        return result.(confidence := Stale);
      }
      if !anchored || !RequiredKnown(state) {
        return result;
      }
      if state.events.validity == IsKnown {
        result := result.(validData := state.events.word.validEnable && state.events.word.valid);
      }
      return result.(confidence := if delta then IncompleteDelta else Certain);
    }

    /** Removes entries that arrived two seconds ago or earlier, in place. */
    method Expire(now: nat)
      requires Valid()
      modifies this`count, entries
      ensures Valid()
      ensures Contents() == Living(old(Contents()), now)
    {
      hide Sorted, Lives, Living;
      ghost var was := Contents();
      var keep, i := 0, 0;
      NoneLive(now);
      while i < count
        invariant keep <= i <= count == |was|
        invariant entries[..keep] == Living(was[..i], now)
        invariant forall k :: i <= k < count ==> entries[k] == was[k]
      {
        LivingNext(was, i, now);
        if Lives(entries[i], now) {
          entries[keep] := entries[i];
          keep := keep + 1;
          assert entries[..keep] == entries[..keep - 1] + [was[i]];
        }
        i := i + 1;
      }
      assert was[..count] == was;
      count := keep;
      LivingSorted(was, now);
    }

    /** Forgets the history for a later association. */
    method Detach(next: nat) returns (r: Result<()>)
      requires Valid()
      modifies this`count, this`generation
      ensures Valid()
      ensures next <= old(generation) ==>
                r == Err(StaleGeneration) && Contents() == old(Contents()) && generation == old(generation)
      ensures next > old(generation) ==> r.Ok? && Contents() == [] && generation == next
    {
      if next <= generation {
        return Err(StaleGeneration);
      }
      count, generation := 0, next;
      return Ok(());
    }
  }

  // ----- Proofs about the value functions -----

  lemma MovedUp(was: seq<Entry>, p: nat, e: Entry, now: seq<Entry>)
    requires p <= |was| && |now| == |was| + 1 && now[p] == e
    requires forall k :: 0 <= k < p ==> now[k] == was[k]
    requires forall k :: p < k <= |was| ==> now[k] == was[k - 1]
    ensures now == was[..p] + [e] + was[p..]
  {
  }

  lemma PositionUnique(s: seq<Entry>, t: ProtocolTime, p: nat)
    requires p <= |s|
    requires forall i :: 0 <= i < p ==> Before(s[i].effective, t)
    requires p < |s| ==> !Before(s[p].effective, t)
    ensures Position(s, t) == p
  {
  }

  lemma RelevantUnique(s: seq<Entry>, sample: ProtocolTime, p: nat)
    requires p <= |s|
    requires forall i :: 0 <= i < p ==> !Before(sample, s[i].effective)
    requires p < |s| ==> Before(sample, s[p].effective)
    ensures Relevant(s, sample) == s[..p]
  {
    assert Relevant(s, sample) == s[..|Relevant(s, sample)|];
  }

  /** Insertion keeps the history strictly sorted and within capacity. */
  lemma InsertKeepsSorted(s: seq<Entry>, capacity: nat, state: Snapshot, effective: ProtocolTime, arrival: nat,
                          full: bool, events: LossEvents)
    requires Sorted(s) && |s| <= capacity
    ensures match Inserted(s, capacity, state, effective, arrival, full, events)
            case Ok(r) => Sorted(r) && |r| <= capacity
            case Err(_) => true
  {
    hide Sorted, Position, Before, SplitLoss, Differs;
    var p := Position(s, effective);
    var (clean, loss) := SplitLoss(state, events);
    if p < |s| && s[p].effective == effective {
      MarkKeepsSorted(s, p);
    } else {
      var added := Entry(clean, effective, arrival, loss, full, false);
      NewIsApart(s, p, effective);
      AddKeepsSorted(s, p, added);
      if |s| == capacity && p > 0 {
        var grown := s[..p] + [added] + s[p..];
        assert s[1..p] + [added] + s[p..] == grown[1..];
        DropKeepsSorted(grown);
      }
    }
  }

  lemma MarkKeepsSorted(s: seq<Entry>, p: nat)
    requires Sorted(s) && p < |s|
    ensures Sorted(s[p := s[p].(conflict := true)])
  {
    hide Before;
  }

  lemma DropKeepsSorted(s: seq<Entry>)
    requires Sorted(s) && s != []
    ensures Sorted(s[1..])
  {
    hide Before;
  }

  /** A time that stands in no entry lies between its neighbours. */
  lemma NewIsApart(s: seq<Entry>, p: nat, t: ProtocolTime)
    requires Sorted(s) && p == Position(s, t) && (p < |s| ==> s[p].effective != t)
    ensures forall j :: p <= j < |s| ==> Before(t, s[j].effective)
  {
    hide Position;
    if p < |s| {
      assert Before(t, s[p].effective);
    }
  }

  lemma AddKeepsSorted(s: seq<Entry>, p: nat, e: Entry)
    requires Sorted(s) && p <= |s|
    requires forall i :: 0 <= i < p ==> Before(s[i].effective, e.effective)
    requires forall j :: p <= j < |s| ==> Before(e.effective, s[j].effective)
    ensures Sorted(s[..p] + [e] + s[p..])
  {
    hide Before;
  }

  lemma {:induction false} LivingSorted(s: seq<Entry>, now: nat)
    requires Sorted(s)
    ensures Sorted(Living(s, now))
    ensures forall e :: e in Living(s, now) <==> e in s && Lives(e, now)
  {
    if s != [] {
      var front, last := s[..|s| - 1], s[|s| - 1];
      LivingSorted(front, now);
      assert s == front + [last];
      forall e | e in Living(front, now)
        ensures Before(e.effective, last.effective)
      {
        assert e in front;
      }
    }
  }

  /** What the resolving pass has gathered after the entries `s`. */
  ghost predicate ScanState(s: seq<Entry>, state: Snapshot, anchored: bool, ambiguous: bool, delta: bool) {
    && state == ResolvedState(s)
    && anchored == LastFull(s).Some?
    && (ambiguous <==> exists e :: e in Contributing(s) && e.conflict)
    && (delta <==> s != [] && !s[|s| - 1].full)
  }

  lemma LastFullAppend(s: seq<Entry>, entry: Entry)
    ensures LastFull(s + [entry]) == if entry.full then Some(|s|) else LastFull(s)
  {
    assert (s + [entry])[..|s|] == s;
  }

  lemma OverlayAllAppend(base: Snapshot, deltas: seq<Entry>, entry: Entry)
    ensures OverlayAll(base, deltas + [entry]) == Overlay(OverlayAll(base, deltas), entry.state)
  {
    hide Overlay;
    assert (deltas + [entry])[..|deltas|] == deltas;
  }

  lemma ResolvedStateAppend(s: seq<Entry>, entry: Entry)
    ensures ResolvedState(s + [entry]) == if entry.full then entry.state else Overlay(ResolvedState(s), entry.state)
    ensures Contributing(s + [entry]) == if entry.full then [entry] else Contributing(s) + [entry]
  {
    hide Overlay, LastFull;
    var t := s + [entry];
    LastFullAppend(s, entry);
    if entry.full {
      assert t[|s| + 1..] == [] && t[|s|..] == [entry];
      assert OverlayAll(entry.state, []) == entry.state;
    } else if LastFull(s).Some? {
      var k := LastFull(s).value;
      assert t[k + 1..] == s[k + 1..] + [entry] && t[k..] == s[k..] + [entry];
      OverlayAllAppend(s[k].state, s[k + 1..], entry);
    } else {
      OverlayAllAppend(EMPTY, s, entry);
    }
  }

  lemma ScanStart()
    ensures ScanState([], EMPTY, false, false, false)
  {
  }

  lemma ScanStep(s: seq<Entry>, entry: Entry, state: Snapshot, anchored: bool, ambiguous: bool, delta: bool)
    requires ScanState(s, state, anchored, ambiguous, delta)
    ensures entry.full ==> ScanState(s + [entry], entry.state, true, entry.conflict, false)
    ensures !entry.full ==> ScanState(s + [entry], Overlay(state, entry.state), anchored, ambiguous || entry.conflict,
                                      true)
  {
    hide Overlay, LastFull, ResolvedState, Contributing;
    LastFullAppend(s, entry);
    ResolvedStateAppend(s, entry);
  }

  // ----- What the history keeps -----

  /** The entry that takes a snapshot, with its loss bits kept apart. */
  ghost function Arriving(state: Snapshot, effective: ProtocolTime, arrival: nat, full: bool,
                          events: LossEvents): Entry {
    var w, known := state.events.word, state.events.validity == IsKnown;
    var clean := Indicators(w.calibratedEnable, w.validEnable, false, w.calibrated, w.valid, false, w.rest);
    Entry(if known then state.(events := EventField(IsKnown, clean)) else state, effective, arrival,
          LossEvents(events.enable || (known && w.lossEnable), events.indicator || (known && w.loss)), full, false)
  }

  /** Two snapshots of one time tell different things. */
  ghost predicate Disagree(a: Entry, b: Entry) {
    a.full != b.full || a.events != b.events || !SameState(a.state, b.state)
  }

  lemma ArrivingIs(s: seq<Entry>, capacity: nat, state: Snapshot, effective: ProtocolTime, arrival: nat, full: bool,
                   events: LossEvents)
    requires |s| <= capacity
    ensures var x, p := Arriving(state, effective, arrival, full, events), Position(s, effective);
            Inserted(s, capacity, state, effective, arrival, full, events) ==
            if p < |s| && s[p].effective == effective then
              Ok(if Disagree(s[p], x) then s[p := s[p].(conflict := true)] else s)
            else if |s| == capacity && p == 0 then Err(CapacityExhausted)
            else if |s| == capacity then Ok(s[1..p] + [x] + s[p..])
            else Ok(s[..p] + [x] + s[p..])
  {
    hide Position, SameState;
  }

  /** The place of a time: what lies before it is earlier, and from there on nothing is. */
  lemma PlaceOf(s: seq<Entry>, t: ProtocolTime)
    requires Sorted(s)
    ensures var p := Position(s, t);
            && (forall i :: 0 <= i < p ==> Before(s[i].effective, t))
            && (forall i :: p <= i < |s| ==> !Before(s[i].effective, t))
            && ((p < |s| && s[p].effective == t) || forall i :: 0 <= i < |s| ==> s[i].effective != t)
  {
    hide Position;
    var p := Position(s, t);
    forall i | p <= i < |s|
      ensures !Before(s[i].effective, t) && (i > p ==> s[i].effective != t)
    {
      if i > p {
        assert Before(s[p].effective, s[i].effective);
      }
    }
  }

  /** A time already there keeps its entry, from then on in conflict if the snapshots disagree. */
  lemma InsertedAgain(s: seq<Entry>, capacity: nat, state: Snapshot, effective: ProtocolTime, arrival: nat, full: bool,
                      events: LossEvents, i: nat)
    requires Sorted(s) && |s| <= capacity && i < |s| && s[i].effective == effective
    ensures var x := Arriving(state, effective, arrival, full, events);
            Inserted(s, capacity, state, effective, arrival, full, events) ==
            Ok(s[i := s[i].(conflict := s[i].conflict || Disagree(s[i], x))])
  {
    hide Position, SameState, Inserted, Arriving, Disagree;
    ArrivingIs(s, capacity, state, effective, arrival, full, events);
    PlaceOf(s, effective);
    var p := Position(s, effective);
    assert s[i := s[i].(conflict := s[i].conflict)] == s;
  }

  /** A new time is taken unless the history is full of later ones; a full history gives up its oldest entry. */
  lemma InsertedNew(s: seq<Entry>, capacity: nat, state: Snapshot, effective: ProtocolTime, arrival: nat, full: bool,
                    events: LossEvents)
    requires Sorted(s) && |s| <= capacity && forall i :: 0 <= i < |s| ==> s[i].effective != effective
    ensures var x := Arriving(state, effective, arrival, full, events);
            match Inserted(s, capacity, state, effective, arrival, full, events)
            case Err(code) =>
              code == CapacityExhausted && |s| == capacity && forall e :: e in s ==> !Before(e.effective, effective)
            case Ok(r) =>
              && Sorted(r) && x in r && (|s| == capacity ==> s != [] && Before(s[0].effective, effective))
              && (forall e :: e in r ==> e == x || e in s)
              && (forall i :: (if |s| == capacity then 1 else 0) <= i < |s| ==> s[i] in r)
              && |r| == (if |s| == capacity then capacity else |s| + 1)
  {
    InsertKeepsSorted(s, capacity, state, effective, arrival, full, events);
    hide Position, SameState, Inserted, Arriving, Sorted;
    ArrivingIs(s, capacity, state, effective, arrival, full, events);
    PlaceOf(s, effective);
    var x, p := Arriving(state, effective, arrival, full, events), Position(s, effective);
    if !(|s| == capacity && p == 0) {
      var first := if |s| == capacity then 1 else 0;
      assert s[0..p] == s[..p];
      InsertedMembers(s, first, p, x);
    }
  }

  lemma InsertedMembers(s: seq<Entry>, first: nat, p: nat, x: Entry)
    requires first <= p <= |s|
    ensures var r := s[first..p] + [x] + s[p..];
            && |r| == |s| - first + 1 && x in r && (forall e :: e in r ==> e == x || e in s)
            && forall i :: first <= i < |s| ==> s[i] in r
  {
    var r := s[first..p] + [x] + s[p..];
    assert x == r[p - first];
    forall i | first <= i < |s|
      ensures s[i] in r
    {
      assert i < p ==> s[i] == r[i - first];
      assert i >= p ==> s[i] == r[i - first + 1];
    }
  }

  /** A snapshot that disagrees with the one of its time makes the answer at that time ambiguous. */
  lemma DisagreementIsAmbiguous(s: seq<Entry>, capacity: nat, state: Snapshot, effective: ProtocolTime, arrival: nat,
                                full: bool, events: LossEvents, i: nat, now: nat)
    requires Sorted(s) && |s| <= capacity && i < |s| && s[i].effective == effective
    requires Disagree(s[i], Arriving(state, effective, arrival, full, events))
    ensures var r := Inserted(s, capacity, state, effective, arrival, full, events);
            r.Ok? && Resolved(r.value, effective, now).confidence == Ambiguous
  {
    hide Inserted, Arriving, Disagree, Relevant, ResolvedState, LastFull;
    InsertedAgain(s, capacity, state, effective, arrival, full, events, i);
    var r := s[i := s[i].(conflict := true)];
    forall k | 0 <= k < i + 1
      ensures !Before(effective, r[k].effective)
    {
      assert k < i ==> Before(s[k].effective, s[i].effective);
    }
    assert i + 1 < |s| ==> Before(s[i].effective, s[i + 1].effective);
    RelevantUnique(r, effective, i + 1);
    LastContributes(r[..i + 1]);
  }

  lemma LastContributes(r: seq<Entry>)
    requires r != []
    ensures r[|r| - 1] in Contributing(r)
  {
    hide LastFull;
    var c := Contributing(r);
    assert c[|c| - 1] == r[|r| - 1];
  }

  // ----- What deltas leave -----

  /** A field after deltas is what the last delta that carries it says. */
  lemma {:induction false} OverlayMeaning(base: Snapshot, deltas: seq<Entry>, n: FieldName)
    ensures var f := FieldAt(OverlayAll(base, deltas), n);
            if forall i :: 0 <= i < |deltas| ==> FieldAt(deltas[i].state, n) == Absent then f == FieldAt(base, n)
            else exists k :: 0 <= k < |deltas| && FieldAt(deltas[k].state, n) == f != Absent
                   && forall j :: k < j < |deltas| ==> FieldAt(deltas[j].state, n) == Absent
    ensures OverlayAll(base, deltas).profile == base.profile
  {
    if deltas != [] {
      var front, last := deltas[..|deltas| - 1], deltas[|deltas| - 1];
      OverlayMeaning(base, front, n);
      assert FieldAt(OverlayAll(base, deltas), n) ==
             if FieldAt(last.state, n) == Absent then FieldAt(OverlayAll(base, front), n) else FieldAt(last.state, n);
      hide OverlayAll, Overlay, FieldAt;
      if FieldAt(last.state, n) != Absent {
        assert FieldAt(deltas[|deltas| - 1].state, n) == FieldAt(last.state, n) != Absent;
      } else if !forall i :: 0 <= i < |front| ==> FieldAt(front[i].state, n) == Absent {
        var k :| 0 <= k < |front| && FieldAt(front[k].state, n) == FieldAt(OverlayAll(base, front), n) != Absent
                 && forall j :: k < j < |front| ==> FieldAt(front[j].state, n) == Absent;
        assert deltas[k] == front[k];
        assert forall j :: k < j < |deltas| ==> FieldAt(deltas[j].state, n) == Absent;
      }
    }
  }

  /** Likewise for the indicators, which keep their word while not known. */
  lemma {:induction false} OverlayEvents(base: Snapshot, deltas: seq<Entry>)
    ensures var f := OverlayAll(base, deltas).events;
            if forall i :: 0 <= i < |deltas| ==> deltas[i].state.events.validity == IsAbsent then f == base.events
            else exists k :: 0 <= k < |deltas| && deltas[k].state.events == f && f.validity != IsAbsent
                   && forall j :: k < j < |deltas| ==> deltas[j].state.events.validity == IsAbsent
  {
    if deltas != [] {
      var front, last := deltas[..|deltas| - 1], deltas[|deltas| - 1];
      OverlayEvents(base, front);
      if last.state.events.validity != IsAbsent {
        assert deltas[|deltas| - 1].state.events == last.state.events;
      } else if !forall i :: 0 <= i < |front| ==> front[i].state.events.validity == IsAbsent {
        var k :| 0 <= k < |front| && front[k].state.events == OverlayAll(base, front).events
                 && front[k].state.events.validity != IsAbsent
                 && forall j :: k < j < |front| ==> front[j].state.events.validity == IsAbsent;
        assert deltas[k] == front[k];
        assert forall j :: k < j < |deltas| ==> deltas[j].state.events.validity == IsAbsent;
      }
    }
  }

  lemma NoneLive(now: nat)
    ensures Living([], now) == []
  {
  }

  lemma LivingNext(s: seq<Entry>, i: nat, now: nat)
    requires i < |s|
    ensures Living(s[..i + 1], now) == Living(s[..i], now) + if Lives(s[i], now) then [s[i]] else []
  {
    hide Lives;
    assert s[..i + 1][..i] == s[..i];
  }

  /** A conflicting entry that no full entry follows. */
  ghost predicate Clashes(r: seq<Entry>) {
    exists i :: 0 <= i < |r| && r[i].conflict && forall j :: i < j < |r| ==> !r[j].full
  }

  ghost predicate HasFull(r: seq<Entry>) {
    exists i :: 0 <= i < |r| && r[i].full
  }

  /** What each answer means, in terms of the entries at or before the sample. */
  lemma AnswerMeaning(s: seq<Entry>, sample: ProtocolTime, now: nat)
    ensures var r, m := Relevant(s, sample), Resolved(s, sample, now);
            if r == [] then m.confidence == Missing && !m.validData
            else
              var last, whole := r[|r| - 1], HasFull(r) && RequiredKnown(m.state);
              var recent := last.arrival <= now < last.arrival + 2_000_000_000 && !EndsBefore(last.effective, sample);
              && m.state == ResolvedState(r) && m.effective == last.effective
              && m.events == (if sample == last.effective then last.events else NO_LOSS)
              && (m.confidence == Ambiguous <==> Clashes(r))
              && (m.confidence == Stale <==> !Clashes(r) && !recent)
              && (m.confidence == Missing <==> !Clashes(r) && recent && !whole)
              && (m.confidence == Certain <==> !Clashes(r) && recent && whole && last.full)
              && (m.validData <==> m.confidence in {Certain, IncompleteDelta} && m.state.events.validity == IsKnown
                                   && m.state.events.word.validEnable && m.state.events.word.valid)
  {
    hide ResolvedState, RequiredKnown, EndsBefore, Clashes, HasFull, Contributing, LastFull;
    var r := Relevant(s, sample);
    hide Relevant;
    ContributingClash(r);
  }

  /** The contributing entries are those that no full entry follows. */
  lemma ContributingClash(r: seq<Entry>)
    ensures (exists e :: e in Contributing(r) && e.conflict) <==> Clashes(r)
    ensures LastFull(r).None? <==> !HasFull(r)
  {
    var k, c := LastFull(r), Contributing(r);
    hide LastFull;
    var from := if k.Some? then k.value else 0;
    assert c == r[from..];
    if Clashes(r) {
      var i :| 0 <= i < |r| && r[i].conflict && forall j :: i < j < |r| ==> !r[j].full;
      assert i >= from;
      assert r[i] == c[i - from];
    }
    forall e | e in c && e.conflict
      ensures Clashes(r)
    {
      var p :| 0 <= p < |c| && c[p] == e;
      assert r[from + p] == e;
    }
  }
}
