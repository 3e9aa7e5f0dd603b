/** Packet counters by sender, stream and packet type (include/vita/runtime/stream/counters.hpp). */
module Counters {
  import opened Core

  datatype CounterKey = CounterKey(sender: nat, streamId: Option<nat>, kind: nat)

  datatype Entry = Entry(key: CounterKey, next: nat)

  /** An accepted packet and the count it carried. */
  datatype Counted = Counted(key: CounterKey, count: nat)

  /** Packets of a key in a log. */
  function Tally(log: seq<Counted>, key: CounterKey): nat {
    if log == [] then 0 else Tally(log[..|log| - 1], key) + if log[|log| - 1].key == key then 1 else 0
  }

  /** The k-th packet of each key carries k modulo 16. */
  ghost predicate InSequence(log: seq<Counted>) {
    forall k :: 0 <= k < |log| ==> log[k].count == Tally(log[..k], log[k].key) % 16
  }

  lemma InSequenceAppend(log: seq<Counted>, c: Counted)
    requires InSequence(log) && c.count == Tally(log, c.key) % 16
    ensures InSequence(log + [c])
    ensures forall key :: Tally(log + [c], key) == Tally(log, key) + if key == c.key then 1 else 0
  {
    var grown := log + [c];
    assert grown[..|log|] == log;
    forall k | 0 <= k < |grown|
      ensures grown[k].count == Tally(grown[..k], grown[k].key) % 16
    {
      assert k < |log| ==> grown[..k] == log[..k];
    }
  }

  /** Every registered key expects the count of its next packet; other keys never sent. */
  ghost predicate Expecting(entries: seq<Option<Entry>>, log: seq<Counted>) {
    && (forall i :: 0 <= i < |entries| && entries[i].Some? ==>
          entries[i].value.next == Tally(log, entries[i].value.key) % 16)
    && (forall i, j :: 0 <= i < j < |entries| && entries[i].Some? && entries[j].Some? ==>
          entries[i].value.key != entries[j].value.key)
    && (forall key :: Tally(log, key) > 0 ==> Registered(entries, key))
  }

  predicate Registered(entries: seq<Option<Entry>>, key: CounterKey) {
    exists i :: 0 <= i < |entries| && entries[i].Some? && entries[i].value.key == key
  }

  predicate ValidKey(key: CounterKey) {
    key.kind <= 7 && ((key.kind == 0 || key.kind == 2) != key.streamId.Some?)
  }

  class CounterRegistry {
    const entries: array<Option<Entry>>
    var frozen: bool
    /** Every acceptance, in order. */
    ghost var log: seq<Counted>

    ghost predicate Valid()
      reads this, entries
    {
      Expecting(entries[..], log) && InSequence(log)
    }

    constructor (capacity: nat)
      ensures Valid() && fresh(entries) && entries.Length == capacity && !frozen && log == []
    {
      entries := new Option<Entry>[capacity](_ => None);
      frozen := false;
      log := [];
    }

    method Find(key: CounterKey) returns (i: nat)
      ensures i <= entries.Length
      ensures i < entries.Length ==> entries[i].Some? && entries[i].value.key == key
      ensures i == entries.Length ==> !Registered(entries[..], key)
    {
      i := 0;
      while i < entries.Length && !(entries[i].Some? && entries[i].value.key == key)
        invariant i <= entries.Length
        invariant forall j :: 0 <= j < i ==> !(entries[j].Some? && entries[j].value.key == key)
      {
        i := i + 1;
      }
    }

    method Add(key: CounterKey) returns (r: Result<()>)
      requires Valid()
      modifies entries
      ensures Valid()
      ensures r == if frozen then Err(InvalidState)
                   else if key.kind > 7 || (key.streamId.Some? <==> key.kind in {0, 2})
                           || Registered(old(entries[..]), key) then Err(InvalidArgument)
                   else if forall i :: 0 <= i < entries.Length ==> old(entries[i]).Some? then Err(CapacityExhausted)
                   else Ok(())
      ensures r.Ok? ==> forall other :: Registered(entries[..], other) <==>
                other == key || Registered(old(entries[..]), other)
      ensures r.Err? ==> entries[..] == old(entries[..])
    {
      if frozen {
        return Err(InvalidState);
      }
      if !ValidKey(key) {
        return Err(InvalidArgument);
      }
      var at := Find(key);
      if at < entries.Length {
        return Err(InvalidArgument);
      }
      var i := 0;
      while i < entries.Length && entries[i].Some?
        invariant i <= entries.Length && forall j :: 0 <= j < i ==> entries[j].Some?
      {
        i := i + 1;
      }
      if i == entries.Length {
        return Err(CapacityExhausted);
      }
      ghost var was := entries[..];
      entries[i] := Some(Entry(key, 0));
      AddKeeps(was, i, key, log);
      assert entries[..] == was[i := Some(Entry(key, 0))];
      RegisteredAdded(was, i, key);
      return Ok(());
    }

    method Freeze()
      requires Valid()
      modifies this`frozen
      ensures Valid() && frozen
    {
      frozen := true;
    }

    /** The count the next packet of a key must carry. */
    method Next(key: CounterKey) returns (r: Result<nat>)
      requires Valid()
      ensures r == if !frozen then Err(InvalidState)
                   else if !Registered(entries[..], key) then Err(InvalidArgument) else Ok(Tally(log, key) % 16)
    {
      if !frozen {
        return Err(InvalidState);
      }
      var i := Find(key);
      if i == entries.Length {
        return Err(InvalidArgument);
      }
      EntryExpects(entries[..], i, log);
      return Ok(entries[i].value.next);
    }

    /** Commits a packet that carries the expected count. */
    method Accept(key: CounterKey, count: nat) returns (r: Result<()>)
      requires Valid()
      modifies this`log, entries
      ensures Valid()
      ensures r == if !frozen then Err(InvalidState)
                   else if !Registered(old(entries[..]), key) then Err(InvalidArgument)
                   else if Tally(old(log), key) % 16 != count then Err(StaleGeneration) else Ok(())
      ensures log == old(log) + if r.Ok? then [Counted(key, count)] else []
      ensures r.Err? ==> entries[..] == old(entries[..])
      ensures forall other :: Registered(entries[..], other) == Registered(old(entries[..]), other)
    {
      hide Expecting, InSequence, Tally, Registered;
      if !frozen {
        return Err(InvalidState);
      }
      var i := Find(key);
      if i == entries.Length {
        return Err(InvalidArgument);
      }
      EntryExpects(entries[..], i, log);
      if entries[i].value.next != count {
        return Err(StaleGeneration);
      }
      ghost var was := entries[..];
      entries[i] := Some(Entry(key, (count + 1) % 16));
      assert entries[..] == was[i := Some(Entry(key, (count + 1) % 16))];
      AcceptKeeps(was, i, log, Counted(key, count));
      InSequenceAppend(log, Counted(key, count));
      log := log + [Counted(key, count)];
      return Ok(());
    }
  }

  lemma RegisteredAdded(entries: seq<Option<Entry>>, i: nat, key: CounterKey)
    requires i < |entries| && entries[i].None?
    ensures forall other :: Registered(entries[i := Some(Entry(key, 0))], other) <==>
              other == key || Registered(entries, other)
  {
    var t := entries[i := Some(Entry(key, 0))];
    assert t[i].Some? && t[i].value.key == key;
    forall other | Registered(entries, other)
      ensures Registered(t, other)
    {
      var j :| 0 <= j < |entries| && entries[j].Some? && entries[j].value.key == other;
      assert t[j] == entries[j];
    }
  }

  lemma EntryExpects(entries: seq<Option<Entry>>, i: nat, log: seq<Counted>)
    requires Expecting(entries, log) && i < |entries| && entries[i].Some?
    ensures entries[i].value.next == Tally(log, entries[i].value.key) % 16 && Registered(entries, entries[i].value.key)
  {
  }

  lemma AddKeeps(entries: seq<Option<Entry>>, i: nat, key: CounterKey, log: seq<Counted>)
    requires Expecting(entries, log) && i < |entries| && entries[i].None? && !Registered(entries, key)
    ensures Expecting(entries[i := Some(Entry(key, 0))], log)
  {
    var grown := entries[i := Some(Entry(key, 0))];
    assert Tally(log, key) == 0;
    forall other | Tally(log, other) > 0
      ensures Registered(grown, other)
    {
      var j :| 0 <= j < |entries| && entries[j].Some? && entries[j].value.key == other;
      assert grown[j] == entries[j];
    }
  }

  lemma RegisteredSame(entries: seq<Option<Entry>>, i: nat, next: nat, other: CounterKey)
    requires i < |entries| && entries[i].Some?
    ensures Registered(entries[i := Some(entries[i].value.(next := next))], other) == Registered(entries, other)
  {
    var t := entries[i := Some(entries[i].value.(next := next))];
    if Registered(entries, other) {
      var j :| 0 <= j < |entries| && entries[j].Some? && entries[j].value.key == other;
      assert t[j].Some? && t[j].value.key == other;
    }
  }

  lemma AcceptKeeps(entries: seq<Option<Entry>>, i: nat, log: seq<Counted>, c: Counted)
    requires Expecting(entries, log) && InSequence(log) && i < |entries| && entries[i].Some?
    requires entries[i].value == Entry(c.key, c.count)
    ensures var t := entries[i := Some(Entry(c.key, (c.count + 1) % 16))];
            Expecting(t, log + [c]) && forall other :: Registered(t, other) == Registered(entries, other)
  {
    hide Tally, InSequence;
    EntryExpects(entries, i, log);
    InSequenceAppend(log, c);
    var t := entries[i := Some(Entry(c.key, (c.count + 1) % 16))];
    forall other
      ensures Registered(t, other) == Registered(entries, other)
    {
      RegisteredSame(entries, i, (c.count + 1) % 16, other);
    }
    hide Registered;
    var grown := log + [c];
    forall j | 0 <= j < |t| && t[j].Some?
      ensures t[j].value.next == Tally(grown, t[j].value.key) % 16
    {
      if j == i {
        NextCount(Tally(log, c.key));
      } else {
        assert t[j] == entries[j] && entries[j].value.key != entries[i].value.key;
      }
    }
    forall key | Tally(grown, key) > 0
      ensures Registered(t, key)
    {
      assert key != c.key ==> Tally(log, key) > 0;
    }
  }

  lemma NextCount(n: nat)
    ensures (n % 16 + 1) % 16 == (n + 1) % 16
  {
  }
}
