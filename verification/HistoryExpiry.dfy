/**
 What expiry does to the answers of a receiver history
 (include/vita/runtime/context/receiver.hpp, resolve and expire).
 */
module HistoryExpiry {
  import opened Core
  import opened Time
  import opened ContextState
  import opened ReceiverHistories

  /** An entry that alone can give a certain answer. */
  predicate Usable(e: Entry) {
    e.full && !e.conflict && RequiredKnown(e.state)
  }

  predicate Recent(e: Entry, now: nat) {
    e.arrival <= now < e.arrival + 2_000_000_000
  }

  /** State holds for less than two seconds after its time. */
  lemma EndsBeforeMeaning(t: ProtocolTime, sample: ProtocolTime)
    requires ValidTime(t) && ValidTime(sample)
    ensures EndsBefore(t, sample) <==> Total(t) + 2_000_000_000_000 <= Total(sample)
  {
    hide Total;
    AddMeaning(t, Duration(2, 0));
    BelowEnd(sample);
    if Add(t, Duration(2, 0)).Ok? {
      OrderIsTotal(sample, Add(t, Duration(2, 0)).value);
    }
  }

  lemma BelowEnd(t: ProtocolTime)
    requires ValidTime(t)
    ensures Total(t) < END_OF_TIME
  {
  }

  /** The certain answer an entry gives for a sample. */
  function AnswerFrom(e: Entry, sample: ProtocolTime): Metadata {
    Metadata(e.state, e.effective, Certain, if sample == e.effective then e.events else NO_LOSS,
             e.state.events.validity == IsKnown && e.state.events.word.validEnable && e.state.events.word.valid)
  }

  /** An answer is certain exactly when the last entry at or before the sample is usable, recent and near enough. */
  lemma CertainMeaning(s: seq<Entry>, sample: ProtocolTime, now: nat)
    ensures var r := Relevant(s, sample);
            Resolved(s, sample, now).confidence == Certain <==>
            r != [] && Usable(r[|r| - 1]) && Recent(r[|r| - 1], now) && !EndsBefore(r[|r| - 1].effective, sample)
    ensures var r := Relevant(s, sample);
            Resolved(s, sample, now).confidence == Certain ==>
                r != [] && Resolved(s, sample, now) == AnswerFrom(r[|r| - 1], sample)
  {
    hide Relevant, EndsBefore, RequiredKnown, LastFull, ResolvedState, Contributing;
    var r := Relevant(s, sample);
    if r != [] {
      var last := r[|r| - 1];
      assert r == r[..|r| - 1] + [last];
      LastFullAppend(r[..|r| - 1], last);
      ResolvedStateAppend(r[..|r| - 1], last);
      if last.full {
        assert Contributing(r) == [last] && last in Contributing(r);
      }
    }
  }

  // ----- Which entries survive -----

  /** Index of the last entry that lives. */
  function LastLiving(s: seq<Entry>, now: nat): (k: Option<nat>)
    ensures k.Some? ==> k.value < |s| && Lives(s[k.value], now) && forall i :: k.value < i < |s| ==> !Lives(s[i], now)
    ensures k.None? ==> forall i :: 0 <= i < |s| ==> !Lives(s[i], now)
  {
    if s == [] then None
    else if Lives(s[|s| - 1], now) then Some(|s| - 1)
    else LastLiving(s[..|s| - 1], now)
  }

  lemma {:induction false} LivingLast(s: seq<Entry>, now: nat)
    ensures match LastLiving(s, now)
            case None => Living(s, now) == []
            case Some(k) => Living(s, now) != [] && Living(s, now)[|Living(s, now)| - 1] == s[k]
  {
    if s != [] && !Lives(s[|s| - 1], now) {
      LivingLast(s[..|s| - 1], now);
    }
  }

  lemma {:induction false} LivingAppend(a: seq<Entry>, b: seq<Entry>, now: nat)
    ensures Living(a + b, now) == Living(a, now) + Living(b, now)
  {
    if b == [] {
      assert a + b == a;
    } else {
      var last := b[|b| - 1];
      LivingAppend(a, b[..|b| - 1], now);
      assert (a + b)[..|a + b| - 1] == a + b[..|b| - 1];
      assert (a + b)[|a + b| - 1] == last;
    }
  }

  /** Expiry and the choice of relevant entries commute. */
  lemma RelevantLiving(s: seq<Entry>, sample: ProtocolTime, now: nat)
    requires Sorted(s)
    ensures Relevant(Living(s, now), sample) == Living(Relevant(s, sample), now)
  {
    hide Living, Relevant;
    var r := Relevant(s, sample);
    var later := s[|r|..];
    assert s == r + later;
    LivingAppend(r, later, now);
    var kept, gone := Living(r, now), Living(later, now);
    LivingSorted(r, now);
    LivingSorted(later, now);
    forall e | e in later
      ensures Before(sample, e.effective)
    {
      var i :| 0 <= i < |later| && later[i] == e;
      assert e == s[|r| + i];
      if i > 0 {
        assert Before(s[|r|].effective, s[|r| + i].effective);
      }
    }
    forall i | 0 <= i < |kept|
      ensures !Before(sample, kept[i].effective)
    {
      assert kept[i] in r;
    }
    assert |gone| > 0 ==> gone[0] in gone && gone[0] in later;
    RelevantUnique(kept + gone, sample, |kept|);
    assert (kept + gone)[..|kept|] == kept;
  }

  // ----- Theorems -----

  /** Expiry does not change a certain answer given at that moment or later. */
  lemma ExpiryKeepsCertain(s: seq<Entry>, sample: ProtocolTime, now: nat, later: nat)
    requires Sorted(s) && now <= later
    requires Resolved(s, sample, later).confidence == Certain
    ensures Resolved(Living(s, now), sample, later) == Resolved(s, sample, later)
  {
    hide Resolved, Living, Relevant, EndsBefore, RequiredKnown;
    var r := Relevant(s, sample);
    CertainMeaning(s, sample, later);
    RelevantLiving(s, sample, now);
    LivingLast(r, now);
    assert Lives(r[|r| - 1], now);
    CertainMeaning(Living(s, now), sample, later);
  }

  /** No sample gains a certain answer, now or later, by expiring at `now`. */
  ghost predicate NothingRevived(s: seq<Entry>, now: nat) {
    forall sample: ProtocolTime, later: nat ::
      now <= later && Resolved(Living(s, now), sample, later).confidence == Certain ==>
          Resolved(s, sample, later).confidence == Certain
  }

  /** An entry about to expire directly after a usable one that stays, less than two seconds earlier. */
  predicate Exposes(s: seq<Entry>, i: nat, now: nat)
    requires i + 1 < |s|
  {
    Usable(s[i]) && Lives(s[i], now) && !Lives(s[i + 1], now) && !EndsBefore(s[i].effective, s[i + 1].effective)
  }

  lemma EndsBeforeMonotone(t: ProtocolTime, a: ProtocolTime, b: ProtocolTime)
    requires EndsBefore(t, a) && !Before(b, a)
    ensures EndsBefore(t, b)
  {
  }

  lemma RevivedIsExposed(s: seq<Entry>, sample: ProtocolTime, now: nat, later: nat) returns (i: nat)
    requires Sorted(s) && now <= later
    requires Resolved(Living(s, now), sample, later).confidence == Certain
    requires Resolved(s, sample, later).confidence != Certain
    ensures i + 1 < |s| && Exposes(s, i, now)
  {
    hide Resolved, Living, Relevant, EndsBefore, RequiredKnown;
    var r := Relevant(s, sample);
    RelevantLiving(s, sample, now);
    LivingLast(r, now);
    CertainMeaning(Living(s, now), sample, later);
    CertainMeaning(s, sample, later);
    i := LastLiving(r, now).value;
    assert i + 1 < |r| && r[i + 1] == s[i + 1] && r[i] == s[i];
    if EndsBefore(s[i].effective, s[i + 1].effective) {
      EndsBeforeMonotone(s[i].effective, s[i + 1].effective, sample);
      assert false;
    }
  }

  lemma ExposedIsRevived(s: seq<Entry>, i: nat, now: nat)
    requires Sorted(s) && i + 1 < |s| && Exposes(s, i, now)
    ensures !NothingRevived(s, now)
  {
    hide Resolved, Living, Relevant, EndsBefore, RequiredKnown;
    var sample := s[i + 1].effective;
    var later := if now < s[i].arrival then s[i].arrival else now;
    forall k | i + 1 < k < |s|
      ensures Before(sample, s[k].effective)
    {
    }
    forall k | 0 <= k < i + 2
      ensures !Before(sample, s[k].effective)
    {
      assert k < i + 1 ==> Before(s[k].effective, s[i + 1].effective);
    }
    RelevantUnique(s, sample, i + 2);
    var r := s[..i + 2];
    RelevantLiving(s, sample, now);
    LivingLast(r, now);
    assert LastLiving(r, now) == Some(i);
    CertainMeaning(Living(s, now), sample, later);
    CertainMeaning(s, sample, later);
    assert Resolved(Living(s, now), sample, later).confidence == Certain;
    assert Resolved(s, sample, later).confidence != Certain;
  }

  /** Exactly when expiry revives an answer: some entry about to expire follows one that stays and is still usable. */
  lemma ExpiryRevives(s: seq<Entry>, now: nat)
    requires Sorted(s)
    ensures NothingRevived(s, now) <==> forall i: nat :: i + 1 < |s| ==> !Exposes(s, i, now)
  {
    hide Resolved, Living;
    if !NothingRevived(s, now) {
      var sample, later :| now <= later && Resolved(Living(s, now), sample, later).confidence == Certain
                           && Resolved(s, sample, later).confidence != Certain;
      var i := RevivedIsExposed(s, sample, now, later);
    } else if i: nat :| i + 1 < |s| && Exposes(s, i, now) {
      ExposedIsRevived(s, i, now);
    }
  }

  ghost predicate ArrivedInOrder(s: seq<Entry>) {
    forall i, j :: 0 <= i < j < |s| ==> s[i].arrival <= s[j].arrival
  }

  /** When entries arrived in time order, expiry keeps every certain answer and creates none. */
  lemma InOrderExpiryIsInvisible(s: seq<Entry>, sample: ProtocolTime, now: nat, later: nat)
    requires Sorted(s) && ArrivedInOrder(s) && now <= later
    ensures Resolved(Living(s, now), sample, later).confidence == Certain <==>
              Resolved(s, sample, later).confidence == Certain
    ensures Resolved(s, sample, later).confidence == Certain ==>
              Resolved(Living(s, now), sample, later) == Resolved(s, sample, later)
  {
    hide Resolved, Living, Usable, EndsBefore;
    forall i: nat | i + 1 < |s|
      ensures !Exposes(s, i, now)
    {
      assert s[i].arrival <= s[i + 1].arrival;
    }
    ExpiryRevives(s, now);
    if Resolved(s, sample, later).confidence == Certain {
      ExpiryKeepsCertain(s, sample, now, later);
    }
  }

  /** A late-arriving older entry outlives the newer one, and a stale answer becomes certain. */
  lemma OutOfOrderExpiryRevives(state: Snapshot)
    requires RequiredKnown(state)
    ensures var s := [Entry(state, ProtocolTime(0, 0), 1, NO_LOSS, true, false),
                      Entry(state, ProtocolTime(1, 0), 0, NO_LOSS, true, false)];
            var now, sample := 2_000_000_000, ProtocolTime(1, 0);
            && Resolved(s, sample, now).confidence == Stale
            && Resolved(Living(s, now), sample, now).confidence == Certain
            && Resolved(Living(s, now), sample, now).effective == ProtocolTime(0, 0)
  {
    hide RequiredKnown;
    var a, b := Entry(state, ProtocolTime(0, 0), 1, NO_LOSS, true, false),
        Entry(state, ProtocolTime(1, 0), 0, NO_LOSS, true, false);
    var s := [a, b];
    var now, sample := LIFETIME_NS, ProtocolTime(1, 0);
    RelevantUnique(s, sample, 2);
    assert s[..2] == s && s[..1] == [a];
    assert Contributing(s) == [b];
    assert Living([a], now) == [a];
    assert Living(s, now) == [a];
    RelevantUnique([a], sample, 1);
    assert [a][..1] == [a];
    CertainMeaning([a], sample, now);
  }
}
