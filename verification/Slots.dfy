/** Fixed arrays of optional places, as both ends of the protocol use them. */
module Slots {
  import opened Core

  function Occupied<T>(h: seq<Option<T>>): (n: nat)
    ensures n <= |h|
  {
    if h == [] then 0 else Occupied(h[..|h| - 1]) + if h[|h| - 1].Some? then 1 else 0
  }

  lemma {:induction false} OccupiedUpdate<T>(h: seq<Option<T>>, i: nat, x: Option<T>)
    requires i < |h|
    ensures Occupied(h[i := x]) == Occupied(h) - (if h[i].Some? then 1 else 0) + (if x.Some? then 1 else 0)
  {
    var n := |h| - 1;
    if i == n {
      assert h[i := x][..n] == h[..n];
    } else {
      assert h[i := x][..n] == h[..n][i := x];
      OccupiedUpdate(h[..n], i, x);
    }
  }

  lemma OccupiedBounds<T>(h: seq<Option<T>>)
    ensures Occupied(h) == 0 <==> forall i :: 0 <= i < |h| ==> h[i].None?
    ensures Occupied(h) == |h| <==> forall i :: 0 <= i < |h| ==> h[i].Some?
  {
    hide Occupied;
    OccupiedNone(h);
    OccupiedAll(h);
  }

  lemma {:induction false} OccupiedNone<T>(h: seq<Option<T>>)
    ensures Occupied(h) == 0 <==> forall i :: 0 <= i < |h| ==> h[i].None?
  {
    if h != [] {
      OccupiedNone(h[..|h| - 1]);
    }
  }

  lemma {:induction false} OccupiedAll<T>(h: seq<Option<T>>)
    ensures Occupied(h) == |h| <==> forall i :: 0 <= i < |h| ==> h[i].Some?
  {
    if h != [] {
      OccupiedAll(h[..|h| - 1]);
    }
  }
}
