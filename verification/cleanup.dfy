/**
 The hourly sweep `cleanUpRooms`, with the clock reading passed in as `now`.
 The server deletes entries while iterating the `Map`; since a JavaScript
 `Map` iterator tolerates deletion and visits every remaining entry once,
 the sweep keeps exactly the entries that are neither expired nor empty, in
 their original order.
 */
module Sweeper {
  import opened Wrappers
  import opened Seqs
  import opened RoomStore

  /** The eviction test: expired at `now`, or nobody in it. */
  predicate Evictable(room: Room, now: nat)
  {
    room.expiresAt <= now || |room.users| == 0
  }

  function CleanUpRooms(reg: Registry, now: nat): (r: Registry)
    ensures |r| <= |reg|
    ensures forall i :: 0 <= i < |r| ==> r[i] in reg && !Evictable(r[i].room, now)
    ensures forall i :: 0 <= i < |reg| && !Evictable(reg[i].room, now) ==> reg[i] in r
    ensures (forall i :: 0 <= i < |reg| ==> !Evictable(reg[i].room, now)) ==> r == reg
    ensures DistinctNames(reg) ==> DistinctNames(r)
  {
    var p := (e: Entry) => !Evictable(e.room, now);
    if DistinctNames(reg) then FilterKeepsDistinctNames(reg, p); Filter(reg, p)
    else Filter(reg, p)
  }

  /** The sweep as the loop in `cleanUpRooms` runs it, one entry at a time in insertion
      order: sweeping a registry extended by one entry sweeps the old part,
      keeping its order, and then keeps the new entry last exactly when it is
      neither expired nor empty. With `CleanUpRooms([], now) == []` this
      determines the sweep completely, survivors' order included. */
  lemma CleanUpRoomsStep(reg: Registry, e: Entry, now: nat)
    ensures CleanUpRooms(reg + [e], now) ==
      CleanUpRooms(reg, now) + (if Evictable(e.room, now) then [] else [e])
  {
    FilterConcat(reg, [e], (x: Entry) => !Evictable(x.room, now));
  }

  /** Filtering never brings two entries with the same name together. */
  lemma {:induction false} FilterKeepsDistinctNames(reg: Registry, p: Entry -> bool)
    requires DistinctNames(reg)
    ensures DistinctNames(Filter(reg, p))
  {
    if |reg| > 0 {
      FilterKeepsDistinctNames(reg[1..], p);
      var rest := Filter(reg[1..], p);
      forall k | 0 <= k < |rest|
        ensures rest[k].name != reg[0].name
      {
        var j :| 0 <= j < |reg[1..]| && reg[1..][j] == rest[k];
        assert reg[j + 1] == rest[k];
      }
    }
  }

  /** A sweep keeps the registry invariant. */
  lemma CleanUpPreservesValid(reg: Registry, now: nat)
    requires Valid(reg)
    ensures Valid(CleanUpRooms(reg, now))
  {
    var r := CleanUpRooms(reg, now);
    FilterKeepsDistinctNames(reg, (e: Entry) => !Evictable(e.room, now));
    forall i | 0 <= i < |r|
      ensures RoomInvariant(r[i].room)
    {
      var j :| 0 <= j < |reg| && reg[j] == r[i];
    }
  }

  /** In map terms: a room is still registered after the sweep exactly when it
      was registered and not evictable, and then it is unchanged. */
  lemma CleanUpLookup(reg: Registry, now: nat, name: string)
    requires DistinctNames(reg)
    ensures var before := Lookup(reg, name);
      Lookup(CleanUpRooms(reg, now), name) ==
        if before.Some? && !Evictable(before.value, now) then before else None
  {
    var r := CleanUpRooms(reg, now);
    FilterKeepsDistinctNames(reg, (e: Entry) => !Evictable(e.room, now));
    var after := Lookup(r, name);
    if after.Some? {
      var k :| 0 <= k < |r| && r[k].name == name;
      var i :| 0 <= i < |reg| && reg[i] == r[k];
    }
    var before := Lookup(reg, name);
    if before.Some? && !Evictable(before.value, now) {
      var i :| 0 <= i < |reg| && reg[i].name == name;
      assert reg[i] in r;
    }
  }

  /** Sweeping again at the same time changes nothing. */
  lemma CleanUpIdempotent(reg: Registry, now: nat)
    ensures CleanUpRooms(CleanUpRooms(reg, now), now) == CleanUpRooms(reg, now)
  {
    var p := (e: Entry) => !Evictable(e.room, now);
    FilterAbsorbs(reg, p, p);
  }

  /** An earlier sweep is subsumed by a later one: whatever a sweep at `t1`
      removes, a sweep at any `t2 >= t1` removes as well. */
  lemma CleanUpLaterAbsorbsEarlier(reg: Registry, t1: nat, t2: nat)
    requires t1 <= t2
    ensures CleanUpRooms(CleanUpRooms(reg, t1), t2) == CleanUpRooms(reg, t2)
  {
    FilterAbsorbs(reg, (e: Entry) => !Evictable(e.room, t1), (e: Entry) => !Evictable(e.room, t2));
  }
}
