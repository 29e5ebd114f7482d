/**
 The server's in-memory room registry: a JavaScript `Map` from room name to
 `{users, createdAt, expiresAt}`. A `Map` iterates in insertion order and that
 order is observable (the room list, the order of disconnect notices), so the
 registry is an association list of entries; `Lookup` and `Names` are its map
 view. Times are milliseconds since the epoch.
 */
module RoomStore {
  import opened Wrappers
  import opened Seqs

  /** One entry of a room's `users` array: the socket id and the display name. */
  datatype Member = Member(id: string, username: string)

  datatype Room = Room(users: seq<Member>, createdAt: nat, expiresAt: nat)

  datatype Entry = Entry(name: string, room: Room)

  type Registry = seq<Entry>

  /** A room lives for 24 hours after its creation. */
  const DayMillis: nat := 24 * 60 * 60 * 1000

  const Empty: Registry := []

  /** Position of the room called `name` (the first one, should there be two). */
  function IndexOf(reg: Registry, name: string): Option<nat>
  {
    FindIndex(reg, (e: Entry) => e.name == name)
  }

  /** `rooms.has(name)` */
  predicate Has(reg: Registry, name: string)
  {
    IndexOf(reg, name).Some?
  }

  /** `rooms.get(name)`, with `None` for `undefined`. */
  function Lookup(reg: Registry, name: string): (r: Option<Room>)
    ensures r.Some? <==> Has(reg, name)
    ensures r.Some? <==> exists i :: 0 <= i < |reg| && reg[i].name == name
    ensures forall i :: 0 <= i < |reg| && reg[i].name == name && DistinctNames(reg) ==> r == Some(reg[i].room)
  {
    match IndexOf(reg, name)
    case None => None
    case Some(i) => Some(reg[i].room)
  }

  /** The keys of the map, in insertion order. */
  function Names(reg: Registry): seq<string>
  {
    seq(|reg|, i requires 0 <= i < |reg| => reg[i].name)
  }

  /** `rooms.set(name, room)`: overwrite in place when the key is present,
      otherwise append a new key at the end of the iteration order. */
  function Put(reg: Registry, name: string, room: Room): (r: Registry)
    ensures Lookup(r, name) == Some(room)
    ensures forall n :: n != name ==> Lookup(r, n) == Lookup(reg, n)
    ensures Has(reg, name) ==> Names(r) == Names(reg)
    ensures !Has(reg, name) ==> Names(r) == Names(reg) + [name]
  {
    match IndexOf(reg, name)
    case Some(i) =>
      var r := reg[i := Entry(name, room)];
      PutOthers(reg, i, name, room);
      assert Names(r) == Names(reg);
      r
    case None =>
      var r := reg + [Entry(name, room)];
      AppendOthers(reg, name, room);
      assert Names(r) == Names(reg) + [name];
      r
  }

  lemma PutOthers(reg: Registry, i: nat, name: string, room: Room)
    requires i < |reg| && reg[i].name == name
    ensures forall n :: IndexOf(reg[i := Entry(name, room)], n) == IndexOf(reg, n)
  {
    var r := reg[i := Entry(name, room)];
    forall n
      ensures IndexOf(r, n) == IndexOf(reg, n)
    {
      FindIndexCongruent(r, (e: Entry) => e.name == n, reg, (e: Entry) => e.name == n);
    }
  }

  lemma AppendOthers(reg: Registry, name: string, room: Room)
    requires !Has(reg, name)
    ensures forall n :: n != name ==> Lookup(reg + [Entry(name, room)], n) == Lookup(reg, n)
    ensures IndexOf(reg + [Entry(name, room)], name) == Some(|reg|)
  {
    var r := reg + [Entry(name, room)];
    var q := (e: Entry) => e.name == name;
    assert q(r[|reg|]);
    assert forall j :: 0 <= j < |reg| ==> r[j] == reg[j];
    forall n | n != name
      ensures Lookup(r, n) == Lookup(reg, n)
    {
      var p := (e: Entry) => e.name == n;
      FindIndexCongruent(r[..|reg|], p, reg, p);
      assert r[..|reg|] == reg;
      if FindIndex(r, p).Some? {
        assert FindIndex(r, p).value < |reg|;
      }
    }
  }

  /** The display names of a member list, in join order (`users.map(u => u.username)`). */
  function Usernames(users: seq<Member>): (r: seq<string>)
    ensures |r| == |users|
  {
    seq(|users|, i requires 0 <= i < |users| => users[i].username)
  }

  /** `users.some(user => user.username === username)`: exact, case-sensitive match. */
  predicate UsernameTaken(users: seq<Member>, username: string)
  {
    Any(users, (u: Member) => u.username == username)
  }

  lemma UsernameTakenIffListed(users: seq<Member>, username: string)
    ensures UsernameTaken(users, username) <==> username in Usernames(users)
  {
    if username in Usernames(users) {
      var i :| 0 <= i < |users| && Usernames(users)[i] == username;
      assert ((u: Member) => u.username == username)(users[i]);
    }
    if UsernameTaken(users, username) {
      var k := FindIndex(users, (u: Member) => u.username == username).value;
      assert Usernames(users)[k] == username;
    }
  }

  predicate DistinctNames(reg: Registry)
  {
    forall i, j :: 0 <= i < j < |reg| ==> reg[i].name != reg[j].name
  }

  predicate DistinctUsernames(users: seq<Member>)
  {
    forall i, j :: 0 <= i < j < |users| ==> users[i].username != users[j].username
  }

  /** What every room satisfies: it expires after it was created and no two
      of its members share a display name. */
  predicate RoomInvariant(room: Room)
  {
    room.createdAt < room.expiresAt && DistinctUsernames(room.users)
  }

  /** The registry invariant: one entry per key, every room well formed. */
  predicate Valid(reg: Registry)
  {
    DistinctNames(reg) && forall i :: 0 <= i < |reg| ==> RoomInvariant(reg[i].room)
  }
}
