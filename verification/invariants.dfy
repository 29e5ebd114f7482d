/**
 Every handler keeps the registry invariant: room names are unique, every
 room expires after it was created, and no two members of a room share a
 display name. Together with the sweep (see `Sweeper.CleanUpPreservesValid`)
 this covers every transition the server applies to the registry.
 */
module Invariants {
  import opened RoomStore
  import opened Handlers

  lemma PutPreservesValid(reg: Registry, name: string, room: Room)
    requires Valid(reg) && RoomInvariant(room)
    ensures Valid(Put(reg, name, room))
  {
    var r := Put(reg, name, room);
    match IndexOf(reg, name)
    case Some(i) =>
      assert r == reg[i := Entry(name, room)];
      assert forall j :: 0 <= j < |r| ==> r[j].name == reg[j].name;
    case None =>
      assert r == reg + [Entry(name, room)];
  }

  /** A member whose name is not yet listed can be appended without a clash. */
  lemma AppendKeepsUsernamesDistinct(users: seq<Member>, m: Member)
    requires DistinctUsernames(users) && m.username !in Usernames(users)
    ensures DistinctUsernames(users + [m])
  {
    var u := users + [m];
    forall i, j | 0 <= i < j < |u|
      ensures u[i].username != u[j].username
    {
      if j == |users| {
        assert Usernames(users)[i] == u[i].username;
      }
    }
  }

  /** Removing one member keeps the remaining names distinct. */
  lemma RemoveKeepsUsernamesDistinct(users: seq<Member>, i: nat)
    requires i < |users| && DistinctUsernames(users)
    ensures DistinctUsernames(users[..i] + users[i + 1..])
  {
    var r := users[..i] + users[i + 1..];
    forall a, b | 0 <= a < b < |r|
      ensures r[a].username != r[b].username
    {
      var a' := if a < i then a else a + 1;
      var b' := if b < i then b else b + 1;
      assert r[a] == users[a'] && r[b] == users[b'];
    }
  }

  lemma CreateRoomPreservesValid(reg: Registry, now: nat, username: string, room: string)
    requires Valid(reg)
    ensures Valid(CreateRoom(reg, now, username, room).state)
  {
    if !Has(reg, room) {
      PutPreservesValid(reg, room, Room([], now, now + DayMillis));
    }
  }

  lemma JoinRoomPreservesValid(reg: Registry, now: nat, id: string, username: string, room: string)
    requires Valid(reg)
    ensures Valid(JoinRoom(reg, now, id, username, room).state)
  {
    match Lookup(reg, room)
    case None =>
    case Some(data) =>
      UsernameTakenIffListed(data.users, username);
      if !UsernameTaken(data.users, username) {
        var i := IndexOf(reg, room).value;
        assert data == reg[i].room;
        AppendKeepsUsernamesDistinct(data.users, Member(id, username));
        PutPreservesValid(reg, room, data.(users := data.users + [Member(id, username)]));
      }
  }

  lemma DisconnectPreservesValid(reg: Registry, id: string)
    requires Valid(reg)
    ensures Valid(Disconnect(reg, id).state)
  {
    var r := Disconnect(reg, id).state;
    forall i | 0 <= i < |r|
      ensures RoomInvariant(r[i].room)
    {
      if HasMember(reg[i].room, id) {
        RemoveKeepsUsernamesDistinct(reg[i].room.users, FirstWithId(reg[i].room.users, id).value);
      }
    }
  }
}
