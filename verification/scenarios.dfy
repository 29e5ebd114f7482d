/**
 End-to-end runs of the handlers: the behaviours a user of the chat service
 observes, including two consequences of the server's design that are easy
 to miss — a freshly created room is empty until someone sends 'join_room',
 and a socket that joins a room twice under two names leaves one of them
 behind when it disconnects.
 */
module Scenarios {
  import opened Wrappers
  import opened RoomStore
  import opened Events
  import opened Handlers
  import opened Sweeper
  import opened Invariants
  import opened HandlerProperties

  const Hour: nat := 60 * 60 * 1000

  /** Two users join "R" in turn; a third connection asking for a taken name is
      refused and the room keeps its two members, listed in join order. */
  lemma JoinOrderAndDuplicateName(t0: nat)
    ensures var s1 := CreateRoom(Empty, t0, "alice", "R");
      var s2 := JoinRoom(s1.state, t0 + 1, "a1", "alice", "R");
      var s3 := JoinRoom(s2.state, t0 + 2, "b1", "bob", "R");
      var s4 := JoinRoom(s3.state, t0 + 3, "c1", "alice", "R");
      && Lookup(s3.state, "R") == Some(Room([Member("a1", "alice"), Member("b1", "bob")], t0, t0 + DayMillis))
      && s3.events[0] == OutEvent(ToRoom("R"), UserJoined("bob", "R", ["alice", "bob"]))
      && s3.events[2] == OutEvent(Sender, RoomInfo("R", t0, t0 + DayMillis, 2))
      && ListRooms(s3.state).events[0].payload.rooms == [RoomSummary("R", 2, t0, t0 + DayMillis)]
      && s4.state == s3.state
      && s4.events == [OutEvent(Sender, RoomError(UsernameTakenMessage("alice")))]
  {
    var s1 := CreateRoom(Empty, t0, "alice", "R");
    var s2 := JoinRoom(s1.state, t0 + 1, "a1", "alice", "R");
    var s3 := JoinRoom(s2.state, t0 + 2, "b1", "bob", "R");
    var r0 := Room([], t0, t0 + DayMillis);
    assert Lookup(s1.state, "R") == Some(r0);
    assert Has(s1.state, "R");
    assert Usernames(r0.users) == [];
    assert "alice" !in Usernames(r0.users);
    assert r0.users + [Member("a1", "alice")] == [Member("a1", "alice")];
    var r1 := r0.(users := [Member("a1", "alice")]);
    assert Lookup(s2.state, "R") == Some(r1);
    assert Has(s2.state, "R");
    assert Usernames(r1.users) == ["alice"];
    assert "bob" != "alice";
    assert "bob" !in Usernames(r1.users);
    var r2 := r1.(users := [Member("a1", "alice"), Member("b1", "bob")]);
    assert r1.users + [Member("b1", "bob")] == r2.users;
    assert Lookup(s3.state, "R") == Some(r2);
    assert Usernames(r2.users) == ["alice", "bob"];
    assert Names(s3.state) == ["R"];
    assert s3.state[0].name == "R";
    assert s3.state == [Entry("R", r2)];
  }

  /** The creator is not a member, so a sweep that runs before anybody joins
      evicts the new room at once, and the creator's 'join_room' then fails. */
  lemma FreshRoomSweptBeforeJoin(reg: Registry, now: nat, sweepAt: nat, id: string, username: string, room: string)
    requires Valid(reg) && !Has(reg, room)
    ensures var created := CreateRoom(reg, now, username, room).state;
      var swept := CleanUpRooms(created, sweepAt);
      && Lookup(swept, room).None?
      && JoinRoom(swept, sweepAt, id, username, room).events ==
           [OutEvent(Sender, RoomError(RoomMissingMessage(room)))]
  {
    var created := CreateRoom(reg, now, username, room).state;
    CreateRoomPreservesValid(reg, now, username, room);
    CleanUpLookup(created, sweepAt, room);
  }

  /** Nothing stops one socket from joining a room twice under two names; on
      disconnect only the first of its members leaves, the other stays. */
  lemma DoubleJoinLeavesStaleMember(t0: nat)
    ensures var s1 := CreateRoom(Empty, t0, "alice", "R");
      var s2 := JoinRoom(s1.state, t0 + 1, "s1", "alice", "R");
      var s3 := JoinRoom(s2.state, t0 + 2, "s1", "bob", "R");
      var d := Disconnect(s3.state, "s1");
      && Lookup(s3.state, "R").value.users == [Member("s1", "alice"), Member("s1", "bob")]
      && Lookup(d.state, "R") == Some(Room([Member("s1", "bob")], t0, t0 + DayMillis))
      && d.events == [OutEvent(ToRoom("R"), UserLeft("alice", ["bob"]))]
  {
    var s1 := CreateRoom(Empty, t0, "alice", "R");
    var s2 := JoinRoom(s1.state, t0 + 1, "s1", "alice", "R");
    var s3 := JoinRoom(s2.state, t0 + 2, "s1", "bob", "R");
    var r0 := Room([], t0, t0 + DayMillis);
    assert Lookup(s1.state, "R") == Some(r0);
    assert Has(s1.state, "R");
    assert Usernames(r0.users) == [];
    assert "alice" !in Usernames(r0.users);
    assert r0.users + [Member("s1", "alice")] == [Member("s1", "alice")];
    var r1 := r0.(users := [Member("s1", "alice")]);
    assert Lookup(s2.state, "R") == Some(r1);
    assert Has(s2.state, "R");
    assert Usernames(r1.users) == ["alice"];
    assert "bob" != "alice";
    assert "bob" !in Usernames(r1.users);
    var users := [Member("s1", "alice"), Member("s1", "bob")];
    assert r1.users + [Member("s1", "bob")] == users;
    assert Lookup(s3.state, "R") == Some(r1.(users := users));
    assert Names(s3.state) == ["R"];
    assert s3.state[0].name == "R";
    assert s3.state == [Entry("R", Room(users, t0, t0 + DayMillis))];
    assert FirstWithId(users, "s1") == Some(0);
    assert users[..0] + users[1..] == [Member("s1", "bob")];
    assert Usernames([Member("s1", "bob")]) == ["bob"];
    var d := Disconnect(s3.state, "s1");
    var left := LeaveRoom(s3.state[0], "s1");
    assert left.0 == Entry("R", Room([Member("s1", "bob")], t0, t0 + DayMillis));
    assert d.state == [left.0];
    var hit := RoomsHolding(s3.state, "s1");
    assert ((e: Entry) => HasMember(e.room, "s1"))(s3.state[0]);
    assert s3.state[0] in hit;
    assert hit == [s3.state[0]];
    assert [d.events[0]] == left.1;
  }

  /** A populated room survives a sweep 23 hours after creation, and is gone
      after a sweep 25 hours after creation whatever its membership. */
  lemma RoomLivesOneDay(reg: Registry, t0: nat, username: string, room: string, id: string)
    requires Valid(reg) && !Has(reg, room)
    ensures var created := CreateRoom(reg, t0, username, room).state;
      var joined := JoinRoom(created, t0, id, username, room).state;
      && Lookup(CleanUpRooms(joined, t0 + 23 * Hour), room).Some?
      && Lookup(CleanUpRooms(joined, t0 + 25 * Hour), room).None?
  {
    var created := CreateRoom(reg, t0, username, room).state;
    CreateRoomPreservesValid(reg, t0, username, room);
    var joined := JoinRoom(created, t0, id, username, room).state;
    JoinRoomPreservesValid(created, t0, id, username, room);
    CleanUpLookup(joined, t0 + 23 * Hour, room);
    CleanUpLookup(joined, t0 + 25 * Hour, room);
  }

  /** When its sole member disconnects, a room is removed by the next sweep. */
  lemma SoleMemberLeavesThenSwept(reg: Registry, t0: nat, username: string, room: string, id: string, sweepAt: nat)
    requires Valid(reg) && !Has(reg, room)
    ensures var created := CreateRoom(reg, t0, username, room).state;
      var joined := JoinRoom(created, t0, id, username, room).state;
      var left := Disconnect(joined, id);
      && Lookup(left.state, room).value.users == []
      && Lookup(CleanUpRooms(left.state, sweepAt), room).None?
  {
    var created := CreateRoom(reg, t0, username, room).state;
    CreateRoomPreservesValid(reg, t0, username, room);
    var joined := JoinRoom(created, t0, id, username, room).state;
    JoinRoomPreservesValid(created, t0, id, username, room);
    var left := Disconnect(joined, id);
    DisconnectPreservesValid(joined, id);
    DisconnectLookup(joined, id, room);
    var members := [Member(id, username)];
    assert Lookup(joined, room).value.users == members;
    assert FirstWithId(members, id) == Some(0);
    CleanUpLookup(left.state, sweepAt, room);
  }

  /** The username test is exact: a name differing only in letter case is a
      different name and is admitted. */
  lemma UsernameMatchIsCaseSensitive(reg: Registry, now: nat, room: string, r: Room, id: string)
    requires Lookup(reg, room) == Some(r) && Usernames(r.users) == ["alice"]
    ensures var s := JoinRoom(reg, now, id, "Alice", room);
      && Lookup(s.state, room) == Some(r.(users := r.users + [Member(id, "Alice")]))
      && s.events[2] == OutEvent(Sender, RoomInfo(room, r.createdAt, r.expiresAt, 2))
  {
    assert "Alice" != "alice";
    assert "Alice" !in Usernames(r.users);
  }

  /** The server itself checks no field for emptiness: an empty room name and
      an empty username are registered like any other. */
  lemma EmptyFieldsAccepted(reg: Registry, now: nat, id: string)
    requires !Has(reg, "")
    ensures var created := CreateRoom(reg, now, "", "");
      var joined := JoinRoom(created.state, now, id, "", "");
      && created.events[0] == OutEvent(Sender, RoomCreated(""))
      && Lookup(joined.state, "") == Some(Room([Member(id, "")], now, now + DayMillis))
  {
    var created := CreateRoom(reg, now, "", "");
    var r0 := Room([], now, now + DayMillis);
    assert Lookup(created.state, "") == Some(r0);
    assert Has(created.state, "");
    assert Usernames(r0.users) == [];
    assert r0.users + [Member(id, "")] == [Member(id, "")];
  }
}
