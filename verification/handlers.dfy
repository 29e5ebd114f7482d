/**
 The socket handlers of the chat server as pure transitions: each takes the
 registry (and, where the handler reads the clock or the socket, the current
 time `now` in milliseconds and the socket id) and returns the new registry
 together with the events it emits, in emission order.
 */
module Handlers {
  import opened Wrappers
  import opened Seqs
  import opened RoomStore
  import opened Events

  datatype Step = Step(state: Registry, events: seq<OutEvent>)

  /** A single event to the requesting connection. */
  function Reply(reg: Registry, p: Payload): Step
  {
    Step(reg, [OutEvent(Sender, p)])
  }

  /** 'create_room': a taken name is refused; otherwise an empty room that
      expires a day from now is registered. The creator is only told to join
      (an event to the client); the server does not add it as a member. */
  function CreateRoom(reg: Registry, now: nat, username: string, room: string): (s: Step)
    ensures Has(reg, room) ==>
      s.state == reg && s.events == [OutEvent(Sender, RoomError(RoomExistsMessage(room)))]
    ensures !Has(reg, room) ==>
      && Lookup(s.state, room) == Some(Room([], now, now + DayMillis))
      && (forall n :: n != room ==> Lookup(s.state, n) == Lookup(reg, n))
      && Names(s.state) == Names(reg) + [room]
      && s.events == [OutEvent(Sender, RoomCreated(room)), OutEvent(Sender, JoinRoomRequest(username, room))]
  {
    if Has(reg, room) then
      Reply(reg, RoomError(RoomExistsMessage(room)))
    else
      var created := Room([], now, now + DayMillis);
      Step(Put(reg, room, created),
           [OutEvent(Sender, RoomCreated(room)), OutEvent(Sender, JoinRoomRequest(username, room))])
  }

  /** 'join_room': the room must exist and no member may already use exactly
      this username; the new member goes to the end of the list. */
  function JoinRoom(reg: Registry, now: nat, id: string, username: string, room: string): (s: Step)
    ensures !Has(reg, room) ==>
      s.state == reg && s.events == [OutEvent(Sender, RoomError(RoomMissingMessage(room)))]
    ensures Has(reg, room) && username in Usernames(Lookup(reg, room).value.users) ==>
      s.state == reg && s.events == [OutEvent(Sender, RoomError(UsernameTakenMessage(username)))]
    ensures Has(reg, room) && username !in Usernames(Lookup(reg, room).value.users) ==>
      var before := Lookup(reg, room).value;
      && Lookup(s.state, room) == Some(before.(users := before.users + [Member(id, username)]))
      && (forall n :: n != room ==> Lookup(s.state, n) == Lookup(reg, n))
      && Names(s.state) == Names(reg)
      && s.events == [
           OutEvent(ToRoom(room), UserJoined(username, room, Usernames(before.users) + [username])),
           OutEvent(Sender, ChatMessage(SystemName, WelcomeText(room, username), now)),
           OutEvent(Sender, RoomInfo(room, before.createdAt, before.expiresAt, |before.users| + 1))]
  {
    match Lookup(reg, room)
    case None =>
      Reply(reg, RoomError(RoomMissingMessage(room)))
    case Some(data) =>
      UsernameTakenIffListed(data.users, username);
      if UsernameTaken(data.users, username) then
        Reply(reg, RoomError(UsernameTakenMessage(username)))
      else
        var joined := data.(users := data.users + [Member(id, username)]);
        assert Usernames(joined.users) == Usernames(data.users) + [username];
        Step(Put(reg, room, joined),
             [OutEvent(ToRoom(room), UserJoined(username, room, Usernames(joined.users))),
              OutEvent(Sender, ChatMessage(SystemName, WelcomeText(room, username), now)),
              OutEvent(Sender, RoomInfo(room, joined.createdAt, joined.expiresAt, |joined.users|))])
  }

  /** 'send_message': only the room's existence is checked; the sender's
      membership is not. The registry is never modified. */
  function SendMessage(reg: Registry, now: nat, room: string, username: string, text: string): (s: Step)
    ensures s.state == reg
    ensures |s.events| == 1
    ensures s.events[0].payload.RoomError? <==> !Has(reg, room)
    ensures !Has(reg, room) ==> s.events[0] == OutEvent(Sender, RoomError(RoomGoneMessage(room)))
    ensures Has(reg, room) ==> s.events[0] == OutEvent(ToRoom(room), ChatMessage(username, text, now))
  {
    if !Has(reg, room) then
      Reply(reg, RoomError(RoomGoneMessage(room)))
    else
      Step(reg, [OutEvent(ToRoom(room), ChatMessage(username, text, now))])
  }

  /** Position of the first member connected through socket `id`. */
  function FirstWithId(users: seq<Member>, id: string): Option<nat>
  {
    FindIndex(users, (u: Member) => u.id == id)
  }

  predicate HasMember(room: Room, id: string)
  {
    FirstWithId(room.users, id).Some?
  }

  /** One iteration of the disconnect loop: the first member with this socket
      id leaves the room, and the room is told who is left. */
  function LeaveRoom(e: Entry, id: string): (r: (Entry, seq<OutEvent>))
    ensures r.0.name == e.name
    ensures r.0.room.createdAt == e.room.createdAt && r.0.room.expiresAt == e.room.expiresAt
    ensures !HasMember(e.room, id) ==> r.0 == e && r.1 == []
    ensures HasMember(e.room, id) ==>
      var users, i := e.room.users, FirstWithId(e.room.users, id).value;
      && users[i].id == id
      && (forall j :: 0 <= j < i ==> users[j].id != id)
      && r.0.room.users == users[..i] + users[i + 1..]
      && r.1 == [OutEvent(ToRoom(e.name), UserLeft(users[i].username, Usernames(r.0.room.users)))]
  {
    match FirstWithId(e.room.users, id)
    case None => (e, [])
    case Some(i) =>
      var remaining := RemoveAt(e.room.users, i);
      (Entry(e.name, e.room.(users := remaining)),
       [OutEvent(ToRoom(e.name), UserLeft(e.room.users[i].username, Usernames(remaining)))])
  }

  /** The rooms in which socket `id` holds a member, in insertion order. */
  function RoomsHolding(reg: Registry, id: string): seq<Entry>
  {
    Filter(reg, (e: Entry) => HasMember(e.room, id))
  }

  /** 'disconnect': every room, in insertion order, loses the first member
      with this socket id; exactly the rooms that held one are notified. */
  function Disconnect(reg: Registry, id: string): (s: Step)
    ensures |s.state| == |reg|
    ensures forall i :: 0 <= i < |reg| ==> s.state[i] == LeaveRoom(reg[i], id).0
    ensures var hit := RoomsHolding(reg, id);
      && |s.events| == |hit|
      && forall k :: 0 <= k < |hit| ==> [s.events[k]] == LeaveRoom(hit[k], id).1
  {
    if |reg| == 0 then Step([], [])
    else
      var left := LeaveRoom(reg[0], id);
      var rest := Disconnect(reg[1..], id);
      assert RoomsHolding(reg, id) ==
        (if HasMember(reg[0].room, id) then [reg[0]] else []) + RoomsHolding(reg[1..], id);
      Step([left.0] + rest.state, left.1 + rest.events)
  }

  /** One `room_list` element. */
  function Summarize(e: Entry): RoomSummary
  {
    RoomSummary(e.name, |e.room.users|, e.room.createdAt, e.room.expiresAt)
  }

  /** 'list_rooms': a snapshot of the registry, sent to the requester only. */
  function ListRooms(reg: Registry): (s: Step)
    ensures s.state == reg
    ensures |s.events| == 1 && s.events[0].target == Sender && s.events[0].payload.RoomList?
    ensures var list := s.events[0].payload.rooms;
      && |list| == |reg|
      && forall i :: 0 <= i < |reg| ==>
           && list[i].name == reg[i].name
           && list[i].userCount == |reg[i].room.users|
           && list[i].createdAt == reg[i].room.createdAt
           && list[i].expiresAt == reg[i].room.expiresAt
  {
    Reply(reg, RoomList(seq(|reg|, i requires 0 <= i < |reg| => Summarize(reg[i]))))
  }
}
