/**
 The connection handler: the socket.io event names dispatched to the
 handlers, and the server's run as a sequence of requests interleaved with
 sweeps. socket.io delivers one event at a time to completion, so a run is
 a plain left-to-right fold.
 */
module Gateway {
  import opened RoomStore
  import opened Events
  import Handlers
  import opened Sweeper
  import opened Invariants

  /** Inbound events with their payloads; `Disconnect` comes from the transport. */
  datatype Intent =
    | CreateRoom(username: string, room: string)
    | JoinRoom(username: string, room: string)
    | SendMessage(room: string, username: string, text: string)
    | ListRooms
    | Disconnect

  /** Handles one inbound event from socket `socket` at time `now`. */
  function Handle(reg: Registry, socket: string, now: nat, intent: Intent): Handlers.Step
  {
    match intent
    case CreateRoom(username, room) => Handlers.CreateRoom(reg, now, username, room)
    case JoinRoom(username, room) => Handlers.JoinRoom(reg, now, socket, username, room)
    case SendMessage(room, username, text) => Handlers.SendMessage(reg, now, room, username, text)
    case ListRooms => Handlers.ListRooms(reg)
    case Disconnect => Handlers.Disconnect(reg, socket)
  }

  /** Something that happens to the registry: a client event, or the hourly sweep. */
  datatype Action = Request(socket: string, now: nat, intent: Intent) | Sweep(at: nat)

  function Apply(reg: Registry, a: Action): Registry
  {
    match a
    case Request(socket, now, intent) => Handle(reg, socket, now, intent).state
    case Sweep(at) => CleanUpRooms(reg, at)
  }

  function Run(reg: Registry, actions: seq<Action>): Registry
    decreases |actions|
  {
    if |actions| == 0 then reg else Run(Apply(reg, actions[0]), actions[1..])
  }

  lemma HandlePreservesValid(reg: Registry, socket: string, now: nat, intent: Intent)
    requires Valid(reg)
    ensures Valid(Handle(reg, socket, now, intent).state)
  {
    match intent
    case CreateRoom(username, room) => CreateRoomPreservesValid(reg, now, username, room);
    case JoinRoom(username, room) => JoinRoomPreservesValid(reg, now, socket, username, room);
    case SendMessage(_, _, _) =>
    case ListRooms =>
    case Disconnect => DisconnectPreservesValid(reg, socket);
  }

  /** Every registry the server can reach from a valid one is valid. */
  lemma {:induction false} RunPreservesValid(reg: Registry, actions: seq<Action>)
    requires Valid(reg)
    ensures Valid(Run(reg, actions))
    decreases |actions|
  {
    if |actions| > 0 {
      match actions[0] {
        case Request(socket, now, intent) => HandlePreservesValid(reg, socket, now, intent);
        case Sweep(at) => CleanUpPreservesValid(reg, at);
      }
      RunPreservesValid(Apply(reg, actions[0]), actions[1..]);
    }
  }

  /** In particular every registry reachable from server start is valid. */
  lemma ReachableIsValid(actions: seq<Action>)
    ensures Valid(Run(Empty, actions))
  {
    RunPreservesValid(Empty, actions);
  }

  /** A `room_error` is the only event of its step, goes to the requester
      alone, and comes with an unchanged registry. */
  lemma ErrorsReachOnlySender(reg: Registry, socket: string, now: nat, intent: Intent, k: nat)
    requires k < |Handle(reg, socket, now, intent).events|
    requires Handle(reg, socket, now, intent).events[k].payload.RoomError?
    ensures var s := Handle(reg, socket, now, intent);
      s.events == [s.events[k]] && s.events[k].target == Sender && s.state == reg
  {
    match intent
    case CreateRoom(_, _) =>
    case JoinRoom(_, _) =>
    case SendMessage(_, _, _) =>
    case ListRooms =>
    case Disconnect =>
  }

  /** Broadcasts only ever address rooms that are registered after the step. */
  lemma BroadcastsTargetRegisteredRooms(reg: Registry, socket: string, now: nat, intent: Intent, k: nat)
    requires k < |Handle(reg, socket, now, intent).events|
    requires Handle(reg, socket, now, intent).events[k].target.ToRoom?
    ensures var s := Handle(reg, socket, now, intent);
      Has(s.state, s.events[k].target.room)
  {
    match intent
    case CreateRoom(_, _) =>
    case JoinRoom(_, _) =>
    case SendMessage(_, _, _) =>
    case ListRooms =>
    case Disconnect =>
      var s := Handle(reg, socket, now, intent);
      var hit := Handlers.RoomsHolding(reg, socket);
      assert [s.events[k]] == Handlers.LeaveRoom(hit[k], socket).1;
      var i :| 0 <= i < |reg| && reg[i] == hit[k];
      assert s.state[i].name == hit[k].name;
  }
}
