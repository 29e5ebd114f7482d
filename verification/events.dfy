/**
 Outbound socket.io events. Every event the server emits is recorded with its
 target: `Sender` for `socket.emit` (only the connection whose request is
 being handled) and `ToRoom(name)` for `io.to(name).emit` (every connection
 subscribed to that room). Delivery itself belongs to the transport and is
 not modelled.
 */
module Events {

  datatype Target = Sender | ToRoom(room: string)

  /** One element of the `room_list` array. */
  datatype RoomSummary = RoomSummary(name: string, userCount: nat, createdAt: nat, expiresAt: nat)

  datatype Payload =
    | RoomError(message: string)                                        // 'room_error'
    | RoomCreated(room: string)                                         // 'room_created'
    | JoinRoomRequest(username: string, room: string)                   // 'join_room', sent to the client
    | UserJoined(username: string, room: string, users: seq<string>)    // 'user_joined'
    | ChatMessage(username: string, text: string, timestamp: nat)       // 'message'
    | UserLeft(username: string, users: seq<string>)                    // 'user_left'
    | RoomInfo(room: string, createdAt: nat, expiresAt: nat, userCount: nat) // 'room_info'
    | RoomList(rooms: seq<RoomSummary>)                                 // 'room_list'

  datatype OutEvent = OutEvent(target: Target, payload: Payload)

  /** Author name of the welcome message. */
  const SystemName: string := "System"

  function RoomExistsMessage(room: string): string
  {
    "Room \"" + room + "\" already exists. Please choose a different name."
  }

  function RoomMissingMessage(room: string): string
  {
    "Room \"" + room + "\" doesn't exist."
  }

  function UsernameTakenMessage(username: string): string
  {
    "Username \"" + username + "\" is already taken in this room."
  }

  function RoomGoneMessage(room: string): string
  {
    "Room \"" + room + "\" doesn't exist anymore."
  }

  function WelcomeText(room: string, username: string): string
  {
    "Welcome to room " + room + ", " + username + "!"
  }
}
