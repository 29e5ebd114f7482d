# Room registry of the vkyc chat server, in Dafny

The Node chat server (`vkyc-chat-node-server/index.js`) keeps every chat room
in one in-memory `Map` from room name to `{users: [{id, username}], createdAt,
expiresAt}`. Its socket.io handlers (`create_room`, `join_room`,
`send_message`, `disconnect`, `list_rooms`) and the hourly `cleanUpRooms`
sweep are the only code that reads or changes that map. This project models
each of them as a pure transition. A transition takes the registry and returns
the new registry together with the events the server emits, in order. Each
event records its target: `Sender` for `socket.emit`, `ToRoom(name)` for
`io.to(name).emit`.

Layout:

- `seqs.dfy`: `Wrappers.Option`, plus `Seqs`, which gives the JavaScript array
  methods the server uses (`findIndex`, `some`, `splice(i, 1)`) together with
  their contracts. It also defines `Filter`, the effect of the sweep's loop
  that deletes entries from the `Map` while iterating it. `push` and `map` are
  plain sequence append and comprehension.
- `registry.dfy`: `RoomStore`, the data model. A JavaScript `Map` iterates in
  insertion order and that order can be observed, so the registry is a
  sequence of `(name, room)` entries. `Lookup`, `Has`, `Put` and `Names` are its
  map view (`get`, `has`, `set`, `keys`). The module also defines the registry
  invariant `Valid`.
- `events.dfy`: `Events`, the outbound events and their message texts.
- `handlers.dfy`: `Handlers`, one function per socket handler.
- `cleanup.dfy`: `Sweeper`, the `cleanUpRooms` sweep with an explicit `now`.
- `invariants.dfy`: `Invariants`, proofs that each handler preserves `Valid`.
- `properties.dfy`: `HandlerProperties`, the disconnect and list handlers
  described through the map view.
- `gateway.dfy`: `Gateway`, which dispatches the inbound events and folds a run
  of requests and sweeps. It also proves the whole-server properties.
- `scenarios.dfy`: `Scenarios`, concrete and end-to-end runs.

Time is a natural number of milliseconds. `Date.now()` is read twice when a
room is created (lines 56-57), and the model reads it once as `now`, so
`expiresAt = now + 86400000`. The `new Date()` message timestamps are that
same `now`.

Three behaviours of the server that are easy to misread:

- `create_room` does not add the creator to the room. Line 64 only emits a
  `join_room` event back to the client, and the server's own `join_room`
  handler is not invoked. A new room is therefore empty, and a sweep evicts it
  until someone joins (`Scenarios.FreshRoomSweptBeforeJoin`).
- The server does not validate empty fields. The non-empty checks exist only
  in the React client.
- Socket ids are not unique within a room. One socket can join the same room
  twice under two usernames. On disconnect only the first of those members is
  removed (`Scenarios.DoubleJoinLeavesStaleMember`).

## Model

| member | source | states |
|---|---|---|
| Handlers.CreateRoom | vkyc-chat-node-server/index.js:45-65 | If the name is taken, the registry is unchanged and the only event is a `room_error` to the sender. Otherwise exactly that key is added at the end of the insertion order, mapped to an empty member list with `createdAt = now` and `expiresAt = now + 24h`, and every other room keeps its lookup. In that case the sender gets `room_created` and then a `join_room` request, and the creator is not a member. |
| Handlers.JoinRoom | vkyc-chat-node-server/index.js:68-114 | If the room is absent, or a member already has exactly this username, the registry is unchanged and the only event is the matching `room_error` to the sender. Otherwise `(id, username)` is appended to that room's members and no other room or key changes. Three events follow, in this order: `user_joined` to the room, listing the old usernames plus the new one in join order; the System welcome `message` to the sender; and `room_info` to the sender, with `userCount` equal to the old count + 1. |
| Handlers.SendMessage | vkyc-chat-node-server/index.js:117-131 | The registry is never modified and exactly one event is emitted. It is an error exactly when the room is absent: a `room_error` to the sender. Otherwise it is `message{username, text, now}` to the room, and the sender's membership is not checked. |
| Handlers.LeaveRoom | vkyc-chat-node-server/index.js:139-152 | In one room, the member removed is the first whose id matches. The others keep their relative order, and the timestamps and name stay the same. If the room held a matching member, exactly one `user_left` goes to that room, carrying the removed username and the remaining usernames. If it did not, nothing changes and nothing is emitted. |
| Handlers.Disconnect | vkyc-chat-node-server/index.js:134-154 | Every room, in insertion order, becomes what `LeaveRoom` makes of it. The events are exactly one `user_left` per room that held a member with this id, in insertion order. |
| Handlers.ListRooms | vkyc-chat-node-server/index.js:157-165 | The registry is unchanged. A single `room_list` goes to the sender, with one entry per room in insertion order, giving that room's name and member count and its `createdAt`/`expiresAt` copied through. |
| HandlerProperties.DisconnectUnknownIdIsNoop | vkyc-chat-node-server/index.js:138-153 | A socket that holds no member in any room disconnects with no state change and no events. |
| HandlerProperties.DisconnectMemberCounts | vkyc-chat-node-server/index.js:139-145 | Each room loses exactly one member if the socket held one there and none otherwise. No room is added, removed or reordered. |
| HandlerProperties.DisconnectLookup | vkyc-chat-node-server/index.js:138-145 | Through `rooms.get`, every registered room stays registered and becomes its one-step `LeaveRoom` result. No room appears. |
| HandlerProperties.DisconnectNotifiesExactlyHoldingRooms | vkyc-chat-node-server/index.js:140-151 | A `user_left` is addressed to room `name` if and only if that room is registered and held a member with the disconnecting socket id. |
| HandlerProperties.NotifiedRoomHeldMember | vkyc-chat-node-server/index.js:140-148 | Every disconnect event targets a registered room that held a member with that socket id. |
| HandlerProperties.HoldingRoomIsNotified | vkyc-chat-node-server/index.js:140-148 | Every room holding a member with that socket id receives a disconnect event. |
| HandlerProperties.ListRoomsMatchesLookup | vkyc-chat-node-server/index.js:157-164 | The names in the room list are the registry's keys in insertion order. A name is listed exactly when `rooms.has` holds for it, and its entry reports the count and timestamps that `rooms.get` returns. |
| Sweeper.CleanUpRooms | vkyc-chat-node-server/index.js:28-36 | After the sweep, no remaining room has `expiresAt <= now` or zero users. Every room that met neither condition is still present, unchanged, and no room is added. When no room is evictable, the registry comes back identical, order included. Unique names stay unique. |
| Sweeper.CleanUpRoomsStep | vkyc-chat-node-server/index.js:30-34 | The loop visits entries in insertion order. Sweeping a registry with one more entry at the end gives the old registry's sweep, in its order, followed by that entry exactly when it is neither expired nor empty. Together with the empty case, this fixes the survivors' order and multiplicity. |
| Sweeper.CleanUpLookup | vkyc-chat-node-server/index.js:30-34 | Through `rooms.get`, a room is present after the sweep exactly when it was present and not evictable, and its value is then the same. |
| Sweeper.CleanUpIdempotent | vkyc-chat-node-server/index.js:28-36 | A second sweep at the same `now` changes nothing. |
| Sweeper.CleanUpLaterAbsorbsEarlier | vkyc-chat-node-server/index.js:28-36 | A sweep at `t1` followed by one at `t2 >= t1` has the same result as the sweep at `t2` alone. |
| Sweeper.CleanUpPreservesValid | vkyc-chat-node-server/index.js:30-34 | Deleting entries during the sweep keeps names unique and keeps every surviving room's invariant. |
| Invariants.CreateRoomPreservesValid | vkyc-chat-node-server/index.js:46-58 | Creating a room keeps the registry invariant: unique names, `createdAt < expiresAt`, and distinct usernames per room. |
| Invariants.JoinRoomPreservesValid | vkyc-chat-node-server/index.js:79-88 | After a join, the usernames in the joined room are still pairwise distinct, provided they were before. The same holds for the rest of the invariant. |
| Invariants.DisconnectPreservesValid | vkyc-chat-node-server/index.js:138-145 | Removing members on disconnect keeps the registry invariant. |
| Invariants.AppendKeepsUsernamesDistinct | vkyc-chat-node-server/index.js:79-87 | Appending a member whose username is not listed keeps usernames distinct. |
| Invariants.RemoveKeepsUsernamesDistinct | vkyc-chat-node-server/index.js:142 | The `splice` of one member keeps usernames distinct. |
| Invariants.PutPreservesValid | vkyc-chat-node-server/index.js:88 | `rooms.set` with a well-formed room keeps the registry invariant. |
| RoomStore.Lookup | vkyc-chat-node-server/index.js:69-76 | `rooms.get` finds a room exactly when some entry has that name. With unique names, that entry's room is the one found. |
| RoomStore.Put | vkyc-chat-node-server/index.js:54-58 | After `rooms.set(name, room)`, looking up `name` yields `room` and every other key yields what it did before. An existing key keeps its position in the iteration order, and a new key goes last. |
| RoomStore.UsernameTakenIffListed | vkyc-chat-node-server/index.js:79 | `users.some(u => u.username === username)` holds exactly when `username` occurs among the members' usernames. The match is exact and case-sensitive. |
| Seqs.FindIndex | vkyc-chat-node-server/index.js:139 | `findIndex` returns the first position whose element satisfies the predicate, and returns none exactly when no element does. |
| Seqs.Filter | vkyc-chat-node-server/index.js:30-34 | A pass that deletes the entries failing a predicate leaves only input elements that satisfy it, and keeps every input element that does. When every element satisfies it, the input is returned unchanged. |
| Seqs.RemoveAt | vkyc-chat-node-server/index.js:142 | `splice(i, 1)` drops position `i`, keeps the elements before it in place and shifts the ones after it down by one. |
| Seqs.FindIndexCongruent | vkyc-chat-node-server/index.js:139 | Two sequences that agree position by position on the predicate have the same first hit. |
| Seqs.FilterConcat | vkyc-chat-node-server/index.js:30-34 | Deleting while iterating in order distributes over concatenation. The survivors of a prefix come first, in their order, followed by the survivors of the rest. |
| Seqs.FilterAbsorbs | vkyc-chat-node-server/index.js:30-34 | Filtering by a predicate that implies an earlier filter's predicate gives the same result as filtering once. |
| Gateway.HandlePreservesValid | vkyc-chat-node-server/index.js:41-166 | Every inbound event keeps the registry invariant. |
| Gateway.RunPreservesValid | vkyc-chat-node-server/index.js:25-39 | Any sequence of requests and sweeps, applied to a valid registry, ends in a valid registry. |
| Gateway.ReachableIsValid | vkyc-chat-node-server/index.js:25 | Every registry reachable from the empty `Map` at start-up is valid. |
| Gateway.ErrorsReachOnlySender | vkyc-chat-node-server/index.js:45-131 | A `room_error` is the only event of its step. It goes to the sender alone, and the registry is left unchanged. |
| Gateway.BroadcastsTargetRegisteredRooms | vkyc-chat-node-server/index.js:94-151 | Every event addressed to a room addresses one that is registered after the step. |
| Scenarios.JoinOrderAndDuplicateName | vkyc-chat-node-server/index.js:79-113 | In this run, alice and then bob join R, which gives members `[alice, bob]`, `room_info.userCount == 2`, and a list entry `(R, 2, t0, t0 + 24h)`. A third connection asking for `alice` is refused, and the state is unchanged. |
| Scenarios.FreshRoomSweptBeforeJoin | vkyc-chat-node-server/index.js:31-64 | A sweep at any time between `create_room` and the first join evicts the new room, and the creator's join then fails with "doesn't exist". |
| Scenarios.DoubleJoinLeavesStaleMember | vkyc-chat-node-server/index.js:79-142 | One socket joins R as alice and then as bob. On disconnect only alice leaves, `user_left` lists `[bob]`, and bob stays in R with the dead socket's id. |
| Scenarios.RoomLivesOneDay | vkyc-chat-node-server/index.js:31-57 | A populated room survives a sweep 23 hours after creation. A sweep 25 hours after creation removes it. |
| Scenarios.SoleMemberLeavesThenSwept | vkyc-chat-node-server/index.js:31-145 | When the sole member disconnects, the room is left empty, and any later sweep removes it. |
| Scenarios.UsernameMatchIsCaseSensitive | vkyc-chat-node-server/index.js:79-87 | If a room's only member is `alice`, a join as `Alice` is admitted, appended, and reported with `userCount` 2. |
| Scenarios.EmptyFieldsAccepted | vkyc-chat-node-server/index.js:45-88 | An empty room name and an empty username are accepted. The room `""` is created, and then joined by `""`. |

## Left out

- The React client (`react/reactchat/src/ChatRoom.js`) is left out. Its non-empty checks on username and room are client-side only and constrain nothing here. `formatExpiration` uses the wall clock and floating-point rounding.
- socket.io transport and delivery are left out. This covers `socket.join`, the fan-out behind `io.to(room)`, and socket.io's own room subscriptions, which are state separate from the registry. Events are recorded as values with a target.
- The Express/CORS setup, `server.listen` and the `PORT` fallback are process bootstrap and are not modelled.
- The `setInterval` hourly scheduling is left out. A sweep is an explicit `Sweep(at)` action with its own `now`, and how sweeps interleave with requests is up to the caller of `Gateway.Run`.
- `console.log` output is left out. `new Date()` message timestamps are the opaque millisecond value `now`.
- JavaScript payload fields can be `undefined` or of any type. Here room names, usernames, text and socket ids are strings.
- Timestamps are JavaScript doubles and here are `nat`, which is exact below 2^53 ms. JavaScript strings are UTF-16 code-unit sequences compared with `===`, and here are Dafny `string`, which cannot hold lone surrogates.

