# Room broker, reconnect backoff and room-code check of a WebRTC signaling relay

This project models, in Dafny, the core of a small peer-pairing service for
browser video calls. Media flows directly between the two browsers; the server
only pairs two clients per room and relays their session-negotiation messages.

- **The room broker (server.js).** Two in-memory registries: `rooms` maps a room
  id to the connections in that room, and `clientRooms` maps a connection to
  the id of the room it joined. Three handlers change them:
  - `handleJoin` first leaves any current room. It then creates the room
    lazily and refuses a third member with `{type:"error", message:"Room is full"}`.
    Otherwise it adds the joiner, replies `joined` with `isInitiator`, and
    sends `ready` to the other open member once the room holds two.
  - `broadcastToRoom` relays a received object verbatim to every other open
    member of the sender's room.
  - `handleDisconnect` removes the connection, tells each remaining open
    member `peer-disconnected`, and deletes a room that became empty.
  - A message switch routes `join` to the join handler. It routes `offer`,
    `answer` and `ice-candidate` to the relay. Any other type, and any text
    that does not parse, is dropped.
- **The reconnect backoff (main.js).** `scheduleReconnect` arms at most one
  retry timer. After 5 attempts it gives up. It waits
  `min(1000·2^n, 10000)` ms, where `n` is the incremented attempt count. The
  "connected" state of the peer connection resets the count to 0.
- **The room-code check (index.js).** `joinRoom` first trims and lower-cases the
  typed code. It then refuses an empty code and refuses a code with anything
  but ASCII letters and digits. Only then does it look the code up.

Module `Signaling` (signaling.dfy) is the broker as values. Each handler is a
function from the registry, the connection and the set of connections whose
channel is open, to the new registry and the list of `send` calls.
Module `Server` (server.dfy) is the broker as the object the handlers mutate:
class `Broker` has the two maps and an outbox as fields. Its methods use the
same loops as the source; `HandleJoin` runs `HandleDisconnect` and then
`EnterRoom`, the rest of the handler. Each method is proved to produce exactly the registry
and sends of the value model, so every lemma of `Signaling` holds of the methods.
Module `Reconnect` (reconnect.dfy) is the retry counter as a class with a
pending-timer flag. Module `RoomCode` (room_code.dfy) holds the pure validation
functions.

Rooms are sequences without duplicates. A JavaScript `Set` iterates in
insertion order, so the order of the fan-out sends is fixed.

Room ids are strings, and the handlers test them for truthiness. The id `""` is
falsy, so `handleDisconnect` never removes a connection that joined `""`. Such
a connection stays in that room after it closes. If it later joins another
room, it is a member of two rooms at once (`Signaling.EmptyIdIsNeverLeft`). The
model reproduces this. It therefore proves the "one room per connection"
agreement between the two maps only for non-empty ids. For all ids it proves
that a connection's recorded room holds it.

The client sends more message types than server.js handles: `create-room`,
`mute-status`, `restart`, `check-peer` and `peer-ready` (main.js). server.js
has no case for them, so they fall into the switch's default branch. The model
follows server.js: they change nothing and send nothing. Likewise
server.js keeps no set of valid rooms, stores no mute status, sends no liveness
pings and serves no `/api/check-room` route, and `ready` goes only to the
member that was already in the room.

## Model

| member | source | states |
|---|---|---|
| `Signaling.FanoutSends` | server.js:120-124 | each send of a guarded `room.forEach` carries the given message to a member of the room that is open and not skipped |
| `Signaling.FanoutCovers` | server.js:120-124 | every open, non-skipped member of the room receives a send of the fan-out |
| `Signaling.FanoutDistinct` | server.js:120-124 | over a room without duplicates, no member receives two sends of the fan-out |
| `Signaling.FanoutSound` | server.js:120-124 | the three facts together: each send carries the message to an open member that is not skipped; every such member gets one; no member gets two when the room has no duplicates |
| `Signaling.FanoutDeliversOnce` | server.js:138-142 | over a room without duplicates, a fan-out is exactly one copy of the message to each open member outside the skip set, and nothing else |
| `Signaling.FanoutPair` | server.js:95-99 | the fan-out over a two-member room is the first member's send (if it qualifies), then the second's |
| `Signaling.Without` | server.js:135 | `room.delete(ws)` leaves exactly the other members; it keeps a room duplicate-free; it shrinks the room by one when `ws` was in it and changes nothing otherwise |
| `Signaling.LeavePreservesInv` | server.js:128-152 | disconnect keeps the invariant: every room holds one or two distinct members, a recorded room exists and holds its connection, and a member of a non-empty-id room has it recorded |
| `Signaling.DetachPreservesInv` | server.js:132-150 | the registry update of a disconnect (the recorded room without the connection, the room dropped once empty, the record deleted) keeps the invariant |
| `Signaling.LeaveKeepsOtherRecords` | server.js:150 | a disconnect deletes at most the leaving connection's own record; every other record is unchanged |
| `Signaling.LeaveRemovesOnlyLeaver` | server.js:135-148 | a disconnect takes no connection but the leaving one out of any room |
| `Signaling.LeaveDetaches` | server.js:129-131 | after disconnect the connection is in no room with a non-empty id and has no non-empty id recorded; no other record changes; a connection with no room, or with the id "", is left as it was and nothing is sent |
| `Signaling.LeaveEffect` | server.js:132-150 | disconnect from a room deletes the record; it removes the member; it deletes the room exactly when that was its last member; it leaves other rooms untouched; it sends `peer-disconnected` once to each remaining open member |
| `Signaling.LeaveEffectOnOthers` | server.js:128-152 | disconnect changes no room other than the one recorded for the leaving connection |
| `Signaling.JoinPreservesInv` | server.js:61-101 | join keeps the invariant, so no room ever holds more than two connections and no empty room persists |
| `Signaling.EnterPreservesInv` | server.js:65-100 | the part of a join after the leave keeps the invariant when the joiner holds no non-empty-id room; when the room already holds two members it changes neither map |
| `Signaling.AdmitPreservesInv` | server.js:78-80 | adding a joiner that holds no non-empty-id room to a room with fewer than two members, and recording it, keeps the invariant |
| `Signaling.EnterAdmits` | server.js:78-100 | after the leave, entering a room with fewer than two members adds and records the joiner (the room keeps its members, every other room and record is unchanged), replies `joined` with `isInitiator` true exactly when it is the only member, and then sends `ready` once to each other open member if the room became full and nothing otherwise |
| `Signaling.EnterFrame` | server.js:79-80 | an admitted entry changes only the target room, which gains the joiner and keeps its members, and the joiner's record |
| `Signaling.EnterFresh` | server.js:66-89 | entering an unused room id creates the room with the joiner alone, records it, and sends only `joined` with `isInitiator` true |
| `Signaling.JoinFullRefuses` | server.js:72-76 | when the room still holds two after the joiner has left its old room, the result is the left registry plus the "Room is full" error to the joiner, who then holds no room with a non-empty id |
| `Signaling.ThirdJoinerRefused` | server.js:73-76 | a third connection joining a full non-empty-id room leaves its two members as they were, gives the joiner no record for that room, leaves every connection recorded for it a member of it, and ends with the "Room is full" error to the joiner |
| `Signaling.JoinSucceeds` | server.js:78-100 | a join that is not refused puts the joiner in the room and records it; the room's members are then its former members plus the joiner; no other connection's record changes; rooms other than the target and the joiner's former room are untouched, and the former room loses only the joiner and goes when it empties. The leave's notices come first, then `joined` with `isInitiator` true exactly when the joiner is the only member. Then `ready` goes once to each other open member if the room became full, and to nobody otherwise (never the joiner) |
| `Signaling.TwoJoinersPair` | server.js:79-100 | of two different connections joining an unused room id, the first gets `isInitiator` true and the second false; the room is the two in join order; the second join sends `ready` to the first alone, if open |
| `Signaling.FirstJoinerInitiates` | server.js:66-89 | the first joiner of an unused id creates the room as its only member, is told it is the initiator, and no other record changes |
| `Signaling.PairJoins` | server.js:61-101 | from the empty registry, A's join of "abc123" gives the room [A] and `joined` (initiator) to A; B's join then gives the room [A, B], both records, `joined` (not initiator) to B and `ready` to A if open |
| `Signaling.PairedRoomTraffic` | server.js:20-47 | in the room [A, B], a relayed message from A goes to B alone (if open) and changes no map; a third connection's join is answered with "Room is full" alone and changes no map |
| `Signaling.SecondJoinerCompletes` | server.js:94-100 | a second joiner of a one-member room is told it is not the initiator, and `ready` goes to the first member if its channel is open |
| `Signaling.RelayDelivers` | server.js:104-125 | relay from a connection with no room id, the id "", or a missing room sends nothing; otherwise the received object goes verbatim once to each other open member of the sender's room, and never back to the sender |
| `Signaling.DispatchPreservesInv` | server.js:20-47 | every message keeps the invariant; a parse failure or an unknown type changes nothing and sends nothing; the relayed types change no state |
| `Signaling.SingleRoom` | server.js:63 | under the invariant a connection is a member of at most one room with a non-empty id |
| `Signaling.EmptyIdIsNeverLeft` | server.js:131 | a connection that joins "" and then "abc" is in both rooms, and after it disconnects it is still in "" |
| `Server.Broker.constructor` | server.js:14-15 | both maps start empty, the outbox is empty, and the invariant holds |
| `Server.Broker.SendEach` | server.js:95-99 | the loop appends exactly the fan-out of the value model to the outbox |
| `Server.Broker.HandleDisconnect` | server.js:128-152 | the new maps and the appended sends are those of the value model's disconnect; the invariant is kept |
| `Server.Broker.HandleJoin` | server.js:61-101 | the new maps and the appended sends are those of the value model's join; the invariant is kept |
| `Server.Broker.EnterRoom` | server.js:65-100 | the rest of the join handler after its disconnect: the new maps and appended sends are those of the value model's `Enter`; the invariant is kept when the joiner holds no non-empty-id room |
| `Server.Broker.BroadcastToRoom` | server.js:104-125 | only the outbox changes, by the value model's relay |
| `Server.Broker.OnMessage` | server.js:20-47 | the new maps and the appended sends are those of the value model's dispatch; the invariant is kept |
| `Server.PairRoom` | server.js:61-101 | after A and then B join "abc123", the room is [A, B] and the outbox is `joined` (initiator) to A, `joined` (not initiator) to B, `ready` to A |
| `Server.PairingScenario` | server.js:20-47 | after the pairing, A's offer reaches B only and a third client C is told "Room is full"; the room stays [A, B] |
| `Reconnect.Pow2` | main.js:420 | `Math.pow(2, n)` is at least 1, and at least 2 for n ≥ 1 |
| `Reconnect.BackoffDelay` | main.js:420 | the delay never exceeds 10000 ms and is at least 2000 ms for any counted attempt |
| `Reconnect.Pow2Monotone` | main.js:420 | powers of two grow with the exponent |
| `Reconnect.BackoffMonotone` | main.js:420 | the delay never decreases as attempts grow |
| `Reconnect.BackoffSchedule` | main.js:414-420 | the retries wait 2000, 4000 and 8000 ms, then 10000 ms from the fourth on |
| `Reconnect.Reconnector.constructor` | main.js:8-10 | no attempts counted and no timer pending |
| `Reconnect.Reconnector.ScheduleReconnect` | main.js:411-426 | with a timer pending nothing changes. At 5 attempts it gives up: the counter is unchanged and no timer is armed. Otherwise the counter grows by exactly one and a timer is armed with the delay for the new count. The counter never exceeds 5 |
| `Reconnect.Reconnector.Fire` | main.js:422-425 | the timer callback clears the pending flag and keeps the counter, so a later schedule can arm again |
| `Reconnect.Reconnector.OnConnectionStateChange` | main.js:389-407 | "connected" resets the counter to 0 and leaves any pending timer; "disconnected" and "failed" have the effect of a schedule; other states change nothing |
| `RoomCode.TrimStart` | index.js:17 | leading whitespace is removed: the result is a suffix not starting with whitespace and everything cut off was whitespace |
| `RoomCode.TrimEnd` | index.js:17 | trailing whitespace is removed: the result is a prefix not ending with whitespace and everything cut off was whitespace |
| `RoomCode.Trim` | index.js:15-17 | the trimmed code is a slice of the input with only whitespace before and after it; it has no whitespace at either end; a code without any there is unchanged |
| `RoomCode.ToLower` | index.js:18 | each ASCII upper-case letter becomes the lower-case letter at the same place in the alphabet; every other character is unchanged; no upper-case letter is left; a position holds a letter or digit afterwards exactly when it did before, and likewise whitespace |
| `RoomCode.CheckJoin` | index.js:14-33 | the code is trimmed and lower-cased before any check. An empty code is refused with "Please enter a room code.", checked before the character set. A non-empty code outside `[a-zA-Z0-9]+` is refused with "Room code can only contain letters and numbers.". Only a non-empty code of lower-case ASCII letters and digits reaches the lookup |
| `RoomCode.ToLowerKeepsTrimmed` | index.js:18 | lower-casing a code with no whitespace at either end leaves none there |
| `RoomCode.ToLowerIdempotent` | index.js:18 | lower-casing twice is lower-casing once |
| `RoomCode.NormalizeIdempotent` | index.js:15-18 | trimming and lower-casing twice is the same as doing it once |
| `RoomCode.CheckJoinIdempotent` | index.js:22-33 | a code that reaches the lookup passes the check again unchanged |

## Left out

- Express static serving, the HTTP server, `listen` and `PORT` (server.js:2-11, 154-157): I/O plumbing.
- The `ws` library, `JSON.parse` / `JSON.stringify` and logging. A message is the `Data` datatype; "does not parse" is the `Unparsable` frame; `readyState === OPEN` is the `open` set passed to each handler; `send` appends to the outbox.
- The `joined` and error replies to the joiner are sent without a `readyState` test, as in the source. The model records them in the outbox even when the joiner's channel is not open; the library would drop them.
- A `roomId` that is not a string (a number, `null`, missing) is not modelled. A falsy one would act like `""`, but under its own map key.
- An exception thrown inside a handler and caught by the `try`/`catch` is not modelled; none of the modelled operations can raise one.
- The `error` event listener (server.js:55-57) only logs.
- Valid-room set, `create-room`, `room-not-found`, mute-status storage, liveness pings and the `/check-room` route: server.js implements none of them, so neither does the model.
- main.js: `restartConnection` (closing the `RTCPeerConnection`, sending `restart`, the one-second re-offer) runs after `Fire`. It is WebRTC and WebSocket I/O, so it is not modelled. Real time is not modelled: a timer fires when the environment calls `Fire`.
- main.js: the error-text writes to the page, the WebSocket `onmessage`/`onclose` handlers and their own 2-second reconnect timer, and all media and visibility code.
- index.js: the DOM writes, the `fetch` to `/api/check-room` and the navigation after the check; `createRoom`, which draws the code from `Math.random`.
- call.js: page glue (DOM, clipboard, track toggles).
- RoomCode.ToLower: lower-cases ASCII `A`–`Z` only. JavaScript's `toLowerCase` also maps non-ASCII characters; some of them map to ASCII letters (U+212A KELVIN SIGN becomes `k`), and U+0130 becomes two characters. So an input with such characters can pass the JavaScript check and be refused here.
- RoomCode.TrimStart: the whitespace set is the ECMAScript WhiteSpace and LineTerminator list with the space separators of current Unicode; a future Unicode change to the space-separator category is not followed.
