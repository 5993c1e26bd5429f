# Signalling relay: room registry and router

This project models the signalling relay of a one-to-one WebRTC calling
application, the socket.io server in `server/src/index.ts`. The server keeps
one shared array, `userData`, of `{userId, name, roomId, isInitiator}`
records, and handles five events on each connection:

- `join-room` registers the connection in a room and assigns its role by
  position: the first user in a room is the initiator and is told to show
  the call button. A later joiner is told to show the answer button, and
  the other sockets of the socket.io room are sent `user-joined` with the
  new record.
  A repeated join by a registered connection changes nothing. The socket
  still joins the socket.io room, even on a repeated join.
- `send-offer`, `send-answer` and `ice-candidate` forward one event to the
  room named by the message's `to` field. An offer is forwarded as
  `{offer, from, name}`, with `from` set to the sender's own connection id.
  An answer is forwarded as `{answer}` alone and a candidate as
  `{candidate}` alone.
- `disconnect` removes the first record with the connection's id. If
  exactly one record of that user's room is left, that user is sent
  `show-call-button` again. Its stored `isInitiator` is left as it was.

The model has five modules:

- `Signals` holds the shared vocabulary. A decoded client message is
  `Payload`, a map from field names to `Value`s. A field that is missing
  reads as `Undefined`, as a JavaScript destructuring does. It also holds
  the record `User`, the emitted `Event`s, and the three kinds of socket.io
  target: `socket.emit`, `socket.to(room).emit` and `io.to(room).emit`.
  `Field` reads one field of a message, `Members` lists the sockets of a
  socket.io room, and `Recipients` resolves a target against the room
  memberships. As in socket.io 4, `socket.to(room)` leaves out every
  socket that is in the room named by the sender's id. That is the sender
  itself, plus any socket that has joined a room of that name. (In
  socket.io 3 only the sender was left out; the source does not pin the
  version, and the model follows version 4.)
- `Registry` gives each handler as a function on `userData`. `JoinStep`
  and `DisconnectStep` return the new array and the emissions, in order.
  They are built from `FirstIndex` (`findIndex`), `InRoom` (`filter`) and
  `RemoveAt` (`splice`). The lemmas state the handlers' behaviour.
- `Router` gives the three relay handlers as functions of the sender and
  the message.
- `Server` holds the class `SignalingServer`. Its fields are `userData`,
  the open connections, and the socket.io room memberships. `Valid()`
  states the invariant the handlers keep:
  - connection ids in `userData` are unique;
  - every registered user is connected and a member of its room;
  - every connection is in the room named by its own id.

  Each handler method has a `modifies this` if it changes state, and is
  proved to produce exactly the registry step of `Registry`. The searches
  `find`, `findIndex` and `filter` are loops proved against `FirstIndex`
  and `InRoom`.

- `Scenarios` walks through a whole session:
  1. A joins room r.
  2. B joins room r.
  3. A leaves.

  After step 3, B is told to show the call button, but its record still
  says it is not the initiator. A second lemma has a third user join a room
  of two.

Since room memberships are tracked separately from `userData`, the model
shows two consequences of the code:
- A connection that is registered in one room and then joins a second one
  is not registered again. It is still a member of the second socket.io
  room, so it receives that room's `user-joined` events.
- `io.to(id)` on disconnect reaches every socket that has joined a room
  whose name equals that id, not only the connection itself.

Where the code and the intended design differ, the model follows the code:
- A survivor's role is never promoted in the registry.
- Forwarded answers and candidates carry no `from`.
- A third joiner is accepted as a responder; the count is not flagged.
- A join without `name` or `roomId` is registered with `Undefined` fields
  rather than rejected.
- There is no end-call message and no relay-side handling of ICE ordering
  or glare.

## Model

| member | source | states |
|---|---|---|
| Signals.BroadcastExcludesSenderRoom | server/src/index.ts:40 | `socket.to(room)` reaches only members of the room, never the sender while it is in its own room, and every member of the room that has not joined the room named by the sender's id |
| Registry.FirstIndex | server/src/index.ts:59-60 | the result is -1 exactly when no record has the id; otherwise it is a position holding the id with no earlier position holding it |
| Registry.InRoom | server/src/index.ts:25 | a record is in the filtered list exactly when it is in the registry and belongs to the room, and the list is no longer than the registry |
| Registry.InRoomCounts | server/src/index.ts:25 | the filter keeps every record of the room as many times as it occurs, and no record of another room |
| Registry.InRoomEmptyIff | server/src/index.ts:25-26 | the filter is empty exactly when no record belongs to the room |
| Registry.RemoveAt | server/src/index.ts:63 | splicing position i keeps every record before i in place and shifts every later record down by one |
| Registry.RemoveAtMultiset | server/src/index.ts:63 | splicing removes exactly one occurrence of the record at i and nothing else |
| Registry.InRoomKeepsUniqueIds | server/src/index.ts:25 | filtering a registry with unique ids gives records with unique ids |
| Registry.OneInRoomIffLone | server/src/index.ts:65-66 | with unique ids, the filter has length one exactly when a single record of the room exists, and it is that record |
| Registry.JoinExistingIsNoop | server/src/index.ts:23-24 | a join by a connection already in `userData` leaves it unchanged and emits nothing |
| Registry.JoinStep | server/src/index.ts:23-43 | a repeated join leaves `userData` as it was and emits nothing; a first join appends one record with the connection id, the passed name and room, keeps every earlier record in place, makes the joiner initiator exactly when no earlier record belongs to its room, and emits one notice to an initiator and two to a responder |
| Registry.JoinNotifications | server/src/index.ts:37-42 | `show-call-button` goes only to the joiner and exactly when it is initiator; `show-answer-button` goes only to the joiner and exactly when it is not; `user-joined` with the new record is emitted to the room except the joiner exactly in the latter case; a repeated join emits none of them |
| Registry.JoinKeepsIdsUnique | server/src/index.ts:23-35 | joining keeps connection ids unique and leaves the joiner registered |
| Registry.UserJoinedAudience | server/src/index.ts:21-40 | `user-joined` never reaches the joiner, and reaches every earlier user of the room that has not joined the room named by the joiner's id |
| Registry.DisconnectStep | server/src/index.ts:59-69 | without a record of the id nothing changes and nothing is emitted; otherwise the first record with the id is spliced out; at most one event is emitted, and it is `show-call-button` |
| Registry.SurvivorNotice | server/src/index.ts:65-68 | at most one event is emitted, `show-call-button`, addressed to the room named by the id of a remaining user of the room |
| Registry.DisconnectAbsentIsNoop | server/src/index.ts:59-60 | a disconnect for an id with no record changes nothing and emits nothing |
| Registry.DisconnectRemovesFirstRecord | server/src/index.ts:59-63 | a disconnect removes the first record with the id, keeps all other records in order, and takes exactly that one record out of the multiset |
| Registry.RemoveAtKeepsUnique | server/src/index.ts:63 | with unique ids, splicing out a record keeps ids unique, leaves no record with its id, and keeps every other user's record |
| Registry.DisconnectKeepsIdsUnique | server/src/index.ts:59-63 | a disconnect keeps ids unique and leaves no record of the disconnected id |
| Registry.DisconnectIsIdempotent | server/src/index.ts:59-69 | a second disconnect for the same id changes nothing and emits nothing |
| Registry.DisconnectKeepsSurvivorRecords | server/src/index.ts:61-68 | every record left was there before, unchanged including its `isInitiator`, and every other user's record is still there |
| Registry.SurvivorNoticeIsLone | server/src/index.ts:65-68 | the notice is emitted exactly when a single record of the room remains, and it is `show-call-button` to that record's id |
| Registry.DisconnectNotifiesLoneSurvivor | server/src/index.ts:59-69 | after a removal, `show-call-button` is sent exactly when one record of the departed user's room remains, addressed to that user; otherwise nothing is sent |
| Router.Offer | server/src/index.ts:46-48 | the event is `offer-received` with the client's `offer` and `name` and the sender's id as `from`, and it reaches the members of room `to` that are not in the sender's own room |
| Router.Answer | server/src/index.ts:50-52 | the event is `answer-received` with the client's `answer` alone, and it reaches the members of room `to` that are not in the sender's own room |
| Router.Candidate | server/src/index.ts:54-56 | the event is `ice-candidate` with the client's `candidate` alone, and it reaches the members of room `to` that are not in the sender's own room |
| Router.OfferFromIsSender | server/src/index.ts:46-48 | a forwarded offer carries the sender's connection id as `from` plus the client's `offer` and `name`, goes to room `to` except the sender, and ignores any `from` the client sent |
| Router.OfferReadsThreeFields | server/src/index.ts:46-48 | the forwarded offer depends only on the message's `offer`, `to` and `name` |
| Router.AnswerCarriesOnlyAnswer | server/src/index.ts:50-52 | a forwarded answer is `{answer}` alone, with no `from`, to room `to`, and depends only on `answer` and `to` |
| Router.CandidateCarriesOnlyCandidate | server/src/index.ts:54-56 | a forwarded candidate is `{candidate}` alone, with no `from`, to room `to`, and depends only on `candidate` and `to` |
| Router.RelayedToAddresseeOnly | server/src/index.ts:46-56 | when `to` is another connection's id, no other socket joined a room of that name, and the addressee did not join the room named by the sender's id, each relayed message reaches exactly that connection |
| Router.RelayNeverEchoes | server/src/index.ts:46-56 | a relayed message never reaches its sender, which is in the room named by its own id |
| Server.SignalingServer.constructor | server/src/index.ts:15 | the server starts with an empty `userData`, no connections and no memberships, and satisfies the invariant |
| Server.SignalingServer.Connect | server/src/index.ts:17 | a new connection is added and joins the room named by its id; `userData` is unchanged |
| Server.SignalingServer.FindUserIndex | server/src/index.ts:59 | the loop returns the first position holding the id, or -1 when there is none |
| Server.SignalingServer.FindUser | server/src/index.ts:23 | the result is absent exactly when no record has the id, and otherwise it is the first such record |
| Server.SignalingServer.FilterRoom | server/src/index.ts:25 | the loop returns exactly the records of the room, in registry order |
| Server.SignalingServer.JoinRoom | server/src/index.ts:20-44 | the socket joins the room in every case; `userData` and the emissions are those of the join step; the invariant holds; `user-joined` does not reach the joiner and reaches every earlier user of the room that has not joined the room named by the joiner's id |
| Server.SignalingServer.SendOffer | server/src/index.ts:46-48 | emits the forwarded offer of `Router.Offer`, with `from` the sender's id, and changes no state |
| Server.SignalingServer.SendAnswer | server/src/index.ts:50-52 | emits the forwarded answer and changes no state |
| Server.SignalingServer.RelayCandidate | server/src/index.ts:54-56 | emits the forwarded candidate and changes no state |
| Server.SignalingServer.Disconnect | server/src/index.ts:58-72 | the connection leaves every room; `userData` and the emissions are those of the disconnect step; the invariant holds; no record of the id remains; any `show-call-button` goes to a remaining user it reaches |
| Server.SignalingServer.NotifyLoneSurvivor | server/src/index.ts:65-68 | emits the survivor notice of the registry, and its target reaches the remaining user it names |
| Scenarios.FirstJoinerCalls | server/src/index.ts:23-38 | the first user into an empty registry is recorded as initiator and is told, alone, to show the call button |
| Scenarios.SecondJoinerAnswers | server/src/index.ts:23-42 | a second user in the room is recorded as responder, the room is sent `user-joined` with its record, and it is told to show the answer button |
| Scenarios.InitiatorLeaves | server/src/index.ts:59-68 | when the initiator of a two-user room leaves, only the responder's record remains, unchanged, and its id-room is sent `show-call-button` |
| Scenarios.TwoUsersMeetAndOneLeaves | server/src/index.ts:20-72 | A joins and is told to call; B joins, gets the answer button, and A is told B joined; A leaves and B is told to call while B's stored record keeps `isInitiator` false |
| Scenarios.ThirdJoinerIsResponder | server/src/index.ts:25-42 | a third user joining a room of two is a responder, gets the answer button, and `user-joined` goes to the room |

## Left out

- The browser clients (`client/src/pages/Room.tsx`, `client/src/pages/Room2.tsx`, `client/src/pages/Home.tsx`) and `client/vite.config.ts` are not part of this model. They drive browser APIs (`RTCPeerConnection`, `getUserMedia`, media players, local storage) through asynchronous callbacks.
- The negotiation state machine, ICE candidate queueing, end-call handling, glare arbitration and stored role promotion are not modelled. None of them exists in the server code.
- Express, the HTTP server, the CORS options, `server.listen` and `console.log` (server/src/index.ts:1-13,18,71,75-77) are left out. They are I/O set-up only.
- socket.io delivery is not modelled. Each emission is recorded as a target and an event. `Recipients` gives the sockets a target reaches at the time of the emission; transport, ordering and loss are not modelled.
- Socket.io's own bookkeeping appears only as assumptions:
  - a new connection gets a fresh id (`Connect`'s precondition);
  - a connection is in the room named by its id;
  - handlers run only on open connections (`JoinRoom`'s precondition);
  - on disconnect, the socket leaves every room before the handler runs.
- A `join-room`, `send-offer`, `send-answer` or `ice-candidate` event without an argument, or with `null`, is not modelled (server/src/index.ts:20,46,50,54). The handler destructures its argument, so JavaScript throws a `TypeError` before the handler does anything: no `socket.join`, no registry change, no emission. In the model a message is always an object, so this path does not exist.
- Concurrency is not modelled. Node runs each handler to completion and handlers never interleave, so each handler is one atomic step.
- Client values are not fully modelled. A field is either `Undefined` or carries its text. JavaScript's strict equality on non-string values, for example objects compared by reference, is not modelled, and neither is the JSON encoding of emitted payloads.
