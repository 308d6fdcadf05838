# Split-the-G match server: matchmaking and room coordinator

This project models the part of `server.js` that pairs players and runs their rooms: the
matchmaking queue, the room records, the reverse index from socket to room, and every
socket handler that changes them. It is a single-threaded state machine over three mutable
structures, and the model keeps that shape.

- `Coordination.Coordinator` is a class with four fields:
  - `queue` stands for `matchmakingQueue`;
  - `rooms` stands for the `rooms` Map;
  - `playerRooms` stands for the reverse index;
  - `log` is the sequence of every message emitted so far, with its target (one socket, or
    everyone in a room).

  Each socket handler is a method with a `modifies` clause. Each method's `ensures` gives
  the whole new state and the messages appended to `log`.
- `Rooms.Room` is the room record, a datatype value stored in `rooms`. Each per-room step of
  a handler is a pure function in module `Rooms`, and its contract states what the step
  means: who is ready, who has submitted, what reveal shows, who wins.
- The class invariant `Coordinator.Valid` (`Coordination.Consistent`) ties the three
  structures together:
  - every room is `RoomValid`;
  - every room is filed under its own id with both players indexed to it;
  - every index entry points at a room that seats that socket;
  - the queue holds at most one socket, and that socket has no room;
  - no room is filed under the empty id. `generateRoomId` always returns `room_` followed
    by random characters, so getRoom's test for a falsy room id never fires.

  Every handler of the model keeps the invariant, with two qualifications:
  - `rejoin-room` keeps it only for a rejoining socket that had no room and no queue entry
    (see below);
  - the result-deadline callback keeps it only because the model aims the timer at the
    opponent's slot, which corrects the source (see "## Findings"). The callback as written
    can leave a revealed room with an unsubmitted player and a result for a socket without
    a seat, which breaks `RoomValid` (`Rooms.StaleForfeitAfterRejoin`).
- Module `MatchQueue` holds the queue operations: the `findIndex` search and the `splice`
  that removes the entry found.

The runtime effects are represented as follows:
- A timer is an entry stored in its room:
  - the single result deadline is `resultTimeout: Option<Deadline>`;
  - each disconnect grace timer is an entry of `disconnectTimeouts`, keyed by socket id.

  The methods `FireResultDeadline` and `FireGraceTimeout` run a callback once its due time
  has come. `clearTimeout` removes the entry. Dropping a room drops its timers with it.
- `Date.now()` is the parameter `now`.
- The random room id is the parameter `rid`.

## Model

| member | source | states |
|---|---|---|
| MatchQueue.IndexOf | server.js:154 | the first position holding the socket, -1 exactly when it is absent, and no earlier position holds it |
| MatchQueue.FindIndex | server.js:154 | the loop's front-to-back scan returns exactly the `IndexOf` position |
| MatchQueue.Without | server.js:153-158 | removing an absent socket leaves the queue unchanged; removing a present one shortens it by one |
| MatchQueue.WithoutIsSplice | server.js:153-158 | the removal is the splice at the index found: everything before and after it keeps its order |
| MatchQueue.WithoutCount | server.js:153-158 | removal takes out one copy of the socket, if it had one, and leaves the count of every other socket alone |
| MatchQueue.WithoutSubset | server.js:153-158 | every entry left in the queue was in it before |
| MatchQueue.WithoutIdempotent | server.js:153-158 | on a queue without duplicates the socket is gone afterwards, the queue stays duplicate-free, and a second removal changes nothing |
| MatchQueue.EnqueueOnce | server.js:167-177 | after removal and `push` the caller waits exactly once, at the back, with no duplicates, and the length grows only if it was not already waiting |
| Rooms.NewRoom | server.js:81-106 | a fresh room: the two players in pairing order, state `matched`, both ready flags false, both results unsubmitted, no pint images, no countdown, no deadline, no grace timers, neither all-ready nor all-submitted |
| Rooms.TwoSeatsReady | server.js:259 | with two seats, `every` over the ready flags is true exactly when both flags are set |
| Rooms.TwoSeatsSubmitted | server.js:326 | with two seats, `every` over the results is true exactly when both players have submitted |
| Rooms.FindOther | server.js:128 | `find(id => id !== s)` returns nothing exactly when every player is `s`, and otherwise a player other than `s` |
| Rooms.OpponentIsOtherSlot | server.js:125-129 | in a valid room a player's opponent is the player in the other slot |
| Rooms.Winner | server.js:342-345 | strictly greater accuracy wins; no winner exactly when the two accuracies are equal |
| Rooms.WinnerSymmetric | server.js:342-345 | swapping the two players' slots does not change who wins |
| Rooms.RevealMessage | server.js:336-356 | reveal-start carries both players' image and accuracy keyed by id, the two ids in slot order, and the winner by the strict rule (a null accuracy compares as 0) |
| Rooms.MarkReady | server.js:251-262 | only the caller's flag changes; the room is all-ready exactly when the opponent was ready already, and then it enters countdown at `now + 3000`; otherwise the state and countdown stay; nothing else changes, and the room stays valid |
| Rooms.StorePintImage | server.js:274 | the caller's pint image is replaced, every other entry and field is kept, and the room stays valid |
| Rooms.AfterSubmit | server.js:281-334 | the caller's result is recorded; the room is all-submitted exactly when the opponent had submitted, and then it reveals with the deadline cleared; otherwise the state is kept, an outstanding deadline is kept, and with none outstanding a new 90 s deadline aims at the opponent's slot |
| Rooms.AfterSubmitKeepsValid | server.js:293-334 | after submit-result, a deadline left pending still waits on the one player who has not submitted, so the room stays valid |
| Rooms.FireDeadline | server.js:296-301 | a deadline that is not due and pending changes nothing; a due one forfeits the player now in the timer's slot (accuracy 0), enters reveal with both results in, and becomes spent; the room stays valid |
| Rooms.ForfeitWinner | server.js:300-310 | after a forfeit the submitter wins exactly when their accuracy is above 0; a submitted 0 is a tie |
| Rooms.ResetForRematch | server.js:372-390 | the state returns to `matched`, with all flags false, all results unsubmitted, no images, no countdown and no deadline; players, names, grace timers and id are kept, and the room stays valid |
| Rooms.RematchIsFreshRound | server.js:372-390 | a rematch leaves the room equal to what createRoom builds for the same players, apart from names and grace timers |
| Rooms.CancelGrace | server.js:431-435 | the old id's grace timer is gone, nothing else changes, and the room stays valid |
| Rooms.Move | server.js:447-462 | the entry moves from the old key to the new one, and the other keys are untouched |
| Rooms.RemapPlayer | server.js:437-462 | the new socket takes the old one's slot; when it held no seat, each per-player entry follows its slot and each map is keyed by exactly the new players; other fields are untouched |
| Rooms.RemapKeepsValid | server.js:437-462 | a rejoin by a socket with no seat, once the old grace timer is gone, keeps the room valid |
| Rooms.FireDeadlineAsWritten | server.js:296-301 | the callback as written forfeits the captured socket id when that id has not submitted, whoever holds the slot now |
| Rooms.StaleForfeitAfterRejoin | server.js:287-301 | if the opponent rejoins under a new id before the deadline, the as-written callback reveals with the current opponent unsubmitted and leaves a result for a socket that has no seat |
| Rooms.ForfeitFollowsRejoin | server.js:296-301 | with the timer aimed at the slot, the forfeit lands on the rejoined socket and the room reveals with both results in |
| Rooms.LateSubmissionRevealsAgain | server.js:277-357 | a submit-result that arrives after the forfeit replaces it and completes the round again, so reveal-start is emitted a second time |
| Coordination.ReplaceRoom | server.js:248-251 | changing a room's record in place, with its id and players kept, keeps the structures consistent |
| Coordination.AddRoom | server.js:108-110 | filing a new room for two distinct sockets without a room, with the queue empty, keeps the structures consistent |
| Coordination.DropRoom | server.js:146-150 | deleting a room and its players' index entries keeps the structures consistent |
| Coordination.QueueRemovalKeepsValid | server.js:153-158 | removing a socket from the queue keeps the structures consistent |
| Coordination.JoinFacts | server.js:169-185 | for a socket without a room, at most one other socket waits after the removal; an empty queue lets it wait alone, and otherwise the waiting socket is a different socket that also has no room |
| Coordination.SwapSeat | server.js:444-466 | handing a seat and its index entry to a socket with no room and no queue entry keeps the structures consistent |
| Coordination.RejoinKeepsValid | server.js:422-470 | a successful rejoin by a socket with no room and no queue entry keeps the structures consistent |
| Coordination.Coordinator.constructor | server.js:73-75 | the server starts with an empty queue, no rooms and no index entries, and the invariant holds |
| Coordination.Coordinator.GetRoom | server.js:119-123 | a room exactly when the socket is indexed: the valid room filed under its index entry (never the falsy empty id), which seats the socket |
| Coordination.Coordinator.GetOpponentId | server.js:125-129 | an opponent exactly when the socket has a room: a different socket, indexed to the same room, in the other slot |
| Coordination.Coordinator.RemoveFromQueue | server.js:153-158 | the new queue is `Without` the socket |
| Coordination.Coordinator.CreateRoom | server.js:81-117 | the fresh room is filed under the given id, and both players are indexed to it |
| Coordination.Coordinator.CleanupRoom | server.js:131-151 | an unknown id changes nothing; otherwise the room (with its timers) and every player's index entry are gone and nothing else changes |
| Coordination.Coordinator.JoinQueue | server.js:167-206 | the caller's queue entry goes first. A caller with a room gets "Already in a game" and is left out of the queue. Otherwise it waits alone and is told position 1, or it is told position 2 and paired at once with the socket that was waiting, that socket first and initiator. The invariant is kept |
| Coordination.Coordinator.TryMatch | server.js:183-205 | with two sockets waiting, both leave the queue in arrival order and get a new room; the first is told it is initiator and the second is not; with fewer waiting nothing changes |
| Coordination.Coordinator.LeaveQueue | server.js:208-211 | the socket is out of the queue, the rest keep their order, and the invariant is kept |
| Coordination.Coordinator.Relay | server.js:215-243 | the payload goes, tagged with the sender, to the sender's opponent if there is one, and otherwise nowhere |
| Coordination.Coordinator.PlayerReady | server.js:247-269 | a caller without a room changes nothing. Otherwise the room takes `MarkReady` and the room hears ready-update; once both are ready it also hears game-start with `now + 3000` and 30000. The invariant is kept |
| Coordination.Coordinator.SubmitPintImage | server.js:271-275 | the caller's room takes `StorePintImage`, a caller without a room changes nothing, and the invariant is kept |
| Coordination.Coordinator.SubmitResult | server.js:277-358 | a caller without a room changes nothing. Otherwise the room takes `AfterSubmit` and the opponent is told; the room hears reveal-start once both results are in. The invariant is kept |
| Coordination.Coordinator.FireResultDeadline | server.js:296-322 | a deadline that is cleared, spent, not yet due, or whose room is gone does nothing; a due one forfeits, reveals with both results in, and broadcasts reveal-start; the invariant is kept |
| Coordination.Coordinator.RequestRematch | server.js:360-366 | the opponent, and only the opponent, is told who asks |
| Coordination.Coordinator.AcceptRematch | server.js:368-394 | the room takes `ResetForRematch` whatever its state, the room hears rematch-accepted, and the invariant is kept |
| Coordination.Coordinator.DeclineRematch | server.js:396-401 | only the opponent is told; no room or index entry changes |
| Coordination.Coordinator.LeaveRoom | server.js:403-418 | the opponent is told, then the room and both players' index entries are gone and the invariant is kept |
| Coordination.Coordinator.RejoinRoom | server.js:422-471 | an unknown room, or an old id without a seat, answers rejoin-failed and changes no room or index entry. Otherwise the old grace timer goes, the new socket takes the old one's slot and entries, the index drops the old id and files the new one, and rejoin-success carries the room's state |
| Coordination.Coordinator.Disconnect | server.js:475-501 | the socket leaves the queue; a player's opponent is told, and a grace timer due `now + 10000` is set for the socket; the invariant is kept |
| Coordination.Coordinator.FireGraceTimeout | server.js:493-499 | a timer that was cancelled, is not due, or whose room is gone does nothing; a due one (whose id is then always still seated) drops the room and both index entries; the invariant is kept |

## Left out

- HTTP and HTTPS server setup, the certificate reads, the static routes and the redirect (server.js:1-69) are I/O plumbing and are not part of this model.
- `getLocalIP` (server.js:11-21) is not part of this model: it enumerates the host's network interfaces.
- The QR code, the console banner and every `console.log` are output only.
- socket.io transport is reduced to log entries: `emit`, `io.to`, `join` and `leave`.
  - A room broadcast is one `ToRoom` event.
  - Joining and leaving the socket.io room is not modelled.
- Signaling payloads are an opaque string.
- Real timers and the clock are explicit timer entries, fire methods and a `now` parameter.
  - Timer interleavings across concurrent connections are not modelled beyond the order in which the handlers and fire methods are called.
- `generateRoomId` (server.js:77-79) uses `Math.random`. The caller supplies a room id that is not in use.
- `sw.js`, the service-worker cache, is not part of this model.
- Accuracy is a `real`. A client that sends a non-numeric or missing accuracy, and JavaScript's comparison of such values, is not modelled.
- A room is a value replaced in `rooms`, not a shared object. In the source, timer closures hold a reference to the room object. After `cleanupRoom` the guard `rooms.has(roomId)` stops the deadline, and the grace timers are cleared, so the aliasing cannot be observed.
- Coordination.Coordinator.Disconnect: a second disconnect of the same socket id would overwrite its grace entry, where the source would leak the first timer. A socket.io connection disconnects only once.
- Rooms.FireDeadline: forfeits whoever holds the timer's slot when it fires. The source forfeits the socket id it captured when submit-result ran (server.js:288, 298-300). The two differ only after the opponent rejoins under a new id before the deadline; this is the finding below, and the as-written callback is `Rooms.FireDeadlineAsWritten`.
- Coordination.Coordinator.FireResultDeadline: runs the corrected, slot-aimed callback (`Rooms.FireDeadline`), not the source's. After the opponent rejoins under a new id, the source forfeits the stale id and reveals with the seated opponent unsubmitted, keeping a result for the stale id. The model forfeits the new socket and reveals with both results in.
  - Knock-on effect of the correction: in the source, a later submit-result from the submitter completes nothing, because the seated opponent is still unsubmitted and the spent timer blocks a new one. In the model it reveals again (`Rooms.LateSubmissionRevealsAgain`).
- Handler payloads are typed parameters. The source reads `data.offer`, `data.answer`, `data.candidate`, `data.image`, `data.accuracy`, `data.roomId` and `data.oldSocketId` without checking them (server.js:219, 229, 239, 274, 283-284, 423). A message with no payload throws a TypeError in the handler, and such a message is not modelled.
- A submit-pint-image without an `image` field stores `undefined` in the source (server.js:274). rejoin-room's `!== undefined` test (server.js:455) then skips that entry, so the old id keeps it and the new id gets none. The model has no `undefined`: a missing image is `None` (null), which rejoin moves like any other entry, and `RoomValid` keeps the pint images keyed by exactly the two players.
- Coordination.Coordinator.RejoinRoom: keeps the invariant only when the rejoining socket has no room and no queue entry. The source does not check this.
  - A rejoin from a socket already in another room leaves two rooms claiming it.
  - A rejoin from a queued socket leaves a seated socket in the queue.
  - A rejoin with the old id itself deletes the id's per-player entries.

  The method still states the new state exactly in every case.
- These features have no code in these files and are not modelled:
  - rate limiting;
  - best-of-3 series scoring;
  - a periodic stale-room sweep (`createdAt` is stored and never read);
  - score clamping;
  - rejection of premature or oversized submissions;
  - display-name or mode negotiation;
  - a relay-server configuration query.
- Behaviours of the code as written are modelled as the code has them:
  - a player-ready after countdown has begun re-anchors the countdown and re-broadcasts game-start;
  - a submit-result after a forfeit re-reveals (`Rooms.LateSubmissionRevealsAgain`);
  - the expiry of a grace timer cleans the room up without telling the opponent;
  - accept-rematch is honoured in any state, without a preceding request.

## Findings

| source | as written | input that shows it | evidently intended | confidence | as-written member | corrected member |
|---|---|---|---|---|---|---|
| server.js:287-301 | The result-deadline callback forfeits the socket id `opponentId` captured when submit-result ran. | A submits. B disconnects and rejoins as B2 before 90 s pass, then never submits. When the deadline fires, it writes a forfeit for B, not B2. The room enters reveal with B2 unsubmitted, and `results` keeps an entry for a socket with no seat. | The forfeit lands on the player who now holds the opponent's seat. | not executed | Rooms.StaleForfeitAfterRejoin | Rooms.ForfeitFollowsRejoin |

The corrected timer records the opponent's slot instead of its socket id (`Rooms.Deadline`). `Rooms.FireDeadline` forfeits whoever holds that slot when the timer fires. The coordinator uses this corrected version. The callback as written is `Rooms.FireDeadlineAsWritten`.
