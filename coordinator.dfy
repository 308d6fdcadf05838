/** The matchmaking and room coordinator: the three structures the socket
    handlers share (the waiting queue, the rooms by id and the reverse index from
    socket to room), each handler as a method, and the two timer callbacks as
    fire methods (server.js:73-501). Every emit is appended to `log`. */
module Coordination {
  import opened Types
  import opened MatchQueue
  import opened Rooms

  /** The room filed under `rid` carries `rid` as its id, and both of its
      players are indexed to `rid`. */
  ghost predicate Filed(rooms: map<RoomId, Room>, playerRooms: map<SocketId, RoomId>, rid: RoomId) {
    && rid in rooms
    && var r := rooms[rid];
      && r.id == rid && |r.players| == 2
      && r.players[0] in playerRooms && playerRooms[r.players[0]] == rid
      && r.players[1] in playerRooms && playerRooms[r.players[1]] == rid
  }

  /** `s` is indexed to a room that seats it. */
  ghost predicate Indexed(rooms: map<RoomId, Room>, playerRooms: map<SocketId, RoomId>, s: SocketId) {
    && s in playerRooms && playerRooms[s] in rooms
    && var r := rooms[playerRooms[s]];
      |r.players| == 2 && (r.players[0] == s || r.players[1] == s)
  }

  /** The three structures agree: every room is valid and filed, every index
      entry points at a room that seats the socket, and the queue holds at most one
      socket, which has no room. No room is filed under the empty (falsy) id, which
      `generateRoomId` never returns. Each quantifier fires only on an explicit
      `RoomValid`, `Filed` or `Indexed` term, which keeps the proofs small. */
  ghost predicate Consistent(queue: seq<SocketId>, rooms: map<RoomId, Room>, playerRooms: map<SocketId, RoomId>) {
    && (forall rid {:trigger RoomValid(rooms[rid])} :: rid in rooms ==> RoomValid(rooms[rid]))
    && (forall rid {:trigger Filed(rooms, playerRooms, rid)} :: rid in rooms ==> Filed(rooms, playerRooms, rid))
    && (forall s {:trigger Indexed(rooms, playerRooms, s)} :: s in playerRooms ==> Indexed(rooms, playerRooms, s))
    && "" !in rooms
    && |queue| <= 1
    && (forall i :: 0 <= i < |queue| ==> queue[i] !in playerRooms)
  }

  /** Replacing a room by one with the same id and the same players keeps the
      structures consistent. */
  lemma {:induction false} ReplaceRoom(queue: seq<SocketId>, rooms: map<RoomId, Room>,
                                       playerRooms: map<SocketId, RoomId>, rid: RoomId, room: Room)
    requires Consistent(queue, rooms, playerRooms)
    requires rid in rooms && room.id == rid && room.players == rooms[rid].players && RoomValid(room)
    ensures Consistent(queue, rooms[rid := room], playerRooms)
  {
    var rooms' := rooms[rid := room];
    forall r | r in rooms'
      ensures Filed(rooms', playerRooms, r)
    {
      assert Filed(rooms, playerRooms, r);
    }
    forall t | t in playerRooms
      ensures Indexed(rooms', playerRooms, t)
    {
      assert Indexed(rooms, playerRooms, t);
    }
  }

  /** Filing a new room for two distinct sockets that have no room keeps the
      structures consistent once the queue is empty. */
  lemma {:induction false} AddRoom(rooms: map<RoomId, Room>, playerRooms: map<SocketId, RoomId>,
                                   rid: RoomId, p1: SocketId, p2: SocketId, now: int)
    requires Consistent([], rooms, playerRooms)
    requires rid !in rooms && rid != "" && p1 != p2 && p1 !in playerRooms && p2 !in playerRooms
    ensures Consistent([], rooms[rid := NewRoom(rid, p1, p2, now)], playerRooms[p1 := rid][p2 := rid])
  {
    var rooms' := rooms[rid := NewRoom(rid, p1, p2, now)];
    var index' := playerRooms[p1 := rid][p2 := rid];
    forall r | r in rooms'
      ensures Filed(rooms', index', r)
    {
      if r != rid {
        assert Filed(rooms, playerRooms, r);
      }
    }
    forall t | t in index'
      ensures Indexed(rooms', index', t)
    {
      if t != p1 && t != p2 {
        assert Indexed(rooms, playerRooms, t);
      }
    }
  }

  /** Removing a room together with the index entries of its players keeps the
      structures consistent. */
  lemma {:induction false} DropRoom(queue: seq<SocketId>, rooms: map<RoomId, Room>,
                                    playerRooms: map<SocketId, RoomId>, rid: RoomId)
    requires Consistent(queue, rooms, playerRooms) && rid in rooms
    ensures Consistent(queue, rooms - {rid}, playerRooms - (set p | p in rooms[rid].players))
  {
    var dropped := rooms[rid];
    assert Filed(rooms, playerRooms, rid);
    var gone := set p | p in dropped.players;
    assert gone == Seats(dropped) by {
      assert dropped.players == [dropped.players[0], dropped.players[1]];
    }
    var rooms', index' := rooms - {rid}, playerRooms - gone;
    forall r | r in rooms'
      ensures Filed(rooms', index', r)
    {
      assert Filed(rooms, playerRooms, r);
    }
    forall t | t in index'
      ensures Indexed(rooms', index', t)
    {
      assert Indexed(rooms, playerRooms, t);
    }
    forall i | 0 <= i < |queue|
      ensures queue[i] !in index'
    {
    }
  }

  /** Removing a socket from the queue keeps the structures consistent. */
  lemma QueueRemovalKeepsValid(queue: seq<SocketId>, rooms: map<RoomId, Room>,
                               playerRooms: map<SocketId, RoomId>, s: SocketId)
    requires Consistent(queue, rooms, playerRooms)
    ensures Consistent(Without(queue, s), rooms, playerRooms)
  {
    forall x | x in Without(queue, s) ensures x !in playerRooms {
      WithoutSubset(queue, s, x);
    }
  }

  /** join-queue for a socket without a room: once its earlier entry is removed at
      most one other socket waits; alone, the caller may wait in the queue, and a
      socket already waiting is a different one, has no room, and leaves the
      structures consistent once the queue is emptied. */
  lemma {:induction false} JoinFacts(queue: seq<SocketId>, rooms: map<RoomId, Room>,
                                     playerRooms: map<SocketId, RoomId>, s: SocketId)
    requires Consistent(queue, rooms, playerRooms) && s !in playerRooms
    ensures var waiting := Without(queue, s);
      && |waiting| <= 1
      && (waiting == [] ==> Consistent([s], rooms, playerRooms))
      && (|waiting| == 1 ==> waiting[0] != s && waiting[0] !in playerRooms && Consistent([], rooms, playerRooms))
  {
    if queue != [] {
      assert queue == [queue[0]];
      if queue[0] != s {
        assert s !in queue;
      }
    }
  }

  class Coordinator {
    /** `matchmakingQueue`: the sockets waiting for an opponent, oldest first. */
    var queue: seq<SocketId>
    /** `rooms`: every open room by id. */
    var rooms: map<RoomId, Room>
    /** `playerRooms`: the reverse index from socket id to room id. */
    var playerRooms: map<SocketId, RoomId>
    /** Every message emitted so far, oldest first. */
    var log: seq<Event>

    ghost predicate Valid()
      reads this
    {
      Consistent(queue, rooms, playerRooms)
    }

    constructor ()
      ensures Valid()
      ensures queue == [] && rooms == map[] && playerRooms == map[] && log == []
    {
      queue, rooms, playerRooms, log := [], map[], map[], [];
    }

    /** getRoom: the room a socket plays in, if any. The source's test for a falsy
        room id never fires, since no room is filed under the empty id. */
    function GetRoom(s: SocketId): (r: Option<Room>)
      reads this
      requires Valid()
      ensures r.Some? <==> s in playerRooms
      ensures r.Some? ==> playerRooms[s] in rooms && r.value == rooms[playerRooms[s]]
      ensures r.Some? ==> RoomValid(r.value) && s in r.value.players
      ensures r.Some? ==> r.value.id == playerRooms[s] && playerRooms[s] != ""
    {
      if s in playerRooms then
        assert Indexed(rooms, playerRooms, s);
        assert Filed(rooms, playerRooms, playerRooms[s]);
        Some(rooms[playerRooms[s]])
      else None
    }

    /** getOpponentId: the other player of the socket's room, if it has one. */
    function GetOpponentId(s: SocketId): (o: Option<SocketId>)
      reads this
      requires Valid()
      ensures o.Some? <==> s in playerRooms
      ensures o.Some? ==> o.value != s && o.value in playerRooms && playerRooms[o.value] == playerRooms[s]
      ensures o.Some? ==> var room := GetRoom(s).value; o.value == room.players[1 - SlotOf(room, s)]
    {
      match GetRoom(s)
      case None => None
      case Some(room) =>
        assert Filed(rooms, playerRooms, playerRooms[s]);
        OpponentIsOtherSlot(room, s);
        FindOther(room.players, s)
    }

    /** removeFromQueue: splice out the socket's entry, if there is one. */
    method RemoveFromQueue(s: SocketId)
      modifies this`queue
      ensures queue == Without(old(queue), s)
    {
      var i := FindIndex(queue, s);
      if i != -1 {
        WithoutIsSplice(queue, s);
        queue := queue[..i] + queue[i + 1..];
      }
    }

    /** createRoom: file a fresh room for the two sockets and index both players. */
    method CreateRoom(p1: SocketId, p2: SocketId, rid: RoomId, now: int)
      modifies this`rooms, this`playerRooms
      ensures rooms == old(rooms)[rid := NewRoom(rid, p1, p2, now)]
      ensures playerRooms == old(playerRooms)[p1 := rid][p2 := rid]
    {
      rooms := rooms[rid := NewRoom(rid, p1, p2, now)];
      playerRooms := playerRooms[p1 := rid];
      playerRooms := playerRooms[p2 := rid];
    }

    /** cleanupRoom: drop the room (and with it both of its timers) and every
        player's index entry; an unknown room id changes nothing. */
    method CleanupRoom(rid: RoomId)
      modifies this`rooms, this`playerRooms
      ensures rid !in old(rooms) ==> rooms == old(rooms) && playerRooms == old(playerRooms)
      ensures rid in old(rooms) ==>
        && rooms == old(rooms) - {rid}
        && playerRooms == old(playerRooms) - (set p | p in old(rooms)[rid].players)
    {
      if rid !in rooms {
        return;
      }
      var room := rooms[rid];
      var i := 0;
      while i < |room.players|
        invariant 0 <= i <= |room.players|
        invariant rooms == old(rooms)
        invariant playerRooms == old(playerRooms) - (set p | p in room.players[..i])
      {
        assert room.players[..i + 1] == room.players[..i] + [room.players[i]];
        playerRooms := playerRooms - {room.players[i]};
        i := i + 1;
      }
      assert room.players[..i] == room.players;
      rooms := rooms - {rid};
    }

    /** join-queue. The caller's earlier queue entry goes first; a caller with a
        room gets an error and stays out of the queue; otherwise it is appended and
        told its position, and as soon as two sockets wait the two oldest are paired,
        the older one as WebRTC initiator. `rid` stands for the random room id. */
    method JoinQueue(s: SocketId, rid: RoomId, now: int)
      requires Valid() && rid !in rooms && rid != ""
      modifies this
      ensures Valid()
      ensures s in old(playerRooms) ==>
        && queue == Without(old(queue), s) && s !in queue
        && rooms == old(rooms) && playerRooms == old(playerRooms)
        && log == old(log) + [Event(ToSocket(s), ErrorMsg(AlreadyInGame))]
      ensures s !in old(playerRooms) ==>
        var waiting := Without(old(queue), s);
        && |waiting| <= 1
        && (waiting == [] ==>
              && queue == [s] && rooms == old(rooms) && playerRooms == old(playerRooms)
              && log == old(log) + [Event(ToSocket(s), QueueJoined(1))])
        && (|waiting| == 1 ==>
              var p1 := waiting[0];
              && p1 != s && queue == []
              && rooms == old(rooms)[rid := NewRoom(rid, p1, s, now)]
              && playerRooms == old(playerRooms)[p1 := rid][s := rid]
              && log == old(log) + [Event(ToSocket(s), QueueJoined(2))]
                                 + [Event(ToSocket(p1), MatchFound(rid, p1, s, true))]
                                 + [Event(ToSocket(s), MatchFound(rid, s, p1, false))])
    {
      ghost var queue0 := queue;
      RemoveFromQueue(s);
      if s in playerRooms {
        QueueRemovalKeepsValid(queue0, rooms, playerRooms, s);
        WithoutIdempotent(queue0, s);
        log := log + [Event(ToSocket(s), ErrorMsg(AlreadyInGame))];
        return;
      }
      JoinFacts(queue0, rooms, playerRooms, s);
      ghost var waiting := queue;
      queue := queue + [s];
      log := log + [Event(ToSocket(s), QueueJoined(|queue|))];
      assert waiting == [] ==> queue == [s];
      assert |waiting| == 1 ==> queue == [waiting[0], s];
      TryMatch(rid, now);
    }

    /** The matching step of join-queue: as soon as two sockets wait, the two
        oldest leave the queue and get a room, the older one as WebRTC initiator. */
    method TryMatch(rid: RoomId, now: int)
      requires rid !in rooms && rid != "" && |queue| <= 2
      requires |queue| < 2 ==> Valid()
      requires |queue| == 2 ==>
        && queue[0] != queue[1] && queue[0] !in playerRooms && queue[1] !in playerRooms
        && Consistent([], rooms, playerRooms)
      modifies this`queue, this`rooms, this`playerRooms, this`log
      ensures Valid()
      ensures |old(queue)| < 2 ==>
        queue == old(queue) && rooms == old(rooms) && playerRooms == old(playerRooms) && log == old(log)
      ensures |old(queue)| == 2 ==>
        var p1, p2 := old(queue)[0], old(queue)[1];
        && queue == []
        && rooms == old(rooms)[rid := NewRoom(rid, p1, p2, now)]
        && playerRooms == old(playerRooms)[p1 := rid][p2 := rid]
        && log == old(log) + [Event(ToSocket(p1), MatchFound(rid, p1, p2, true))]
                           + [Event(ToSocket(p2), MatchFound(rid, p2, p1, false))]
    {
      if |queue| >= 2 {
        var p1 := queue[0];
        queue := queue[1..];
        var p2 := queue[0];
        queue := queue[1..];
        AddRoom(rooms, playerRooms, rid, p1, p2, now);
        CreateRoom(p1, p2, rid, now);
        log := log + [Event(ToSocket(p1), MatchFound(rid, p1, p2, true))];
        log := log + [Event(ToSocket(p2), MatchFound(rid, p2, p1, false))];
      }
    }

    /** leave-queue. */
    method LeaveQueue(s: SocketId)
      requires Valid()
      modifies this`queue
      ensures Valid()
      ensures queue == Without(old(queue), s) && s !in queue
    {
      QueueRemovalKeepsValid(queue, rooms, playerRooms, s);
      WithoutIdempotent(queue, s);
      RemoveFromQueue(s);
    }

    /** webrtc-offer, webrtc-answer and webrtc-ice-candidate: forward the payload
        to the opponent, tagged with the sender, if the sender has one. */
    method Relay(s: SocketId, kind: SignalKind, payload: Payload)
      requires Valid()
      modifies this`log
      ensures old(GetOpponentId(s)).None? ==> log == old(log)
      ensures old(GetOpponentId(s)).Some? ==>
        log == old(log) + [Event(ToSocket(old(GetOpponentId(s)).value), Signal(kind, payload, s))]
    {
      var opponent := GetOpponentId(s);
      if opponent.Some? {
        log := log + [Event(ToSocket(opponent.value), Signal(kind, payload, s))];
      }
    }

    /** player-ready: set the caller's flag and broadcast the flags; once both are
        set, broadcast game-start with the countdown anchor and the round length.
        A caller without a room changes nothing. */
    method PlayerReady(s: SocketId, now: int)
      requires Valid()
      modifies this`rooms, this`log
      ensures Valid()
      ensures s !in playerRooms ==> rooms == old(rooms) && log == old(log)
      ensures s in playerRooms ==>
        var rid := playerRooms[s];
        var room := MarkReady(old(GetRoom(s)).value, s, now);
        && rooms == old(rooms)[rid := room]
        && log == old(log) + [Event(ToRoom(rid), ReadyUpdate(room.readyState))]
                           + (if AllReady(room)
                              then [Event(ToRoom(rid), GameStart(now + PreCountdownMs, RoundDurationMs))]
                              else [])
    {
      var found := GetRoom(s);
      if found.None? {
        return;
      }
      var rid := playerRooms[s];
      var room := MarkReady(found.value, s, now);
      ReplaceRoom(queue, rooms, playerRooms, rid, room);
      rooms := rooms[rid := room];
      log := log + [Event(ToRoom(rid), ReadyUpdate(room.readyState))];
      if AllReady(room) {
        log := log + [Event(ToRoom(rid), GameStart(now + PreCountdownMs, RoundDurationMs))];
      }
    }

    /** submit-pint-image: store the caller's reference image. */
    method SubmitPintImage(s: SocketId, image: Option<Image>)
      requires Valid()
      modifies this`rooms
      ensures Valid()
      ensures s !in playerRooms ==> rooms == old(rooms)
      ensures s in playerRooms ==>
        rooms == old(rooms)[playerRooms[s] := StorePintImage(old(GetRoom(s)).value, s, image)]
    {
      var found := GetRoom(s);
      if found.None? {
        return;
      }
      var rid := playerRooms[s];
      var room := StorePintImage(found.value, s, image);
      ReplaceRoom(queue, rooms, playerRooms, rid, room);
      rooms := rooms[rid := room];
    }

    /** submit-result: record the caller's result, tell the opponent, start the
        deadline if this is the first result, and reveal once both are in. */
    method SubmitResult(s: SocketId, image: Option<Image>, accuracy: real, now: int)
      requires Valid()
      modifies this`rooms, this`log
      ensures Valid()
      ensures s !in playerRooms ==> rooms == old(rooms) && log == old(log)
      ensures s in playerRooms ==>
        var rid := playerRooms[s];
        var room := AfterSubmit(old(GetRoom(s)).value, s, image, accuracy, now);
        && rooms == old(rooms)[rid := room]
        && log == old(log) + [Event(ToSocket(old(GetOpponentId(s)).value), OpponentSubmitted)]
                           + (if AllSubmitted(room) then [Event(ToRoom(rid), RevealMessage(room))] else [])
    {
      var found := GetRoom(s);
      if found.None? {
        return;
      }
      var rid := playerRooms[s];
      var opponent := GetOpponentId(s).value;
      var room := AfterSubmit(found.value, s, image, accuracy, now);
      AfterSubmitKeepsValid(found.value, s, image, accuracy, now);
      ReplaceRoom(queue, rooms, playerRooms, rid, room);
      rooms := rooms[rid := room];
      log := log + [Event(ToSocket(opponent), OpponentSubmitted)];
      if AllSubmitted(room) {
        log := log + [Event(ToRoom(rid), RevealMessage(room))];
      }
    }

    /** The result-deadline callback. A timer that was cleared, or whose room is
        gone, never fires; a due one forfeits the slot it waits on and reveals. */
    method FireResultDeadline(rid: RoomId, now: int)
      requires Valid()
      modifies this`rooms, this`log
      ensures Valid()
      ensures !(rid in old(rooms) && DeadlineDue(old(rooms)[rid], now)) ==> rooms == old(rooms) && log == old(log)
      ensures rid in old(rooms) && DeadlineDue(old(rooms)[rid], now) ==>
        var room := FireDeadline(old(rooms)[rid], now);
        && room.state == Reveal && AllSubmitted(room)
        && rooms == old(rooms)[rid := room]
        && log == old(log) + [Event(ToRoom(rid), RevealMessage(room))]
    {
      if rid !in rooms || !DeadlineDue(rooms[rid], now) {
        return;
      }
      var before := rooms[rid];
      assert RoomValid(before) && Filed(rooms, playerRooms, rid);
      var opponent := before.players[before.resultTimeout.value.opponentSlot];
      var stillPending := opponent !in before.results || !before.results[opponent].submitted;
      var room := FireDeadline(before, now);
      ReplaceRoom(queue, rooms, playerRooms, rid, room);
      rooms := rooms[rid := room];
      if stillPending {
        log := log + [Event(ToRoom(rid), RevealMessage(room))];
      }
    }

    /** request-rematch: tell the opponent. */
    method RequestRematch(s: SocketId)
      requires Valid()
      modifies this`log
      ensures s !in playerRooms ==> log == old(log)
      ensures s in playerRooms ==>
        log == old(log) + [Event(ToSocket(GetOpponentId(s).value), RematchRequested(s))]
    {
      var found := GetRoom(s);
      if found.None? {
        return;
      }
      var opponent := GetOpponentId(s);
      log := log + [Event(ToSocket(opponent.value), RematchRequested(s))];
    }

    /** accept-rematch: reset the round, whatever state the room is in, and tell
        both players. */
    method AcceptRematch(s: SocketId)
      requires Valid()
      modifies this`rooms, this`log
      ensures Valid()
      ensures s !in playerRooms ==> rooms == old(rooms) && log == old(log)
      ensures s in playerRooms ==>
        var rid := playerRooms[s];
        && rooms == old(rooms)[rid := ResetForRematch(old(GetRoom(s)).value)]
        && log == old(log) + [Event(ToRoom(rid), RematchAccepted)]
    {
      var found := GetRoom(s);
      if found.None? {
        return;
      }
      var rid := playerRooms[s];
      var room := ResetForRematch(found.value);
      ReplaceRoom(queue, rooms, playerRooms, rid, room);
      rooms := rooms[rid := room];
      log := log + [Event(ToRoom(rid), RematchAccepted)];
    }

    /** decline-rematch: only the opponent is told; the room is left as it is. */
    method DeclineRematch(s: SocketId)
      requires Valid()
      modifies this`log
      ensures s !in playerRooms ==> log == old(log)
      ensures s in playerRooms ==>
        log == old(log) + [Event(ToSocket(GetOpponentId(s).value), RematchDeclined)]
    {
      var opponent := GetOpponentId(s);
      if opponent.Some? {
        log := log + [Event(ToSocket(opponent.value), RematchDeclined)];
      }
    }

    /** leave-room: tell the opponent, then clean the room up. */
    method LeaveRoom(s: SocketId)
      requires Valid()
      modifies this`rooms, this`playerRooms, this`log
      ensures Valid()
      ensures s !in old(playerRooms) ==>
        rooms == old(rooms) && playerRooms == old(playerRooms) && log == old(log)
      ensures s in old(playerRooms) ==>
        var rid := old(playerRooms)[s];
        && rooms == old(rooms) - {rid}
        && playerRooms == old(playerRooms) - (set p | p in old(GetRoom(s)).value.players)
        && s !in playerRooms
        && log == old(log) + [Event(ToSocket(old(GetOpponentId(s)).value), OpponentLeft)]
    {
      var found := GetRoom(s);
      if found.None? {
        return;
      }
      var rid := playerRooms[s];
      var opponent := GetOpponentId(s);
      log := log + [Event(ToSocket(opponent.value), OpponentLeft)];
      DropRoom(queue, rooms, playerRooms, rid);
      CleanupRoom(rid);
    }

    /** rejoin-room: an unknown room or an old id without a seat fails and leaves
        the players and the index alone (a known room still loses the old id's grace
        timer first). Otherwise the new socket takes the old one's slot and entries,
        and the index forgets the old id and files the new one. */
    method RejoinRoom(s: SocketId, rid: RoomId, oldId: SocketId)
      requires Valid()
      modifies this`rooms, this`playerRooms, this`log
      ensures rid !in old(rooms) || oldId !in old(rooms)[rid].players ==>
        && rooms == old(rooms) && playerRooms == old(playerRooms)
        && log == old(log) + [Event(ToSocket(s), RejoinFailed)]
        && Valid()
      ensures rid in old(rooms) && oldId in old(rooms)[rid].players ==>
        var before := old(rooms)[rid];
        var room := RemapPlayer(CancelGrace(before, oldId), SlotOf(before, oldId), s);
        && rooms == old(rooms)[rid := room]
        && playerRooms == (old(playerRooms) - {oldId})[s := rid]
        && log == old(log) + [Event(ToSocket(s), RejoinSuccess(rid, before.state))]
        && oldId !in room.disconnectTimeouts
        && (s !in old(playerRooms) && s !in old(queue) ==> Valid())
    {
      if rid !in rooms {
        log := log + [Event(ToSocket(s), RejoinFailed)];
        return;
      }
      var before := rooms[rid];
      assert RoomValid(before) && Filed(rooms, playerRooms, rid);
      if oldId !in before.players {
        assert oldId !in before.disconnectTimeouts;
        log := log + [Event(ToSocket(s), RejoinFailed)];
        return;
      }
      var room := RemapPlayer(CancelGrace(before, oldId), SlotOf(before, oldId), s);
      ghost var rooms0, index0 := rooms, playerRooms;
      rooms := rooms[rid := room];
      playerRooms := (playerRooms - {oldId})[s := rid];
      log := log + [Event(ToSocket(s), RejoinSuccess(rid, before.state))];
      if s !in index0 && s !in queue {
        RejoinKeepsValid(queue, rooms0, index0, rid, oldId, s, rooms, playerRooms);
      }
    }

    /** disconnect: leave the queue; a player also warns the opponent and starts
        its grace timer. */
    method Disconnect(s: SocketId, now: int)
      requires Valid()
      modifies this`queue, this`rooms, this`log
      ensures Valid()
      ensures queue == Without(old(queue), s)
      ensures s !in playerRooms ==> rooms == old(rooms) && log == old(log)
      ensures s in playerRooms ==>
        var rid := playerRooms[s];
        var before := old(GetRoom(s)).value;
        && rooms == old(rooms)[rid := before.(disconnectTimeouts := before.disconnectTimeouts[s := now + GracePeriodMs])]
        && log == old(log) + [Event(ToSocket(old(GetOpponentId(s)).value), OpponentDisconnected)]
    {
      QueueRemovalKeepsValid(queue, rooms, playerRooms, s);
      RemoveFromQueue(s);
      var found := GetRoom(s);
      if found.None? {
        return;
      }
      var rid := playerRooms[s];
      var opponent := GetOpponentId(s);
      log := log + [Event(ToSocket(opponent.value), OpponentDisconnected)];
      var room := found.value.(disconnectTimeouts := found.value.disconnectTimeouts[s := now + GracePeriodMs]);
      ReplaceRoom(queue, rooms, playerRooms, rid, room);
      rooms := rooms[rid := room];
    }

    /** The grace-period callback: once due, and only if the disconnected id still
        has a seat, clean the room up. A timer cancelled by a rejoin, or whose room
        is gone, never fires. */
    method FireGraceTimeout(rid: RoomId, s: SocketId, now: int)
      requires Valid()
      modifies this`rooms, this`playerRooms
      ensures Valid()
      ensures !(rid in old(rooms) && s in old(rooms)[rid].disconnectTimeouts
                && old(rooms)[rid].disconnectTimeouts[s] <= now) ==>
        rooms == old(rooms) && playerRooms == old(playerRooms)
      ensures rid in old(rooms) && s in old(rooms)[rid].disconnectTimeouts
              && old(rooms)[rid].disconnectTimeouts[s] <= now ==>
        && s in old(rooms)[rid].players
        && rooms == old(rooms) - {rid}
        && playerRooms == old(playerRooms) - (set p | p in old(rooms)[rid].players)
    {
      if rid !in rooms || s !in rooms[rid].disconnectTimeouts || now < rooms[rid].disconnectTimeouts[s] {
        return;
      }
      assert RoomValid(rooms[rid]);
      if s in rooms[rid].players {
        DropRoom(queue, rooms, playerRooms, rid);
        CleanupRoom(rid);
      }
    }
  }

  /** Handing the seat of `oldId` in room `rid` to a socket `s` that has no room
      and is not waiting, and moving the index entry with it, keeps the structures
      consistent, whatever else the valid replacement room changes. */
  lemma {:induction false} SwapSeat(queue: seq<SocketId>, rooms: map<RoomId, Room>,
                                    playerRooms: map<SocketId, RoomId>, rid: RoomId,
                                    k: nat, s: SocketId, room: Room)
    requires Consistent(queue, rooms, playerRooms)
    requires rid in rooms && k < 2 && |rooms[rid].players| == 2
    requires s !in playerRooms && s !in queue
    requires room.id == rid && RoomValid(room) && room.players == rooms[rid].players[k := s]
    ensures Consistent(queue, rooms[rid := room], (playerRooms - {rooms[rid].players[k]})[s := rid])
  {
    var oldId := rooms[rid].players[k];
    assert Filed(rooms, playerRooms, rid) && RoomValid(rooms[rid]);
    var rooms' := rooms[rid := room];
    var index' := (playerRooms - {oldId})[s := rid];
    forall r | r in rooms'
      ensures Filed(rooms', index', r)
    {
      if r != rid {
        assert Filed(rooms, playerRooms, r);
      }
    }
    forall t | t in index'
      ensures Indexed(rooms', index', t)
    {
      if t != s {
        assert Indexed(rooms, playerRooms, t);
      }
    }
    forall i | 0 <= i < |queue|
      ensures queue[i] !in index'
    {
      assert queue[i] in queue;
    }
  }

  /** A successful rejoin by a socket with no room and no queue entry keeps the
      structures consistent. */
  lemma {:induction false} RejoinKeepsValid(queue: seq<SocketId>, rooms: map<RoomId, Room>,
                                            playerRooms: map<SocketId, RoomId>, rid: RoomId,
                                            oldId: SocketId, s: SocketId,
                                            rooms': map<RoomId, Room>, index': map<SocketId, RoomId>)
    requires Consistent(queue, rooms, playerRooms)
    requires rid in rooms && oldId in rooms[rid].players
    requires s !in playerRooms && s !in queue
    requires var before := rooms[rid];
      && RoomValid(before)
      && rooms' == rooms[rid := RemapPlayer(CancelGrace(before, oldId), SlotOf(before, oldId), s)]
      && index' == (playerRooms - {oldId})[s := rid]
    ensures Consistent(queue, rooms', index')
  {
    var before := rooms[rid];
    assert Filed(rooms, playerRooms, rid);
    var k := SlotOf(before, oldId);
    var cancelled := CancelGrace(before, oldId);
    assert s !in before.players by {
      assert before.players == [before.players[0], before.players[1]];
    }
    RemapKeepsValid(cancelled, k, s);
    SwapSeat(queue, rooms, playerRooms, rid, k, s, RemapPlayer(cancelled, k, s));
  }
}
