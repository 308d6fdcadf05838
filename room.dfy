/** One game room and the round it runs: the record createRoom builds, the
    per-room steps of the player-ready, submit-pint-image, submit-result,
    accept-rematch and rejoin-room handlers, the result-deadline callback and
    the winner rule (server.js:81-117, 247-394, 437-462). */
module Rooms {
  import opened Types

  /** One player's result record `{submitted, image, accuracy}`. */
  datatype Submission = Submission(submitted: bool, image: Option<Image>, accuracy: Option<real>)

  /** The record every player starts a round with. */
  const Unsubmitted: Submission := Submission(false, None, None)
  /** The record the result deadline writes for a player who never submitted. */
  const Forfeit: Submission := Submission(true, None, Some(0.0))

  /** The room's single result-deadline timer: the opponent slot it will forfeit,
      its due time, and whether it is still pending. A timer that has fired stays in
      the room as a spent handle until a rematch, or a submit-result that completes
      the round, clears it, as in the source. */
  datatype Deadline = Deadline(opponentSlot: nat, due: int, pending: bool)

  /** The room record. `players` holds the two socket ids in pairing order; the four
      per-player maps are keyed by socket id; `disconnectTimeouts` maps a
      disconnected player's id to the due time of its pending grace timer. */
  datatype Room = Room(
    id: RoomId,
    players: seq<SocketId>,
    playerNames: map<SocketId, string>,
    state: Phase,
    readyState: map<SocketId, bool>,
    pintImages: map<SocketId, Option<Image>>,
    countdownStart: Option<int>,
    results: map<SocketId, Submission>,
    resultTimeout: Option<Deadline>,
    disconnectTimeouts: map<SocketId, int>,
    createdAt: int)

  /** The two socket ids seated in the room. */
  function Seats(r: Room): set<SocketId>
    requires |r.players| == 2
  {
    {r.players[0], r.players[1]}
  }

  /** The slot (0 or 1) holding `s`; callers pass a seated socket. */
  function SlotOf(r: Room, s: SocketId): (k: nat)
    requires |r.players| == 2 && s in r.players
    ensures k < 2 && r.players[k] == s
  {
    if r.players[0] == s then 0 else 1
  }

  /** `players.every(id => readyState[id])`; a missing entry reads as not ready. */
  predicate AllReady(r: Room) {
    forall i :: 0 <= i < |r.players| ==> r.players[i] in r.readyState && r.readyState[r.players[i]]
  }

  /** `players.every(id => results[id].submitted)`. */
  predicate AllSubmitted(r: Room) {
    forall i :: 0 <= i < |r.players| ==> r.players[i] in r.results && r.results[r.players[i]].submitted
  }

  /** With two seats, `every` reads exactly the two ready flags. */
  lemma TwoSeatsReady(r: Room)
    requires |r.players| == 2
    ensures AllReady(r) <==>
      && r.players[0] in r.readyState && r.readyState[r.players[0]]
      && r.players[1] in r.readyState && r.readyState[r.players[1]]
  {
  }

  /** With two seats, `every` reads exactly the two submitted flags. */
  lemma TwoSeatsSubmitted(r: Room)
    requires |r.players| == 2
    ensures AllSubmitted(r) <==>
      && r.players[0] in r.results && r.results[r.players[0]].submitted
      && r.players[1] in r.results && r.results[r.players[1]].submitted
  {
  }

  /** The result deadline is pending and its due time has come. */
  predicate DeadlineDue(r: Room, now: int) {
    r.resultTimeout.Some? && r.resultTimeout.value.pending && r.resultTimeout.value.due <= now
  }

  /** What every room keeps true between handlers: two distinct players, each per-player
      map keyed by exactly those two, grace timers only for seated players, a submitted
      record always carries an accuracy, reveal only once both have submitted, and a
      pending deadline always waits on the one player who has not submitted. */
  ghost predicate RoomValid(r: Room) {
    && |r.players| == 2
    && r.players[0] != r.players[1]
    && r.readyState.Keys == Seats(r)
    && r.results.Keys == Seats(r)
    && r.pintImages.Keys == Seats(r)
    && r.playerNames.Keys == Seats(r)
    && r.disconnectTimeouts.Keys <= Seats(r)
    && (forall p :: p in r.results && r.results[p].submitted ==> r.results[p].accuracy.Some?)
    && (r.state == Reveal ==> AllSubmitted(r))
    && (r.resultTimeout.Some? ==> r.resultTimeout.value.opponentSlot < 2)
    && (r.resultTimeout.Some? && r.resultTimeout.value.pending ==>
          var k := r.resultTimeout.value.opponentSlot;
          !r.results[r.players[k]].submitted && r.results[r.players[1 - k]].submitted)
  }

  /** createRoom: a fresh room for the two sockets taken from the queue. */
  function NewRoom(id: RoomId, p1: SocketId, p2: SocketId, now: int): (r: Room)
    ensures r.id == id && r.players == [p1, p2] && r.createdAt == now
    ensures p1 != p2 ==> RoomValid(r)
    ensures r.state == Matched && r.countdownStart == None
    ensures r.resultTimeout == None && r.disconnectTimeouts == map[]
    ensures forall p :: p in r.players ==>
      && p in r.readyState && !r.readyState[p]
      && p in r.results && r.results[p] == Unsubmitted
      && p in r.pintImages && r.pintImages[p] == None
    ensures !AllReady(r) && !AllSubmitted(r)
  {
    var r := Room(id, [p1, p2],
         map[p1 := "Player 1", p2 := "Player 2"],
         Matched,
         map[p1 := false, p2 := false],
         map[p1 := None, p2 := None],
         None,
         map[p1 := Unsubmitted, p2 := Unsubmitted],
         None,
         map[],
         now);
    assert !r.readyState[r.players[0]] && !r.results[r.players[0]].submitted;
    r
  }

  /** `players.find(id => id !== s)`: the first player that is not `s`. */
  function FindOther(players: seq<SocketId>, s: SocketId): (o: Option<SocketId>)
    ensures o.None? <==> forall i :: 0 <= i < |players| ==> players[i] == s
    ensures o.Some? ==> o.value != s && o.value in players
  {
    if players == [] then None
    else if players[0] != s then Some(players[0])
    else
      var rest := FindOther(players[1..], s);
      assert forall i :: 1 <= i < |players| ==> players[i] == players[1..][i - 1];
      rest
  }

  /** In a valid room a seated player's opponent is the player in the other slot. */
  lemma OpponentIsOtherSlot(r: Room, s: SocketId)
    requires RoomValid(r) && s in r.players
    ensures FindOther(r.players, s) == Some(r.players[1 - SlotOf(r, s)])
  {
  }

  /** The winner rule: strictly greater accuracy wins, equal accuracies give no winner. */
  function Winner(p1: SocketId, p2: SocketId, a1: real, a2: real): (w: Option<SocketId>)
    ensures a1 > a2 ==> w == Some(p1)
    ensures a2 > a1 ==> w == Some(p2)
    ensures w.None? <==> a1 == a2
  {
    if a1 > a2 then Some(p1) else if a2 > a1 then Some(p2) else None
  }

  /** The winner does not depend on which player sits in slot one. */
  lemma WinnerSymmetric(p1: SocketId, p2: SocketId, a1: real, a2: real)
    ensures Winner(p2, p1, a2, a1) == Winner(p1, p2, a1, a2)
  {
  }

  /** How `>` reads an accuracy: a missing (null) accuracy compares as 0. */
  function Numeric(a: Option<real>): real {
    match a
    case Some(v) => v
    case None => 0.0
  }

  /** The accuracy of the player in slot `k`, as the winner rule reads it. */
  function SlotAccuracy(r: Room, k: nat): real
    requires |r.players| == 2 && k < 2 && r.players[k] in r.results
  {
    Numeric(r.results[r.players[k]].accuracy)
  }

  /** The reveal-start payload: both results, the winner and the two player ids. */
  function RevealMessage(r: Room): (m: Message)
    requires |r.players| == 2 && r.players[0] in r.results && r.players[1] in r.results
    ensures m.RevealStart? && m.player1Id == r.players[0] && m.player2Id == r.players[1]
    ensures m.results.Keys == {r.players[0], r.players[1]}
    ensures forall p :: p in m.results ==>
      m.results[p] == Shown(r.results[p].image, r.results[p].accuracy)
    ensures m.winnerId.None? <==> SlotAccuracy(r, 0) == SlotAccuracy(r, 1)
    ensures SlotAccuracy(r, 0) > SlotAccuracy(r, 1) ==> m.winnerId == Some(r.players[0])
    ensures SlotAccuracy(r, 1) > SlotAccuracy(r, 0) ==> m.winnerId == Some(r.players[1])
  {
    var p1, p2 := r.players[0], r.players[1];
    RevealStart(
      map[p1 := Shown(r.results[p1].image, r.results[p1].accuracy),
          p2 := Shown(r.results[p2].image, r.results[p2].accuracy)],
      Winner(p1, p2, SlotAccuracy(r, 0), SlotAccuracy(r, 1)),
      p1, p2)
  }

  /** player-ready: set the caller's flag; once every flag is set, enter countdown
      anchored `PreCountdownMs` after now. */
  function MarkReady(r: Room, s: SocketId, now: int): (r': Room)
    requires RoomValid(r) && s in r.players
    ensures RoomValid(r')
    ensures r'.readyState == r.readyState[s := true]
    ensures AllReady(r') <==> r.readyState[r.players[1 - SlotOf(r, s)]]
    ensures AllReady(r') ==> r'.state == Countdown && r'.countdownStart == Some(now + PreCountdownMs)
    ensures !AllReady(r') ==> r'.state == r.state && r'.countdownStart == r.countdownStart
    ensures r'.(readyState := r.readyState, state := r.state, countdownStart := r.countdownStart) == r
  {
    var marked := r.(readyState := r.readyState[s := true]);
    if AllReady(marked) then marked.(state := Countdown, countdownStart := Some(now + PreCountdownMs))
    else marked
  }

  /** submit-pint-image: store the caller's reference image, nothing else. */
  function StorePintImage(r: Room, s: SocketId, image: Option<Image>): (r': Room)
    requires RoomValid(r) && s in r.players
    ensures RoomValid(r')
    ensures s in r'.pintImages && r'.pintImages[s] == image
    ensures forall p :: p in r.pintImages && p != s ==> p in r'.pintImages && r'.pintImages[p] == r.pintImages[p]
    ensures r'.(pintImages := r.pintImages) == r
  {
    r.(pintImages := r.pintImages[s := image])
  }

  /** submit-result: record the caller's result; start the deadline for the opponent
      if none is outstanding and the opponent has not submitted; once both have
      submitted, cancel the deadline and reveal. */
  function AfterSubmit(r: Room, s: SocketId, image: Option<Image>, accuracy: real, now: int): (r': Room)
    requires RoomValid(r) && s in r.players
    ensures r'.results == r.results[s := Submission(true, image, Some(accuracy))]
    ensures AllSubmitted(r') <==> r.results[r.players[1 - SlotOf(r, s)]].submitted
    ensures AllSubmitted(r') ==> r'.state == Reveal && r'.resultTimeout == None
    ensures !AllSubmitted(r') ==> r'.state == r.state
    ensures !AllSubmitted(r') && r.resultTimeout.Some? ==> r'.resultTimeout == r.resultTimeout
    ensures !AllSubmitted(r') && r.resultTimeout.None? ==>
      r'.resultTimeout == Some(Deadline(1 - SlotOf(r, s), now + ResultDeadlineMs, true))
    ensures r'.(results := r.results, state := r.state, resultTimeout := r.resultTimeout) == r
  {
    OpponentIsOtherSlot(r, s);
    var opponent := FindOther(r.players, s).value;
    var recorded := r.(results := r.results[s := Submission(true, image, Some(accuracy))]);
    var otherSubmitted := opponent in recorded.results && recorded.results[opponent].submitted;
    var timed :=
      if !otherSubmitted && recorded.resultTimeout.None?
      then recorded.(resultTimeout := Some(Deadline(SlotOf(r, opponent), now + ResultDeadlineMs, true)))
      else recorded;
    var r' := if AllSubmitted(timed) then timed.(resultTimeout := None, state := Reveal) else timed;
    TwoSeatsSubmitted(timed);
    TwoSeatsSubmitted(r');
    r'
  }

  /** submit-result keeps the room valid: in particular a deadline left pending
      still waits on the one player who has not submitted. */
  lemma AfterSubmitKeepsValid(r: Room, s: SocketId, image: Option<Image>, accuracy: real, now: int)
    requires RoomValid(r) && s in r.players
    ensures RoomValid(AfterSubmit(r, s, image, accuracy, now))
  {
    var r' := AfterSubmit(r, s, image, accuracy, now);
    assert r'.results.Keys == r.results.Keys;
    TwoSeatsSubmitted(r');
  }

  /** The result-deadline callback, with the timer aimed at the opponent's slot: if
      the player now in that slot still has not submitted, record a forfeit
      (accuracy 0) and reveal. The timer is spent either way. */
  function FireDeadline(r: Room, now: int): (r': Room)
    requires RoomValid(r)
    ensures RoomValid(r')
    ensures !DeadlineDue(r, now) ==> r' == r
    ensures DeadlineDue(r, now) ==>
      var d := r.resultTimeout.value;
      && r'.state == Reveal
      && AllSubmitted(r')
      && r'.results == r.results[r.players[d.opponentSlot] := Forfeit]
      && r'.resultTimeout == Some(d.(pending := false))
    ensures r'.(results := r.results, state := r.state, resultTimeout := r.resultTimeout) == r
  {
    if !DeadlineDue(r, now) then r
    else
      var d := r.resultTimeout.value;
      var opponent := r.players[d.opponentSlot];
      var spent := r.(resultTimeout := Some(d.(pending := false)));
      var stillPending := opponent !in spent.results || !spent.results[opponent].submitted;
      if stillPending then spent.(results := spent.results[opponent := Forfeit], state := Reveal)
      else spent
  }

  /** When the deadline forfeits the opponent, the submitter wins exactly when the
      accuracy they sent is above 0, and a submitted 0 is a tie. */
  lemma ForfeitWinner(r: Room, now: int)
    requires RoomValid(r) && DeadlineDue(r, now)
    ensures var k := r.resultTimeout.value.opponentSlot;
      var a := SlotAccuracy(r, 1 - k);
      var m := RevealMessage(FireDeadline(r, now));
      m.winnerId == (if a > 0.0 then Some(r.players[1 - k]) else if a < 0.0 then Some(r.players[k]) else None)
  {
    var k := r.resultTimeout.value.opponentSlot;
    var f := FireDeadline(r, now);
    assert SlotAccuracy(f, k) == 0.0;
    assert SlotAccuracy(f, 1 - k) == SlotAccuracy(r, 1 - k);
  }

  /** accept-rematch: every round field goes back to its initial value. */
  function ResetForRematch(r: Room): (r': Room)
    requires RoomValid(r)
    ensures RoomValid(r')
    ensures r'.state == Matched && r'.countdownStart == None && r'.resultTimeout == None
    ensures forall p :: p in r.players ==>
      && p in r'.readyState && !r'.readyState[p]
      && p in r'.results && r'.results[p] == Unsubmitted
      && p in r'.pintImages && r'.pintImages[p] == None
    ensures !AllReady(r') && !AllSubmitted(r')
    ensures r'.id == r.id && r'.players == r.players && r'.playerNames == r.playerNames
    ensures r'.disconnectTimeouts == r.disconnectTimeouts && r'.createdAt == r.createdAt
  {
    var p1, p2 := r.players[0], r.players[1];
    assert r.players == [p1, p2];
    r.(state := Matched,
       readyState := map[p1 := false, p2 := false],
       pintImages := map[p1 := None, p2 := None],
       countdownStart := None,
       resultTimeout := None,
       results := map[p1 := Unsubmitted, p2 := Unsubmitted])
  }

  /** A rematch puts the room back exactly where createRoom left it, apart from the
      names and any pending grace timers, which it does not touch. */
  lemma RematchIsFreshRound(r: Room)
    requires RoomValid(r)
    ensures ResetForRematch(r) ==
      NewRoom(r.id, r.players[0], r.players[1], r.createdAt)
        .(playerNames := r.playerNames, disconnectTimeouts := r.disconnectTimeouts)
  {
  }

  /** rejoin-room's cancellation of the old socket's grace timer. */
  function CancelGrace(r: Room, s: SocketId): (r': Room)
    requires RoomValid(r)
    ensures RoomValid(r')
    ensures s !in r'.disconnectTimeouts
    ensures r'.(disconnectTimeouts := r.disconnectTimeouts) == r
  {
    r.(disconnectTimeouts := r.disconnectTimeouts - {s})
  }

  /** `m[to] = m[from]; delete m[from]` when `from` has an entry. */
  function Move<V>(m: map<SocketId, V>, from: SocketId, to: SocketId): (m': map<SocketId, V>)
    ensures from !in m ==> m' == m
    ensures from in m && from != to ==>
      && m'.Keys == m.Keys - {from} + {to}
      && m'[to] == m[from]
    ensures forall k :: k in m && k != from && k != to ==> k in m' && m'[k] == m[k]
  {
    if from in m then m[to := m[from]] - {from} else m
  }

  /** Every per-player entry of `r` follows its slot into `r'`, and each map is keyed
      by exactly the players of `r'`. */
  ghost predicate EntriesFollowSlots(r: Room, r': Room)
    requires |r.players| == 2 && |r'.players| == 2
  {
    && r'.readyState.Keys == Seats(r') && r'.results.Keys == Seats(r')
    && r'.pintImages.Keys == Seats(r') && r'.playerNames.Keys == Seats(r')
    && forall k :: 0 <= k < 2 ==>
      && r.players[k] in r.readyState && r.players[k] in r.results
      && r.players[k] in r.pintImages && r.players[k] in r.playerNames
      && r'.readyState[r'.players[k]] == r.readyState[r.players[k]]
      && r'.results[r'.players[k]] == r.results[r.players[k]]
      && r'.pintImages[r'.players[k]] == r.pintImages[r.players[k]]
      && r'.playerNames[r'.players[k]] == r.playerNames[r.players[k]]
  }

  /** rejoin-room's remapping: the socket in slot `i` is replaced by `to`, and each
      per-player entry of the old socket moves to `to`. */
  function RemapPlayer(r: Room, i: nat, to: SocketId): (r': Room)
    requires RoomValid(r) && i < 2
    ensures r'.players == r.players[i := to]
    ensures to !in r.players ==> EntriesFollowSlots(r, r')
    ensures r'.(players := r.players, readyState := r.readyState, results := r.results,
                pintImages := r.pintImages, playerNames := r.playerNames) == r
  {
    var from := r.players[i];
    r.(players := r.players[i := to],
       readyState := Move(r.readyState, from, to),
       results := Move(r.results, from, to),
       pintImages := Move(r.pintImages, from, to),
       playerNames := Move(r.playerNames, from, to))
  }

  /** A rejoin by a socket that holds no seat in the room keeps the room valid,
      once the old socket's grace timer is gone. */
  lemma {:induction false} RemapKeepsValid(r: Room, i: nat, to: SocketId)
    requires RoomValid(r) && i < 2 && r.players[i] !in r.disconnectTimeouts && to !in r.players
    ensures RoomValid(RemapPlayer(r, i, to))
  {
    var r' := RemapPlayer(r, i, to);
    assert EntriesFollowSlots(r, r');
    var p0, p1 := r'.players[0], r'.players[1];
    assert r'.results[p0] == r.results[r.players[0]] && r'.results[p1] == r.results[r.players[1]];
    assert r'.results.Keys == {p0, p1};
    TwoSeatsSubmitted(r);
    TwoSeatsSubmitted(r');
  }

  // ---- The result-deadline callback as the source writes it ----

  /** The result-deadline callback of server.js as written: it forfeits the socket
      id `captured` when submit-result ran, whoever holds that slot now. */
  function FireDeadlineAsWritten(r: Room, captured: SocketId): (r': Room)
    ensures r'.players == r.players
    ensures (captured !in r.results || !r.results[captured].submitted) ==>
      r'.state == Reveal && r'.results == r.results[captured := Forfeit]
    ensures captured in r.results && r.results[captured].submitted ==> r' == r
  {
    var stillPending := captured !in r.results || !r.results[captured].submitted;
    if stillPending then r.(results := r.results[captured := Forfeit], state := Reveal) else r
  }

  /** The opponent disconnects while the deadline runs and rejoins under a new
      socket id. The callback as written then forfeits the old id, which no longer
      has a seat: the room enters reveal with its current opponent unsubmitted, and
      its results keep an entry for a socket that left. */
  lemma StaleForfeitAfterRejoin(r: Room, now: int, newId: SocketId)
    requires RoomValid(r) && DeadlineDue(r, now) && newId !in r.players
    ensures var k := r.resultTimeout.value.opponentSlot;
      var stale := r.players[k];
      var rejoined := RemapPlayer(CancelGrace(r, stale), k, newId);
      var fired := FireDeadlineAsWritten(rejoined, stale);
      && fired.state == Reveal
      && !AllSubmitted(fired)
      && !fired.results[newId].submitted
      && stale in fired.results && stale !in fired.players
      && !RoomValid(fired)
  {
    var k := r.resultTimeout.value.opponentSlot;
    var stale := r.players[k];
    var rejoined := RemapPlayer(CancelGrace(r, stale), k, newId);
    assert rejoined.players[k] == newId;
    assert stale !in rejoined.results;
    var fired := FireDeadlineAsWritten(rejoined, stale);
    assert fired.players[k] == newId;
    assert stale in fired.results.Keys && stale !in Seats(fired);
  }

  /** The same sequence with the timer aimed at the slot: the forfeit lands on the
      socket that now holds the slot and the room reveals with both results in. */
  lemma ForfeitFollowsRejoin(r: Room, now: int, newId: SocketId)
    requires RoomValid(r) && DeadlineDue(r, now) && newId !in r.players
    ensures var k := r.resultTimeout.value.opponentSlot;
      var rejoined := RemapPlayer(CancelGrace(r, r.players[k]), k, newId);
      var fired := FireDeadline(rejoined, now);
      && fired.state == Reveal
      && AllSubmitted(fired)
      && fired.results[newId] == Forfeit
      && fired.players == r.players[k := newId]
  {
    var k := r.resultTimeout.value.opponentSlot;
    var rejoined := RemapPlayer(CancelGrace(r, r.players[k]), k, newId);
    assert rejoined.players[k] == newId;
    assert DeadlineDue(rejoined, now);
  }

  /** A submit-result that arrives after the deadline forfeited its sender replaces
      the forfeit and completes the round again, so a second reveal follows. */
  lemma LateSubmissionRevealsAgain(r: Room, now: int, image: Option<Image>, accuracy: real, later: int)
    requires RoomValid(r) && DeadlineDue(r, now)
    ensures var k := r.resultTimeout.value.opponentSlot;
      var fired := FireDeadline(r, now);
      var late := AfterSubmit(fired, r.players[k], image, accuracy, later);
      && fired.state == Reveal
      && AllSubmitted(late) && late.state == Reveal
      && late.results[r.players[k]] == Submission(true, image, Some(accuracy))
  {
    var k := r.resultTimeout.value.opponentSlot;
    var fired := FireDeadline(r, now);
    assert SlotOf(fired, r.players[k]) == k;
  }
}
