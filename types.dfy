/** Identifiers, outgoing messages and timing constants shared by the
    matchmaking and room coordinator of the two-player game server. */
module Types {
  /** A socket.io connection id. */
  type SocketId = string
  /** A room id; the server draws it at random, here the caller supplies it. */
  type RoomId = string
  /** An image payload sent by a client (a data URL); the server never looks inside. */
  type Image = string
  /** A WebRTC negotiation payload (offer, answer or ICE candidate), forwarded untouched. */
  type Payload = string

  datatype Option<+T> = None | Some(value: T)

  /** Pre-roll added to the current time when both players are ready. */
  const PreCountdownMs: int := 3000
  /** Length of the timed round announced with game-start. */
  const RoundDurationMs: int := 30000
  /** Time the second player has to submit once the first has submitted. */
  const ResultDeadlineMs: int := 90000
  /** Time a room waits for a disconnected player to rejoin. */
  const GracePeriodMs: int := 10000

  /** The error text join-queue sends to a socket that already has a room. */
  const AlreadyInGame: string := "Already in a game"

  /** The values the server ever stores in a room's `state`. */
  datatype Phase = Matched | Countdown | Reveal

  /** The three WebRTC signaling messages the server relays. */
  datatype SignalKind = Offer | Answer | IceCandidate

  /** One player's entry in reveal-start: the result image and accuracy. */
  datatype Shown = Shown(image: Option<Image>, accuracy: Option<real>)

  /** The payloads the server emits. */
  datatype Message =
    | ErrorMsg(message: string)
    | QueueJoined(position: nat)
    | MatchFound(roomId: RoomId, playerId: SocketId, opponentId: SocketId, isInitiator: bool)
    | Signal(kind: SignalKind, payload: Payload, from: SocketId)
    | ReadyUpdate(readyState: map<SocketId, bool>)
    | GameStart(countdownStart: int, duration: int)
    | OpponentSubmitted
    | RevealStart(results: map<SocketId, Shown>, winnerId: Option<SocketId>,
                  player1Id: SocketId, player2Id: SocketId)
    | RematchRequested(from: SocketId)
    | RematchAccepted
    | RematchDeclined
    | OpponentLeft
    | OpponentDisconnected
    | RejoinFailed
    | RejoinSuccess(roomId: RoomId, state: Phase)

  /** Who receives an emit: one socket, or every socket joined to a room. */
  datatype Target = ToSocket(socket: SocketId) | ToRoom(room: RoomId)

  datatype Event = Event(to: Target, msg: Message)
}
