/** Values that travel between the room server and its browser clients: the
    socket.io events the server emits, who receives each one, and the rows of
    a `users_update` presence snapshot. */
module Wire {

  datatype Option<+T> = None | Some(value: T)

  /** The value of `socket.username`: absent (`undefined`/`null`) until
      `set_username`, afterwards whatever string the client sent. */
  type User = Option<string>

  /** JavaScript truthiness of an optional string: absent and "" are falsy. */
  predicate Truthy(o: Option<string>)
  {
    o.Some? && o.value != ""
  }

  /** A payload the server forwards without looking inside it (offers,
      answers, ICE candidates, playback actions). */
  type Payload = string

  /** One row of `users_update`. `voiceLevel` and `isHost` are present only in
      the snapshots that send them. */
  datatype Entry = Entry(username: User, latency: int, voiceLevel: Option<real>, isHost: Option<bool>)

  /** The events the server emits, with their arguments. */
  datatype Event =
    | Pong
    | UsernameSet
    | RoomsList(names: seq<string>)
    | UserJoined(user: User)
    | UsersUpdate(entries: seq<Entry>)
    | YouAreHost
    | NewHost(user: User)
    | UserReadyToCall(connectionId: string)
    | PeerStoppedCall(connectionId: string)
    | CallOffer(offer: Payload, userId: string)
    | CallAnswer(answer: Payload, userId: string)
    | IceCandidate(candidate: Payload, userId: string)
    | UserStartedCall(user: User)
    | UserStoppedCall(user: User)
    | AudioCommand(action: Payload)
    | FileUploaded(filename: string)
  {
    /** The socket.io event name. `stop_call` and `user_stopped_call` both
        produce "user_stopped_call", once with a connection id and once with a
        username. */
    function Name(): string
    {
      match this
      case Pong => "pong"
      case UsernameSet => "username_set"
      case RoomsList(_) => "rooms_list"
      case UserJoined(_) => "user_joined"
      case UsersUpdate(_) => "users_update"
      case YouAreHost => "you_are_host"
      case NewHost(_) => "new_host"
      case UserReadyToCall(_) => "user_ready_to_call"
      case PeerStoppedCall(_) => "user_stopped_call"
      case CallOffer(_, _) => "call_offer"
      case CallAnswer(_, _) => "call_answer"
      case IceCandidate(_, _) => "ice_candidate"
      case UserStartedCall(_) => "user_started_call"
      case UserStoppedCall(_) => "user_stopped_call"
      case AudioCommand(_) => "audio_command"
      case FileUploaded(_) => "file_uploaded"
    }
  }

  /** Who an emission is addressed to. A socket.io room is a name; every
      connection is also in the room named by its own id. */
  datatype Recipient =
    | ToConnection(id: string)                          // socket.emit
    | ToRoom(room: string)                              // io.to(room).emit
    | ToRoomExcept(room: string, sender: string)        // socket.to(room).emit
    | ToEveryone                                        // io.emit

  datatype Message = Message(to: Recipient, event: Event)
}
