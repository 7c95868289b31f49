/** Records of the chat backend, as its MongoDB collections hold them.
    Document ids are naturals, dates are integer milliseconds since the epoch. */
module Model {

  type Id = nat

  /** A JavaScript `Date`, in milliseconds since the epoch. */
  type Time = int

  datatype Option<T> = None | Some(value: T)

  /** What went wrong in a handler: each becomes a 4xx/5xx status on the HTTP side
      and an `error` event on the socket side. */
  datatype Failure =
    | NotFound              // findById / findOne found nothing
    | InvalidParticipants   // some e-mail did not resolve to a user
    | AlreadyExists         // a direct conversation for the pair exists
    | MissingFields         // a required body field is absent
    | Thrown                // an exception reached the handler's catch block

  datatype Outcome<T> = Ok(value: T) | Err(failure: Failure)

  /** A registered user as `/register` stores it (the password hash is never selected by the
      modelled reads and is left out); the photo is null when no file was uploaded. */
  datatype User = User(id: Id, email: string, nameAndFirstName: string, jeSuis: string, profilePhoto: Option<string>)

  /** One entry of the reaction list embedded in a message. */
  datatype Reaction = Reaction(user: Id, reactionType: string)

  datatype Message = Message(
    id: Id,
    sender: Id,
    receiver: Id,
    messageType: string,
    content: string,
    replyTo: Option<Id>,
    conversationId: Id,
    isRead: bool,
    reactions: seq<Reaction>,
    createdAt: Time)

  datatype Conversation = Conversation(
    id: Id,
    participants: seq<Id>,
    isGroup: bool,
    conversationName: Option<string>,
    lastMessage: Option<Id>,
    isArchived: bool,
    createdAt: Time,
    updatedAt: Time)

  /** A work pause; `duration` is in seconds, `None` while the pause is running. */
  datatype Pause = Pause(
    id: Id,
    user: Id,
    startTime: Time,
    endTime: Option<Time>,
    duration: Option<real>,
    isPaused: bool)

  /** Who receives an emitted socket event: every connection (`io.emit`), the members of
      a room (`io.to(room)`), the members of a room but the sender (`socket.to(room)`),
      or the requesting connection alone (`socket.emit`). */
  datatype Scope = Everyone | Room(room: Id) | RoomExceptSender(room: Id) | Sender

  datatype Emit = Emit(scope: Scope, event: string)

  predicate Distinct<T(==)>(s: seq<T>) {
    forall i, j :: 0 <= i < j < |s| ==> s[i] != s[j]
  }
}
