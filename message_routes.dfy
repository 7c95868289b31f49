/** The HTTP routes under `/api/message`, once authentication has let the request through.
    The reacting user of `POST /:id/reactions` is a parameter: the route reads it from the
    decoded token. */
module MessageRoutes {
  import opened Model
  import opened Db
  import Reactions
  import ReadState

  /** `POST /`: store the message and answer 201. Unlike the createMessage event, the
      conversation's last message is not updated and nothing is broadcast. */
  method PostMessage(s: Store, sender: Id, receiver: Id, messageType: string, content: string,
                     replyTo: Option<Id>, conversationId: Id, now: Time)
    returns (status: nat, m: Message)
    requires s.Valid()
    modifies s
    ensures s.Valid()
    ensures status == 201
    ensures m == Message(old(s.nextId), sender, receiver, messageType, content, replyTo, conversationId, false, [], now)
    ensures s.messages == old(s.messages) + [m]
    ensures s.users == old(s.users) && s.conversations == old(s.conversations) && s.pauses == old(s.pauses)
    ensures ReadState.UnreadCount(s.messages, conversationId, receiver) ==
              ReadState.UnreadCount(old(s.messages), conversationId, receiver) + 1
  {
    m := s.InsertMessage(sender, receiver, messageType, content, replyTo, conversationId, now);
    status := 201;
  }

  /** `POST /:id/reactions`: upsert the user's reaction; 200 and the message, or 404. */
  method PostReaction(s: Store, messageId: Id, u: Id, reactionType: string) returns (status: nat, m: Option<Message>)
    requires s.Valid()
    modifies s
    ensures s.Valid()
    ensures s.users == old(s.users) && s.conversations == old(s.conversations) && s.pauses == old(s.pauses)
    ensures match MessageAt(old(s.messages), messageId)
            case None => status == 404 && m.None? && s.messages == old(s.messages)
            case Some(k) =>
              status == 200 &&
              m == Some(old(s.messages)[k].(reactions := Reactions.Upsert(old(s.messages)[k].reactions, u, reactionType))) &&
              s.messages == old(s.messages)[k := m.value]
  {
    var at := MessageAt(s.messages, messageId);
    if at.None? {
      return 404, None;
    }
    var k := at.value;
    var rs := Reactions.ApplyUpsert(s.messages[k].reactions, u, reactionType);
    Reactions.UpsertLeavesExactlyOne(s.messages[k].reactions, u, reactionType);
    s.SetReactions(k, rs);
    status, m := 200, Some(s.messages[k]);
  }

  /** `POST /:id/reply`: store a message whose `replyTo` is the id in the path (not checked
      to exist) and answer 201. */
  method PostReply(s: Store, replyTo: Id, sender: Id, receiver: Id, messageType: string, content: string,
                   conversationId: Id, now: Time)
    returns (status: nat, m: Message)
    requires s.Valid()
    modifies s
    ensures s.Valid()
    ensures status == 201
    ensures m == Message(old(s.nextId), sender, receiver, messageType, content, Some(replyTo), conversationId, false, [], now)
    ensures s.messages == old(s.messages) + [m]
    ensures s.users == old(s.users) && s.conversations == old(s.conversations) && s.pauses == old(s.pauses)
  {
    m := s.InsertMessage(sender, receiver, messageType, content, Some(replyTo), conversationId, now);
    status := 201;
  }

  /** `GET /:id`: 200 and the stored message, or 404. */
  method GetMessage(s: Store, id: Id) returns (status: nat, m: Option<Message>)
    ensures status == 200 || status == 404
    ensures status == 404 <==> forall j :: 0 <= j < |s.messages| ==> s.messages[j].id != id
    ensures status == 404 ==> m.None?
    ensures status == 200 ==> m.Some? && m.value in s.messages && m.value.id == id
  {
    match MessageAt(s.messages, id)
    case None =>
      status, m := 404, None;
    case Some(k) =>
      status, m := 200, Some(s.messages[k]);
  }

  /** `PUT /:id/markAsRead`: 400 and no change when `conversationId` or `userId` is
      missing; otherwise every unread message of the conversation addressed to the user is
      marked read, and the answer carries how many were. */
  method MarkAsRead(s: Store, conversationId: Option<Id>, userId: Option<Id>)
    returns (status: nat, modifiedCount: Option<nat>)
    requires s.Valid()
    modifies s
    ensures s.Valid()
    ensures s.users == old(s.users) && s.conversations == old(s.conversations) && s.pauses == old(s.pauses)
    ensures conversationId.None? || userId.None? ==>
              status == 400 && modifiedCount.None? && s.messages == old(s.messages)
    ensures conversationId.Some? && userId.Some? ==>
              status == 200 &&
              s.messages == ReadState.MarkRead(old(s.messages), conversationId.value, userId.value) &&
              modifiedCount == Some(ReadState.UnreadCount(old(s.messages), conversationId.value, userId.value)) &&
              ReadState.UnreadCount(s.messages, conversationId.value, userId.value) == 0
  {
    if conversationId.None? || userId.None? {
      return 400, None;
    }
    var n := s.MarkRead(conversationId.value, userId.value);
    ReadState.MarkReadClearsUnread(old(s.messages), conversationId.value, userId.value);
    status, modifiedCount := 200, Some(n);
  }
}
