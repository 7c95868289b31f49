/** The socket.io event handlers of the server, one method per event. Each handler receives
    the store, the requesting connection and the event's payload fields; the clock is a
    parameter. Failures that the handlers catch become an `error` event to the sender. */
module SocketApi {
  import opened Model
  import opened Db
  import opened Transport
  import Reactions
  import ReadState
  import ConversationLogic
  import Presence

  const ErrorEvent := Emit(Sender, "error")

  /* ---------- Conversations ---------- */

  /** createConversation: resolve the e-mails, add the requester, refuse a second direct
      conversation for the same pair, then store and broadcast the new conversation. */
  method CreateConversation(s: Store, io: Socket, emails: seq<string>, requester: Option<Id>, now: Time)
    returns (r: Outcome<Conversation>)
    requires s.Valid()
    modifies s, io
    ensures s.Valid()
    ensures s.users == old(s.users) && s.messages == old(s.messages) && s.pauses == old(s.pauses)
    ensures io.rooms == old(io.rooms)
    ensures
      var found := ConversationLogic.UsersByEmail(old(s.users), emails);
      var ids := ConversationLogic.ParticipantIds(found, requester);
      if |found| != |emails| then
        r == Err(InvalidParticipants) && s.conversations == old(s.conversations) && s.nextId == old(s.nextId) &&
        io.sent == old(io.sent) + [ErrorEvent]
      else if |ids| <= 2 && ConversationLogic.HasDirect(old(s.conversations), ids) then
        r == Err(AlreadyExists) && s.conversations == old(s.conversations) && s.nextId == old(s.nextId) &&
        io.sent == old(io.sent) + [ErrorEvent]
      else
        r == Ok(Conversation(old(s.nextId), ids, |ids| > 2, None, None, false, now, now)) &&
        s.conversations == old(s.conversations) + [r.value] && s.nextId == old(s.nextId) + 1 &&
        io.sent == old(io.sent) + [Emit(Everyone, "conversationCreated")]
    ensures ConversationLogic.DirectPairUnique(old(s.conversations)) ==> ConversationLogic.DirectPairUnique(s.conversations)
  {
    var found := ConversationLogic.UsersByEmail(s.users, emails);
    if |found| != |emails| {
      io.sent := io.sent + [ErrorEvent];
      return Err(InvalidParticipants);
    }
    var ids := ConversationLogic.ResolveParticipants(found, requester);
    var isGroup := |ids| > 2;
    if !isGroup && ConversationLogic.HasDirect(s.conversations, ids) {
      io.sent := io.sent + [ErrorEvent];
      return Err(AlreadyExists);
    }
    ghost var before := s.conversations;
    var c := s.InsertConversation(ids, isGroup, None, None, false, now);
    if ConversationLogic.DirectPairUnique(before) {
      ConversationLogic.CreateKeepsDirectUnique(before, c);
    }
    io.sent := io.sent + [Emit(Everyone, "conversationCreated")];
    r := Ok(c);
  }

  /** deleteConversation: remove the conversation and tell every client, or report that it
      does not exist. Its messages stay in the store. */
  method DeleteConversation(s: Store, io: Socket, conversationId: Id) returns (r: Outcome<Id>)
    requires s.Valid()
    modifies s, io
    ensures s.Valid()
    ensures s.users == old(s.users) && s.messages == old(s.messages) && s.pauses == old(s.pauses)
    ensures io.rooms == old(io.rooms)
    ensures match ConversationAt(old(s.conversations), conversationId)
            case None =>
              r == Err(NotFound) && s.conversations == old(s.conversations) && io.sent == old(io.sent) + [ErrorEvent]
            case Some(k) =>
              r == Ok(conversationId) &&
              s.conversations == old(s.conversations)[..k] + old(s.conversations)[k + 1..] &&
              io.sent == old(io.sent) + [Emit(Everyone, "conversationDeleted")]
    ensures forall j :: 0 <= j < |s.conversations| ==> s.conversations[j].id != conversationId
  {
    var deleted := s.DeleteConversation(conversationId);
    if deleted.None? {
      io.sent := io.sent + [ErrorEvent];
      r := Err(NotFound);
    } else {
      io.sent := io.sent + [Emit(Everyone, "conversationDeleted")];
      r := Ok(conversationId);
    }
  }

  /** The `forEach` of getConversations that joins one room per listed conversation. */
  method JoinRooms(io: Socket, rooms: seq<Id>)
    modifies io
    ensures io.rooms == old(io.rooms) + set x | x in rooms
    ensures io.sent == old(io.sent)
  {
    var k := 0;
    while k < |rooms|
      invariant 0 <= k <= |rooms|
      invariant io.rooms == old(io.rooms) + set x | x in rooms[..k]
      invariant io.sent == old(io.sent)
    {
      assert rooms[..k + 1] == rooms[..k] + [rooms[k]];
      io.rooms := io.rooms + {rooms[k]};
      k := k + 1;
    }
    assert rooms[..k] == rooms;
  }

  /** The ids of the listed conversations, in listing order. */
  function ListedIds(entries: seq<ConversationLogic.ListingEntry>): (ids: seq<Id>)
    ensures |ids| == |entries| && forall k :: 0 <= k < |entries| ==> ids[k] == entries[k].conversationId
  {
    seq(|entries|, k requires 0 <= k < |entries| => entries[k].conversationId)
  }

  /** getConversations: send the requester's listing, then join the room of every listed
      conversation. */
  method GetConversations(s: Store, io: Socket, u: Id) returns (entries: seq<ConversationLogic.ListingEntry>)
    modifies io
    ensures entries == ConversationLogic.Listing(s.conversations, s.users, s.messages, u)
    ensures io.sent == old(io.sent) + [Emit(Sender, "conversations")]
    ensures io.rooms == old(io.rooms) + set x | x in ListedIds(entries)
  {
    entries := ConversationLogic.Listing(s.conversations, s.users, s.messages, u);
    io.sent := io.sent + [Emit(Sender, "conversations")];
    JoinRooms(io, ListedIds(entries));
  }

  /** The `messagesRead` notices of joinConversation: one to the personal room of each
      populated participant other than the reader, in participant order. */
  function ReadNotices(ps: seq<User>, u: Id): (r: seq<Emit>)
    ensures forall e :: e in r ==> exists p :: p in ps && p.id != u && e == Emit(Room(p.id), "messagesRead")
    ensures forall p :: p in ps && p.id != u ==> Emit(Room(p.id), "messagesRead") in r
  {
    if |ps| == 0 then []
    else
      var init := ps[..|ps| - 1];
      var last := ps[|ps| - 1];
      assert forall p :: p in ps ==> p in init || p == last;
      assert forall p :: p in init ==> p in ps;
      ReadNotices(init, u) + (if last.id != u then [Emit(Room(last.id), "messagesRead")] else [])
  }

  /** The `forEach` of joinConversation that emits the `messagesRead` notices. */
  method NotifyReaders(io: Socket, ps: seq<User>, u: Id)
    modifies io
    ensures io.sent == old(io.sent) + ReadNotices(ps, u) && io.rooms == old(io.rooms)
  {
    var i := 0;
    while i < |ps|
      invariant 0 <= i <= |ps|
      invariant io.sent == old(io.sent) + ReadNotices(ps[..i], u) && io.rooms == old(io.rooms)
    {
      assert ps[..i + 1][..i] == ps[..i];
      if ps[i].id != u {
        io.sent := io.sent + [Emit(Room(ps[i].id), "messagesRead")];
      }
      i := i + 1;
    }
    assert ps[..i] == ps;
  }

  /** joinConversation: join the conversation's room, mark what the user received in it as
      read, notify the other participants, and send the user a fresh conversation list. A
      conversation that does not exist makes the handler throw after the update. */
  method JoinConversation(s: Store, io: Socket, conversationId: Id, u: Id) returns (r: Outcome<nat>)
    requires s.Valid()
    modifies s, io
    ensures s.Valid()
    ensures io.rooms == old(io.rooms) + {conversationId}
    ensures s.messages == ReadState.MarkRead(old(s.messages), conversationId, u)
    ensures s.users == old(s.users) && s.conversations == old(s.conversations) && s.pauses == old(s.pauses)
    ensures ReadState.UnreadCount(s.messages, conversationId, u) == 0
    ensures match ConversationAt(s.conversations, conversationId)
            case None => r == Err(Thrown) && io.sent == old(io.sent) + [ErrorEvent]
            case Some(k) =>
              r == Ok(ReadState.UnreadCount(old(s.messages), conversationId, u)) &&
              io.sent == old(io.sent) +
                ReadNotices(ConversationLogic.Populate(s.users, s.conversations[k].participants), u) +
                [Emit(Sender, "conversations")]
  {
    io.rooms := io.rooms + {conversationId};
    var modifiedCount := s.MarkRead(conversationId, u);
    ReadState.MarkReadClearsUnread(old(s.messages), conversationId, u);
    var at := ConversationAt(s.conversations, conversationId);
    if at.None? {
      io.sent := io.sent + [ErrorEvent];
      return Err(Thrown);
    }
    var ps := ConversationLogic.Populate(s.users, s.conversations[at.value].participants);
    NotifyReaders(io, ps, u);
    io.sent := io.sent + [Emit(Sender, "conversations")];
    r := Ok(modifiedCount);
  }

  /** archiveConversation: set the archive flag, answer the sender and tell every client. */
  method ArchiveConversation(s: Store, io: Socket, conversationId: Id) returns (r: Outcome<Conversation>)
    requires s.Valid()
    modifies s, io
    ensures s.Valid()
    ensures s.users == old(s.users) && s.messages == old(s.messages) && s.pauses == old(s.pauses)
    ensures io.rooms == old(io.rooms)
    ensures match ConversationAt(old(s.conversations), conversationId)
            case None =>
              r == Err(NotFound) && s.conversations == old(s.conversations) && io.sent == old(io.sent) + [ErrorEvent]
            case Some(k) =>
              r == Ok(old(s.conversations)[k].(isArchived := true)) &&
              s.conversations == old(s.conversations)[k := r.value] &&
              io.sent == old(io.sent) + [Emit(Sender, "conversationArchived"), Emit(Everyone, "conversationArchived")]
  {
    var updated := s.UpdateConversation(conversationId, ArchivePatch);
    if updated.None? {
      io.sent := io.sent + [ErrorEvent];
      return Err(NotFound);
    }
    ArchivePatchSetsOnlyTheFlag(old(s.conversations)[ConversationAt(old(s.conversations), conversationId).value]);
    io.sent := io.sent + [Emit(Sender, "conversationArchived"), Emit(Everyone, "conversationArchived")];
    r := Ok(updated.value);
  }

  /* ---------- Messages ---------- */

  /** createMessage: store an unread message, make it the conversation's last message, and
      broadcast it three times (everyone, the room, the room but the sender). */
  method CreateMessage(s: Store, io: Socket, sender: Id, receiver: Id, messageType: string, content: string,
                       replyTo: Option<Id>, conversationId: Id, now: Time)
    returns (m: Message)
    requires s.Valid()
    modifies s, io
    ensures s.Valid()
    ensures m == Message(old(s.nextId), sender, receiver, messageType, content, replyTo, conversationId, false, [], now)
    ensures s.messages == old(s.messages) + [m]
    ensures s.users == old(s.users) && s.pauses == old(s.pauses)
    ensures match ConversationAt(old(s.conversations), conversationId)
            case None => s.conversations == old(s.conversations)
            case Some(k) =>
              s.conversations == old(s.conversations)[k := old(s.conversations)[k].(lastMessage := Some(m.id), updatedAt := now)]
    ensures ReadState.UnreadCount(s.messages, conversationId, receiver) ==
              ReadState.UnreadCount(old(s.messages), conversationId, receiver) + 1
    ensures ConversationLogic.Preview(s.messages, Some(m.id)) == (content, Some(now))
    ensures io.rooms == old(io.rooms)
    ensures io.sent == old(io.sent) + [Emit(Everyone, "messageCreated"), Emit(Room(conversationId), "messageCreated"),
                                       Emit(RoomExceptSender(conversationId), "messageCreated")]
  {
    m := s.InsertMessage(sender, receiver, messageType, content, replyTo, conversationId, now);
    assert MessageAt(s.messages, m.id) == Some(|s.messages| - 1) by {
      assert s.messages[|s.messages| - 1] == m;
      var k := MessageAt(s.messages, m.id).value;
      assert s.messages[k].id == s.messages[|s.messages| - 1].id;
    }
    var _ := s.UpdateConversation(conversationId, ConversationPatch(None, None, None, Some(m.id), None, Some(now)));
    io.sent := io.sent + [Emit(Everyone, "messageCreated"), Emit(Room(conversationId), "messageCreated"),
                          Emit(RoomExceptSender(conversationId), "messageCreated")];
  }

  /** replyToMessage: store a message whose `replyTo` is the payload's `messageId` (not
      checked to exist) and broadcast it; the conversation is not touched. */
  method ReplyToMessage(s: Store, io: Socket, sender: Id, receiver: Id, messageType: string, content: string,
                        conversationId: Id, messageId: Option<Id>, now: Time)
    returns (m: Message)
    requires s.Valid()
    modifies s, io
    ensures s.Valid()
    ensures m == Message(old(s.nextId), sender, receiver, messageType, content, messageId, conversationId, false, [], now)
    ensures s.messages == old(s.messages) + [m]
    ensures s.users == old(s.users) && s.conversations == old(s.conversations) && s.pauses == old(s.pauses)
    ensures io.rooms == old(io.rooms)
    ensures io.sent == old(io.sent) + [Emit(Everyone, "messageReplied")]
  {
    m := s.InsertMessage(sender, receiver, messageType, content, messageId, conversationId, now);
    io.sent := io.sent + [Emit(Everyone, "messageReplied")];
  }

  /* ---------- Reactions ---------- */

  /** addReaction: the upsert of the user's reaction on an existing message. */
  method AddReaction(s: Store, io: Socket, messageId: Id, u: Id, reactionType: string)
    returns (r: Outcome<seq<Reaction>>)
    requires s.Valid()
    modifies s, io
    ensures s.Valid()
    ensures s.users == old(s.users) && s.conversations == old(s.conversations) && s.pauses == old(s.pauses)
    ensures io.rooms == old(io.rooms)
    ensures match MessageAt(old(s.messages), messageId)
            case None =>
              r == Err(NotFound) && s.messages == old(s.messages) && io.sent == old(io.sent) + [ErrorEvent]
            case Some(k) =>
              r == Ok(Reactions.Upsert(old(s.messages)[k].reactions, u, reactionType)) &&
              s.messages == old(s.messages)[k := old(s.messages)[k].(reactions := r.value)] &&
              io.sent == old(io.sent) + [Emit(Everyone, "reactionAdded")]
  {
    var at := MessageAt(s.messages, messageId);
    if at.None? {
      io.sent := io.sent + [ErrorEvent];
      return Err(NotFound);
    }
    var k := at.value;
    var rs := Reactions.ApplyUpsert(s.messages[k].reactions, u, reactionType);
    Reactions.UpsertLeavesExactlyOne(s.messages[k].reactions, u, reactionType);
    s.SetReactions(k, rs);
    io.sent := io.sent + [Emit(Everyone, "reactionAdded")];
    r := Ok(rs);
  }

  /** updateReaction: change the type of the user's existing reaction; a user without one
      gets an error and nothing is saved. */
  method UpdateReaction(s: Store, io: Socket, messageId: Id, u: Id, reactionType: string)
    returns (r: Outcome<seq<Reaction>>)
    requires s.Valid()
    modifies s, io
    ensures s.Valid()
    ensures s.users == old(s.users) && s.conversations == old(s.conversations) && s.pauses == old(s.pauses)
    ensures io.rooms == old(io.rooms)
    ensures match MessageAt(old(s.messages), messageId)
            case None =>
              r == Err(NotFound) && s.messages == old(s.messages) && io.sent == old(io.sent) + [ErrorEvent]
            case Some(k) =>
              match Reactions.UpdateExisting(old(s.messages)[k].reactions, u, reactionType)
              case None =>
                r == Err(NotFound) && s.messages == old(s.messages) && io.sent == old(io.sent) + [ErrorEvent]
              case Some(rs) =>
                r == Ok(rs) && s.messages == old(s.messages)[k := old(s.messages)[k].(reactions := rs)] &&
                io.sent == old(io.sent) + [Emit(Everyone, "reactionUpdated")]
  {
    var at := MessageAt(s.messages, messageId);
    if at.None? {
      io.sent := io.sent + [ErrorEvent];
      return Err(NotFound);
    }
    var k := at.value;
    var rs := s.messages[k].reactions;
    var existing := Reactions.FindReaction(rs, u);
    if existing.None? {
      io.sent := io.sent + [ErrorEvent];
      return Err(NotFound);
    }
    rs := rs[existing.value := rs[existing.value].(reactionType := reactionType)];
    Reactions.UpsertLeavesExactlyOne(s.messages[k].reactions, u, reactionType);
    s.SetReactions(k, rs);
    io.sent := io.sent + [Emit(Everyone, "reactionUpdated")];
    r := Ok(rs);
  }

  /** removeReaction: drop every reaction of the user and save, whether or not there was one. */
  method RemoveReaction(s: Store, io: Socket, messageId: Id, u: Id) returns (r: Outcome<seq<Reaction>>)
    requires s.Valid()
    modifies s, io
    ensures s.Valid()
    ensures s.users == old(s.users) && s.conversations == old(s.conversations) && s.pauses == old(s.pauses)
    ensures io.rooms == old(io.rooms)
    ensures match MessageAt(old(s.messages), messageId)
            case None =>
              r == Err(NotFound) && s.messages == old(s.messages) && io.sent == old(io.sent) + [ErrorEvent]
            case Some(k) =>
              r == Ok(Reactions.Remove(old(s.messages)[k].reactions, u)) &&
              s.messages == old(s.messages)[k := old(s.messages)[k].(reactions := r.value)] &&
              io.sent == old(io.sent) + [Emit(Everyone, "reactionRemoved")]
  {
    var at := MessageAt(s.messages, messageId);
    if at.None? {
      io.sent := io.sent + [ErrorEvent];
      return Err(NotFound);
    }
    var k := at.value;
    var rs := Reactions.Remove(s.messages[k].reactions, u);
    Reactions.RemoveKeepsAtMostOne(s.messages[k].reactions, u);
    s.SetReactions(k, rs);
    io.sent := io.sent + [Emit(Everyone, "reactionRemoved")];
    r := Ok(rs);
  }

  /* ---------- Pauses ---------- */

  /** startPause as wired: the server's `Pause` binding is undefined, so building the pause
      throws and the handler answers with an error; nothing is stored. */
  method StartPause(s: Store, io: Socket, u: Id)
    modifies io
    ensures io.sent == old(io.sent) + [ErrorEvent] && io.rooms == old(io.rooms)
  {
    io.sent := io.sent + [ErrorEvent];
  }

  /** endPause as wired: the lookup of the active pause throws for the same reason; no
      pause changes. */
  method EndPause(s: Store, io: Socket, u: Id)
    modifies io
    ensures io.sent == old(io.sent) + [ErrorEvent] && io.rooms == old(io.rooms)
  {
    io.sent := io.sent + [ErrorEvent];
  }

  /* ---------- Presence ---------- */

  /** userConnected: record the user as online with the value `true`, broadcast the status
      and send the requester the ids of everyone online. */
  method UserConnected(p: Presence.OnlineUsers, io: Socket, u: Id) returns (online: seq<Id>)
    requires p.Valid()
    modifies p, io
    ensures p.Valid()
    ensures p.entries == Presence.Assign(old(p.entries), u, Presence.Flag(true))
    ensures online == Presence.Keys(p.entries) && u in online
    ensures io.rooms == old(io.rooms)
    ensures io.sent == old(io.sent) + [Emit(Everyone, "userOnlineStatus"), Emit(Sender, "onlineUsers")]
  {
    Presence.AssignKeys(p.entries, u, Presence.Flag(true));
    Presence.AssignedKeyListed(p.entries, u, Presence.Flag(true));
    p.entries := Presence.Assign(p.entries, u, Presence.Flag(true));
    online := Presence.Keys(p.entries);
    io.sent := io.sent + [Emit(Everyone, "userOnlineStatus"), Emit(Sender, "onlineUsers")];
  }

  /** userConnected as evidently intended: the value stored is the connection's socket id,
      which is what disconnect searches for. */
  method UserConnectedWithSocket(p: Presence.OnlineUsers, io: Socket, u: Id) returns (online: seq<Id>)
    requires p.Valid()
    modifies p, io
    ensures p.Valid()
    ensures p.entries == Presence.Assign(old(p.entries), u, Presence.Text(io.id))
    ensures online == Presence.Keys(p.entries) && u in online
    ensures io.rooms == old(io.rooms)
    ensures io.sent == old(io.sent) + [Emit(Everyone, "userOnlineStatus"), Emit(Sender, "onlineUsers")]
  {
    Presence.AssignKeys(p.entries, u, Presence.Text(io.id));
    Presence.AssignedKeyListed(p.entries, u, Presence.Text(io.id));
    p.entries := Presence.Assign(p.entries, u, Presence.Text(io.id));
    online := Presence.Keys(p.entries);
    io.sent := io.sent + [Emit(Everyone, "userOnlineStatus"), Emit(Sender, "onlineUsers")];
  }

  /** userLogout: forget the user and broadcast the offline status. */
  method UserLogout(p: Presence.OnlineUsers, io: Socket, u: Id)
    requires p.Valid()
    modifies p, io
    ensures p.Valid()
    ensures p.entries == Presence.Delete(old(p.entries), u)
    ensures Presence.Lookup(p.entries, u).None?
    ensures io.rooms == old(io.rooms)
    ensures io.sent == old(io.sent) + [Emit(Everyone, "userOnlineStatus")]
  {
    p.entries := Presence.Delete(p.entries, u);
    io.sent := io.sent + [Emit(Everyone, "userOnlineStatus")];
  }

  /** disconnect: forget the first user whose stored value is this connection's id, and
      broadcast that user's offline status; with no such user nothing happens. */
  method Disconnect(p: Presence.OnlineUsers, io: Socket) returns (gone: Option<Id>)
    requires p.Valid()
    modifies p, io
    ensures p.Valid()
    ensures gone == Presence.FirstKeyWithValue(old(p.entries), Presence.Text(io.id))
    ensures gone.None? ==> p.entries == old(p.entries) && io.sent == old(io.sent)
    ensures gone.Some? ==>
              p.entries == Presence.Delete(old(p.entries), gone.value) &&
              io.sent == old(io.sent) + [Emit(Everyone, "userOnlineStatus")]
    ensures io.rooms == old(io.rooms)
  {
    gone := Presence.FindKeyWithValue(p.entries, Presence.Text(io.id));
    if gone.Some? {
      p.entries := Presence.Delete(p.entries, gone.value);
      io.sent := io.sent + [Emit(Everyone, "userOnlineStatus")];
    }
  }
}
