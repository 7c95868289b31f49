/** The MongoDB collections the handlers read and write, and the Mongoose operations they
    call on them. Each collection is a sequence in insertion order; `nextId` stands for the
    generation of fresh ObjectIds. */
module Db {
  import opened Model
  import Reactions
  import ReadState
  import PauseModel

  predicate UniqueUserIds(us: seq<User>) {
    forall i, j :: 0 <= i < j < |us| ==> us[i].id != us[j].id
  }

  predicate UniqueConversationIds(cs: seq<Conversation>) {
    forall i, j :: 0 <= i < j < |cs| ==> cs[i].id != cs[j].id
  }

  predicate UniqueMessageIds(ms: seq<Message>) {
    forall i, j :: 0 <= i < j < |ms| ==> ms[i].id != ms[j].id
  }

  predicate UniquePauseIds(ps: seq<Pause>) {
    forall i, j :: 0 <= i < j < |ps| ==> ps[i].id != ps[j].id
  }

  /** The search behind every `findById`: the position of the first document whose id is
      `id`, or none exactly when no document has it. */
  function PositionOf(ids: seq<Id>, id: Id): (r: Option<nat>)
    ensures r.Some? ==> r.value < |ids| && ids[r.value] == id
    ensures r.Some? ==> forall j :: 0 <= j < r.value ==> ids[j] != id
    ensures r.None? <==> forall j :: 0 <= j < |ids| ==> ids[j] != id
  {
    if |ids| == 0 then None
    else if ids[0] == id then Some(0)
    else match PositionOf(ids[1..], id)
      case None => None
      case Some(k) => Some(k + 1)
  }

  /** `User.findById(id)`: where the user with that id is stored. */
  function UserAt(us: seq<User>, id: Id): (r: Option<nat>)
    ensures r.Some? ==> r.value < |us| && us[r.value].id == id
    ensures r.Some? ==> forall j :: 0 <= j < r.value ==> us[j].id != id
    ensures r.None? <==> forall j :: 0 <= j < |us| ==> us[j].id != id
  {
    var ids := seq(|us|, j requires 0 <= j < |us| => us[j].id);
    assert forall j :: 0 <= j < |us| ==> ids[j] == us[j].id;
    PositionOf(ids, id)
  }

  /** `Conversation.findById(id)`: where the conversation with that id is stored. */
  function ConversationAt(cs: seq<Conversation>, id: Id): (r: Option<nat>)
    ensures r.Some? ==> r.value < |cs| && cs[r.value].id == id
    ensures r.Some? ==> forall j :: 0 <= j < r.value ==> cs[j].id != id
    ensures r.None? <==> forall j :: 0 <= j < |cs| ==> cs[j].id != id
  {
    var ids := seq(|cs|, j requires 0 <= j < |cs| => cs[j].id);
    assert forall j :: 0 <= j < |cs| ==> ids[j] == cs[j].id;
    PositionOf(ids, id)
  }

  /** `Message.findById(id)`: where the message with that id is stored. */
  function MessageAt(ms: seq<Message>, id: Id): (r: Option<nat>)
    ensures r.Some? ==> r.value < |ms| && ms[r.value].id == id
    ensures r.Some? ==> forall j :: 0 <= j < r.value ==> ms[j].id != id
    ensures r.None? <==> forall j :: 0 <= j < |ms| ==> ms[j].id != id
  {
    var ids := seq(|ms|, j requires 0 <= j < |ms| => ms[j].id);
    assert forall j :: 0 <= j < |ms| ==> ids[j] == ms[j].id;
    PositionOf(ids, id)
  }

  /** The fields of an update document for a conversation; an absent field is left alone. */
  datatype ConversationPatch = ConversationPatch(
    participants: Option<seq<Id>>,
    isGroup: Option<bool>,
    conversationName: Option<string>,
    lastMessage: Option<Id>,
    isArchived: Option<bool>,
    updatedAt: Option<Time>)

  function Pick<T>(update: Option<T>, current: T): T {
    match update
    case Some(v) => v
    case None => current
  }

  /** The conversation after the update document has been applied; the id never changes. */
  function Patched(c: Conversation, p: ConversationPatch): Conversation {
    Conversation(
      c.id,
      Pick(p.participants, c.participants),
      Pick(p.isGroup, c.isGroup),
      if p.conversationName.Some? then p.conversationName else c.conversationName,
      if p.lastMessage.Some? then p.lastMessage else c.lastMessage,
      Pick(p.isArchived, c.isArchived),
      c.createdAt,
      Pick(p.updatedAt, c.updatedAt))
  }

  /** `{ isArchived: true }`. */
  const ArchivePatch := ConversationPatch(None, None, None, None, Some(true), None)

  /** Archiving sets the flag, leaves every other field as it was, and archiving again
      changes nothing more. */
  lemma ArchivePatchSetsOnlyTheFlag(c: Conversation)
    ensures Patched(c, ArchivePatch) == c.(isArchived := true)
    ensures Patched(Patched(c, ArchivePatch), ArchivePatch) == Patched(c, ArchivePatch)
  {
  }

  class Store {
    var users: seq<User>
    var conversations: seq<Conversation>
    var messages: seq<Message>
    var pauses: seq<Pause>
    var nextId: nat

    /** Ids are unique within each collection and below the next fresh id, and no message
        carries two reactions of one user. */
    ghost predicate Valid()
      reads this
    {
      && UniqueUserIds(users)
      && UniqueConversationIds(conversations)
      && UniqueMessageIds(messages)
      && UniquePauseIds(pauses)
      && (forall i :: 0 <= i < |users| ==> users[i].id < nextId)
      && (forall i :: 0 <= i < |conversations| ==> conversations[i].id < nextId)
      && (forall i :: 0 <= i < |messages| ==> messages[i].id < nextId)
      && (forall i :: 0 <= i < |pauses| ==> pauses[i].id < nextId)
      && (forall i :: 0 <= i < |messages| ==> Reactions.AtMostOnePerUser(messages[i].reactions))
    }

    /** A store holding the registered users and nothing else yet. */
    constructor(users: seq<User>, firstFreeId: nat)
      requires UniqueUserIds(users)
      requires forall i :: 0 <= i < |users| ==> users[i].id < firstFreeId
      ensures Valid()
      ensures this.users == users && conversations == [] && messages == [] && pauses == []
      ensures nextId == firstFreeId
    {
      this.users := users;
      conversations, messages, pauses := [], [], [];
      nextId := firstFreeId;
    }

    /** `new Conversation(...)` then `save()`. */
    method InsertConversation(participants: seq<Id>, isGroup: bool, conversationName: Option<string>,
                              lastMessage: Option<Id>, isArchived: bool, now: Time)
      returns (c: Conversation)
      requires Valid()
      modifies this
      ensures Valid()
      ensures c == Conversation(old(nextId), participants, isGroup, conversationName, lastMessage, isArchived, now, now)
      ensures conversations == old(conversations) + [c] && nextId == old(nextId) + 1
      ensures users == old(users) && messages == old(messages) && pauses == old(pauses)
    {
      c := Conversation(nextId, participants, isGroup, conversationName, lastMessage, isArchived, now, now);
      conversations := conversations + [c];
      nextId := nextId + 1;
    }

    /** `new Message(...)` then `save()`: unread, without reactions. */
    method InsertMessage(sender: Id, receiver: Id, messageType: string, content: string,
                         replyTo: Option<Id>, conversationId: Id, now: Time)
      returns (m: Message)
      requires Valid()
      modifies this
      ensures Valid()
      ensures m == Message(old(nextId), sender, receiver, messageType, content, replyTo, conversationId, false, [], now)
      ensures messages == old(messages) + [m] && nextId == old(nextId) + 1
      ensures users == old(users) && conversations == old(conversations) && pauses == old(pauses)
    {
      m := Message(nextId, sender, receiver, messageType, content, replyTo, conversationId, false, [], now);
      messages := messages + [m];
      nextId := nextId + 1;
    }

    /** `new Pause({ user, startTime: now, isPaused: true })` then `save()`. */
    method InsertPause(user: Id, now: Time) returns (p: Pause)
      requires Valid()
      modifies this
      ensures Valid()
      ensures PauseModel.NewPause(old(nextId), Some(user), Some(now), Some(true), now) == Ok(p)
      ensures pauses == old(pauses) + [p] && nextId == old(nextId) + 1
      ensures users == old(users) && conversations == old(conversations) && messages == old(messages)
    {
      p := PauseModel.NewPause(nextId, Some(user), Some(now), Some(true), now).value;
      pauses := pauses + [p];
      nextId := nextId + 1;
    }

    /** `Conversation.findByIdAndUpdate(id, patch, { new: true })`: the updated conversation,
        or nothing (and no change) when the id is unknown. */
    method UpdateConversation(id: Id, patch: ConversationPatch) returns (updated: Option<Conversation>)
      requires Valid()
      modifies this
      ensures Valid()
      ensures match ConversationAt(old(conversations), id)
              case None => updated.None? && conversations == old(conversations)
              case Some(k) =>
                conversations == old(conversations)[k := Patched(old(conversations)[k], patch)] &&
                updated == Some(conversations[k])
      ensures users == old(users) && messages == old(messages) && pauses == old(pauses) && nextId == old(nextId)
    {
      match ConversationAt(conversations, id)
      case None =>
        updated := None;
      case Some(k) =>
        conversations := conversations[k := Patched(conversations[k], patch)];
        updated := Some(conversations[k]);
    }

    /** `Conversation.findByIdAndDelete(id)`: the removed conversation, or nothing (and no
        change) when the id is unknown. */
    method DeleteConversation(id: Id) returns (deleted: Option<Conversation>)
      requires Valid()
      modifies this
      ensures Valid()
      ensures match ConversationAt(old(conversations), id)
              case None => deleted.None? && conversations == old(conversations)
              case Some(k) =>
                deleted == Some(old(conversations)[k]) &&
                conversations == old(conversations)[..k] + old(conversations)[k + 1..]
      ensures forall j :: 0 <= j < |conversations| ==> conversations[j].id != id
      ensures users == old(users) && messages == old(messages) && pauses == old(pauses) && nextId == old(nextId)
    {
      match ConversationAt(conversations, id)
      case None =>
        deleted := None;
      case Some(k) =>
        deleted := Some(conversations[k]);
        ghost var before := conversations;
        conversations := conversations[..k] + conversations[k + 1..];
        forall j | 0 <= j < |conversations| ensures conversations[j].id != id {
          if j < k {
            assert conversations[j] == before[j];
          } else {
            assert conversations[j] == before[j + 1];
          }
        }
    }

    /** Writes back the reaction list of the message stored at `k` (`message.save()`). */
    method SetReactions(k: nat, rs: seq<Reaction>)
      requires Valid() && k < |messages| && Reactions.AtMostOnePerUser(rs)
      modifies this
      ensures Valid()
      ensures messages == old(messages)[k := old(messages)[k].(reactions := rs)]
      ensures users == old(users) && conversations == old(conversations) && pauses == old(pauses) && nextId == old(nextId)
    {
      messages := messages[k := messages[k].(reactions := rs)];
    }

    /** `Message.updateMany({ conversationId: c, receiver: u, isRead: false }, { isRead: true })`,
        answering its `modifiedCount`. */
    method MarkRead(c: Id, u: Id) returns (modifiedCount: nat)
      requires Valid()
      modifies this
      ensures Valid()
      ensures messages == ReadState.MarkRead(old(messages), c, u)
      ensures modifiedCount == ReadState.UnreadCount(old(messages), c, u)
      ensures users == old(users) && conversations == old(conversations) && pauses == old(pauses) && nextId == old(nextId)
    {
      var updated;
      updated, modifiedCount := ReadState.UpdateMany(messages, c, u);
      messages := updated;
    }

    /** Writes back the pause stored at `k` (`activePause.save()`). */
    method SetPause(k: nat, p: Pause)
      requires Valid() && k < |pauses| && p.id == pauses[k].id
      modifies this
      ensures Valid()
      ensures pauses == old(pauses)[k := p]
      ensures users == old(users) && conversations == old(conversations) && messages == old(messages) && nextId == old(nextId)
    {
      pauses := pauses[k := p];
    }
  }
}
