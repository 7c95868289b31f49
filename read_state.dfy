/** Read flags of messages: the unread count shown per conversation, and the bulk
    mark-as-read that joinConversation and PUT /:id/markAsRead perform. */
module ReadState {
  import opened Model

  /** The filter `{ conversationId: c, receiver: u, isRead: false }` shared by
      `countDocuments` and `updateMany`. */
  predicate UnreadFor(m: Message, c: Id, u: Id) {
    m.conversationId == c && m.receiver == u && !m.isRead
  }

  /** `Message.countDocuments(filter)`: how many messages of `c` wait to be read by `u`. */
  function UnreadCount(msgs: seq<Message>, c: Id, u: Id): (n: nat)
    ensures n <= |msgs|
    ensures n == 0 <==> forall j :: 0 <= j < |msgs| ==> !UnreadFor(msgs[j], c, u)
  {
    if |msgs| == 0 then 0
    else
      var init := msgs[..|msgs| - 1];
      assert forall j :: 0 <= j < |init| ==> init[j] == msgs[j];
      UnreadCount(init, c, u) + (if UnreadFor(msgs[|msgs| - 1], c, u) then 1 else 0)
  }

  /** One message after the update `{ isRead: true }`, applied when it matches the filter. */
  function MarkOne(m: Message, c: Id, u: Id): Message {
    if UnreadFor(m, c, u) then m.(isRead := true) else m
  }

  /** The collection after `updateMany(filter, { isRead: true })`: the update changes the read
      flag and nothing else, and it sets the flag exactly on the messages that matched the
      filter. */
  function MarkRead(msgs: seq<Message>, c: Id, u: Id): (r: seq<Message>)
    ensures |r| == |msgs|
    ensures forall j :: 0 <= j < |msgs| ==>
              r[j].(isRead := msgs[j].isRead) == msgs[j] &&
              r[j].isRead == (msgs[j].isRead || UnreadFor(msgs[j], c, u))
  {
    seq(|msgs|, j requires 0 <= j < |msgs| => MarkOne(msgs[j], c, u))
  }

  /** The bulk update as a pass over the collection, counting what it modifies. */
  method UpdateMany(msgs: seq<Message>, c: Id, u: Id) returns (updated: seq<Message>, modifiedCount: nat)
    ensures updated == MarkRead(msgs, c, u)
    ensures modifiedCount == UnreadCount(msgs, c, u)
  {
    updated, modifiedCount := [], 0;
    var i := 0;
    while i < |msgs|
      invariant 0 <= i <= |msgs|
      invariant updated == MarkRead(msgs[..i], c, u)
      invariant modifiedCount == UnreadCount(msgs[..i], c, u)
    {
      var m := msgs[i];
      if UnreadFor(m, c, u) {
        m := m.(isRead := true);
        modifiedCount := modifiedCount + 1;
      }
      assert msgs[..i + 1][..i] == msgs[..i];
      updated := updated + [m];
      i := i + 1;
    }
    assert msgs[..i] == msgs;
  }

  /** After the update nothing of `c` is left unread for `u`: the unread count is 0, and a
      second update would modify nothing. */
  lemma {:induction false} MarkReadClearsUnread(msgs: seq<Message>, c: Id, u: Id)
    ensures UnreadCount(MarkRead(msgs, c, u), c, u) == 0
  {
    var r := MarkRead(msgs, c, u);
    forall j | 0 <= j < |r| ensures !UnreadFor(r[j], c, u) {
      assert r[j] == MarkOne(msgs[j], c, u);
    }
  }

  /** Marking (c, u) as read leaves the unread count of every other pair as it was. */
  lemma {:induction false} MarkReadKeepsOtherCounts(msgs: seq<Message>, c: Id, u: Id, c': Id, u': Id)
    requires c != c' || u != u'
    ensures UnreadCount(MarkRead(msgs, c, u), c', u') == UnreadCount(msgs, c', u')
  {
    if |msgs| > 0 {
      var n := |msgs| - 1;
      var r := MarkRead(msgs, c, u);
      assert r[..n] == MarkRead(msgs[..n], c, u);
      MarkReadKeepsOtherCounts(msgs[..n], c, u, c', u');
      assert UnreadFor(r[n], c', u') == UnreadFor(msgs[n], c', u');
    }
  }

  /** Updating twice is the same as updating once. */
  lemma MarkReadIdempotent(msgs: seq<Message>, c: Id, u: Id)
    ensures MarkRead(MarkRead(msgs, c, u), c, u) == MarkRead(msgs, c, u)
  {
    var r := MarkRead(msgs, c, u);
    assert forall j :: 0 <= j < |r| ==> MarkOne(r[j], c, u) == r[j];
  }
}
