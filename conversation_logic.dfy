/** The pure parts of conversation handling: resolving the e-mails of a createConversation
    request to participant ids, the duplicate check for direct conversations, and the
    per-user projection that getConversations returns. */
module ConversationLogic {
  import opened Model
  import ReadState
  import Db

  /* ---------- Resolving participants ---------- */

  /** `User.find({ email: { $in: emails } })`: the users whose e-mail is listed, in store
      order, each once however often its e-mail is listed. */
  function UsersByEmail(users: seq<User>, emails: seq<string>): (r: seq<User>)
    ensures |r| <= |users|
    ensures forall j :: 0 <= j < |r| ==> r[j] in users && r[j].email in emails
    ensures forall j :: 0 <= j < |users| && users[j].email in emails ==> users[j] in r
  {
    if |users| == 0 then []
    else if users[0].email in emails then [users[0]] + UsersByEmail(users[1..], emails)
    else UsersByEmail(users[1..], emails)
  }

  function EmailsOf(us: seq<User>): seq<string> {
    seq(|us|, j requires 0 <= j < |us| => us[j].email)
  }

  function IdsOf(us: seq<User>): seq<Id> {
    seq(|us|, j requires 0 <= j < |us| => us[j].id)
  }

  lemma {:induction false} SetOfSeqCard<T>(s: seq<T>)
    ensures |set x | x in s| <= |s|
    ensures Distinct(s) ==> |set x | x in s| == |s|
    ensures !Distinct(s) ==> |set x | x in s| < |s|
  {
    if |s| > 0 {
      var rest := s[1..];
      SetOfSeqCard(rest);
      assert s == [s[0]] + rest;
      assert (set x | x in s) == {s[0]} + (set x | x in rest);
      if s[0] in rest {
        var k :| 0 <= k < |rest| && rest[k] == s[0];
        assert s[0] == s[k + 1];
        assert !Distinct(s);
      } else {
        assert Distinct(s) ==> Distinct(rest) by {
          if Distinct(s) {
            forall a, b | 0 <= a < b < |rest| ensures rest[a] != rest[b] {
              assert rest[a] == s[a + 1] && rest[b] == s[b + 1];
            }
          }
        }
        assert Distinct(rest) ==> Distinct(s) by {
          if Distinct(rest) {
            forall a, b | 0 <= a < b < |s| ensures s[a] != s[b] {
              if a > 0 { assert s[a] == rest[a - 1]; }
              assert s[b] == rest[b - 1];
            }
          }
        }
      }
    }
  }

  lemma {:induction false} SubsetCard<T>(a: set<T>, b: set<T>)
    requires a <= b
    ensures |a| <= |b|
  {
    if a != {} {
      var x :| x in a;
      SubsetCard(a - {x}, b - {x});
    }
  }

  /** No two records share an e-mail address. */
  predicate UniqueEmails(us: seq<User>) {
    forall a, b :: 0 <= a < b < |us| ==> us[a].email != us[b].email
  }

  /** Looking users up by e-mail never yields two users with one e-mail when the directory
      has unique e-mails. */
  lemma {:induction false} FoundEmailsUnique(users: seq<User>, emails: seq<string>)
    requires UniqueEmails(users)
    ensures UniqueEmails(UsersByEmail(users, emails))
  {
    if |users| > 0 {
      var rest := users[1..];
      assert UniqueEmails(rest) by {
        forall a, b | 0 <= a < b < |rest| ensures rest[a].email != rest[b].email {
          assert rest[a] == users[a + 1] && rest[b] == users[b + 1];
        }
      }
      FoundEmailsUnique(rest, emails);
      var f := UsersByEmail(rest, emails);
      if users[0].email in emails {
        var r := [users[0]] + f;
        assert UniqueEmails(r) by {
          forall b | 0 < b < |r| ensures r[0].email != r[b].email {
            assert r[b] == f[b - 1] && f[b - 1] in rest;
            var k :| 0 <= k < |rest| && rest[k] == r[b];
            assert users[0].email != users[k + 1].email;
          }
          forall a, b | 0 < a < b < |r| ensures r[a].email != r[b].email {
            assert r[a] == f[a - 1] && r[b] == f[b - 1];
          }
        }
      }
    }
  }

  /** The length check of createConversation rejects a request that lists an e-mail twice:
      `$in` returns each user once, so fewer users than e-mails come back. */
  lemma DuplicateEmailRejected(users: seq<User>, emails: seq<string>)
    requires UniqueEmails(users)
    requires !Distinct(emails)
    ensures |UsersByEmail(users, emails)| < |emails|
  {
    var found := UsersByEmail(users, emails);
    var fe := EmailsOf(found);
    FoundEmailsUnique(users, emails);
    assert Distinct(fe) by {
      forall a, b | 0 <= a < b < |fe| ensures fe[a] != fe[b] {
        assert fe[a] == found[a].email && fe[b] == found[b].email;
      }
    }
    SetOfSeqCard(fe);
    SetOfSeqCard(emails);
    assert (set x | x in fe) <= (set x | x in emails) by {
      forall x | x in fe ensures x in emails {
        var k :| 0 <= k < |fe| && fe[k] == x;
        assert found[k].email in emails;
      }
    }
    SubsetCard(set x | x in fe, set x | x in emails);
  }

  /** `participantIds` after `map(user => user._id)`, the push of the requester when
      `includes` does not find it, and `filter(id => id != null)`. */
  function ParticipantIds(found: seq<User>, requester: Option<Id>): (ids: seq<Id>)
    ensures |found| <= |ids| <= |found| + 1 && ids[..|found|] == IdsOf(found)
    ensures forall x :: x in ids <==> x in IdsOf(found) || requester == Some(x)
    ensures Distinct(IdsOf(found)) ==> Distinct(ids)
  {
    var base := IdsOf(found);
    match requester
    case Some(u) => if u in base then base else base + [u]
    case None => base
  }

  /** `filter(id => id != null)` over the ids with the nulls still in. */
  function Present(s: seq<Option<Id>>): seq<Id> {
    if |s| == 0 then []
    else Present(s[..|s| - 1]) + (if s[|s| - 1].Some? then [s[|s| - 1].value] else [])
  }

  /** `validParticipants.map(user => user._id)`. */
  method MapIds(found: seq<User>) returns (ps: seq<Option<Id>>)
    ensures |ps| == |found| && forall j :: 0 <= j < |found| ==> ps[j] == Some(found[j].id)
    ensures Present(ps) == IdsOf(found)
  {
    ps := [];
    var i := 0;
    while i < |found|
      invariant 0 <= i <= |found|
      invariant |ps| == i
      invariant forall j :: 0 <= j < i ==> ps[j] == Some(found[j].id)
      invariant Present(ps) == IdsOf(found[..i])
    {
      assert (ps + [Some(found[i].id)])[..i] == ps;
      ps := ps + [Some(found[i].id)];
      i := i + 1;
    }
    assert found[..i] == found;
  }

  /** `participantIds.includes(userId)`, by strict equality. */
  method Includes(ps: seq<Option<Id>>, x: Option<Id>) returns (b: bool)
    ensures b <==> x in ps
  {
    b := false;
    var k := 0;
    while k < |ps|
      invariant 0 <= k <= |ps|
      invariant b <==> x in ps[..k]
    {
      assert ps[..k + 1] == ps[..k] + [ps[k]];
      if ps[k] == x {
        b := true;
      }
      k := k + 1;
    }
    assert ps[..k] == ps;
  }

  /** `participantIds.filter(id => id != null)`. */
  method DropNulls(ps: seq<Option<Id>>) returns (ids: seq<Id>)
    ensures ids == Present(ps)
  {
    ids := [];
    var m := 0;
    while m < |ps|
      invariant 0 <= m <= |ps|
      invariant ids == Present(ps[..m])
    {
      assert ps[..m + 1][..m] == ps[..m];
      if ps[m].Some? {
        ids := ids + [ps[m].value];
      }
      m := m + 1;
    }
    assert ps[..m] == ps;
  }

  /** The steps of createConversation that build `participantIds`, in order. */
  method ResolveParticipants(found: seq<User>, requester: Option<Id>) returns (ids: seq<Id>)
    ensures ids == ParticipantIds(found, requester)
  {
    var participantIds := MapIds(found);
    var includes := Includes(participantIds, requester);
    assert includes <==> requester.Some? && requester.value in IdsOf(found) by {
      if requester.Some? && requester.value in IdsOf(found) {
        var j :| 0 <= j < |found| && IdsOf(found)[j] == requester.value;
        assert participantIds[j] == requester;
      }
      if includes {
        var j :| 0 <= j < |participantIds| && participantIds[j] == requester;
        assert IdsOf(found)[j] == requester.value;
      }
    }
    if !includes {
      assert (participantIds + [requester])[..|participantIds|] == participantIds;
      participantIds := participantIds + [requester];
    }
    ids := DropNulls(participantIds);
  }

  /* ---------- Direct-conversation de-duplication ---------- */

  /** The conversation is direct and holds both `a` and `b`. */
  predicate DirectWith(c: Conversation, a: Id, b: Id) {
    !c.isGroup && a in c.participants && b in c.participants
  }

  /** The `findOne` filter `{ participants: { $all: [ids[0], ids[1]] }, isGroup: false }`.
      A position past the end of `ids` is `undefined`, which no stored participant equals. */
  predicate DirectMatch(c: Conversation, ids: seq<Id>): (b: bool)
    ensures b ==> |ids| >= 2 && !c.isGroup && ids[0] in c.participants && ids[1] in c.participants
  {
    |ids| >= 2 && DirectWith(c, ids[0], ids[1])
  }

  /** The filter reads the first two ids only and `$all` ignores their order, so a request
      naming the same pair either way round, with or without further ids, meets the same
      stored conversation. */
  lemma DirectMatchReadsFirstPair(c: Conversation, a: Id, b: Id, rest: seq<Id>)
    ensures DirectMatch(c, [a, b] + rest) <==> DirectMatch(c, [b, a])
  {
    assert ([a, b] + rest)[0] == a && ([a, b] + rest)[1] == b;
  }

  /** `findOne` with that filter finds a document. */
  predicate HasDirect(cs: seq<Conversation>, ids: seq<Id>): (b: bool)
    ensures |ids| < 2 ==> !b
    ensures |ids| >= 2 ==>
              (b <==> exists j :: 0 <= j < |cs| && !cs[j].isGroup &&
                         ids[0] in cs[j].participants && ids[1] in cs[j].participants)
  {
    exists j :: 0 <= j < |cs| && DirectMatch(cs[j], ids)
  }

  /** At most one direct conversation holds any given pair of distinct users. */
  ghost predicate DirectPairUnique(cs: seq<Conversation>) {
    forall i, j, a, b :: 0 <= i < j < |cs| && a != b && DirectWith(cs[i], a, b) ==> !DirectWith(cs[j], a, b)
  }

  /** What createConversation appends keeps the pair uniqueness: a group is never direct, and
      a direct conversation is only added when the duplicate check found nothing. */
  lemma CreateKeepsDirectUnique(cs: seq<Conversation>, c: Conversation)
    requires DirectPairUnique(cs)
    requires !c.isGroup ==> |c.participants| <= 2 && !HasDirect(cs, c.participants)
    ensures DirectPairUnique(cs + [c])
  {
    var all := cs + [c];
    forall i, j, a, b | 0 <= i < j < |all| && a != b && DirectWith(all[i], a, b)
      ensures !DirectWith(all[j], a, b)
    {
    }
  }

  /** A repeated request for the same direct pair meets the conversation the first request
      stored, so the second one ends in the duplicate error. */
  lemma RepeatedDirectRequestConflicts(cs: seq<Conversation>, c: Conversation, ids: seq<Id>)
    requires |ids| == 2 && c.participants == ids && !c.isGroup
    ensures HasDirect(cs + [c], ids)
  {
    assert DirectMatch((cs + [c])[|cs|], ids);
  }

  /* ---------- The per-user listing ---------- */

  const NoMessage: string := "Aucun message"

  /** `populate('participants')`: the users behind the ids, in the ids' order; an id whose
      user no longer exists is dropped. Every id that `findById` resolves contributes the
      user it finds. */
  function Populate(users: seq<User>, ids: seq<Id>): (r: seq<User>)
    ensures |r| <= |ids|
    ensures forall j :: 0 <= j < |r| ==> r[j] in users && r[j].id in ids
    ensures forall j :: 0 <= j < |ids| && Db.UserAt(users, ids[j]).Some? ==>
              users[Db.UserAt(users, ids[j]).value] in r
  {
    if |ids| == 0 then []
    else
      var rest := Populate(users, ids[1..]);
      assert forall j :: 0 < j < |ids| ==> ids[j] == ids[1..][j - 1];
      match Db.UserAt(users, ids[0])
      case Some(k) => [users[k]] + rest
      case None => rest
  }

  /** When every id resolves, populating keeps the ids' order one for one. */
  lemma {:induction false} PopulateKeepsOrder(users: seq<User>, ids: seq<Id>)
    requires forall j :: 0 <= j < |ids| ==> Db.UserAt(users, ids[j]).Some?
    ensures |Populate(users, ids)| == |ids|
    ensures forall j :: 0 <= j < |ids| ==> Populate(users, ids)[j].id == ids[j]
  {
    if |ids| > 0 {
      assert forall j :: 0 <= j < |ids[1..]| ==> ids[1..][j] == ids[j + 1];
      PopulateKeepsOrder(users, ids[1..]);
    }
  }

  /** With unique user ids the populated list holds exactly the stored users whose id is
      listed. */
  lemma PopulateMembers(users: seq<User>, ids: seq<Id>)
    ensures forall p :: p in Populate(users, ids) ==> p in users && p.id in ids
    ensures Db.UniqueUserIds(users) ==>
              forall p :: p in users && p.id in ids ==> p in Populate(users, ids)
  {
    var r := Populate(users, ids);
    if Db.UniqueUserIds(users) {
      forall p | p in users && p.id in ids ensures p in r {
        var i :| 0 <= i < |users| && users[i] == p;
        var j :| 0 <= j < |ids| && ids[j] == p.id;
        var k := Db.UserAt(users, ids[j]).value;
        assert users[k].id == users[i].id;
      }
    }
  }

  /** `participants.filter(p => p._id.toString() !== userId)`. */
  function OthersThan(ps: seq<User>, u: Id): (r: seq<User>)
    ensures |r| <= |ps|
    ensures forall j :: 0 <= j < |r| ==> r[j].id != u && r[j] in ps
    ensures forall j :: 0 <= j < |ps| && ps[j].id != u ==> ps[j] in r
  {
    if |ps| == 0 then []
    else if ps[0].id != u then [ps[0]] + OthersThan(ps[1..], u)
    else OthersThan(ps[1..], u)
  }

  /** The last-message preview: the populated message's content and date, or the
      'Aucun message' sentinel with a null date when the reference is unset or dangling. */
  function Preview(msgs: seq<Message>, lastMessage: Option<Id>): (r: (string, Option<Time>))
    ensures lastMessage.None? ==> r == (NoMessage, None)
    ensures r.1.None? ==> r.0 == NoMessage
    ensures r.1.Some? <==> lastMessage.Some? && Db.MessageAt(msgs, lastMessage.value).Some?
    ensures r.1.Some? ==> exists m :: m in msgs && m.id == lastMessage.value && r == (m.content, Some(m.createdAt))
  {
    match lastMessage
    case None => (NoMessage, None)
    case Some(id) =>
      match Db.MessageAt(msgs, id)
      case Some(k) => (msgs[k].content, Some(msgs[k].createdAt))
      case None => (NoMessage, None)
  }

  /** `Conversation.find({ participants: u })`, in store order. */
  function Mine(cs: seq<Conversation>, u: Id): (r: seq<Conversation>)
    ensures |r| <= |cs|
    ensures forall j :: 0 <= j < |r| ==> r[j] in cs && u in r[j].participants
    ensures forall j :: 0 <= j < |cs| && u in cs[j].participants ==> cs[j] in r
  {
    if |cs| == 0 then []
    else if u in cs[0].participants then [cs[0]] + Mine(cs[1..], u)
    else Mine(cs[1..], u)
  }

  /** One element of the `conversations` event. */
  datatype ListingEntry = ListingEntry(
    conversationId: Id,
    participants: seq<User>,
    lastMessage: string,
    lastMessageDate: Option<Time>,
    unreadMessagesCount: nat,
    isArchived: bool,
    isGroup: bool,
    conversationName: Option<string>,
    createdAt: Time,
    updatedAt: Time)

  /** The participants an entry shows: the other users of the conversation that `findById`
      resolves. */
  lemma OthersOfPopulated(users: seq<User>, ids: seq<Id>, u: Id)
    ensures forall p :: p in OthersThan(Populate(users, ids), u) ==> p in users && p.id in ids && p.id != u
    ensures Db.UniqueUserIds(users) ==>
              forall p :: p in users && p.id in ids && p.id != u ==> p in OthersThan(Populate(users, ids), u)
  {
    var ps := Populate(users, ids);
    PopulateMembers(users, ids);
    forall p | p in OthersThan(ps, u) ensures p in ps && p.id != u {
      var j :| 0 <= j < |OthersThan(ps, u)| && OthersThan(ps, u)[j] == p;
    }
    if Db.UniqueUserIds(users) {
      forall p | p in users && p.id in ids && p.id != u ensures p in OthersThan(ps, u) {
        var i :| 0 <= i < |ps| && ps[i] == p;
      }
    }
  }

  /** The entry for conversation `c`: its id and flags, the other users, the preview of its
      last message and the number of its messages waiting for `u`. */
  function EntryOf(users: seq<User>, msgs: seq<Message>, u: Id, c: Conversation): (e: ListingEntry)
    ensures e.conversationId == c.id
    ensures forall p :: p in e.participants ==> p in users && p.id in c.participants && p.id != u
    ensures Db.UniqueUserIds(users) ==>
              forall p :: p in users && p.id in c.participants && p.id != u ==> p in e.participants
    ensures (e.lastMessage, e.lastMessageDate) == Preview(msgs, c.lastMessage)
    ensures e.unreadMessagesCount == ReadState.UnreadCount(msgs, c.id, u)
    ensures e.isArchived == c.isArchived && e.isGroup == c.isGroup && e.conversationName == c.conversationName
    ensures e.createdAt == c.createdAt && e.updatedAt == c.updatedAt
  {
    OthersOfPopulated(users, c.participants, u);
    var (content, date) := Preview(msgs, c.lastMessage);
    ListingEntry(c.id, OthersThan(Populate(users, c.participants), u), content, date,
                 ReadState.UnreadCount(msgs, c.id, u), c.isArchived, c.isGroup,
                 c.conversationName, c.createdAt, c.updatedAt)
  }

  /** The getConversations projection for user `u`: one entry per conversation that has `u`
      among its participants, in store order. */
  function Listing(cs: seq<Conversation>, users: seq<User>, msgs: seq<Message>, u: Id): (r: seq<ListingEntry>)
    ensures |r| == |Mine(cs, u)|
    ensures forall k :: 0 <= k < |r| ==> r[k] == EntryOf(users, msgs, u, Mine(cs, u)[k])
  {
    var mine := Mine(cs, u);
    seq(|mine|, k requires 0 <= k < |mine| => EntryOf(users, msgs, u, mine[k]))
  }

  /** The listing has one entry per conversation of `u`; each shows exactly the conversation's
      other stored users (never `u`), the preview of its last message, and as unread count the
      number of its messages addressed to `u` and not yet read. */
  lemma ListingFacts(cs: seq<Conversation>, users: seq<User>, msgs: seq<Message>, u: Id)
    ensures |Listing(cs, users, msgs, u)| == |Mine(cs, u)|
    ensures forall k :: 0 <= k < |Listing(cs, users, msgs, u)| ==>
              var e := Listing(cs, users, msgs, u)[k];
              var c := Mine(cs, u)[k];
              && c in cs && u in c.participants
              && e.conversationId == c.id
              && (forall p :: p in e.participants ==> p in users && p.id in c.participants && p.id != u)
              && (Db.UniqueUserIds(users) ==>
                    forall p :: p in users && p.id in c.participants && p.id != u ==> p in e.participants)
              && (e.lastMessage, e.lastMessageDate) == Preview(msgs, c.lastMessage)
              && e.unreadMessagesCount == ReadState.UnreadCount(msgs, c.id, u)
              && (e.unreadMessagesCount == 0 <==>
                    forall j :: 0 <= j < |msgs| ==> !ReadState.UnreadFor(msgs[j], c.id, u))
              && (c.lastMessage.None? ==> e.lastMessage == NoMessage && e.lastMessageDate.None?)
  {
  }

  /** Joining conversation `c` brings its listed unread count to zero and leaves the counts of
      the user's other conversations as they were. */
  lemma JoinZeroesListedCount(cs: seq<Conversation>, users: seq<User>, msgs: seq<Message>, c: Id, u: Id)
    ensures |Listing(cs, users, ReadState.MarkRead(msgs, c, u), u)| == |Listing(cs, users, msgs, u)|
    ensures forall k :: 0 <= k < |Listing(cs, users, msgs, u)| ==>
              Listing(cs, users, ReadState.MarkRead(msgs, c, u), u)[k].unreadMessagesCount ==
                if Listing(cs, users, msgs, u)[k].conversationId == c then 0
                else Listing(cs, users, msgs, u)[k].unreadMessagesCount
  {
    var after := ReadState.MarkRead(msgs, c, u);
    var mine := Mine(cs, u);
    forall k | 0 <= k < |mine|
      ensures ReadState.UnreadCount(after, mine[k].id, u) ==
                if mine[k].id == c then 0 else ReadState.UnreadCount(msgs, mine[k].id, u)
    {
      if mine[k].id == c {
        ReadState.MarkReadClearsUnread(msgs, c, u);
      } else {
        ReadState.MarkReadKeepsOtherCounts(msgs, c, u, mine[k].id, u);
      }
    }
  }
}
