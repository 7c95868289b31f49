/** The HTTP routes under `/api/conversations`. Authentication runs first on every route
    (see module Auth); these methods model what happens once it has let the request through. */
module ConversationRoutes {
  import opened Model
  import opened Db
  import ConversationLogic
  import ReadState

  /** The request body of `POST /`, handed to the model constructor as it is. */
  datatype ConversationBody = ConversationBody(
    participants: seq<Id>,
    isGroup: Option<bool>,
    conversationName: Option<string>,
    lastMessage: Option<Id>,
    isArchived: Option<bool>)

  /** `POST /`: store the conversation the client describes, with no resolution of
      participants and no duplicate check, and answer 201. */
  method CreateConversation(s: Store, body: ConversationBody, now: Time) returns (status: nat, c: Conversation)
    requires s.Valid()
    modifies s
    ensures s.Valid()
    ensures status == 201
    ensures c == Conversation(old(s.nextId), body.participants, Pick(body.isGroup, false), body.conversationName,
                              body.lastMessage, Pick(body.isArchived, false), now, now)
    ensures s.conversations == old(s.conversations) + [c]
    ensures s.users == old(s.users) && s.messages == old(s.messages) && s.pauses == old(s.pauses)
  {
    c := s.InsertConversation(body.participants, Pick(body.isGroup, false), body.conversationName,
                              body.lastMessage, Pick(body.isArchived, false), now);
    status := 201;
  }

  /** Unlike the createConversation event, the route trusts the client: when the posted body
      names a pair of distinct users that already has a direct conversation, and does not ask
      for a group, the conversation the route appends is a second direct one for that pair. */
  lemma RouteCreateCanDuplicateDirect(cs: seq<Conversation>, body: ConversationBody, id: Id, now: Time)
    requires |body.participants| >= 2 && body.participants[0] != body.participants[1]
    requires body.isGroup != Some(true)
    requires ConversationLogic.HasDirect(cs, body.participants)
    ensures !ConversationLogic.DirectPairUnique(cs + [Conversation(id, body.participants, Pick(body.isGroup, false),
                                                                 body.conversationName, body.lastMessage,
                                                                 Pick(body.isArchived, false), now, now)])
  {
    var c := Conversation(id, body.participants, Pick(body.isGroup, false), body.conversationName, body.lastMessage,
                          Pick(body.isArchived, false), now, now);
    var all := cs + [c];
    var a, b := body.participants[0], body.participants[1];
    var j :| 0 <= j < |cs| && ConversationLogic.DirectMatch(cs[j], body.participants);
    assert ConversationLogic.DirectWith(all[j], a, b);
    assert ConversationLogic.DirectWith(all[|cs|], a, b);
  }

  /* ---------- GET /conversations ---------- */

  /** The object the route builds for another participant, `{ name, profilePic }`
      (api/routes/conversationRoutes.js:46-49); a property read off a path the document does not
      have is `undefined`, which the JSON answer leaves out. */
  datatype ParticipantCard = ParticipantCard(name: Option<string>, profilePic: Option<string>)

  /** One element of the route's answer. */
  datatype RouteEntry = RouteEntry(
    conversationId: Id,
    participants: seq<ParticipantCard>,
    lastMessage: string,
    lastMessageDate: Option<Time>,
    unreadMessagesCount: nat)

  datatype ListingResponse = ListingResponse(status: nat, entries: seq<RouteEntry>)

  /** The cards as written: the select `'name profilePic'` and the reads of `participant.name`
      and `participant.profilePic` name paths that registration never writes, so every card is
      the empty object. */
  function CardsAsSelected(ps: seq<User>): (r: seq<ParticipantCard>)
    ensures |r| == |ps|
    ensures forall j :: 0 <= j < |r| ==> r[j].name.None? && r[j].profilePic.None?
  {
    seq(|ps|, j requires 0 <= j < |ps| => ParticipantCard(None, None))
  }

  /** The cards once both the select at line 27 and the reads at lines 47-48 name the stored
      paths `nameAndFirstName` and `profilePhoto`: each card shows the participant's stored
      name and photo. */
  function Cards(ps: seq<User>): (r: seq<ParticipantCard>)
    ensures |r| == |ps|
    ensures forall j :: 0 <= j < |r| ==>
              r[j].name == Some(ps[j].nameAndFirstName) && r[j].profilePic == ps[j].profilePhoto
  {
    seq(|ps|, j requires 0 <= j < |ps| => ParticipantCard(Some(ps[j].nameAndFirstName), ps[j].profilePhoto))
  }

  /** Whatever the participant, the card the route builds as written loses the name that the
      corrected card shows. */
  lemma SelectedCardsLoseNames(ps: seq<User>)
    ensures forall j :: 0 <= j < |ps| ==> CardsAsSelected(ps)[j].name != Cards(ps)[j].name
  {
  }

  /** The route as written: the unread count is asked of a `Message` binding that the file
      never imports, so the first conversation mapped throws a ReferenceError and the route
      answers 500; only a user with no conversation gets 200 and an empty list. */
  function ListingRouteAsWritten(cs: seq<Conversation>, u: Id): (r: ListingResponse)
    ensures r.entries == []
    ensures r.status == 200 <==> forall j :: 0 <= j < |cs| ==> u !in cs[j].participants
    ensures r.status != 200 ==> r.status == 500
  {
    var mine := ConversationLogic.Mine(cs, u);
    if |mine| == 0 then ListingResponse(200, [])
    else
      assert mine[0] in cs && u in mine[0].participants;
      ListingResponse(500, [])
  }

  /** Any user who takes part in at least one conversation gets a 500 and no listing. */
  lemma ListingRouteFailsForAnyMember(cs: seq<Conversation>, u: Id, j: nat)
    requires j < |cs| && u in cs[j].participants
    ensures ListingRouteAsWritten(cs, u) == ListingResponse(500, [])
  {
    assert cs[j] in ConversationLogic.Mine(cs, u);
  }

  /** The route with the model imported, and the participants' select and card reads naming
      the stored paths:
      the user's conversations, each with the other participants' names and photos, the
      last-message preview and the unread count. */
  function ListingRoute(cs: seq<Conversation>, users: seq<User>, msgs: seq<Message>, u: Id): (r: ListingResponse)
    ensures r.status == 200 && |r.entries| == |ConversationLogic.Mine(cs, u)|
  {
    var mine := ConversationLogic.Mine(cs, u);
    ListingResponse(200, seq(|mine|, k requires 0 <= k < |mine| =>
      var (content, date) := ConversationLogic.Preview(msgs, mine[k].lastMessage);
      RouteEntry(mine[k].id,
                 Cards(ConversationLogic.OthersThan(ConversationLogic.Populate(users, mine[k].participants), u)),
                 content, date, ReadState.UnreadCount(msgs, mine[k].id, u))))
  }

  /** The corrected route lists the same conversations, in the same order, with the same
      previews and unread counts as the getConversations event, showing only the name and
      picture of each participant. */
  lemma RouteListingAgreesWithSocket(cs: seq<Conversation>, users: seq<User>, msgs: seq<Message>, u: Id)
    ensures var route := ListingRoute(cs, users, msgs, u).entries;
            var socket := ConversationLogic.Listing(cs, users, msgs, u);
            |route| == |socket| &&
            forall k :: 0 <= k < |route| ==>
              && route[k].conversationId == socket[k].conversationId
              && route[k].participants == Cards(socket[k].participants)
              && route[k].lastMessage == socket[k].lastMessage
              && route[k].lastMessageDate == socket[k].lastMessageDate
              && route[k].unreadMessagesCount == socket[k].unreadMessagesCount
  {
  }

  /* ---------- GET, PUT, DELETE /:id and PUT /:id/archive ---------- */

  /** `GET /:id`: 200 and the stored conversation, or 404. */
  method GetConversation(s: Store, id: Id) returns (status: nat, c: Option<Conversation>)
    ensures status == 200 || status == 404
    ensures status == 404 <==> forall j :: 0 <= j < |s.conversations| ==> s.conversations[j].id != id
    ensures status == 404 ==> c.None?
    ensures status == 200 ==> c.Some? && c.value in s.conversations && c.value.id == id
  {
    match ConversationAt(s.conversations, id)
    case None =>
      status, c := 404, None;
    case Some(k) =>
      status, c := 200, Some(s.conversations[k]);
  }

  /** `PUT /:id`: apply the body as an update document; 200 and the updated conversation,
      or 404 with nothing changed. */
  method UpdateConversation(s: Store, id: Id, patch: ConversationPatch) returns (status: nat, c: Option<Conversation>)
    requires s.Valid()
    modifies s
    ensures s.Valid()
    ensures s.users == old(s.users) && s.messages == old(s.messages) && s.pauses == old(s.pauses)
    ensures match ConversationAt(old(s.conversations), id)
            case None => status == 404 && c.None? && s.conversations == old(s.conversations)
            case Some(k) =>
              status == 200 && c == Some(Patched(old(s.conversations)[k], patch)) &&
              s.conversations == old(s.conversations)[k := c.value]
  {
    c := s.UpdateConversation(id, patch);
    status := if c.Some? then 200 else 404;
  }

  /** `DELETE /:id`: 200 once the conversation is gone, 404 when there was none. */
  method DeleteConversation(s: Store, id: Id) returns (status: nat)
    requires s.Valid()
    modifies s
    ensures s.Valid()
    ensures s.users == old(s.users) && s.messages == old(s.messages) && s.pauses == old(s.pauses)
    ensures match ConversationAt(old(s.conversations), id)
            case None => status == 404 && s.conversations == old(s.conversations)
            case Some(k) =>
              status == 200 && s.conversations == old(s.conversations)[..k] + old(s.conversations)[k + 1..]
    ensures forall j :: 0 <= j < |s.conversations| ==> s.conversations[j].id != id
  {
    var deleted := s.DeleteConversation(id);
    status := if deleted.Some? then 200 else 404;
  }

  /** `PUT /:id/archive`: set the archive flag, nothing else; 404 when there is no such
      conversation. */
  method ArchiveConversation(s: Store, id: Id) returns (status: nat, c: Option<Conversation>)
    requires s.Valid()
    modifies s
    ensures s.Valid()
    ensures s.users == old(s.users) && s.messages == old(s.messages) && s.pauses == old(s.pauses)
    ensures match ConversationAt(old(s.conversations), id)
            case None => status == 404 && c.None? && s.conversations == old(s.conversations)
            case Some(k) =>
              status == 200 && c == Some(old(s.conversations)[k].(isArchived := true)) &&
              s.conversations == old(s.conversations)[k := c.value]
  {
    c := s.UpdateConversation(id, ArchivePatch);
    if c.Some? {
      ArchivePatchSetsOnlyTheFlag(old(s.conversations)[ConversationAt(old(s.conversations), id).value]);
    }
    status := if c.Some? then 200 else 404;
  }
}
