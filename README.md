# bam chat backend — a Dafny model

This project models the server core of the bam chat application:
- the socket.io event handlers of `api/index.js`: conversations, messages, reactions, read receipts, pauses and online presence;
- the REST routers for conversations, messages and pauses;
- the pause model's defaults and instance methods;
- the JWT authentication middleware.

The MongoDB collections are modelled as a `Store` class. It holds one sequence per collection, in insertion order, and a counter that stands for ObjectId generation. Each handler is a method that changes the store and a `Socket`. The socket records the rooms it has joined and, as a ghost log, every event emitted with its audience: everyone, a room, a room minus the sender, or the sender alone. The in-memory `onlineUsers` object is an `OnlineUsers` class. It keeps its entries in JavaScript key-insertion order.

The pure parts are functions with lemmas about them. These cover:
- resolving participants and the uniqueness of direct conversations;
- the conversation listing;
- the reaction upsert and remove;
- read state;
- pause durations and the daily summary;
- the extraction of the bearer token.

Modules:
- `Model`: entities;
- `Reactions`;
- `ReadState`;
- `ConversationLogic`;
- `PauseModel`;
- `Auth`;
- `Transport`;
- `Presence`;
- `Db`;
- `SocketApi`;
- `ConversationRoutes`;
- `MessageRoutes`;
- `PauseRoutes`.

The clock, the JWT verification function, the configured secret and the local midnight are parameters.

## Model

| member | source | states |
|---|---|---|
| Reactions.IndexOf | api/index.js:414 | `reactions.find` by user: the index of the first reaction of that user, or none when the user has none |
| Reactions.FindReaction | api/index.js:414 | the search loop finds exactly the first reaction of the user |
| Reactions.Upsert | api/index.js:414-419 | a user's existing reaction is retyped in place and other reactions are untouched; a user without one gets a reaction appended |
| Reactions.ApplyUpsert | api/index.js:414-419 | the find-then-assign-or-push code computes the upsert |
| Reactions.UpdateExisting | api/index.js:528-535 | retypes an existing reaction of the user; when the user has none there is no result |
| Reactions.Remove | api/index.js:552 | the filtered list is never longer than the original |
| Reactions.RemoveKeepsOthers | api/index.js:552 | keeps exactly the reactions of other users; a user without a reaction leaves the list unchanged |
| Reactions.UpsertLeavesExactlyOne | api/index.js:414-419 | after the upsert the user has exactly one reaction, of the new type, and no user has two |
| Reactions.UpsertLastWriteWins | api/index.js:404-426 | two sequential upserts by one user equal the last one alone |
| Reactions.RemoveDropsExactlyThatEntry | api/index.js:552 | with at most one reaction per user, removal drops exactly that user's entry |
| Reactions.RemoveKeepsAtMostOne | api/index.js:552 | removal keeps at most one reaction per user |
| ReadState.UnreadCount | api/routes/conversationRoutes.js:38-42 | counts the messages of the conversation sent to the user and still unread; it is zero exactly when there are none |
| ReadState.UpdateMany | api/index.js:304-307 | `updateMany` sets the read flag on every match and its `modifiedCount` is the unread count |
| ReadState.MarkRead | api/index.js:304-307 | `updateMany(filter, { isRead: true })`: same length; each message keeps every field but the read flag, which becomes set exactly where it was set or the message matched the filter |
| ReadState.MarkReadClearsUnread | api/index.js:304-307 | afterwards the user has nothing unread in that conversation |
| ReadState.MarkReadKeepsOtherCounts | api/index.js:304-307 | the unread counts of other conversations and users are unchanged |
| ReadState.MarkReadIdempotent | api/routes/messageRoutes.js:101-108 | marking read twice is the same as marking read once |
| ConversationLogic.UsersByEmail | api/index.js:180 | `User.find({ email: { $in } })`: exactly the users whose e-mail is listed, in store order |
| ConversationLogic.FoundEmailsUnique | api/index.js:180 | with unique e-mails in the store, the users found have distinct e-mails |
| ConversationLogic.DuplicateEmailRejected | api/index.js:183-185 | a list that repeats an e-mail always fails the count check |
| ConversationLogic.ParticipantIds | api/index.js:188-196 | the found ids in order, then the requester when absent and present; no duplicates are added |
| ConversationLogic.MapIds | api/index.js:188 | one id per found user, in order, none of them null |
| ConversationLogic.Includes | api/index.js:191 | true exactly when the requester's id is already in the list |
| ConversationLogic.DropNulls | api/index.js:196 | keeps the non-null ids, in order |
| ConversationLogic.ResolveParticipants | api/index.js:188-196 | the map, the conditional push of the requester and the null filter, run in order, compute `ParticipantIds` |
| ConversationLogic.CreateKeepsDirectUnique | api/index.js:199-211 | storing a conversation that passed the duplicate check keeps direct pairs unique |
| ConversationLogic.RepeatedDirectRequestConflicts | api/index.js:201-209 | a second request for the same direct pair finds the first one |
| ConversationLogic.DirectMatch | api/index.js:203-206 | the `$all`/`isGroup: false` filter matches only a direct conversation holding the first two ids; with fewer than two ids it matches nothing |
| ConversationLogic.DirectMatchReadsFirstPair | api/index.js:203-206 | the filter ignores the order of the pair and every id after the second |
| ConversationLogic.HasDirect | api/index.js:203-208 | `findOne` finds a document exactly when some direct conversation holds both of the first two ids; never with fewer than two ids |
| ConversationLogic.Populate | api/index.js:247-251 | only stored users whose ids are listed, never more than the ids; every id that `findById` resolves contributes the user found |
| ConversationLogic.PopulateKeepsOrder | api/index.js:247-251 | when every id resolves, the populated list has one user per id, in the ids' order |
| ConversationLogic.PopulateMembers | api/index.js:247-251 | with unique user ids, the populated list holds exactly the stored users whose id is listed |
| ConversationLogic.OthersThan | api/index.js:261 | keeps exactly the participants other than the requester |
| ConversationLogic.Preview | api/index.js:252-255 | the last message's content and date when the reference resolves to a stored message; otherwise `"Aucun message"` and no date, and never a date without a message |
| ConversationLogic.Mine | api/index.js:247 | `find({ participants: userId })`: exactly the conversations the user takes part in |
| ConversationLogic.OthersOfPopulated | api/index.js:247-251 | the other participants shown are stored users of the conversation other than the requester, and with unique user ids every such user is shown |
| ConversationLogic.EntryOf | api/index.js:260-280 | the entry carries the conversation's id and flags, exactly its other stored users, the preview of its last message and the count of its messages unread by the user |
| ConversationLogic.Listing | api/index.js:247-283 | one entry per conversation of the user, in store order, each that conversation's entry |
| ConversationLogic.ListingFacts | api/index.js:247-283 | one entry per conversation of the user, in order; each shows exactly the conversation's other stored users, the preview of its last message, and the number of its messages unread by the user, zero iff none is unread |
| ConversationLogic.JoinZeroesListedCount | api/index.js:298-329 | after joining a conversation, the listing shows zero unread for it and unchanged counts for the others |
| PauseModel.DurationSeconds | api/models/pauseSchema.js:19 | the duration in seconds times 1000 is the elapsed milliseconds; it is non-negative iff the end is not before the start |
| PauseModel.NewPause | api/models/pauseSchema.js:3-9 | a pause without a user is refused; a given `startTime` or `isPaused` is kept, a missing one defaults to now and to true; there is no end or duration yet |
| PauseModel.Started | api/models/pauseSchema.js:11-15 | the pause runs from now; id, user, end time and duration are kept |
| PauseModel.Ended | api/models/pauseSchema.js:17-22 | the pause has ended now and no longer runs; its duration times 1000 is the elapsed milliseconds, non-negative when the end is not before the start; id, user and start are kept |
| PauseModel.PauseDoc.Load | api/models/pauseSchema.js:3-9 | the loaded document holds the stored pause |
| PauseModel.PauseDoc.StartPause | api/models/pauseSchema.js:11-15 | sets the start time to now and the flag on; end and duration are untouched |
| PauseModel.PauseDoc.EndPause | api/models/pauseSchema.js:17-22 | sets the end to now, clears the flag and records the duration; that is non-negative when the pause started before now |
| PauseModel.EndIsUnguarded | api/models/pauseSchema.js:17-22 | ending twice overwrites the first end: the duration runs from the original start to the last end |
| PauseModel.RestartKeepsStaleDuration | api/models/pauseSchema.js:11-15 | restarting an ended pause keeps its old end time and duration |
| PauseModel.DefaultThenEnded | api/models/pauseSchema.js:5-8 | a defaulted pause that is ended has the duration from its creation time |
| Auth.SplitOnSpace | api/middleware/Auth.js:11-12 | `split(' ')` always yields at least one field |
| Auth.UpToSpace | api/middleware/Auth.js:11-12 | the first field is the longest space-free prefix: it stops only at the end or at a space |
| Auth.FirstField | api/middleware/Auth.js:11-12 | the first field of `split(' ')` is the text up to the first space |
| Auth.SplitAfterWord | api/middleware/Auth.js:11-12 | splitting a space-free word, a space and the rest gives the word followed by the split of the rest |
| Auth.ExtractToken | api/middleware/Auth.js:11-12 | a non-empty cookie wins; otherwise the token is the second field of a `Bearer ` header; nothing without either; the token is never empty |
| Auth.BearerTokenIsFirstWord | api/middleware/Auth.js:11-12 | the token of `Bearer <rest>` is the first word of the rest |
| Auth.Decide | api/middleware/Auth.js:14-26 | 403 exactly when there is no token, 401 exactly when verification fails, otherwise proceed with the verified claims |
| Auth.CookieTakesPrecedence | api/middleware/Auth.js:11-12 | with a non-empty cookie, the header does not change the decision |
| Auth.Request.constructor | api/middleware/Auth.js:10 | a fresh request has no user and `next` not yet called |
| Auth.AuthenticateToken | api/middleware/Auth.js:10-27 | answers the decided status; on failure nothing else changes; on success it sets `req.user` to the claims and calls `next` once |
| Auth.LoadSecret | api/middleware/Auth.js:4-8 | loading the module succeeds exactly when a non-empty secret is configured |
| Presence.Keys | api/index.js:58 | `Object.keys` lists the keys in insertion order |
| Presence.Lookup | api/index.js:51 | the value stored for a key, or none exactly when the key is absent |
| Presence.Assign | api/index.js:51 | a new key is appended at the end; an existing key keeps its position |
| Presence.AssignLookup | api/index.js:51 | after the assignment the key maps to the new value and every other key is unchanged |
| Presence.AssignKeepsPositions | api/index.js:51 | overwriting an existing key leaves every key at its position |
| Presence.AssignKeepsDistinct | api/index.js:51 | an assignment never creates a second entry for a key |
| Presence.AssignedKeyListed | api/index.js:51-58 | after `userConnected` the user is among `Object.keys` |
| Presence.AssignKeys | api/index.js:51 | overwriting an existing key keeps the key order; keys stay distinct |
| Presence.Delete | api/index.js:630 | the key is gone, every other key keeps its value, and deleting an absent key changes nothing |
| Presence.FirstKeyWithValue | api/index.js:640 | `Object.keys(...).find(...)`: the first key in order whose value is strictly equal; none exactly when no value is equal |
| Presence.FindKeyWithValue | api/index.js:640 | the search loop finds that first key |
| Presence.Replay | api/index.js:50-59 | after a session's events a user whose last event is `userConnected` is online with `true`, and one whose last event is `userLogout` (api/index.js:630) is absent |
| Presence.ReplayLookup | api/index.js:626-636 | key by key, the replayed map agrees with reading each user's last event, and a user without events keeps the starting value |
| Presence.OnlineUsers.constructor | api/index.js:44 | the table starts empty |
| Presence.DisconnectNeverFindsUser | api/index.js:50-59 | after any sequence of connects and logouts every stored value is `true`, so the search for a socket id never succeeds |
| Presence.SocketKeyFoundOnDisconnect | api/index.js:639-649 | when the socket id is the stored value, disconnect finds that user and removes only that user |
| Db.PositionOf | api/index.js:312 | the search behind `findById`: the position of the first document with that id, or none exactly when there is none |
| Db.UserAt | api/routes/pauseRoutes.js:14 | `User.findById`: the position of the first user with that id, or none exactly when there is none |
| Db.ConversationAt | api/index.js:312 | `Conversation.findById`: the position of the conversation with that id, or none exactly when there is none |
| Db.MessageAt | api/index.js:408 | `Message.findById`: the position of the message with that id, or none exactly when there is none |
| Db.ArchivePatchSetsOnlyTheFlag | api/index.js:591-595 | the update `{ isArchived: true }` sets the flag and nothing else, and applying it again changes nothing |
| Db.Store.constructor | api/index.js:14-16 | the store starts with the registered users only |
| Db.Store.InsertConversation | api/index.js:214-219 | appends the conversation under a fresh id; other collections are unchanged |
| Db.Store.InsertMessage | api/index.js:335-401 | appends an unread message without reactions under a fresh id |
| Db.Store.InsertPause | api/routes/pauseRoutes.js:19-25 | appends the pause the schema builds from a user, a start time of now and the flag on |
| Db.Store.UpdateConversation | api/routes/conversationRoutes.js:81-91 | `findByIdAndUpdate(..., { new: true })`: patches the conversation with that id and returns it; an unknown id changes nothing |
| Db.Store.DeleteConversation | api/routes/conversationRoutes.js:94-104 | `findByIdAndDelete`: removes that conversation; no conversation with the id remains |
| Db.Store.SetReactions | api/index.js:421 | saves the message's reaction list; no user gets two reactions |
| Db.Store.MarkRead | api/index.js:304-307 | stores the marked messages and returns the number that were unread |
| Db.Store.SetPause | api/routes/pauseRoutes.js:51 | saves the pause at its position |
| SocketApi.CreateConversation | api/index.js:175-226 | error and no change when an e-mail is unknown or a direct pair already has a conversation; otherwise stores the conversation with the resolved participants under a fresh id and broadcasts it; direct pairs stay unique |
| SocketApi.DeleteConversation | api/index.js:228-240 | error for an unknown id; otherwise removes the conversation and broadcasts `conversationDeleted`; its messages stay |
| SocketApi.JoinRooms | api/index.js:288-290 | joins exactly the rooms of the listed conversations |
| SocketApi.GetConversations | api/index.js:242-296 | sends the user's listing to the sender and joins each listed conversation's room |
| SocketApi.ReadNotices | api/index.js:312-317 | one `messagesRead` notice to the room of each participant other than the reader, and no other notice |
| SocketApi.NotifyReaders | api/index.js:312-317 | the loop emits exactly those notices |
| SocketApi.JoinConversation | api/index.js:298-329 | joins the room; marks the user's messages read so the unread count becomes zero; an unknown conversation ends in an error after the update; otherwise it notifies the other participants and sends the user's populated conversations (not the listing: no unread counts) |
| SocketApi.ArchiveConversation | api/index.js:586-610 | error for an unknown id; otherwise sets only the archive flag, answers the sender and broadcasts |
| SocketApi.CreateMessage | api/index.js:335-401 | stores an unread message; makes it the conversation's last message, which the listing then previews; the receiver's unread count grows by one; three broadcasts |
| SocketApi.ReplyToMessage | api/index.js:429-448 | stores a message that replies to the payload's message id; the conversation is untouched |
| SocketApi.AddReaction | api/index.js:404-426 | error for an unknown message; otherwise stores the upserted reactions and broadcasts `reactionAdded` |
| SocketApi.UpdateReaction | api/index.js:518-539 | error and nothing saved for an unknown message or a user without a reaction; otherwise retypes that reaction and broadcasts |
| SocketApi.RemoveReaction | api/index.js:542-559 | error for an unknown message; otherwise removes the user's reactions (possibly none) and broadcasts |
| SocketApi.StartPause | api/index.js:115-134 | with `Pause` undefined in the server, the handler always answers with an error |
| SocketApi.EndPause | api/index.js:137-160 | with `Pause` undefined in the server, the handler always answers with an error |
| SocketApi.UserConnected | api/index.js:50-59 | records the user as online with the value `true`; sends every online id, the user included |
| SocketApi.UserConnectedWithSocket | api/index.js:50-59 | as intended: records the socket id as the user's value |
| SocketApi.UserLogout | api/index.js:626-636 | forgets the user and broadcasts the offline status |
| SocketApi.Disconnect | api/index.js:639-649 | forgets the first user whose value is this socket's id and broadcasts; with none, nothing changes |
| ConversationRoutes.CreateConversation | api/routes/conversationRoutes.js:9-17 | stores the posted conversation as given, with default flags, and answers 201 |
| ConversationRoutes.RouteCreateCanDuplicateDirect | api/routes/conversationRoutes.js:9-17 | for any stored conversations, a posted non-group body naming two distinct users that already share a direct conversation makes the route append a second direct conversation for that pair, breaking pair uniqueness |
| ConversationRoutes.ListingRouteAsWritten | api/routes/conversationRoutes.js:19-61 | 200 and an empty list exactly when the user has no conversation, otherwise 500 |
| ConversationRoutes.ListingRouteFailsForAnyMember | api/routes/conversationRoutes.js:38 | any participant of any conversation gets 500 |
| ConversationRoutes.CardsAsSelected | api/routes/conversationRoutes.js:25-49 | as written, the select `'name profilePic'` and the reads of `participant.name` and `participant.profilePic` name paths registration never writes, so every card `{ name, profilePic }` has neither field |
| ConversationRoutes.Cards | api/routes/conversationRoutes.js:25-49 | once the select at line 27 and the reads at lines 47-48 name the stored paths `nameAndFirstName` and `profilePhoto`, each card shows the participant's stored name and photo |
| ConversationRoutes.SelectedCardsLoseNames | api/routes/conversationRoutes.js:25-49 | for every participant the card built as written lacks the name the corrected card shows |
| ConversationRoutes.ListingRoute | api/routes/conversationRoutes.js:19-61 | with the message model imported, and the select and card reads corrected: 200 and one entry per conversation of the user |
| ConversationRoutes.RouteListingAgreesWithSocket | api/routes/conversationRoutes.js:36-51 | the fixed route gives the same conversation ids, previews, dates and unread counts as the socket listing, with a card of each other participant's stored name and photo |
| ConversationRoutes.GetConversation | api/routes/conversationRoutes.js:64-78 | 404 exactly when no conversation has the id; otherwise 200 and that conversation |
| ConversationRoutes.UpdateConversation | api/routes/conversationRoutes.js:81-91 | 404 and no change for an unknown id; otherwise 200 and the patched conversation |
| ConversationRoutes.DeleteConversation | api/routes/conversationRoutes.js:94-104 | 404 and no change for an unknown id; otherwise 200 and the conversation removed |
| ConversationRoutes.ArchiveConversation | api/routes/conversationRoutes.js:106-120 | 404 for an unknown id; otherwise 200, with only the archive flag set |
| MessageRoutes.PostMessage | api/routes/messageRoutes.js:7-25 | stores an unread message and answers 201; the receiver's unread count grows by one; conversations are untouched |
| MessageRoutes.PostReaction | api/routes/messageRoutes.js:28-51 | 404 for an unknown message; otherwise upserts the user's reaction and answers 200 |
| MessageRoutes.PostReply | api/routes/messageRoutes.js:54-73 | stores a message that replies to the path id and answers 201 |
| MessageRoutes.GetMessage | api/routes/messageRoutes.js:76-91 | 404 exactly when no message has the id; otherwise 200 and that message |
| MessageRoutes.MarkAsRead | api/routes/messageRoutes.js:92-115 | 400 and no change when a field is missing; otherwise it marks the user's messages read, answers the number that were unread, and leaves none unread |
| PauseRoutes.StartPause | api/routes/pauseRoutes.js:9-33 | 404 and no change for an unknown user; otherwise 201 and a running pause started now, appended under a fresh id; other collections unchanged |
| PauseRoutes.ActivePauseAt | api/routes/pauseRoutes.js:41 | `findOne({ user, isPaused: true })`: the first running pause of the user, or none exactly when there is none |
| PauseRoutes.EndPause | api/routes/pauseRoutes.js:36-57 | 404 and no change when nothing is running; otherwise ends the first running pause in place with a non-negative duration and answers 200; no id is consumed and other collections are unchanged |
| PauseRoutes.CountRouteAsWritten | api/routes/pauseRoutes.js:60-69 | every request answers 500 with no count |
| PauseRoutes.PauseCountForDate | api/routes/pauseRoutes.js:63 | counts the user's pauses that start within the day; zero exactly when there are none |
| PauseRoutes.CountRoute | api/routes/pauseRoutes.js:60-69 | with the count defined: 200 and that count |
| PauseRoutes.CountRouteLosesTodaysPause | api/routes/pauseRoutes.js:60-69 | for a user with one pause started that day, the defined count answers 200 with 1, the route as written 500 with no count |
| PauseRoutes.TodaysPauses | api/routes/pauseRoutes.js:90-93 | no more pauses than stored |
| PauseRoutes.TodaysPausesMembers | api/routes/pauseRoutes.js:90-93 | exactly the user's pauses that started since midnight |
| PauseRoutes.TodaySummary | api/routes/pauseRoutes.js:83-103 | the count is the number of the user's pauses started since midnight, zero exactly when there are none; the total is non-negative when no stored duration is negative |
| PauseRoutes.DurationOrZero | api/routes/pauseRoutes.js:97 | the `duration or 0` term: the stored duration, or 0 for a running pause |
| PauseRoutes.TotalPauseTime | api/routes/pauseRoutes.js:96-97 | the total is 0 when no pause has a duration, and non-negative when no stored duration is negative |
| PauseRoutes.TotalAppend | api/routes/pauseRoutes.js:96-97 | appending a pause adds its duration, or 0 for a running pause, to the total |
| PauseRoutes.StartCountsToday | api/routes/pauseRoutes.js:9-33 | starting a pause adds one to today's count and nothing to today's total |
| PauseRoutes.EndAddsToTodayTotal | api/routes/pauseRoutes.js:36-57 | ending one of today's running pauses keeps the count and adds its duration to the total |
| PauseRoutes.EndAddsToToday | api/routes/pauseRoutes.js:83-103 | the same change, stated on the `/pauses/today` answer |
| PauseRoutes.CountForTodayMatchesSummary | api/routes/pauseRoutes.js:60-103 | when no pause starts after today, the defined count for today equals the summary's count |

## Left out

- The HTTP and socket transports are not modelled: request parsing, JSON bodies, emit payloads, the CORS setup, static serving and `server.listen`. Emits are recorded only as an event name and an audience.
- Concurrency is not modelled. Each handler runs as one atomic step, and no `await` can interleave with another handler.
- Mongoose internals are not modelled: cast errors on malformed ids, validation and save failures, and populate's field selection.
- The conversation, message and user schemas are not part of this model. The assumed defaults are: a new message is unread with no reactions; a conversation is not archived, not a group and has no name; timestamps equal the clock.
- `ObjectId` and string ids are one type, compared by value. In the program `userId` is a string, so the `includes` test at api/index.js:191 never matches the ObjectIds of the found users and the requester is always appended. A requester who lists their own e-mail then appears twice: a two-person request holds three ids, counts as a group, and skips the duplicate check of api/index.js:201-211, so the program can store a second direct conversation for a pair. The model does not capture this; the pair uniqueness that `ConversationLogic.CreateKeepsDirectUnique` proves holds only under by-value comparison.
- With fewer than two participant ids, the `$all` query of api/index.js:203 contains `undefined`. The model treats it as never matching.
- The handlers `updateUser`, `typingStatus`, `blockUser`, `getActivePauses`, `getConversationDetails` and `getConversationMessages` are outside the modelled core. So are the route `GET /active` and the client-side listener at api/index.js:611-623.
- Duplicate listener registration is not modelled: `addReaction` (also at api/index.js:493-515) and `replyToMessage` (also at api/index.js:561-584) are registered twice. Each event is modelled once. The two `addReaction` listeners both await `findById` (api/index.js:408, :497) before either saves, so both read the old list; for a user without a reaction both push, and the message can end with two reactions from that user, which breaks the at-most-one-per-user invariant. The model does not capture this interleaving. The duplicate `replyToMessage` listener stores two replies and emits twice; the model stores one.
- The nested `joinConversation` listener that `createMessage` registers again on every message (api/index.js:367) is not modelled.
- The pause router is not mounted in api/index.js; its routes are modelled as if they were. The pause schema module is imported as `PauseSchema` while the file is `pauseSchema.js`; the model assumes the import resolves.
- The middleware reads `req.cookies`, which needs a cookie parser that is not installed. The cookie is a parameter. As written, `req.cookies` is undefined, so reading `req.cookies.token` (api/middleware/Auth.js:11) throws on every request; Express hands the error to the handler at api/index.js:663-666, which answers 500, so no modelled REST route is reachable. The routes are modelled as if a cookie parser were installed.
- `jwt.verify` is a parameter function. The routes' use of `req.user._id` against a `userId` claim is not modelled; the user id is passed explicitly.
- The date string of `/count` becomes a `dayStart` parameter. The local midnight of `/pauses/today` is a parameter. Days are taken to be 86 400 000 ms long, so DST days are not modelled.
- Durations are exact reals rather than IEEE doubles.
- SocketApi.JoinConversation: the `conversations` event is stated by name only. Its payload is the raw populated conversations of api/index.js:320-324, the user included among the participants and without unread counts; it is not the `getConversations` listing, and the model does not state it.
- PauseModel.PauseDoc.StartPause, PauseModel.PauseDoc.EndPause: the methods stop after assigning the fields; the `await this.save()` write-back of api/models/pauseSchema.js:14 and :21 is not modelled. The `/end` route's own save is modelled by `Db.Store.SetPause`.
- ConversationRoutes.GetConversation: returns the stored conversation without populating participants or the last message.
- MessageRoutes.GetMessage: returns the stored message without populating sender, receiver or the replied-to message.
- ConversationRoutes.UpdateConversation: the body is a set of field assignments. Update operators and a change of `_id` are not modelled.
- SocketApi.StartPause: the handler as wired is modelled. The intended behaviour is the same as PauseRoutes.StartPause without the user check.
- SocketApi.EndPause: the handler as wired is modelled. The intended behaviour is the same as PauseRoutes.EndPause.

## Findings

| source | as written | input that shows it | evidently intended | confidence | as-written member | corrected member |
|---|---|---|---|---|---|---|
| api/routes/conversationRoutes.js:38 | `Message.countDocuments` is called but `Message` is never imported, so the first conversation mapped throws | any user who takes part in one conversation: `GET /conversations?userId=1` with a conversation `[1, 2]` answers 500 | 200 with the listing, as the socket's `getConversations` gives it | high, not executed | ConversationRoutes.ListingRouteAsWritten, ConversationRoutes.ListingRouteFailsForAnyMember | ConversationRoutes.ListingRoute, ConversationRoutes.RouteListingAgreesWithSocket |
| api/routes/pauseRoutes.js:63 | `Pause.getPauseCountForDate` is not defined by the pause model, so every request ends in the catch block | any `GET /count/1/2024-01-01` answers 500 | 200 with the number of the user's pauses that start on that day | high, not executed | PauseRoutes.CountRouteAsWritten, PauseRoutes.CountRouteLosesTodaysPause | PauseRoutes.CountRoute, PauseRoutes.CountForTodayMatchesSummary |
| api/index.js:51 | `userConnected` stores `true`, but `disconnect` (api/index.js:640) searches for the socket id, so no disconnect removes a user | `userConnected(1)` then `disconnect` leaves user 1 online | store `socket.id`, so that disconnect finds and removes the user | high, not executed | SocketApi.UserConnected, Presence.DisconnectNeverFindsUser | SocketApi.UserConnectedWithSocket, Presence.SocketKeyFoundOnDisconnect |
| api/routes/conversationRoutes.js:27 | the participants are populated with `select: 'name profilePic'` and each card is built as `{ name: participant.name, profilePic: participant.profilePic }` (lines 46-49), but registration stores `nameAndFirstName` and `profilePhoto` (api/routes/userRoutes.js:28-38) and every other populate selects `nameAndFirstName`, so every card is empty | any user in a conversation with a registered user: even with `Message` imported, `GET /conversations` shows that user's card as `{}` | select `'nameAndFirstName profilePhoto'` at line 27 and read `participant.nameAndFirstName` and `participant.profilePhoto` at lines 47-48, so each card shows the stored name and photo | medium (the user schema is not part of this model), not executed | ConversationRoutes.CardsAsSelected, ConversationRoutes.SelectedCardsLoseNames | ConversationRoutes.Cards, ConversationRoutes.RouteListingAgreesWithSocket |
