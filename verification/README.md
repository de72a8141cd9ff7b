# Chat backend core in Dafny

This project models the core of a NestJS/Mongoose chat backend. The core has
five parts:

- **Contacts**: directed records from an owner to another user, each with a
  `blocked` flag and a nickname. A unique index covers `(userId, contactId)`.
- **Groups**: a name, a creator, an ordered member list and an ordered admin
  list.
- **Messages**: one-to-one or group messages, with read state.
- **The services** that guard and perform every write on the three
  collections above.
- **The socket gateway**: it authenticates connections, keeps the
  socket-to-user registry, gates every intent on authentication and pushes
  events into rooms.

The database is one immutable value, `Database.Store`. It holds the known user
ids as a set, the contacts and messages as sequences in insertion order, and
the groups as a map keyed by id. Every service operation is a pure function
of a store. A write returns a `Result` holding the new store, and with it the
written document where the source returns one (`RemoveContact` returns only
the store). A query returns a sequence, or a `Result` when it can fail.
`ChatService.GetUnreadCount` is a method whose counting loop is verified. A
write that fails never yields a new store, so the caller's store stays
untouched. The error kinds are:

- `NotFound`, `BadRequest` and `Conflict`, carrying the source's exact
  message strings.
- `Invalid`, the schema validation error raised at save time.
- `StrictPopulate`, the error of a query that populates an undeclared path.
  Only the as-written group lookup of the findings below raises it.

Ids are strings. Instants are naturals supplied by the caller. The id of a new
document is also a parameter.

The gateway is a value `ChatGateway.Gateway`. It holds the connection registry
in insertion order, which is how a JavaScript `Map` iterates, plus a log of the
effects it asked the transport for: emits to a socket, a room or "everyone but
the sender", room joins and leaves, and disconnects. Token verification is a
function parameter.

Schema behaviour modelled:

- `trim: true` strips the JavaScript whitespace set (`Text.Trim`).
- `required` rejects an empty string.
- Defaults apply.
- The timestamps plugin sets `createdAt = updatedAt = now` on insert. Saving
  an unmodified document writes nothing; saving a modified one moves
  `updatedAt`.

Behaviour of the code that a reader of the API might not expect, all modelled
as written:

- A direct send needs only the sender's own record towards the receiver. The
  reverse record is never consulted (`ChatService.CreateIgnoresReverseContact`).
- A sender with no record gets `NotFound("Contato não encontrado para este
  usuário")`. The reason is that `getContactById` throws before the service's
  own null check (src/chat/chat.service.ts:36-40) is reached, so that
  `BadRequest` branch is unreachable. For the same reason a missing group
  yields "Group not found", never the message at
  src/chat/chat.service.ts:59-61.
- A group send by a non-member is `NotFound`, not a permission error.
- `markAsRead` is not "exactly once". Every successful call sets `isRead` and
  stamps `readAt` with the current instant again. Only a repeat at the same
  instant writes nothing (`ChatService.MarkAsReadTwice`).
- Message content is stored trimmed, and content made only of whitespace fails
  validation.
- `create` on groups ignores any member list in the request.
- `removeMember` never touches the admin list. An admin who leaves keeps admin
  rights (`GroupsService.RemovedAdminKeepsAdminRights`).
- `userOffline` is emitted on every authenticated disconnect, even while the
  user is still connected through another socket.
- A direct push goes to one socket only: the earliest registered socket of the
  receiver.
- `joinGroup` checks authentication only, not membership.
- A token whose subject is the empty string registers the socket, but the
  socket then fails every `if (client.userId)` test. Its entry is never
  removed (`ChatGateway.EmptySubjectLeavesStaleEntry`).

## Model

| member | source | states |
|---|---|---|
| MessageSchema.Insert | src/chat/schema/message.schema.ts:6-27 | Validation fails (with the content-required message) exactly when the content is blank after JS trimming. Otherwise the stored content is the trimmed text, `isRead` is false, `readAt` is unset, `readBy` is empty and both timestamps are the insert instant. |
| MessageSchema.Save | src/chat/schema/message.schema.ts:6 | Saving an unmodified message writes nothing. Saving a modified one keeps the edits and moves only `updatedAt` to the save instant. |
| ContactSchema.New | src/contacts/schemas/contact.schema.ts:6-21 | A new contact links owner to other. `blocked` defaults to false and `nickname` to null unless given. `createdAt` and `updatedAt` are the creation instant. |
| ContactSchema.Save | src/contacts/schemas/contact.schema.ts:6 | Saving an unmodified contact writes nothing. Saving a modified one moves only `updatedAt`. |
| GroupSchema.Insert | src/groups/schemas/group.schema.ts:6-21 | Validation fails exactly when the name is empty. Member and admin lists default to empty. Fields are stored as given, with both timestamps at the insert instant. |
| GroupSchema.Save | src/groups/schemas/group.schema.ts:6 | Saving an unmodified group writes nothing. Saving a modified one moves only `updatedAt`. |
| Text.Trim | src/chat/schema/message.schema.ts:17 | The result has no leading or trailing JS whitespace. It is the input minus all-whitespace margins. It is empty exactly when the input is all whitespace. |
| Text.TrimIdempotent | src/chat/schema/message.schema.ts:17 | Trimming a trimmed string changes nothing. |
| Text.Split | src/chat/chat.gateway.ts:50 | `split(' ')` gives at least one part. No part contains the separator. Joining the parts with the separator gives back the input. |
| Text.SplitJoin | src/chat/chat.gateway.ts:50 | Splitting the join of separator-free parts gives back those parts. |
| Seqs.Query | src/chat/chat.service.ts:82-84 | `find(filter).sort(key)` returns each matching document as often as it is stored (multiset equality with the filtered collection), and only matching ones, in ascending key order. |
| Seqs.CountMatching | src/chat/chat.service.ts:133-138 | `countDocuments(filter)` equals the number of matching documents. |
| ContactsService.Find | src/contacts/contacts.service.ts:40-43 | `findOne` on the pair returns the first record linking owner to other, or none exactly when no record links them. |
| ContactsService.FindIsOnly | src/contacts/schemas/contact.schema.ts:25 | Under the unique `(userId, contactId)` index, any record of the pair is the one `findOne` returns. |
| ContactsService.NicknameOrNull | src/contacts/contacts.service.ts:52 | `nickname \|\| null` keeps a non-empty nickname and turns a missing or empty one into null. |
| ContactsService.EmptyNicknameOnlyThroughUpdate | src/contacts/contacts.service.ts:49-79 | `addContact` never stores an empty nickname and stores a non-empty one as given. `updateContact` stores an empty nickname as sent. |
| ContactsService.AddContact | src/contacts/contacts.service.ts:21-58 | Errors come in this order: self-addition is BadRequest, an unknown user is NotFound, an existing record is Conflict. Success happens exactly when none of these applies. It appends one unblocked record from caller to user with the normalised nickname and changes nothing else. |
| ContactsService.UpdateContact | src/contacts/contacts.service.ts:60-87 | A missing record is NotFound. Otherwise only that record changes: nickname and `blocked` take the body's values when present, else keep theirs, and `createdAt` is kept. |
| ContactsService.GetContactById | src/contacts/contacts.service.ts:89-103 | Returns a stored record of the pair exactly when one exists. Otherwise NotFound with the "for this user" message. |
| ContactsService.GetContacts | src/contacts/contacts.service.ts:105-111 | Returns exactly the caller's unblocked records, each with its stored multiplicity, newest first. |
| ContactsService.RemoveContact | src/contacts/contacts.service.ts:113-122 | NotFound exactly when the pair has no record. Otherwise exactly one record goes, every other record survives and nothing new appears. |
| ContactsService.SetBlocked | src/contacts/contacts.service.ts:124-152 | NotFound exactly when the pair has no record. Otherwise only that record changes, and only its `blocked` flag (and timestamp). |
| ContactsService.BlockContact | src/contacts/contacts.service.ts:124-137 | Fails exactly on a missing pair. On success the returned record of the pair is blocked. |
| ContactsService.UnblockContact | src/contacts/contacts.service.ts:139-152 | Fails exactly on a missing pair. On success the returned record of the pair is unblocked. |
| ContactsService.IsContact | src/contacts/contacts.service.ts:154-162 | True exactly when some unblocked record leads from the user to the contact. |
| ContactsService.AddContactIsDirectional | src/contacts/contacts.service.ts:49-56 | After `addContact` the caller's direction is a live contact. The reverse direction's `isContact` is unchanged. |
| ContactsService.AddContactTwiceConflicts | src/contacts/contacts.service.ts:40-47 | Adding the same contact a second time is a Conflict. |
| ContactsService.AddContactPreservesValid | src/contacts/contacts.service.ts:21-58 | `addContact` keeps the store invariant, including the unique pair index and no self-contacts. |
| ContactsService.IsContactMeansUnblockedRecord | src/contacts/contacts.service.ts:154-162 | Under the unique index, `isContact` holds exactly when `getContactById` finds the pair's record and it is not blocked. |
| ContactsService.IsContactNotSymmetric | src/contacts/contacts.service.ts:154-162 | A store where a is b's contact but b is not a's: the relation is directed. |
| ContactsService.BlockIsUpdate | src/contacts/contacts.service.ts:124-137 | `blockContact` equals `updateContact` with body `{ blocked: true }`, on every store, error path included. |
| ContactsService.UnblockIsUpdate | src/contacts/contacts.service.ts:139-152 | `unblockContact` equals `updateContact` with body `{ blocked: false }`. |
| ContactsService.EmptyUpdateChangesNothing | src/contacts/contacts.service.ts:77-85 | An update with an empty body leaves the store as it was. |
| ContactsService.SetBlockedIdempotent | src/contacts/contacts.service.ts:124-152 | Setting the flag again, at any instant, returns the same record and writes nothing. |
| ContactsService.BlockIdempotent | src/contacts/contacts.service.ts:124-137 | Blocking twice is blocking once. |
| ContactsService.UnblockIdempotent | src/contacts/contacts.service.ts:139-152 | Unblocking twice is unblocking once. |
| ContactsService.SetBlockedDecidesIsContact | src/contacts/contacts.service.ts:124-162 | Under the unique index, after blocking the pair is not a contact and after unblocking it is. Every other pair's `isContact` is unchanged. |
| ContactsService.RemoveContactRemovesPair | src/contacts/contacts.service.ts:113-122 | Under the unique index, after removal no record of the pair remains and the index still holds. |
| ContactsService.ContactWritesPreserveValid | src/contacts/contacts.service.ts:60-152 | Update, block/unblock and remove keep the store invariant. |
| GroupsService.Create | src/groups/groups.service.ts:16-26 | An empty name fails validation. Otherwise the group is stored under its id, with the creator as sole member and sole admin whatever the request lists. |
| GroupsService.FindByIdAsWritten | src/groups/groups.service.ts:28-38 | The lookup as written: it never succeeds. An existing group fails with the populate error for the undeclared `members` path, and a missing one is NotFound "Group not found". |
| GroupsService.AsWrittenLookupRejectsExistingGroups | src/groups/groups.service.ts:28-38 | On every existing group, the corrected lookup returns the group while the one as written rejects. |
| GroupsService.FindById | src/groups/groups.service.ts:28-38 | The corrected lookup, which populates nothing. It returns the stored group exactly when the id exists, and otherwise NotFound "Group not found". |
| GroupsService.AddMember | src/groups/groups.service.ts:47-70 | Errors come in this order: missing group is NotFound, non-admin requester is BadRequest, existing member is BadRequest. Success happens exactly otherwise: it appends the user to the members only, stamps `updatedAt` and keeps members distinct. |
| GroupsService.RemoveMember | src/groups/groups.service.ts:72-88 | A missing group is NotFound. Removal is permitted exactly for an admin or for removing oneself. Every occurrence of the user leaves the members, the others stay in order, admins are untouched, and removing a non-member writes nothing. |
| GroupsService.DeleteGroup | src/groups/groups.service.ts:90-102 | A missing group is NotFound and a non-admin is BadRequest. Success happens exactly for an admin: the group is removed and every other group and collection is unchanged. |
| GroupsService.DeletedGroupIsGone | src/groups/groups.service.ts:90-102 | After deletion, `findById` on the group is NotFound. Every other group is found as before, and adding, removing or deleting on it succeeds exactly when it would have without the deletion. |
| GroupsService.RemoveMemberIdempotent | src/groups/groups.service.ts:84-87 | Removing the same user twice is removing once. |
| GroupsService.RemovedAdminKeepsAdminRights | src/groups/groups.service.ts:72-101 | An admin who removes themself is no longer a member, yet may still add members and delete the group. |
| GroupsService.AddThenRemoveRestoresMembers | src/groups/groups.service.ts:60-86 | Adding a user and then removing them restores the member list exactly. |
| GroupsService.FilterKeepsDistinct | src/groups/groups.service.ts:84-86 | Filtering one id out of a duplicate-free member list keeps it duplicate-free. |
| GroupsService.GroupWritesPreserveValid | src/groups/groups.service.ts:16-102 | Create (with an unused id), addMember, removeMember and deleteGroup keep the store invariant. |
| ChatService.Create | src/chat/chat.service.ts:23-55 | Errors come in this order: unknown receiver is NotFound, no record from sender to receiver is NotFound, blocked record is BadRequest. Once all three guards pass, blank content is exactly the validation failure `Invalid(ContentRequired)`. Success happens exactly otherwise and appends one direct message (trimmed content, unread, timestamps now) and nothing else. |
| ChatService.CreateGroupMessage | src/chat/chat.service.ts:57-79 | A missing group is NotFound and a non-member sender is NotFound. A member's blank content is exactly the validation failure `Invalid(ContentRequired)`. Otherwise exactly one group message without a receiver is appended. |
| ChatService.GetGroupMessages | src/chat/chat.service.ts:81-87 | Returns exactly the group's messages, with their stored multiplicity, oldest first. |
| ChatService.GetConversation | src/chat/chat.service.ts:89-107 | Returns exactly the direct messages between the two users in either direction, with stored multiplicity, oldest first. |
| ChatService.FindMessage | src/chat/chat.service.ts:110-113 | Finds the message with the id, or none exactly when no message has it. |
| ChatService.MarkAsRead | src/chat/chat.service.ts:109-130 | A missing message is NotFound, a group message is BadRequest and a non-receiver is BadRequest. Success happens exactly for the receiver: only that message changes, becoming read with `readAt` at the call instant. |
| ChatService.GetUnreadCount | src/chat/chat.service.ts:132-139 | Counts the messages addressed to the user that are unread. The count never exceeds the number of messages. |
| ChatService.CreateSucceedsIffContact | src/chat/chat.service.ts:24-54 | Under the unique index, a send succeeds exactly when the receiver exists, the sender's `isContact` towards them holds and the content is not blank. |
| ChatService.CreateIgnoresReverseContact | src/chat/chat.service.ts:31-34 | A store where the receiver has the sender as a live contact but not the reverse: the send fails with NotFound. |
| ChatService.ChatWritesPreserveValid | src/chat/chat.service.ts:48-129 | Both sends (with an unused id) and `markAsRead` keep the store invariant. |
| ChatService.MarkAsReadTwice | src/chat/chat.service.ts:109-130 | A second `markAsRead` succeeds and the message stays read. At the same instant it writes nothing. |
| ChatService.UnreadAfterMarkAsRead | src/chat/chat.service.ts:127-138 | Marking lowers the receiver's unread count by one if the message was unread. Every other count is unchanged. |
| ChatService.UnreadAfterCreate | src/chat/chat.service.ts:48-54 | A direct send raises the receiver's unread count by one. Every other count is unchanged. |
| ChatService.GroupMessageNeverUnread | src/chat/chat.service.ts:72-78 | A group send changes nobody's unread count. |
| ChatService.ConversationSymmetric | src/chat/chat.service.ts:89-107 | The conversation is the same whichever user is named first. |
| ChatService.SentMessageInConversation | src/chat/chat.service.ts:89-107 | A sent direct message appears in the pair's conversation from either side. |
| ChatService.GroupMessageInGroupHistory | src/chat/chat.service.ts:81-87 | A group message appears in its group's history and in no conversation. |
| ChatGateway.RoomNamesDistinct | src/chat/chat.gateway.ts:134-204 | A `user:` room never shares a name with a `group:` room, and each kind names one room per id. |
| ChatGateway.Lookup | src/chat/chat.gateway.ts:33 | The source never calls `connectedUsers.get`. `Lookup` is the `Map` lookup semantics in which the contracts of `Register` and `Unregister` are written: it finds a socket's user exactly when the socket is registered. |
| ChatGateway.Register | src/chat/chat.gateway.ts:66 | `set` maps the socket to the user and leaves every other socket's lookup unchanged. Existing entries keep their place and a new socket goes last. |
| ChatGateway.Unregister | src/chat/chat.gateway.ts:81 | `delete` removes the socket's entry and keeps every other entry in its insertion order. Deleting an absent socket changes nothing. |
| ChatGateway.ReceiverSocket | src/chat/chat.gateway.ts:108-110 | The receiver lookup returns the socket of the first entry whose user is the receiver, or none exactly when no entry has that user. |
| ChatGateway.SelectToken | src/chat/chat.gateway.ts:44-53 | A non-empty handshake token wins. Otherwise the second space-separated word of a string `Authorization` header, when non-empty. Otherwise nothing. |
| ChatGateway.BearerHeaderToken | src/chat/chat.gateway.ts:48-53 | Given no handshake token, `Authorization: <scheme> <token>` yields the token. |
| ChatGateway.HeaderWithoutSpaceHasNoToken | src/chat/chat.gateway.ts:48-55 | A header without a space yields no token. |
| ChatGateway.HandleConnection | src/chat/chat.gateway.ts:42-77 | With no token or a rejected token the socket is disconnected and nothing is registered. Otherwise the socket is stamped with the subject and registered, no other entry changes and `userOnline` is broadcast to the others. |
| ChatGateway.HandleDisconnect | src/chat/chat.gateway.ts:79-91 | For an authenticated socket the entry goes and `userOffline` is broadcast. For any other socket nothing happens. |
| ChatGateway.HandleMessage | src/chat/chat.gateway.ts:93-126 | Unauthenticated is an error with no effect, and a service error becomes its message with no effect. On success the message is stored, pushed to the receiver's first socket only if one is registered, and returned. |
| ChatGateway.HandleGroupMessage | src/chat/chat.gateway.ts:152-180 | The same gate and error mapping. On success the message is stored, emitted to `group:<id>` and returned. |
| ChatGateway.HandleJoinRoom | src/chat/chat.gateway.ts:128-138 | The registry never changes. The reply is an error exactly when the socket is unauthenticated, and then nothing else happens. Otherwise exactly one effect is appended: the socket joins `user:<id>` for whatever id it names. |
| ChatGateway.HandleLeaveRoom | src/chat/chat.gateway.ts:140-150 | The same gate. On success exactly one effect is appended: the socket leaves `user:<id>`. |
| ChatGateway.HandleJoinGroup | src/chat/chat.gateway.ts:182-196 | The same gate, with no membership check. On success exactly two effects are appended: the socket joins `group:<id>`, then `userJoinedGroup` goes to the room just joined. |
| ChatGateway.HandleLeaveGroup | src/chat/chat.gateway.ts:198-212 | The same gate. On success exactly two effects are appended: the socket leaves `group:<id>`, then `userLeftGroup` goes to the room just left. |
| ChatGateway.RegisterKeepsSocketsDistinct | src/chat/chat.gateway.ts:66 | `set` keeps socket ids unique in the registry. |
| ChatGateway.UnregisterKeepsSocketsDistinct | src/chat/chat.gateway.ts:81 | `delete` keeps socket ids unique in the registry. |
| ChatGateway.UnregisterIdempotent | src/chat/chat.gateway.ts:81 | Deleting a socket twice is deleting it once. |
| ChatGateway.DisconnectOtherKeepsPushTarget | src/chat/chat.gateway.ts:79-110 | Deleting any socket other than a receiver's push target leaves that target unchanged. |
| ChatGateway.ReceiverSocketCons | src/chat/chat.gateway.ts:108-110 | The push target is the head entry when it belongs to the receiver, and otherwise the push target of the rest. |
| ChatGateway.UnauthenticatedIntentsChangeNothing | src/chat/chat.gateway.ts:93-212 | For all six intents, an unauthenticated socket gets `{ error: 'Não autenticado' }`, and neither the gateway nor the store changes. |
| ChatGateway.IntentsKeepRegistry | src/chat/chat.gateway.ts:93-212 | No intent changes the connection registry, and every intent only appends to the effect log. |
| ChatGateway.JoinedGroupRoomReceivesGroupMessages | src/chat/chat.gateway.ts:168-188 | `joinGroup` enters the room that `sendGroupMessage` pushes that group's messages to, and that room is no user's private room. |
| ChatGateway.NewSocketDoesNotStealPushes | src/chat/chat.gateway.ts:108-110 | Connecting a further socket never changes which socket receives an online user's direct pushes. |
| ChatGateway.ConnectKeepsSocketsDistinct | src/chat/chat.gateway.ts:42-77 | A connection keeps the registry's socket ids unique. |
| ChatGateway.DisconnectKeepsSocketsDistinct | src/chat/chat.gateway.ts:79-91 | A disconnect keeps the registry's socket ids unique. |
| ChatGateway.OfflineDespiteOtherSocket | src/chat/chat.gateway.ts:79-91 | `userOffline` goes out even while the same user is still registered on another socket. |
| ChatGateway.EmptySubjectLeavesStaleEntry | src/chat/chat.gateway.ts:65-81 | A token with an empty subject registers the socket, yet the socket counts as unauthenticated and its disconnect leaves the entry behind. |
| ChatGateway.OfflineReceiverGetsNoPush | src/chat/chat.gateway.ts:108-118 | A send to a receiver with no registered socket leaves the gateway as it was, whether the send succeeds or not. |
| ChatGateway.OnlineReceiverGetsOnePush | src/chat/chat.gateway.ts:108-118 | A successful send to an online receiver emits exactly one `newMessage`, carrying the returned message, to the receiver's earliest registered socket. |

## Left out

- The transport is not modelled. Authentication (JWT signing and verification, bcrypt), socket.io delivery and room occupancy are outside the core. Token verification is a function parameter, and rooms appear only as names in the effect log.
- Clocks and id generation are outside the core. `new Date()` and `Date.now` become a caller-supplied natural `now`, and fresh ObjectIds become caller-supplied ids. Freshness is a hypothesis of the invariant lemmas only.
- The users service is not part of this model. Known users are a set in the store (`findOne` is membership). The `updateLastSeen` write after a connection or disconnect is left out. So is its failure path. There, `client.userId` and the registry entry are already set when the awaited write throws. The catch block then disconnects the socket, which runs `handleDisconnect`: the entry is deleted and `userOffline` is broadcast. The user is registered, never announced online, then removed and announced offline.
- `findUserGroups` is left out. It queries the undeclared path `members` rather than `membersId`.
- The conversation-list aggregation is left out. Only its interface is part of the source.
- The controllers and modules are left out, and so is DTO validation by class-validator. The model takes DTOs as already validated. Extra undeclared fields that `...createMessageDto` would copy into a message are not modelled.
- GroupsService.FindById: it follows the corrected lookup, which populates nothing. That is what the source does when the two `populate` calls are dropped, or when `strictPopulate` is off, since Mongoose then ignores the undeclared paths. As written, `populate('members')` and `populate('admins')` name undeclared paths. Under Mongoose's default `strictPopulate` (version 6 onwards), every lookup of an existing group then rejects, and so do `addMember`, `removeMember`, `deleteGroup` and `createGroupMessage`. The Mongoose version and its options are not part of this model. The as-written lookup is `GroupsService.FindByIdAsWritten` (see Findings). With the corrected lookup, those four operations succeed as the rest of the model states. Populating the declared `membersId` and `adminsId` would not have this effect. Both declare `ref: 'User'`, so each id would become a user document (or vanish when no user has it). The string form of a document is not its id, so the `toString() ===` comparisons in groups.service.ts and chat.service.ts would never match.
- Driver and ODM details are left out: `toObject` and the shape of the push payloads. The read-side `populate` calls are left out too. These are `senderId` and `receiverId` in the message queries (chat.service.ts:85, 104-105) and `contactId` in every contact result (contacts.service.ts:57, 86, 95, 108, 136, 151). In the source, those results carry `username` and `avatar` (and `email` for contacts) of the referenced user, or null when no such user exists. The model returns the ids. ObjectId casting is also left out: the `CastError`/`BSONError` thrown for a malformed id string, and equality between ObjectIds and strings.
- Thrown values that are not `Error` instances are not modelled, so neither is the 'Erro desconhecido' reply.
- A verified token without a `sub` claim is not modelled; the subject is a string.
- Console logging is left out, and so is concurrency (simultaneous requests, interleaved awaits).
- The `readBy` list is not modelled beyond its default. No operation writes it.
- Seqs.Query: Mongo's sort gives no order among equal `createdAt` values. The model returns ties in insertion order, which is one of the orders Mongo may produce.
- ChatService.GetUnreadCount: the integer width of the count is not modelled; it is unbounded.

## Findings

| source | as written | input that shows it | evidently intended | confidence | as-written member | corrected member |
|---|---|---|---|---|---|---|
| src/groups/groups.service.ts:28-32 | `findById` populates `members` and `admins`, but the group schema declares `membersId` and `adminsId`. Under strict populate, every lookup that finds a group rejects. | Any id of an existing group, such as one just returned by `create`. `addMember`, `removeMember` and `deleteGroup` (:52, :73, :91) all go through this lookup and fail. | A lookup that populates nothing: the two `populate` calls removed, or `strictPopulate: false`, so that the group is returned with its ids. Populating `membersId`/`adminsId` instead would turn the ids into user documents and break every `toString() ===` id check. | medium; not executed. It depends on the Mongoose version and on `strictPopulate`, neither of which the source fixes. | GroupsService.FindByIdAsWritten, GroupsService.AsWrittenLookupRejectsExistingGroups | GroupsService.FindById |
