/** The `Message` document: its fields, defaults, validation and the
    timestamps the store maintains. */
module MessageSchema {
  import opened Ids
  import opened Results
  import Text

  /** A stored message. `receiverId` and `groupId` are both optional in the
      schema; `readAt` is absent until the message is marked read; `readBy`
      is never written by the services. */
  datatype Message = Message(
    id: MessageId,
    senderId: UserId,
    receiverId: Option<UserId>,
    groupId: Option<GroupId>,
    content: string,
    isRead: bool,
    readAt: Option<Time>,
    readBy: seq<UserId>,
    createdAt: Time,
    updatedAt: Time)

  /** The validation message of a message whose content is empty once trimmed. */
  const ContentRequired: string := "Message validation failed: content: Path `content` is required."

  /** What the schema enforces on every saved message: the content is
      required and is kept trimmed. */
  predicate SchemaValid(m: Message) {
    m.content != [] && Text.Trimmed(m.content)
  }

  /** A message exactly as insertion leaves it: defaults in place and both
      timestamps set to the insertion instant. */
  predicate Pristine(m: Message, now: Time) {
    && !m.isRead
    && m.readAt == None
    && m.readBy == []
    && m.createdAt == now
    && m.updatedAt == now
  }

  /** The invariant the chat service keeps on every message it stores. */
  predicate WellFormed(m: Message) {
    && SchemaValid(m)
    && m.receiverId.Some? != m.groupId.Some?
    && (m.readAt.Some? ==> m.isRead)
    && m.readBy == []
  }

  /** `new Message({ ... }).save()` with the given paths: the content is
      trimmed, validation rejects an empty content, and the remaining paths
      take their defaults. */
  function Insert(id: MessageId, senderId: UserId, receiverId: Option<UserId>,
                  groupId: Option<GroupId>, content: string, now: Time): (r: Result<Message>)
    ensures r.Err? <==> Text.AllSpace(content)
    ensures r.Err? ==> r.error == Invalid(ContentRequired)
    ensures r.Ok? ==> SchemaValid(r.value) && Pristine(r.value, now)
    ensures r.Ok? ==> r.value.content == Text.Trim(content)
    ensures r.Ok? ==> r.value.id == id && r.value.senderId == senderId
                      && r.value.receiverId == receiverId && r.value.groupId == groupId
  {
    var trimmed := Text.Trim(content);
    if trimmed == [] then Err(Invalid(ContentRequired))
    else Ok(Message(id, senderId, receiverId, groupId, trimmed, false, None, [], now, now))
  }

  /** `doc.save()` of a loaded document whose paths were assigned to give
      `edited`: when no path changed, nothing is written; otherwise
      `updatedAt` moves to the save instant. */
  function Save(stored: Message, edited: Message, now: Time): (r: Message)
    requires edited.updatedAt == stored.updatedAt
    ensures edited == stored ==> r == stored
    ensures edited != stored ==> r.updatedAt == now
    ensures r.(updatedAt := stored.updatedAt) == edited
  {
    if edited == stored then stored else edited.(updatedAt := now)
  }
}
