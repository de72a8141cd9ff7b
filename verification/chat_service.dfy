/** Message ingest and read state of the chat service. */
module ChatService {
  import opened Ids
  import opened Results
  import opened MessageSchema
  import opened Database
  import Seqs
  import Text
  import ContactsService
  import GroupsService

  const ReceiverNotFound: string := "Destinatário não encontrado"
  const BlockedContact: string := "Você não pode enviar mensagens para este usuário (contato bloqueado)"
  const NotGroupMember: string := "Você não é membro deste grupo e não pode enviar mensagens"
  const MessageNotFound: string := "Mensagem não encontrada"
  const GroupMessageNotMarkable: string := "Mensagens de grupo não podem ser marcadas como lidas"
  const NotTheReceiver: string := "Você não tem permissão para marcar esta mensagem"

  datatype CreateMessageDto = CreateMessageDto(receiverId: UserId, content: string)

  /** `create`: a direct message. The receiver must be a known user (checked
      first); the sender must hold a record towards the receiver (the
      reverse record is never consulted) and that record must not be
      blocked; the content must survive trimming. On success exactly one
      message is appended and nothing else changes. */
  function Create(st: Store, dto: CreateMessageDto, senderId: UserId, id: MessageId, now: Time)
    : (r: Result<(Store, Message)>)
    ensures dto.receiverId !in st.users ==> r == Err(NotFound(ReceiverNotFound))
    ensures dto.receiverId in st.users && !ContactsService.HasPair(st.contacts, senderId, dto.receiverId)
            ==> r == Err(NotFound(ContactsService.ContactNotFoundForUser))
    ensures dto.receiverId in st.users && ContactsService.HasPair(st.contacts, senderId, dto.receiverId)
            && ContactsService.GetContactById(st, senderId, dto.receiverId).value.blocked
            ==> r == Err(BadRequest(BlockedContact))
    ensures r.Ok? <==> && dto.receiverId in st.users
                       && ContactsService.HasPair(st.contacts, senderId, dto.receiverId)
                       && !ContactsService.GetContactById(st, senderId, dto.receiverId).value.blocked
                       && !Text.AllSpace(dto.content)
    ensures r.Err? ==> r.error.NotFound? || r.error.BadRequest? || r.error == Invalid(ContentRequired)
    ensures && dto.receiverId in st.users
            && ContactsService.HasPair(st.contacts, senderId, dto.receiverId)
            && !ContactsService.GetContactById(st, senderId, dto.receiverId).value.blocked
            && Text.AllSpace(dto.content)
            ==> r == Err(Invalid(ContentRequired))
    ensures r.Ok? ==> var (st', m) := r.value;
                      && st' == st.(messages := st.messages + [m])
                      && m.id == id && m.senderId == senderId
                      && m.receiverId == Some(dto.receiverId) && m.groupId == None
                      && m.content == Text.Trim(dto.content)
                      && Pristine(m, now) && WellFormed(m)
  {
    if dto.receiverId !in st.users then Err(NotFound(ReceiverNotFound))
    else
      var contact :- ContactsService.GetContactById(st, senderId, dto.receiverId);
      if contact.blocked then Err(BadRequest(BlockedContact))
      else
        var m :- Insert(id, senderId, Some(dto.receiverId), None, dto.content, now);
        Ok((st.(messages := st.messages + [m]), m))
  }

  /** `createGroupMessage`: the group must exist and the sender must be
      among its members (a non-member is reported as `NotFound`); the content
      must survive trimming. On success exactly one message addressed to the
      group, with no receiver, is appended. */
  function CreateGroupMessage(st: Store, groupId: GroupId, content: string, senderId: UserId,
                              id: MessageId, now: Time): (r: Result<(Store, Message)>)
    ensures groupId !in st.groups ==> r == Err(NotFound(GroupsService.GroupNotFound))
    ensures groupId in st.groups && senderId !in st.groups[groupId].membersId
            ==> r == Err(NotFound(NotGroupMember))
    ensures r.Ok? <==> groupId in st.groups && senderId in st.groups[groupId].membersId
                       && !Text.AllSpace(content)
    ensures r.Err? ==> r.error.NotFound? || r.error == Invalid(ContentRequired)
    ensures groupId in st.groups && senderId in st.groups[groupId].membersId && Text.AllSpace(content)
            ==> r == Err(Invalid(ContentRequired))
    ensures r.Ok? ==> var (st', m) := r.value;
                      && st' == st.(messages := st.messages + [m])
                      && m.id == id && m.senderId == senderId
                      && m.groupId == Some(groupId) && m.receiverId == None
                      && m.content == Text.Trim(content)
                      && Pristine(m, now) && WellFormed(m)
  {
    var group :- GroupsService.FindById(st, groupId);
    if senderId !in group.membersId then Err(NotFound(NotGroupMember))
    else
      var m :- Insert(id, senderId, None, Some(groupId), content, now);
      Ok((st.(messages := st.messages + [m]), m))
  }

  function CreatedAt(m: Message): int {
    m.createdAt
  }

  function InGroup(groupId: GroupId): Message -> bool {
    (m: Message) => m.groupId == Some(groupId)
  }

  /** `getGroupMessages`: every message of the group, each as often as it is
      stored, oldest first. The group itself need not exist. */
  function GetGroupMessages(st: Store, groupId: GroupId): (r: seq<Message>)
    ensures forall m :: m in r <==> m in st.messages && m.groupId == Some(groupId)
    ensures forall m :: multiset(r)[m] == if m.groupId == Some(groupId) then multiset(st.messages)[m] else 0
    ensures forall i, j :: 0 <= i < j < |r| ==> r[i].createdAt <= r[j].createdAt
  {
    var r := Seqs.Query(st.messages, InGroup(groupId), CreatedAt);
    assert forall i, j :: 0 <= i < j < |r| ==> CreatedAt(r[i]) <= CreatedAt(r[j]);
    r
  }

  /** The message goes from `a` to `b` or from `b` to `a`. */
  predicate Between(m: Message, a: UserId, b: UserId) {
    (m.senderId == a && m.receiverId == Some(b)) || (m.senderId == b && m.receiverId == Some(a))
  }

  function BetweenFilter(a: UserId, b: UserId): Message -> bool {
    (m: Message) => Between(m, a, b)
  }

  /** `getConversation`: every direct message between the two users, in
      either direction, oldest first. */
  function GetConversation(st: Store, userId1: UserId, userId2: UserId): (r: seq<Message>)
    ensures forall m :: m in r <==> m in st.messages && Between(m, userId1, userId2)
    ensures forall m :: multiset(r)[m] == if Between(m, userId1, userId2) then multiset(st.messages)[m] else 0
    ensures forall i, j :: 0 <= i < j < |r| ==> r[i].createdAt <= r[j].createdAt
  {
    var r := Seqs.Query(st.messages, BetweenFilter(userId1, userId2), CreatedAt);
    assert forall i, j :: 0 <= i < j < |r| ==> CreatedAt(r[i]) <= CreatedAt(r[j]);
    r
  }

  function HasId(id: MessageId): Message -> bool {
    (m: Message) => m.id == id
  }

  /** `findById` on messages: the position of the message with that id. */
  function FindMessage(ms: seq<Message>, id: MessageId): (r: Option<nat>)
    ensures r.Some? ==> r.value < |ms| && ms[r.value].id == id
    ensures r.Some? ==> forall j :: 0 <= j < r.value ==> ms[j].id != id
    ensures r.None? <==> forall j :: 0 <= j < |ms| ==> ms[j].id != id
  {
    Seqs.FirstIndex(ms, HasId(id))
  }

  /** `markAsRead`: a missing message is `NotFound`; a message without a
      receiver, and a caller who is not the receiver, are `BadRequest`, in
      that order. On success only that message changes: it is read, and
      its read instant is the instant of this call. */
  function MarkAsRead(st: Store, messageId: MessageId, userId: UserId, now: Time): (r: Result<(Store, Message)>)
    ensures FindMessage(st.messages, messageId).None? ==> r == Err(NotFound(MessageNotFound))
    ensures FindMessage(st.messages, messageId).Some? ==>
              var m := st.messages[FindMessage(st.messages, messageId).value];
              && (m.receiverId == None ==> r == Err(BadRequest(GroupMessageNotMarkable)))
              && (m.receiverId.Some? && m.receiverId.value != userId ==> r == Err(BadRequest(NotTheReceiver)))
              && (r.Ok? <==> m.receiverId == Some(userId))
    ensures r.Ok? ==> var i := FindMessage(st.messages, messageId).value;
                      var (st', m) := r.value;
                      && st' == st.(messages := st.messages[i := m])
                      && m.isRead && m.readAt == Some(now)
                      && m.(isRead := st.messages[i].isRead, readAt := st.messages[i].readAt,
                            updatedAt := st.messages[i].updatedAt) == st.messages[i]
  {
    match FindMessage(st.messages, messageId)
    case None => Err(NotFound(MessageNotFound))
    case Some(i) =>
      var m := st.messages[i];
      if m.receiverId.None? then Err(BadRequest(GroupMessageNotMarkable))
      else if m.receiverId.value != userId then Err(BadRequest(NotTheReceiver))
      else
        var saved := Save(m, m.(isRead := true, readAt := Some(now)), now);
        Ok((st.(messages := st.messages[i := saved]), saved))
  }

  /** The message counts as unread for `userId`. */
  predicate UnreadFor(m: Message, userId: UserId) {
    m.receiverId == Some(userId) && !m.isRead
  }

  function UnreadFilter(userId: UserId): Message -> bool {
    (m: Message) => UnreadFor(m, userId)
  }

  /** The number of stored messages unread by `userId`. */
  function Unread(st: Store, userId: UserId): nat {
    |Seqs.Filter(st.messages, UnreadFilter(userId))|
  }

  /** `getUnreadCount`: `countDocuments({ receiverId, isRead: false })`. */
  method GetUnreadCount(st: Store, userId: UserId) returns (n: nat)
    ensures n == Unread(st, userId)
    ensures n <= |st.messages|
  {
    n := Seqs.CountMatching(st.messages, UnreadFilter(userId));
  }

  // ---------------------------------------------------------------------
  // Properties of ingest and read state
  // ---------------------------------------------------------------------

  /** Under the unique contact index, a direct send succeeds exactly when
      the receiver is known, the sender's own record towards the receiver
      is live (`isContact`), and the content is not blank. */
  lemma CreateSucceedsIffContact(st: Store, dto: CreateMessageDto, senderId: UserId, id: MessageId, now: Time)
    requires ContactSchema.UniquePairs(st.contacts)
    ensures Create(st, dto, senderId, id, now).Ok?
            <==> dto.receiverId in st.users && ContactsService.IsContact(st, senderId, dto.receiverId)
                 && !Text.AllSpace(dto.content)
  {
    ContactsService.IsContactMeansUnblockedRecord(st, senderId, dto.receiverId);
  }

  /** Only the sender's record counts: a live record from the receiver to
      the sender does not let the sender write. */
  lemma CreateIgnoresReverseContact()
    ensures var st := Store({"a", "b"}, [ContactSchema.Contact("b", "a", false, None, 0, 0)], map[], []);
            && ContactsService.IsContact(st, "b", "a")
            && Create(st, CreateMessageDto("b", "hi"), "a", "m", 1)
               == Err(NotFound(ContactsService.ContactNotFoundForUser))
  {
    var st := Store({"a", "b"}, [ContactSchema.Contact("b", "a", false, None, 0, 0)], map[], []);
    assert "a" != "b" by { assert "a"[0] != "b"[0]; }
    assert ContactSchema.Links(st.contacts[0], "b", "a");
    assert !ContactsService.HasPair(st.contacts, "a", "b");
  }

  /** Every write of the chat service keeps the store invariant, given a
      message id that is not yet in use. */
  lemma ChatWritesPreserveValid(st: Store, dto: CreateMessageDto, groupId: GroupId, content: string,
                                senderId: UserId, messageId: MessageId, now: Time)
    requires Valid(st)
    ensures FreshMessageId(st, messageId) && Create(st, dto, senderId, messageId, now).Ok?
            ==> Valid(Create(st, dto, senderId, messageId, now).value.0)
    ensures FreshMessageId(st, messageId) && CreateGroupMessage(st, groupId, content, senderId, messageId, now).Ok?
            ==> Valid(CreateGroupMessage(st, groupId, content, senderId, messageId, now).value.0)
    ensures MarkAsRead(st, messageId, senderId, now).Ok?
            ==> Valid(MarkAsRead(st, messageId, senderId, now).value.0)
  {
    if FreshMessageId(st, messageId) && Create(st, dto, senderId, messageId, now).Ok? {
      CreatePreservesValid(st, dto, senderId, messageId, now);
    }
    if FreshMessageId(st, messageId) && CreateGroupMessage(st, groupId, content, senderId, messageId, now).Ok? {
      CreateGroupMessagePreservesValid(st, groupId, content, senderId, messageId, now);
    }
    if MarkAsRead(st, messageId, senderId, now).Ok? {
      MarkAsReadPreservesValid(st, messageId, senderId, now);
    }
  }

  lemma CreatePreservesValid(st: Store, dto: CreateMessageDto, senderId: UserId, messageId: MessageId, now: Time)
    requires Valid(st) && FreshMessageId(st, messageId) && Create(st, dto, senderId, messageId, now).Ok?
    ensures Valid(Create(st, dto, senderId, messageId, now).value.0)
  {
  }

  lemma CreateGroupMessagePreservesValid(st: Store, groupId: GroupId, content: string, senderId: UserId,
                                         messageId: MessageId, now: Time)
    requires Valid(st) && FreshMessageId(st, messageId)
    requires CreateGroupMessage(st, groupId, content, senderId, messageId, now).Ok?
    ensures Valid(CreateGroupMessage(st, groupId, content, senderId, messageId, now).value.0)
  {
  }

  lemma MarkAsReadPreservesValid(st: Store, messageId: MessageId, userId: UserId, now: Time)
    requires Valid(st) && MarkAsRead(st, messageId, userId, now).Ok?
    ensures Valid(MarkAsRead(st, messageId, userId, now).value.0)
  {
    var st' := MarkAsRead(st, messageId, userId, now).value.0;
    var i := FindMessage(st.messages, messageId).value;
    assert st'.messages[i].id == st.messages[i].id;
    assert forall j :: 0 <= j < |st.messages| ==> st'.messages[j].id == st.messages[j].id;
  }

  /** Marking twice: the second call succeeds, the message stays read, and
      at the same instant it writes nothing. */
  lemma MarkAsReadTwice(st: Store, messageId: MessageId, userId: UserId, now: Time, later: Time)
    requires MarkAsRead(st, messageId, userId, now).Ok?
    ensures var st' := MarkAsRead(st, messageId, userId, now).value.0;
            var r := MarkAsRead(st', messageId, userId, later);
            && r.Ok? && r.value.1.isRead
            && (later == now ==> r.value.0 == st')
  {
    var (st', m) := MarkAsRead(st, messageId, userId, now).value;
    var i := FindMessage(st.messages, messageId).value;
    assert forall j :: 0 <= j < i ==> st'.messages[j] == st.messages[j];
    var found := FindMessage(st'.messages, messageId);
    assert st'.messages[i] == m && m.id == messageId;
    assert found.Some? && found.value <= i;
    assert found == Some(i);
    if later == now {
      assert m.(isRead := true, readAt := Some(now)) == m;
      assert st'.messages[i := m] == st'.messages;
    }
  }

  /** Marking a message read lowers its receiver's unread count by one if it
      was unread, and leaves every other user's count as it was. */
  lemma UnreadAfterMarkAsRead(st: Store, messageId: MessageId, userId: UserId, now: Time, u: UserId)
    requires MarkAsRead(st, messageId, userId, now).Ok?
    ensures var st' := MarkAsRead(st, messageId, userId, now).value.0;
            var m := st.messages[FindMessage(st.messages, messageId).value];
            Unread(st', u) == Unread(st, u) - (if u == userId && !m.isRead then 1 else 0)
  {
    var (st', saved) := MarkAsRead(st, messageId, userId, now).value;
    var i := FindMessage(st.messages, messageId).value;
    Seqs.FilterUpdateCount(st.messages, i, saved, UnreadFilter(u));
  }

  /** A direct send raises its receiver's unread count by one and leaves
      every other user's count as it was. */
  lemma UnreadAfterCreate(st: Store, dto: CreateMessageDto, senderId: UserId, id: MessageId, now: Time, u: UserId)
    requires Create(st, dto, senderId, id, now).Ok?
    ensures Unread(Create(st, dto, senderId, id, now).value.0, u)
            == Unread(st, u) + (if u == dto.receiverId then 1 else 0)
  {
    var (st', m) := Create(st, dto, senderId, id, now).value;
    Seqs.FilterAppend(st.messages, [m], UnreadFilter(u));
  }

  /** Group messages never count as unread: a group send leaves every
      user's unread count as it was. */
  lemma GroupMessageNeverUnread(st: Store, groupId: GroupId, content: string, senderId: UserId,
                                id: MessageId, now: Time, u: UserId)
    requires CreateGroupMessage(st, groupId, content, senderId, id, now).Ok?
    ensures Unread(CreateGroupMessage(st, groupId, content, senderId, id, now).value.0, u) == Unread(st, u)
  {
    var (st', m) := CreateGroupMessage(st, groupId, content, senderId, id, now).value;
    Seqs.FilterAppend(st.messages, [m], UnreadFilter(u));
  }

  /** The conversation is the same whichever user is named first. */
  lemma ConversationSymmetric(st: Store, a: UserId, b: UserId)
    ensures GetConversation(st, a, b) == GetConversation(st, b, a)
  {
    Seqs.FilterAgree(st.messages, BetweenFilter(a, b), BetweenFilter(b, a));
  }

  /** A delivered direct message is part of the pair's conversation, seen
      from either side. */
  lemma SentMessageInConversation(st: Store, dto: CreateMessageDto, senderId: UserId, id: MessageId, now: Time)
    requires Create(st, dto, senderId, id, now).Ok?
    ensures var (st', m) := Create(st, dto, senderId, id, now).value;
            m in GetConversation(st', senderId, dto.receiverId) && m in GetConversation(st', dto.receiverId, senderId)
  {
    var (st', m) := Create(st, dto, senderId, id, now).value;
    assert st'.messages[|st.messages|] == m;
  }

  /** A group message is part of its group's history and of no conversation. */
  lemma GroupMessageInGroupHistory(st: Store, groupId: GroupId, content: string, senderId: UserId,
                                   id: MessageId, now: Time, a: UserId, b: UserId)
    requires CreateGroupMessage(st, groupId, content, senderId, id, now).Ok?
    ensures var (st', m) := CreateGroupMessage(st, groupId, content, senderId, id, now).value;
            m in GetGroupMessages(st', groupId) && m !in GetConversation(st', a, b)
  {
    var (st', m) := CreateGroupMessage(st, groupId, content, senderId, id, now).value;
    assert st'.messages[|st.messages|] == m;
  }
}
