/** The contact relation: directed (owner, contact) records with a
    `blocked` flag, and the operations of the contacts service. */
module ContactsService {
  import opened Ids
  import opened Results
  import opened ContactSchema
  import opened Database
  import Seqs

  const CannotAddSelf: string := "Você não pode adicionar a si mesmo como contato"
  const UserNotFound: string := "Usuário não encontrado"
  const AlreadyContact: string := "Esse usuário já está em seus contatos"
  const ContactNotFound: string := "Contato não encontrado"
  const ContactNotFoundForUser: string := "Contato não encontrado para este usuário"

  datatype AddContactDto = AddContactDto(contactId: UserId, nickname: Option<string>)

  datatype UpdateContactDto = UpdateContactDto(nickname: Patch<Option<string>>, blocked: Patch<bool>)

  /** Some record links `owner` to `other`. */
  predicate HasPair(cs: seq<Contact>, owner: UserId, other: UserId) {
    exists i :: 0 <= i < |cs| && Links(cs[i], owner, other)
  }

  function PairFilter(owner: UserId, other: UserId): Contact -> bool {
    (c: Contact) => Links(c, owner, other)
  }

  /** `findOne({ userId: owner, contactId: other })`: the position of the
      first record of the pair. */
  function Find(cs: seq<Contact>, owner: UserId, other: UserId): (r: Option<nat>)
    ensures r.Some? ==> r.value < |cs| && Links(cs[r.value], owner, other)
    ensures r.Some? ==> forall j :: 0 <= j < r.value ==> !Links(cs[j], owner, other)
    ensures r.None? <==> !HasPair(cs, owner, other)
  {
    Seqs.FirstIndex(cs, PairFilter(owner, other))
  }

  /** Under the unique index the record found is the only one of its pair. */
  lemma FindIsOnly(cs: seq<Contact>, owner: UserId, other: UserId, j: nat)
    requires UniquePairs(cs)
    requires j < |cs| && Links(cs[j], owner, other)
    ensures Find(cs, owner, other) == Some(j)
  {
  }

  /** `addContact.nickname || null`: a missing or empty nickname is stored as null. */
  function NicknameOrNull(nickname: Option<string>): (r: Option<string>)
    ensures r.Some? <==> nickname.Some? && nickname.value != []
    ensures r.Some? ==> r == nickname
  {
    if nickname.Some? && nickname.value != [] then nickname else None
  }

  /** `addContact`: self-addition, then an unknown user, then an existing
      record are rejected in that order; otherwise one unblocked record from
      the caller to the user is appended. */
  function AddContact(st: Store, userId: UserId, dto: AddContactDto, now: Time): (r: Result<(Store, Contact)>)
    ensures userId == dto.contactId ==> r == Err(BadRequest(CannotAddSelf))
    ensures userId != dto.contactId && dto.contactId !in st.users ==> r == Err(NotFound(UserNotFound))
    ensures userId != dto.contactId && dto.contactId in st.users && HasPair(st.contacts, userId, dto.contactId)
            ==> r == Err(Conflict(AlreadyContact))
    ensures r.Ok? <==> userId != dto.contactId && dto.contactId in st.users
                       && !HasPair(st.contacts, userId, dto.contactId)
    ensures r.Ok? ==> var (st', c) := r.value;
                      && st'.contacts == st.contacts + [c]
                      && st' == st.(contacts := st'.contacts)
                      && Links(c, userId, dto.contactId)
                      && !c.blocked
                      && c.nickname == NicknameOrNull(dto.nickname)
                      && c.createdAt == now
  {
    if userId == dto.contactId then Err(BadRequest(CannotAddSelf))
    else if dto.contactId !in st.users then Err(NotFound(UserNotFound))
    else if Find(st.contacts, userId, dto.contactId).Some? then Err(Conflict(AlreadyContact))
    else
      var c := New(userId, dto.contactId, Set(false), Set(NicknameOrNull(dto.nickname)), now);
      Ok((st.(contacts := st.contacts + [c]), c))
  }

  /** `updateContact`: a missing record is `NotFound`; otherwise exactly the
      fields present in the body are assigned and only that record changes. */
  function UpdateContact(st: Store, userId: UserId, contactId: UserId, dto: UpdateContactDto, now: Time)
    : (r: Result<(Store, Contact)>)
    ensures r.Err? <==> !HasPair(st.contacts, userId, contactId)
    ensures r.Err? ==> r.error == NotFound(ContactNotFound)
    ensures r.Ok? ==> var i := Find(st.contacts, userId, contactId).value;
                      var (st', c) := r.value;
                      var stored := st.contacts[i];
                      && st' == st.(contacts := st.contacts[i := c])
                      && Links(c, userId, contactId)
                      && c.nickname == (if dto.nickname.Set? then dto.nickname.value else stored.nickname)
                      && c.blocked == (if dto.blocked.Set? then dto.blocked.value else stored.blocked)
                      && c.createdAt == stored.createdAt
  {
    match Find(st.contacts, userId, contactId)
    case None => Err(NotFound(ContactNotFound))
    case Some(i) =>
      var stored := st.contacts[i];
      var edited := stored.(nickname := dto.nickname.Apply(stored.nickname),
                            blocked := dto.blocked.Apply(stored.blocked));
      var saved := Save(stored, edited, now);
      Ok((st.(contacts := st.contacts[i := saved]), saved))
  }

  /** `getContactById`: the record from `userId` to `contactId`, or `NotFound`. */
  function GetContactById(st: Store, userId: UserId, contactId: UserId): (r: Result<Contact>)
    ensures r.Ok? <==> HasPair(st.contacts, userId, contactId)
    ensures r.Ok? ==> r.value in st.contacts && Links(r.value, userId, contactId)
    ensures r.Err? ==> r.error == NotFound(ContactNotFoundForUser)
  {
    match Find(st.contacts, userId, contactId)
    case None => Err(NotFound(ContactNotFoundForUser))
    case Some(i) => Ok(st.contacts[i])
  }

  /** The record is one of `userId`'s unblocked contacts. */
  predicate Listed(c: Contact, userId: UserId) {
    c.userId == userId && !c.blocked
  }

  function OwnedUnblocked(userId: UserId): Contact -> bool {
    (c: Contact) => Listed(c, userId)
  }

  function NewestFirst(c: Contact): int {
    -(c.createdAt as int)
  }

  /** `getContacts`: the caller's unblocked records, newest first. */
  function GetContacts(st: Store, userId: UserId): (r: seq<Contact>)
    ensures forall c :: c in r <==> c in st.contacts && Listed(c, userId)
    ensures forall c :: multiset(r)[c] == if Listed(c, userId) then multiset(st.contacts)[c] else 0
    ensures forall i, j :: 0 <= i < j < |r| ==> r[i].createdAt >= r[j].createdAt
  {
    var r := Seqs.Query(st.contacts, OwnedUnblocked(userId), NewestFirst);
    assert forall i, j :: 0 <= i < j < |r| ==> NewestFirst(r[i]) <= NewestFirst(r[j]);
    r
  }

  /** `removeContact`: `deleteOne` of the pair's record, `NotFound` when
      nothing was deleted. Every other record survives in order. */
  function RemoveContact(st: Store, userId: UserId, contactId: UserId): (r: Result<Store>)
    ensures r.Err? <==> !HasPair(st.contacts, userId, contactId)
    ensures r.Err? ==> r.error == NotFound(ContactNotFound)
    ensures r.Ok? ==> && r.value == st.(contacts := r.value.contacts)
                      && |r.value.contacts| == |st.contacts| - 1
                      && (forall c :: c in st.contacts && !Links(c, userId, contactId) ==> c in r.value.contacts)
                      && (forall c :: c in r.value.contacts ==> c in st.contacts)
  {
    match Find(st.contacts, userId, contactId)
    case None => Err(NotFound(ContactNotFound))
    case Some(i) =>
      var cs := Seqs.RemoveAt(st.contacts, i);
      assert forall c :: c in st.contacts && !Links(c, userId, contactId) ==> c in cs by {
        forall c | c in st.contacts && !Links(c, userId, contactId)
          ensures c in cs
        {
          var k :| 0 <= k < |st.contacts| && st.contacts[k] == c;
          if k < i { assert cs[k] == c; } else { assert cs[k - 1] == c; }
        }
      }
      Ok(st.(contacts := cs))
  }

  /** The shared body of `blockContact` and `unblockContact`. */
  function SetBlocked(st: Store, userId: UserId, contactId: UserId, blocked: bool, now: Time)
    : (r: Result<(Store, Contact)>)
    ensures r.Err? <==> !HasPair(st.contacts, userId, contactId)
    ensures r.Err? ==> r.error == NotFound(ContactNotFound)
    ensures r.Ok? ==> var i := Find(st.contacts, userId, contactId).value;
                      var (st', c) := r.value;
                      && st' == st.(contacts := st.contacts[i := c])
                      && c.blocked == blocked
                      && c.(blocked := st.contacts[i].blocked, updatedAt := st.contacts[i].updatedAt) == st.contacts[i]
  {
    match Find(st.contacts, userId, contactId)
    case None => Err(NotFound(ContactNotFound))
    case Some(i) =>
      var stored := st.contacts[i];
      var saved := Save(stored, stored.(blocked := blocked), now);
      Ok((st.(contacts := st.contacts[i := saved]), saved))
  }

  /** `blockContact`. */
  function BlockContact(st: Store, userId: UserId, contactId: UserId, now: Time): (r: Result<(Store, Contact)>)
    ensures r.Err? <==> !HasPair(st.contacts, userId, contactId)
    ensures r.Ok? ==> r.value.1.blocked && Links(r.value.1, userId, contactId)
  {
    SetBlocked(st, userId, contactId, true, now)
  }

  /** `unblockContact`. */
  function UnblockContact(st: Store, userId: UserId, contactId: UserId, now: Time): (r: Result<(Store, Contact)>)
    ensures r.Err? <==> !HasPair(st.contacts, userId, contactId)
    ensures r.Ok? ==> !r.value.1.blocked && Links(r.value.1, userId, contactId)
  {
    SetBlocked(st, userId, contactId, false, now)
  }

  function UnblockedPair(userId: UserId, contactId: UserId): Contact -> bool {
    (c: Contact) => Links(c, userId, contactId) && !c.blocked
  }

  /** `isContact`: some unblocked record leads from `userId` to `contactId`. */
  function IsContact(st: Store, userId: UserId, contactId: UserId): (r: bool)
    ensures r <==> exists i :: 0 <= i < |st.contacts| && Links(st.contacts[i], userId, contactId)
                               && !st.contacts[i].blocked
  {
    Seqs.FirstIndex(st.contacts, UnblockedPair(userId, contactId)).Some?
  }

  // ---------------------------------------------------------------------
  // Properties of the contact relation
  // ---------------------------------------------------------------------

  /** A successful `addContact` makes the caller's side of the pair a live
      contact and leaves the reverse direction exactly as it was. */
  lemma AddContactIsDirectional(st: Store, userId: UserId, dto: AddContactDto, now: Time)
    requires AddContact(st, userId, dto, now).Ok?
    ensures var st' := AddContact(st, userId, dto, now).value.0;
            && IsContact(st', userId, dto.contactId)
            && (IsContact(st', dto.contactId, userId) <==> IsContact(st, dto.contactId, userId))
  {
    var st' := AddContact(st, userId, dto, now).value.0;
    var n := |st.contacts|;
    assert Links(st'.contacts[n], userId, dto.contactId) && !st'.contacts[n].blocked;
    if IsContact(st', dto.contactId, userId) {
      var i :| 0 <= i < |st'.contacts| && Links(st'.contacts[i], dto.contactId, userId) && !st'.contacts[i].blocked;
      assert i < n;
      assert st.contacts[i] == st'.contacts[i];
    }
    if IsContact(st, dto.contactId, userId) {
      var i :| 0 <= i < |st.contacts| && Links(st.contacts[i], dto.contactId, userId) && !st.contacts[i].blocked;
      assert st'.contacts[i] == st.contacts[i];
    }
  }

  /** Adding the same pair again is a conflict. */
  lemma AddContactTwiceConflicts(st: Store, userId: UserId, dto: AddContactDto, now: Time, later: Time)
    requires AddContact(st, userId, dto, now).Ok?
    ensures AddContact(AddContact(st, userId, dto, now).value.0, userId, dto, later)
            == Err(Conflict(AlreadyContact))
  {
    var st' := AddContact(st, userId, dto, now).value.0;
    assert Links(st'.contacts[|st.contacts|], userId, dto.contactId);
  }

  /** `addContact` never stores an empty nickname, and stores a non-empty
      one as given, while `updateContact` stores whatever it is sent: an
      empty nickname can reach a record only through an update. */
  lemma EmptyNicknameOnlyThroughUpdate(st: Store, userId: UserId, dto: AddContactDto, now: Time, later: Time)
    requires AddContact(st, userId, dto, now).Ok?
    ensures var (st', c) := AddContact(st, userId, dto, now).value;
            var updated := UpdateContact(st', userId, dto.contactId, UpdateContactDto(Set(Some([])), Keep), later);
            && c.nickname != Some([])
            && (dto.nickname.Some? && dto.nickname.value != [] ==> c.nickname == dto.nickname)
            && updated.Ok? && updated.value.1.nickname == Some([])
  {
    var st' := AddContact(st, userId, dto, now).value.0;
    assert Links(st'.contacts[|st.contacts|], userId, dto.contactId);
  }

  /** `addContact` keeps the store invariant: the unique index and the
      absence of self-contacts. */
  lemma AddContactPreservesValid(st: Store, userId: UserId, dto: AddContactDto, now: Time)
    requires Valid(st)
    requires AddContact(st, userId, dto, now).Ok?
    ensures Valid(AddContact(st, userId, dto, now).value.0)
  {
    var st' := AddContact(st, userId, dto, now).value.0;
    var n := |st.contacts|;
    forall i, j | 0 <= i < j < |st'.contacts|
      ensures st'.contacts[i].userId != st'.contacts[j].userId || st'.contacts[i].contactId != st'.contacts[j].contactId
    {
      if j == n {
        assert !Links(st.contacts[i], userId, dto.contactId);
      }
    }
  }

  /** Under the unique index, `isContact` holds exactly when `getContactById`
      finds the record and it is not blocked. */
  lemma IsContactMeansUnblockedRecord(st: Store, userId: UserId, contactId: UserId)
    requires UniquePairs(st.contacts)
    ensures IsContact(st, userId, contactId)
            <==> GetContactById(st, userId, contactId).Ok? && !GetContactById(st, userId, contactId).value.blocked
  {
    if IsContact(st, userId, contactId) {
      var i :| 0 <= i < |st.contacts| && Links(st.contacts[i], userId, contactId) && !st.contacts[i].blocked;
      FindIsOnly(st.contacts, userId, contactId, i);
    }
  }

  /** The relation is directed: a record from a to b says nothing about b to a. */
  lemma IsContactNotSymmetric()
    ensures var st := Store({"a", "b"}, [Contact("a", "b", false, None, 0, 0)], map[], []);
            IsContact(st, "a", "b") && !IsContact(st, "b", "a")
  {
    var st := Store({"a", "b"}, [Contact("a", "b", false, None, 0, 0)], map[], []);
    assert Links(st.contacts[0], "a", "b");
    assert !Links(st.contacts[0], "b", "a") by {
      assert "a" != "b" by { assert "a"[0] != "b"[0]; }
    }
  }

  /** Blocking is an update whose body sets only `blocked` to true. */
  lemma {:induction false} BlockIsUpdate(st: Store, userId: UserId, contactId: UserId, now: Time)
    ensures BlockContact(st, userId, contactId, now)
            == UpdateContact(st, userId, contactId, UpdateContactDto(Keep, Set(true)), now)
  {
    match Find(st.contacts, userId, contactId)
    case None =>
    case Some(i) =>
      var stored := st.contacts[i];
      assert stored.(nickname := stored.nickname, blocked := true) == stored.(blocked := true);
  }

  /** Unblocking is an update whose body sets only `blocked` to false. */
  lemma {:induction false} UnblockIsUpdate(st: Store, userId: UserId, contactId: UserId, now: Time)
    ensures UnblockContact(st, userId, contactId, now)
            == UpdateContact(st, userId, contactId, UpdateContactDto(Keep, Set(false)), now)
  {
    match Find(st.contacts, userId, contactId)
    case None =>
    case Some(i) =>
      var stored := st.contacts[i];
      assert stored.(nickname := stored.nickname, blocked := false) == stored.(blocked := false);
  }

  /** An update with an empty body writes nothing. */
  lemma EmptyUpdateChangesNothing(st: Store, userId: UserId, contactId: UserId, now: Time)
    requires HasPair(st.contacts, userId, contactId)
    ensures UpdateContact(st, userId, contactId, UpdateContactDto(Keep, Keep), now).value.0 == st
  {
    var i := Find(st.contacts, userId, contactId).value;
    assert st.contacts[i := st.contacts[i]] == st.contacts;
  }

  /** Setting the flag a second time, at any later instant, finds the same
      record already in that state and writes nothing. */
  lemma SetBlockedIdempotent(st: Store, userId: UserId, contactId: UserId, blocked: bool, now: Time, later: Time)
    requires SetBlocked(st, userId, contactId, blocked, now).Ok?
    ensures var (st', c) := SetBlocked(st, userId, contactId, blocked, now).value;
            SetBlocked(st', userId, contactId, blocked, later) == Ok((st', c))
  {
    var (st', c) := SetBlocked(st, userId, contactId, blocked, now).value;
    var i := Find(st.contacts, userId, contactId).value;
    assert Links(st'.contacts[i], userId, contactId);
    assert forall j :: 0 <= j < i ==> st'.contacts[j] == st.contacts[j];
    var found := Find(st'.contacts, userId, contactId);
    assert found.Some? && found.value <= i;
    assert found == Some(i);
    assert st'.contacts[i] == c;
    assert c.(blocked := blocked) == c;
    assert st'.contacts[i := c] == st'.contacts;
  }

  /** `blockContact` is idempotent. */
  lemma BlockIdempotent(st: Store, userId: UserId, contactId: UserId, now: Time, later: Time)
    requires BlockContact(st, userId, contactId, now).Ok?
    ensures var (st', c) := BlockContact(st, userId, contactId, now).value;
            BlockContact(st', userId, contactId, later) == Ok((st', c))
  {
    SetBlockedIdempotent(st, userId, contactId, true, now, later);
  }

  /** `unblockContact` is idempotent. */
  lemma UnblockIdempotent(st: Store, userId: UserId, contactId: UserId, now: Time, later: Time)
    requires UnblockContact(st, userId, contactId, now).Ok?
    ensures var (st', c) := UnblockContact(st, userId, contactId, now).value;
            UnblockContact(st', userId, contactId, later) == Ok((st', c))
  {
    SetBlockedIdempotent(st, userId, contactId, false, now, later);
  }

  /** Under the unique index, blocking ends the pair's `isContact` and
      unblocking restores it; no other pair is affected. */
  lemma SetBlockedDecidesIsContact(st: Store, userId: UserId, contactId: UserId, blocked: bool, now: Time,
                                   a: UserId, b: UserId)
    requires UniquePairs(st.contacts)
    requires SetBlocked(st, userId, contactId, blocked, now).Ok?
    ensures var st' := SetBlocked(st, userId, contactId, blocked, now).value.0;
            && (IsContact(st', userId, contactId) <==> !blocked)
            && (!(a == userId && b == contactId) ==> (IsContact(st', a, b) <==> IsContact(st, a, b)))
  {
    var st' := SetBlocked(st, userId, contactId, blocked, now).value.0;
    var i := Find(st.contacts, userId, contactId).value;
    assert Links(st'.contacts[i], userId, contactId);
    if !(a == userId && b == contactId) {
      if IsContact(st', a, b) {
        var k :| 0 <= k < |st'.contacts| && Links(st'.contacts[k], a, b) && !st'.contacts[k].blocked;
        assert k != i;
      }
      if IsContact(st, a, b) {
        var k :| 0 <= k < |st.contacts| && Links(st.contacts[k], a, b) && !st.contacts[k].blocked;
        assert k != i;
        assert st'.contacts[k] == st.contacts[k];
      }
    }
  }

  /** Under the unique index, after `removeContact` no record of the pair
      remains and the index still holds. */
  lemma RemoveContactRemovesPair(st: Store, userId: UserId, contactId: UserId)
    requires UniquePairs(st.contacts)
    requires RemoveContact(st, userId, contactId).Ok?
    ensures var st' := RemoveContact(st, userId, contactId).value;
            !HasPair(st'.contacts, userId, contactId) && UniquePairs(st'.contacts)
  {
    var st' := RemoveContact(st, userId, contactId).value;
    var i := Find(st.contacts, userId, contactId).value;
    assert st'.contacts == Seqs.RemoveAt(st.contacts, i);
    forall x, y | 0 <= x < y < |st'.contacts|
      ensures st'.contacts[x].userId != st'.contacts[y].userId || st'.contacts[x].contactId != st'.contacts[y].contactId
    {
      var x' := if x < i then x else x + 1;
      var y' := if y < i then y else y + 1;
      assert st'.contacts[x] == st.contacts[x'] && st'.contacts[y] == st.contacts[y'];
    }
  }

  /** Every successful write of the contacts service keeps the store invariant. */
  lemma ContactWritesPreserveValid(st: Store, userId: UserId, contactId: UserId, dto: UpdateContactDto,
                                   blocked: bool, now: Time)
    requires Valid(st)
    ensures UpdateContact(st, userId, contactId, dto, now).Ok?
            ==> Valid(UpdateContact(st, userId, contactId, dto, now).value.0)
    ensures SetBlocked(st, userId, contactId, blocked, now).Ok?
            ==> Valid(SetBlocked(st, userId, contactId, blocked, now).value.0)
    ensures RemoveContact(st, userId, contactId).Ok?
            ==> Valid(RemoveContact(st, userId, contactId).value)
  {
    if RemoveContact(st, userId, contactId).Ok? {
      RemoveContactRemovesPair(st, userId, contactId);
      var st' := RemoveContact(st, userId, contactId).value;
      forall k | 0 <= k < |st'.contacts|
        ensures st'.contacts[k].userId != st'.contacts[k].contactId
      {
        assert st'.contacts[k] in st.contacts;
      }
    }
  }
}
