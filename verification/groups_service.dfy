/** Group membership rules of the groups service. */
module GroupsService {
  import opened Ids
  import opened Results
  import opened GroupSchema
  import opened Database
  import Seqs

  const GroupNotFound: string := "Group not found"
  const OnlyAdminsAdd: string := "Apenas administradores podem adicionar membros"
  const AlreadyMember: string := "Usuário já é membro do grupo"
  const NoPermissionToRemove: string := "Sem permissão para remover membro"
  const NoPermissionToDelete: string := "Sem permissão para deletar o grupo"

  /** The body of a create request. `members` is accepted but never read. */
  datatype CreateGroupDto = CreateGroupDto(name: string, description: Option<string>, members: Option<seq<UserId>>)

  datatype AddMemberDto = AddMemberDto(userId: UserId)

  /** `create`: a new group whose creator is its only member and only admin,
      whatever member list the request carries. */
  function Create(st: Store, dto: CreateGroupDto, creatorId: UserId, id: GroupId, now: Time)
    : (r: Result<(Store, Group)>)
    ensures r.Err? <==> dto.name == []
    ensures r.Err? ==> r.error == Invalid(NameRequired)
    ensures r.Ok? ==> var (st', g) := r.value;
                      && st' == st.(groups := st.groups[id := g])
                      && g.id == id && g.name == dto.name && g.description == dto.description
                      && g.creatorId == creatorId
                      && g.membersId == [creatorId]
                      && g.adminsId == [creatorId]
                      && g.createdAt == now
  {
    var g :- Insert(id, dto.name, dto.description, creatorId, Set([creatorId]), Set([creatorId]), now);
    Ok((st.(groups := st.groups[id := g]), g))
  }

  /** `findById` as written: the query populates `members` and `admins`, two
      paths the group schema does not declare (it declares `membersId` and
      `adminsId`). Under strict populate the query rejects whenever it finds
      a document, so no lookup succeeds: a missing group is still NotFound,
      an existing one is the populate error. */
  function FindByIdAsWritten(st: Store, groupId: GroupId): (r: Result<Group>)
    ensures r.Err?
    ensures r.error == NotFound(GroupNotFound) <==> groupId !in st.groups
    ensures groupId in st.groups ==> r.error == StrictPopulate("members")
  {
    if groupId in st.groups then Err(StrictPopulate("members")) else Err(NotFound(GroupNotFound))
  }

  /** The lookup as written and the corrected one differ on every existing
      group: the corrected one finds it, the one as written rejects. */
  lemma AsWrittenLookupRejectsExistingGroups(st: Store, groupId: GroupId)
    requires groupId in st.groups
    ensures FindById(st, groupId) == Ok(st.groups[groupId])
    ensures FindByIdAsWritten(st, groupId) == Err(StrictPopulate("members"))
  {
  }

  /** `findById` without population, as when the two `populate` calls are
      dropped or strict populate is switched off (undeclared paths are then
      ignored): the group as stored, or `NotFound`. Populating the declared
      `membersId` and `adminsId` instead would not do: it replaces each id by
      a user document, whose string form is not the id, so every id
      comparison of the callers would fail. */
  function FindById(st: Store, groupId: GroupId): (r: Result<Group>)
    ensures r.Ok? <==> groupId in st.groups
    ensures r.Ok? ==> r.value == st.groups[groupId]
    ensures r.Err? ==> r.error == NotFound(GroupNotFound)
  {
    if groupId in st.groups then Ok(st.groups[groupId]) else Err(NotFound(GroupNotFound))
  }

  /** `addMember`: a missing group, a requester who is not an admin, and a
      user who is already a member are rejected in that order; otherwise the
      user is appended to the members and nothing else changes. */
  function AddMember(st: Store, groupId: GroupId, dto: AddMemberDto, requesterId: UserId, now: Time)
    : (r: Result<(Store, Group)>)
    ensures groupId !in st.groups ==> r == Err(NotFound(GroupNotFound))
    ensures groupId in st.groups && requesterId !in st.groups[groupId].adminsId
            ==> r == Err(BadRequest(OnlyAdminsAdd))
    ensures groupId in st.groups && requesterId in st.groups[groupId].adminsId
            && dto.userId in st.groups[groupId].membersId
            ==> r == Err(BadRequest(AlreadyMember))
    ensures r.Ok? <==> groupId in st.groups && requesterId in st.groups[groupId].adminsId
                       && dto.userId !in st.groups[groupId].membersId
    ensures r.Ok? ==> var (st', g) := r.value;
                      var before := st.groups[groupId];
                      && st' == st.(groups := st.groups[groupId := g])
                      && g.membersId == before.membersId + [dto.userId]
                      && g.adminsId == before.adminsId
                      && g.id == before.id && g.name == before.name && g.description == before.description
                      && g.creatorId == before.creatorId && g.createdAt == before.createdAt
                      && g.updatedAt == now
                      && (Seqs.Distinct(before.membersId) ==> Seqs.Distinct(g.membersId))
  {
    var g :- FindById(st, groupId);
    if requesterId !in g.adminsId then Err(BadRequest(OnlyAdminsAdd))
    else if dto.userId in g.membersId then Err(BadRequest(AlreadyMember))
    else
      var saved := Save(g, g.(membersId := g.membersId + [dto.userId]), now);
      Ok((st.(groups := st.groups[groupId := saved]), saved))
  }

  function Other(userId: UserId): UserId -> bool {
    (m: UserId) => m != userId
  }

  /** `removeMember`: permitted exactly when the requester is an admin or
      removes themself. Every occurrence of the user leaves the member list,
      the rest stay in order, and the admin list is never touched; removing a
      user who is not a member succeeds and writes nothing. */
  function RemoveMember(st: Store, groupId: GroupId, userId: UserId, requesterId: UserId, now: Time)
    : (r: Result<(Store, Group)>)
    ensures groupId !in st.groups ==> r == Err(NotFound(GroupNotFound))
    ensures r.Ok? <==> groupId in st.groups && (requesterId in st.groups[groupId].adminsId || userId == requesterId)
    ensures groupId in st.groups && !r.Ok? ==> r == Err(BadRequest(NoPermissionToRemove))
    ensures r.Ok? ==> var (st', g) := r.value;
                      var before := st.groups[groupId];
                      && st' == st.(groups := st.groups[groupId := g])
                      && g.membersId == Seqs.Filter(before.membersId, Other(userId))
                      && userId !in g.membersId
                      && (forall u :: u in g.membersId <==> u in before.membersId && u != userId)
                      && g == before.(membersId := g.membersId, updatedAt := g.updatedAt)
                      && (userId !in before.membersId ==> g == before)
  {
    var g :- FindById(st, groupId);
    var isAdmin := requesterId in g.adminsId;
    var isSelf := userId == requesterId;
    if !isAdmin && !isSelf then Err(BadRequest(NoPermissionToRemove))
    else
      var kept := Seqs.Filter(g.membersId, Other(userId));
      Seqs.FilterMembers(g.membersId, Other(userId));
      assert userId !in g.membersId ==> kept == g.membersId by {
        if userId !in g.membersId {
          Seqs.FilterAll(g.membersId, Other(userId));
        }
      }
      var saved := Save(g, g.(membersId := kept), now);
      Ok((st.(groups := st.groups[groupId := saved]), saved))
  }

  /** `deleteGroup`: admin-only; afterwards the group no longer exists and
      nothing else in the store changed. */
  function DeleteGroup(st: Store, groupId: GroupId, requesterId: UserId): (r: Result<(Store, Group)>)
    ensures groupId !in st.groups ==> r == Err(NotFound(GroupNotFound))
    ensures groupId in st.groups && requesterId !in st.groups[groupId].adminsId
            ==> r == Err(BadRequest(NoPermissionToDelete))
    ensures r.Ok? <==> groupId in st.groups && requesterId in st.groups[groupId].adminsId
    ensures r.Ok? ==> var (st', g) := r.value;
                      && g == st.groups[groupId]
                      && groupId !in st'.groups
                      && st'.groups.Keys == st.groups.Keys - {groupId}
                      && (forall k :: k in st'.groups ==> st'.groups[k] == st.groups[k])
                      && st' == st.(groups := st'.groups)
  {
    var g :- FindById(st, groupId);
    if requesterId !in g.adminsId then Err(BadRequest(NoPermissionToDelete))
    else Ok((st.(groups := st.groups - {groupId}), g))
  }

  // ---------------------------------------------------------------------
  // Properties of the membership rules
  // ---------------------------------------------------------------------

  /** After `deleteGroup` the deleted group cannot be found, while every
      other group is found exactly as before and every later write to it
      behaves as it would have without the deletion. */
  lemma DeletedGroupIsGone(st: Store, groupId: GroupId, requesterId: UserId,
                           other: GroupId, dto: AddMemberDto, userId: UserId, now: Time)
    requires DeleteGroup(st, groupId, requesterId).Ok?
    requires other != groupId
    ensures var st' := DeleteGroup(st, groupId, requesterId).value.0;
            && FindById(st', groupId) == Err(NotFound(GroupNotFound))
            && FindById(st', other) == FindById(st, other)
            && AddMember(st', other, dto, requesterId, now).Ok? == AddMember(st, other, dto, requesterId, now).Ok?
            && RemoveMember(st', other, userId, requesterId, now).Ok? == RemoveMember(st, other, userId, requesterId, now).Ok?
            && DeleteGroup(st', other, requesterId).Ok? == DeleteGroup(st, other, requesterId).Ok?
  {
  }

  /** Removing the same user twice is removing once: the second call writes nothing. */
  lemma RemoveMemberIdempotent(st: Store, groupId: GroupId, userId: UserId, requesterId: UserId,
                               now: Time, later: Time)
    requires RemoveMember(st, groupId, userId, requesterId, now).Ok?
    ensures var (st', g) := RemoveMember(st, groupId, userId, requesterId, now).value;
            RemoveMember(st', groupId, userId, requesterId, later) == Ok((st', g))
  {
    var (st', g) := RemoveMember(st, groupId, userId, requesterId, now).value;
    assert st'.groups[groupId] == g;
    assert st'.groups[groupId := g] == st'.groups;
  }

  /** An admin who removes themself stays an admin: `removeMember` never
      edits the admin list, so they may still add members, re-add
      themself, or delete the group. */
  lemma RemovedAdminKeepsAdminRights(st: Store, groupId: GroupId, adminId: UserId, now: Time)
    requires groupId in st.groups && adminId in st.groups[groupId].adminsId
    ensures var r := RemoveMember(st, groupId, adminId, adminId, now);
            && r.Ok?
            && adminId !in r.value.1.membersId
            && AddMember(r.value.0, groupId, AddMemberDto(adminId), adminId, now).Ok?
            && DeleteGroup(r.value.0, groupId, adminId).Ok?
  {
  }

  /** Adding and then removing a user restores the member list. */
  lemma AddThenRemoveRestoresMembers(st: Store, groupId: GroupId, dto: AddMemberDto, requesterId: UserId,
                                     now: Time, later: Time)
    requires AddMember(st, groupId, dto, requesterId, now).Ok?
    ensures var st' := AddMember(st, groupId, dto, requesterId, now).value.0;
            var r := RemoveMember(st', groupId, dto.userId, requesterId, later);
            r.Ok? && r.value.1.membersId == st.groups[groupId].membersId
  {
    var before := st.groups[groupId];
    var st' := AddMember(st, groupId, dto, requesterId, now).value.0;
    Seqs.FilterAppend(before.membersId, [dto.userId], Other(dto.userId));
    Seqs.FilterAll(before.membersId, Other(dto.userId));
    Seqs.FilterNone([dto.userId], Other(dto.userId));
    assert before.membersId + [] == before.membersId;
  }

  /** Filtering out one value keeps the remaining values distinct. */
  lemma {:induction false} FilterKeepsDistinct(s: seq<UserId>, userId: UserId)
    requires Seqs.Distinct(s)
    ensures Seqs.Distinct(Seqs.Filter(s, Other(userId)))
  {
    if |s| > 0 {
      FilterKeepsDistinct(s[1..], userId);
      var rest := Seqs.Filter(s[1..], Other(userId));
      Seqs.FilterMembers(s[1..], Other(userId));
      assert s[0] !in s[1..];
      assert s[0] !in rest;
    }
  }

  /** Every successful write of the groups service keeps the store
      invariant, provided `create` is given an id no group has. */
  lemma GroupWritesPreserveValid(st: Store, dto: CreateGroupDto, groupId: GroupId, userId: UserId,
                                 requesterId: UserId, now: Time)
    requires Valid(st)
    ensures groupId !in st.groups && Create(st, dto, requesterId, groupId, now).Ok?
            ==> Valid(Create(st, dto, requesterId, groupId, now).value.0)
    ensures AddMember(st, groupId, AddMemberDto(userId), requesterId, now).Ok?
            ==> Valid(AddMember(st, groupId, AddMemberDto(userId), requesterId, now).value.0)
    ensures RemoveMember(st, groupId, userId, requesterId, now).Ok?
            ==> Valid(RemoveMember(st, groupId, userId, requesterId, now).value.0)
    ensures DeleteGroup(st, groupId, requesterId).Ok?
            ==> Valid(DeleteGroup(st, groupId, requesterId).value.0)
  {
    if RemoveMember(st, groupId, userId, requesterId, now).Ok? {
      FilterKeepsDistinct(st.groups[groupId].membersId, userId);
    }
  }
}
