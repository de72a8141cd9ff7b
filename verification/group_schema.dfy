/** The `Group` document. */
module GroupSchema {
  import opened Ids
  import opened Results

  datatype Group = Group(
    id: GroupId,
    name: string,
    description: Option<string>,
    creatorId: UserId,
    membersId: seq<UserId>,
    adminsId: seq<UserId>,
    createdAt: Time,
    updatedAt: Time)

  /** The validation message of a group whose name is empty. */
  const NameRequired: string := "Group validation failed: name: Path `name` is required."

  predicate IsMember(g: Group, u: UserId) {
    u in g.membersId
  }

  predicate IsAdmin(g: Group, u: UserId) {
    u in g.adminsId
  }

  /** `new Group({ ... }).save()`: the name is required (an empty string
      fails), the description is optional, and both id lists default to empty. */
  function Insert(id: GroupId, name: string, description: Option<string>, creatorId: UserId,
                  membersId: Patch<seq<UserId>>, adminsId: Patch<seq<UserId>>, now: Time): (r: Result<Group>)
    ensures r.Err? <==> name == []
    ensures r.Err? ==> r.error == Invalid(NameRequired)
    ensures r.Ok? ==> r.value.id == id && r.value.name == name && r.value.description == description
                      && r.value.creatorId == creatorId
    ensures r.Ok? && membersId == Keep ==> r.value.membersId == []
    ensures r.Ok? && adminsId == Keep ==> r.value.adminsId == []
    ensures r.Ok? && membersId.Set? ==> r.value.membersId == membersId.value
    ensures r.Ok? && adminsId.Set? ==> r.value.adminsId == adminsId.value
    ensures r.Ok? ==> r.value.createdAt == now && r.value.updatedAt == now
  {
    if name == [] then Err(Invalid(NameRequired))
    else Ok(Group(id, name, description, creatorId, membersId.Apply([]), adminsId.Apply([]), now, now))
  }

  /** `doc.save()` of a loaded group edited into `edited`. */
  function Save(stored: Group, edited: Group, now: Time): (r: Group)
    requires edited.updatedAt == stored.updatedAt
    ensures edited == stored ==> r == stored
    ensures edited != stored ==> r.updatedAt == now
    ensures r.(updatedAt := stored.updatedAt) == edited
  {
    if edited == stored then stored else edited.(updatedAt := now)
  }
}
