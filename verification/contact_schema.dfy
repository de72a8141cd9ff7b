/** The `Contact` document: a directed relation from `userId` to
    `contactId`, unique per ordered pair. */
module ContactSchema {
  import opened Ids
  import opened Results

  datatype Contact = Contact(
    userId: UserId,
    contactId: UserId,
    blocked: bool,
    nickname: Option<string>,
    createdAt: Time,
    updatedAt: Time)

  /** The record links `owner` to `other`, in that direction. */
  predicate Links(c: Contact, owner: UserId, other: UserId) {
    c.userId == owner && c.contactId == other
  }

  /** The unique index on (userId, contactId): no ordered pair is recorded twice. */
  predicate UniquePairs(cs: seq<Contact>) {
    forall i, j :: 0 <= i < j < |cs| ==> cs[i].userId != cs[j].userId || cs[i].contactId != cs[j].contactId
  }

  /** `new Contact({ ... })`: `blocked` defaults to false, `nickname` to null
      and `createdAt` (with `updatedAt`) to the creation instant. */
  function New(userId: UserId, contactId: UserId, blocked: Patch<bool>,
               nickname: Patch<Option<string>>, now: Time): (c: Contact)
    ensures Links(c, userId, contactId)
    ensures blocked == Keep ==> !c.blocked
    ensures nickname == Keep ==> c.nickname == None
    ensures blocked.Set? ==> c.blocked == blocked.value
    ensures nickname.Set? ==> c.nickname == nickname.value
    ensures c.createdAt == now && c.updatedAt == now
  {
    Contact(userId, contactId, blocked.Apply(false), nickname.Apply(None), now, now)
  }

  /** `doc.save()` of a loaded contact edited into `edited`. */
  function Save(stored: Contact, edited: Contact, now: Time): (r: Contact)
    requires edited.updatedAt == stored.updatedAt
    ensures edited == stored ==> r == stored
    ensures edited != stored ==> r.updatedAt == now
    ensures r.(updatedAt := stored.updatedAt) == edited
  {
    if edited == stored then stored else edited.(updatedAt := now)
  }
}
