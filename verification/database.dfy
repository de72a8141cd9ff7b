/** The abstract store behind the services: the known users and the three
    collections. Collections that are queried in order are sequences in
    insertion (natural) order; groups are keyed by their id. */
module Database {
  import opened Ids
  import opened MessageSchema
  import opened ContactSchema
  import opened GroupSchema
  import Seqs

  datatype Store = Store(
    users: set<UserId>,
    contacts: seq<Contact>,
    groups: map<GroupId, Group>,
    messages: seq<Message>)

  /** No stored message carries the id `id`. */
  predicate FreshMessageId(st: Store, id: MessageId) {
    forall i :: 0 <= i < |st.messages| ==> st.messages[i].id != id
  }

  predicate DistinctMessageIds(ms: seq<Message>) {
    forall i, j :: 0 <= i < j < |ms| ==> ms[i].id != ms[j].id
  }

  /** A group as the group service keeps it: a name, no member or admin
      listed twice, and the creator among the admins. */
  predicate GroupValid(g: Group) {
    && g.name != []
    && Seqs.Distinct(g.membersId)
    && Seqs.Distinct(g.adminsId)
    && g.creatorId in g.adminsId
  }

  /** The invariant every service operation preserves. */
  predicate Valid(st: Store) {
    && DistinctMessageIds(st.messages)
    && (forall i :: 0 <= i < |st.messages| ==> WellFormed(st.messages[i]))
    && UniquePairs(st.contacts)
    && (forall i :: 0 <= i < |st.contacts| ==> st.contacts[i].userId != st.contacts[i].contactId)
    && (forall gid :: gid in st.groups ==> st.groups[gid].id == gid && GroupValid(st.groups[gid]))
  }
}
