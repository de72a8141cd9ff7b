/** The socket gateway: connection registry, token selection, the
    authentication gate of every intent, room names, and the pushes it emits,
    recorded in an output log. */
module ChatGateway {
  import opened Ids
  import opened Results
  import opened MessageSchema
  import opened Database
  import Seqs
  import Text
  import ChatService

  const NotAuthenticated: string := "Não autenticado"

  /** A socket as the gateway sees it: its id and the user id stamped on it
      when the connection was authenticated. */
  datatype Socket = Socket(id: SocketId, userId: Option<UserId>)

  /** `if (client.userId)`: the user id is set and, being a JavaScript
      string, non-empty. */
  predicate Authenticated(client: Socket) {
    client.userId.Some? && client.userId.value != []
  }

  /** The handshake fields the gateway reads; `None` stands for a value that
      is not a string (absent, or of another type). */
  datatype Handshake = Handshake(authToken: Option<string>, authorization: Option<string>)

  /** One entry of `connectedUsers`: socket id to user id. */
  datatype Entry = Entry(socket: SocketId, user: UserId)

  datatype Event = UserOnline | UserOffline | NewMessage | NewGroupMessage | UserJoinedGroup | UserLeftGroup

  /** The event names on the wire. */
  function EventName(e: Event): string {
    match e
    case UserOnline => "userOnline"
    case UserOffline => "userOffline"
    case NewMessage => "newMessage"
    case NewGroupMessage => "newGroupMessage"
    case UserJoinedGroup => "userJoinedGroup"
    case UserLeftGroup => "userLeftGroup"
  }

  datatype Payload =
    | Presence(userId: UserId)
    | Delivered(message: Message)
    | Membership(userId: UserId, groupId: GroupId)

  /** Where a push goes: one socket, every socket in a room, or every socket
      except the sender (`client.broadcast`). */
  datatype Target = ToSocket(socket: SocketId) | ToRoom(room: string) | ToOthers(sender: SocketId)

  /** What the gateway asks of the transport, in order. */
  datatype Effect =
    | Emit(target: Target, event: Event, payload: Payload)
    | Join(socket: SocketId, room: string)
    | Leave(socket: SocketId, room: string)
    | Disconnect(socket: SocketId)

  /** The gateway's state: `connectedUsers` in insertion order, and the log
      of effects requested so far. */
  datatype Gateway = Gateway(connected: seq<Entry>, log: seq<Effect>)

  /** What an intent handler answers: `{ success: true, message? }` or
      `{ error }`. */
  datatype Reply = Success(message: Option<Message>) | Failure(error: string)

  // ---------------------------------------------------------------------
  // Room names
  // ---------------------------------------------------------------------

  function UserRoom(userId: UserId): string {
    "user:" + userId
  }

  function GroupRoom(groupId: GroupId): string {
    "group:" + groupId
  }

  /** Rooms of the two kinds never share a name, and each kind names one
      room per id. */
  lemma RoomNamesDistinct(a: string, b: string)
    ensures UserRoom(a) != GroupRoom(b)
    ensures UserRoom(a) == UserRoom(b) ==> a == b
    ensures GroupRoom(a) == GroupRoom(b) ==> a == b
  {
    assert UserRoom(a)[0] != GroupRoom(b)[0];
    if UserRoom(a) == UserRoom(b) {
      assert a == UserRoom(a)[5..] && b == UserRoom(b)[5..];
    }
    if GroupRoom(a) == GroupRoom(b) {
      assert a == GroupRoom(a)[6..] && b == GroupRoom(b)[6..];
    }
  }

  // ---------------------------------------------------------------------
  // The connection registry (`connectedUsers`, a Map in insertion order)
  // ---------------------------------------------------------------------

  predicate DistinctSockets(es: seq<Entry>) {
    forall i, j :: 0 <= i < j < |es| ==> es[i].socket != es[j].socket
  }

  predicate HasSocket(es: seq<Entry>, socket: SocketId) {
    exists i :: 0 <= i < |es| && es[i].socket == socket
  }

  /** `connectedUsers.get(socket)`. */
  function Lookup(es: seq<Entry>, socket: SocketId): (r: Option<UserId>)
    ensures r.None? <==> !HasSocket(es, socket)
    ensures r.Some? ==> Entry(socket, r.value) in es
  {
    if |es| == 0 then None
    else if es[0].socket == socket then Some(es[0].user)
    else
      Lookup(es[1..], socket)
  }

  function SocketIs(socket: SocketId): Entry -> bool {
    (e: Entry) => e.socket == socket
  }

  /** `get` answers from the first entry of the socket. */
  lemma {:induction false} LookupIsFirst(es: seq<Entry>, socket: SocketId)
    ensures Lookup(es, socket) == match Seqs.FirstIndex(es, SocketIs(socket))
                                  case None => None
                                  case Some(i) => Some(es[i].user)
  {
    if |es| > 0 && es[0].socket != socket {
      LookupIsFirst(es[1..], socket);
      match Seqs.FirstIndex(es[1..], SocketIs(socket))
      case None =>
      case Some(k) => assert es[k + 1] == es[1..][k];
    }
  }

  /** The new registry after `set`, before anything is said about it. */
  function Put(es: seq<Entry>, socket: SocketId, user: UserId): seq<Entry> {
    match Seqs.FirstIndex(es, SocketIs(socket))
    case Some(i) => es[i := Entry(socket, user)]
    case None => es + [Entry(socket, user)]
  }

  /** `set` leaves the first entry of every other socket where it was, and
      that of the socket itself too when it was registered already. */
  lemma PutKeepsFirst(es: seq<Entry>, socket: SocketId, user: UserId, other: SocketId)
    requires other != socket || HasSocket(es, socket)
    ensures Seqs.FirstIndex(Put(es, socket, user), SocketIs(other)) == Seqs.FirstIndex(es, SocketIs(other))
  {
    var r := Put(es, socket, user);
    forall j | 0 <= j < |es|
      ensures SocketIs(other)(es[j]) == SocketIs(other)(r[j])
    {
      assert r[j].socket == es[j].socket;
    }
    Seqs.FirstIndexSame(es, r, SocketIs(other));
  }

  /** After `set`, `get` of the socket answers the new user. */
  lemma PutLookupSelf(es: seq<Entry>, socket: SocketId, user: UserId)
    ensures Lookup(Put(es, socket, user), socket) == Some(user)
  {
    var r := Put(es, socket, user);
    LookupIsFirst(r, socket);
    if HasSocket(es, socket) {
      PutKeepsFirst(es, socket, user, socket);
    } else {
      var k := Seqs.FirstIndex(r, SocketIs(socket));
      assert SocketIs(socket)(r[|es|]);
      assert k.Some? && k.value <= |es|;
    }
  }

  /** `connectedUsers.set(socket, user)`: an existing entry keeps its place
      and takes the new user; a new entry goes last. */
  function Register(es: seq<Entry>, socket: SocketId, user: UserId): (r: seq<Entry>)
    ensures Lookup(r, socket) == Some(user)
    ensures forall other :: other != socket ==> Lookup(r, other) == Lookup(es, other)
    ensures |r| == if HasSocket(es, socket) then |es| else |es| + 1
    ensures forall k :: 0 <= k < |es| ==> r[k].socket == es[k].socket
    ensures forall k :: 0 <= k < |es| && es[k].socket != socket ==> r[k] == es[k]
    ensures forall k :: |es| <= k < |r| ==> r[k] == Entry(socket, user)
  {
    var r := Put(es, socket, user);
    PutLookupSelf(es, socket, user);
    assert forall other :: other != socket ==> Lookup(r, other) == Lookup(es, other) by {
      forall other | other != socket
        ensures Lookup(r, other) == Lookup(es, other)
      {
        PutKeepsFirst(es, socket, user, other);
        LookupIsFirst(r, other);
        LookupIsFirst(es, other);
      }
    }
    r
  }

  /** A socket is registered when it heads the registry or is registered in
      the remainder. */
  lemma HasSocketTail(es: seq<Entry>, socket: SocketId)
    requires |es| > 0
    ensures HasSocket(es, socket) <==> es[0].socket == socket || HasSocket(es[1..], socket)
  {
    if HasSocket(es, socket) && es[0].socket != socket {
      var i :| 0 <= i < |es| && es[i].socket == socket;
      assert es[1..][i - 1].socket == socket;
    }
    if HasSocket(es[1..], socket) {
      var i :| 0 <= i < |es[1..]| && es[1..][i].socket == socket;
      assert es[i + 1].socket == socket;
    }
  }

  function SocketIsNot(socket: SocketId): Entry -> bool {
    (e: Entry) => e.socket != socket
  }

  /** `connectedUsers.delete(socket)`: the socket's entry goes, every other
      entry stays in order. */
  function Unregister(es: seq<Entry>, socket: SocketId): (r: seq<Entry>)
    ensures r == Seqs.Filter(es, SocketIsNot(socket))
    ensures Lookup(r, socket) == None
    ensures forall other :: other != socket ==> Lookup(r, other) == Lookup(es, other)
    ensures forall e :: e in r <==> e in es && e.socket != socket
    ensures !HasSocket(es, socket) ==> r == es
  {
    if |es| == 0 then []
    else
      var rest := Unregister(es[1..], socket);
      HasSocketTail(es, socket);
      assert es == [es[0]] + es[1..];
      if es[0].socket == socket then rest else [es[0]] + rest
  }

  function UserIs(user: UserId): Entry -> bool {
    (e: Entry) => e.user == user
  }

  /** The receiver lookup of `sendMessage`: the socket of the first entry,
      in insertion order, whose user is `user`. */
  function ReceiverSocket(es: seq<Entry>, user: UserId): (r: Option<SocketId>)
    ensures r.None? <==> forall i :: 0 <= i < |es| ==> es[i].user != user
    ensures r.Some? ==> exists i :: 0 <= i < |es| && es[i] == Entry(r.value, user)
                                    && forall j :: 0 <= j < i ==> es[j].user != user
  {
    match Seqs.FirstIndex(es, UserIs(user))
    case None => None
    case Some(i) => Some(es[i].socket)
  }

  // ---------------------------------------------------------------------
  // Connection and disconnection
  // ---------------------------------------------------------------------

  /** `header.split(' ')[1]`: the second space-separated word, if any. */
  function SecondWord(header: string): Option<string> {
    var parts := Text.Split(header, ' ');
    if |parts| > 1 then Some(parts[1]) else None
  }

  /** A JavaScript string value that is truthy: present and non-empty. */
  predicate Truthy(s: Option<string>) {
    s.Some? && s.value != []
  }

  /** `authToken || headerToken || null`: the handshake token when it is a
      non-empty string, else the second word of a string `Authorization`
      header when that is non-empty, else nothing. */
  function SelectToken(hs: Handshake): (r: Option<string>)
    ensures r.Some? ==> r.value != []
    ensures Truthy(hs.authToken) ==> r == hs.authToken
    ensures !Truthy(hs.authToken) ==>
              (r.Some? <==> hs.authorization.Some? && Truthy(SecondWord(hs.authorization.value)))
    ensures !Truthy(hs.authToken) && r.Some? ==> r == SecondWord(hs.authorization.value)
  {
    if Truthy(hs.authToken) then hs.authToken
    else if hs.authorization.Some? && Truthy(SecondWord(hs.authorization.value)) then SecondWord(hs.authorization.value)
    else None
  }

  /** A `Bearer <token>` header yields the token when no handshake token is given. */
  lemma BearerHeaderToken(scheme: string, token: string, authToken: Option<string>)
    requires ' ' !in scheme && ' ' !in token && token != []
    requires !Truthy(authToken)
    ensures SelectToken(Handshake(authToken, Some(scheme + " " + token))) == Some(token)
  {
    var parts := [scheme, token];
    assert Text.Join(parts, ' ') == scheme + " " + token by {
      assert Text.Join(parts[1..], ' ') == token;
    }
    Text.SplitJoin(parts, ' ');
  }

  /** A header without a space carries no token. */
  lemma HeaderWithoutSpaceHasNoToken(header: string)
    requires ' ' !in header
    ensures SelectToken(Handshake(None, Some(header))) == None
  {
  }

  /** `handleConnection`. Without a token, or with one the verifier rejects,
      the socket is disconnected and nothing is registered. Otherwise the
      socket is stamped with the token's subject, registered under its id,
      and every other socket is told the user is online. */
  function HandleConnection(g: Gateway, client: Socket, hs: Handshake, verify: string -> Option<UserId>)
    : (r: (Gateway, Socket))
    ensures var (g', client') := r;
            match SelectToken(hs)
            case None =>
              g' == g.(log := g.log + [Disconnect(client.id)]) && client' == client
            case Some(token) =>
              match verify(token)
              case None =>
                g' == g.(log := g.log + [Disconnect(client.id)]) && client' == client
              case Some(sub) =>
                && client' == client.(userId := Some(sub))
                && Lookup(g'.connected, client.id) == Some(sub)
                && (forall other :: other != client.id ==> Lookup(g'.connected, other) == Lookup(g.connected, other))
                && g'.log == g.log + [Emit(ToOthers(client.id), UserOnline, Presence(sub))]
  {
    match SelectToken(hs)
    case None => (g.(log := g.log + [Disconnect(client.id)]), client)
    case Some(token) =>
      match verify(token)
      case None => (g.(log := g.log + [Disconnect(client.id)]), client)
      case Some(sub) =>
        (Gateway(Register(g.connected, client.id, sub),
                 g.log + [Emit(ToOthers(client.id), UserOnline, Presence(sub))]),
         client.(userId := Some(sub)))
  }

  /** `handleDisconnect`: an authenticated socket loses its entry and every
      other socket is told its user is offline; any other socket changes
      nothing. */
  function HandleDisconnect(g: Gateway, client: Socket): (g': Gateway)
    ensures !Authenticated(client) ==> g' == g
    ensures Authenticated(client) ==>
              && Lookup(g'.connected, client.id) == None
              && (forall other :: other != client.id ==> Lookup(g'.connected, other) == Lookup(g.connected, other))
              && g'.log == g.log + [Emit(ToOthers(client.id), UserOffline, Presence(client.userId.value))]
  {
    if Authenticated(client) then
      Gateway(Unregister(g.connected, client.id),
              g.log + [Emit(ToOthers(client.id), UserOffline, Presence(client.userId.value))])
    else g
  }

  // ---------------------------------------------------------------------
  // Intents
  // ---------------------------------------------------------------------

  /** The result of a sending intent: the new gateway and store, and the reply. */
  datatype Step = Step(gateway: Gateway, store: Store, reply: Reply)

  /** `sendMessage`. Unauthenticated: `{ error: 'Não autenticado' }` and no
      effect. A service error becomes `{ error: message }` with no effect.
      Otherwise the message is stored, pushed to at most one socket (the
      first registered for the receiver, if any) and returned. */
  function HandleMessage(g: Gateway, st: Store, dto: ChatService.CreateMessageDto, client: Socket,
                         id: MessageId, now: Time): (r: Step)
    ensures !Authenticated(client) ==> r == Step(g, st, Failure(NotAuthenticated))
    ensures Authenticated(client) ==>
              var sent := ChatService.Create(st, dto, client.userId.value, id, now);
              && (sent.Err? ==> r == Step(g, st, Failure(sent.error.message)))
              && (sent.Ok? ==>
                    && r.store == sent.value.0
                    && r.reply == Success(Some(sent.value.1))
                    && r.gateway.connected == g.connected
                    && var pushed := ReceiverSocket(g.connected, dto.receiverId);
                       (if pushed.Some? && pushed.value != []
                        then r.gateway.log == g.log + [Emit(ToSocket(pushed.value), NewMessage, Delivered(sent.value.1))]
                        else r.gateway.log == g.log))
  {
    if !Authenticated(client) then Step(g, st, Failure(NotAuthenticated))
    else
      match ChatService.Create(st, dto, client.userId.value, id, now)
      case Err(e) => Step(g, st, Failure(e.message))
      case Ok((st', m)) =>
        var pushed := ReceiverSocket(g.connected, dto.receiverId);
        var log := if pushed.Some? && pushed.value != []
                   then g.log + [Emit(ToSocket(pushed.value), NewMessage, Delivered(m))]
                   else g.log;
        Step(g.(log := log), st', Success(Some(m)))
  }

  /** `sendGroupMessage`. Unauthenticated or refused by the service: an
      error reply and no effect. Otherwise the message is stored, pushed to
      the group's room, and returned. */
  function HandleGroupMessage(g: Gateway, st: Store, groupId: GroupId, content: string, client: Socket,
                              id: MessageId, now: Time): (r: Step)
    ensures !Authenticated(client) ==> r == Step(g, st, Failure(NotAuthenticated))
    ensures Authenticated(client) ==>
              var sent := ChatService.CreateGroupMessage(st, groupId, content, client.userId.value, id, now);
              && (sent.Err? ==> r == Step(g, st, Failure(sent.error.message)))
              && (sent.Ok? ==>
                    && r.store == sent.value.0
                    && r.reply == Success(Some(sent.value.1))
                    && r.gateway == g.(log := g.log + [Emit(ToRoom(GroupRoom(groupId)), NewGroupMessage,
                                                            Delivered(sent.value.1))]))
  {
    if !Authenticated(client) then Step(g, st, Failure(NotAuthenticated))
    else
      match ChatService.CreateGroupMessage(st, groupId, content, client.userId.value, id, now)
      case Err(e) => Step(g, st, Failure(e.message))
      case Ok((st', m)) =>
        Step(g.(log := g.log + [Emit(ToRoom(GroupRoom(groupId)), NewGroupMessage, Delivered(m))]),
             st', Success(Some(m)))
  }

  /** `joinRoom`: an authenticated socket joins the room of any user id it
      names, and nothing else happens; an unauthenticated one is refused and
      nothing happens at all. */
  function HandleJoinRoom(g: Gateway, userId: UserId, client: Socket): (r: (Gateway, Reply))
    ensures r.0.connected == g.connected
    ensures r.1.Failure? <==> !Authenticated(client)
    ensures r.1.Failure? ==> r.0 == g && r.1.error == NotAuthenticated
    ensures r.1.Success? ==> && r.1.message.None?
                             && |r.0.log| == |g.log| + 1 && r.0.log[..|g.log|] == g.log
                             && r.0.log[|g.log|] == Join(client.id, UserRoom(userId))
  {
    if Authenticated(client) then (g.(log := g.log + [Join(client.id, UserRoom(userId))]), Success(None))
    else (g, Failure(NotAuthenticated))
  }

  /** `leaveRoom`: the same gate; the socket leaves the named user's room. */
  function HandleLeaveRoom(g: Gateway, userId: UserId, client: Socket): (r: (Gateway, Reply))
    ensures r.0.connected == g.connected
    ensures r.1.Failure? <==> !Authenticated(client)
    ensures r.1.Failure? ==> r.0 == g && r.1.error == NotAuthenticated
    ensures r.1.Success? ==> && r.1.message.None?
                             && |r.0.log| == |g.log| + 1 && r.0.log[..|g.log|] == g.log
                             && r.0.log[|g.log|] == Leave(client.id, UserRoom(userId))
  {
    if Authenticated(client) then (g.(log := g.log + [Leave(client.id, UserRoom(userId))]), Success(None))
    else (g, Failure(NotAuthenticated))
  }

  /** `joinGroup`: an authenticated socket joins the group's room (no
      membership is checked), and then the room it has just joined, joiner
      included, is told who joined which group. */
  function HandleJoinGroup(g: Gateway, groupId: GroupId, client: Socket): (r: (Gateway, Reply))
    ensures r.0.connected == g.connected
    ensures r.1.Failure? <==> !Authenticated(client)
    ensures r.1.Failure? ==> r.0 == g && r.1.error == NotAuthenticated
    ensures r.1.Success? ==> && r.1.message.None?
                             && |r.0.log| == |g.log| + 2 && r.0.log[..|g.log|] == g.log
                             && r.0.log[|g.log|] == Join(client.id, GroupRoom(groupId))
                             && r.0.log[|g.log| + 1] == Emit(ToRoom(r.0.log[|g.log|].room), UserJoinedGroup,
                                                             Membership(client.userId.value, groupId))
  {
    if Authenticated(client) then
      (g.(log := g.log + [Join(client.id, GroupRoom(groupId)),
                          Emit(ToRoom(GroupRoom(groupId)), UserJoinedGroup, Membership(client.userId.value, groupId))]),
       Success(None))
    else (g, Failure(NotAuthenticated))
  }

  /** `leaveGroup`: the socket leaves the group's room, and then the room it
      has just left is told; the leaver is no longer among its occupants. */
  function HandleLeaveGroup(g: Gateway, groupId: GroupId, client: Socket): (r: (Gateway, Reply))
    ensures r.0.connected == g.connected
    ensures r.1.Failure? <==> !Authenticated(client)
    ensures r.1.Failure? ==> r.0 == g && r.1.error == NotAuthenticated
    ensures r.1.Success? ==> && r.1.message.None?
                             && |r.0.log| == |g.log| + 2 && r.0.log[..|g.log|] == g.log
                             && r.0.log[|g.log|] == Leave(client.id, GroupRoom(groupId))
                             && r.0.log[|g.log| + 1] == Emit(ToRoom(r.0.log[|g.log|].room), UserLeftGroup,
                                                             Membership(client.userId.value, groupId))
  {
    if Authenticated(client) then
      (g.(log := g.log + [Leave(client.id, GroupRoom(groupId)),
                          Emit(ToRoom(GroupRoom(groupId)), UserLeftGroup, Membership(client.userId.value, groupId))]),
       Success(None))
    else (g, Failure(NotAuthenticated))
  }

  // ---------------------------------------------------------------------
  // Properties of the registry and the handlers
  // ---------------------------------------------------------------------

  /** `set` keeps socket ids unique in the registry. */
  lemma RegisterKeepsSocketsDistinct(es: seq<Entry>, socket: SocketId, user: UserId)
    requires DistinctSockets(es)
    ensures DistinctSockets(Register(es, socket, user))
  {
  }

  /** `delete` keeps socket ids unique in the registry. */
  lemma {:induction false} UnregisterKeepsSocketsDistinct(es: seq<Entry>, socket: SocketId)
    requires DistinctSockets(es)
    ensures DistinctSockets(Unregister(es, socket))
  {
    if |es| > 0 {
      UnregisterKeepsSocketsDistinct(es[1..], socket);
      var rest := Unregister(es[1..], socket);
      assert Unregister(es, socket) == if es[0].socket == socket then rest else [es[0]] + rest;
      forall k | 0 <= k < |rest|
        ensures rest[k].socket != es[0].socket
      {
        assert rest[k] in es[1..];
      }
    }
  }

  /** Deleting a socket twice is deleting it once. */
  lemma UnregisterIdempotent(es: seq<Entry>, socket: SocketId)
    ensures Unregister(Unregister(es, socket), socket) == Unregister(es, socket)
  {
  }

  /** Connecting a further socket never changes which socket receives a
      user's direct pushes: the earliest registered one keeps them. */
  lemma NewSocketDoesNotStealPushes(es: seq<Entry>, socket: SocketId, user: UserId, receiver: UserId)
    requires !HasSocket(es, socket)
    requires ReceiverSocket(es, receiver).Some?
    ensures ReceiverSocket(Register(es, socket, user), receiver) == ReceiverSocket(es, receiver)
  {
    var r := Register(es, socket, user);
    assert r == es + [Entry(socket, user)] by {
      forall k | 0 <= k < |es|
        ensures es[k].socket != socket
      {
        assert !HasSocket(es, socket);
      }
    }
    Seqs.FirstIndexAppend(es, [Entry(socket, user)], UserIs(receiver));
  }

  /** Connection keeps socket ids unique in the registry. */
  lemma ConnectKeepsSocketsDistinct(g: Gateway, client: Socket, hs: Handshake, verify: string -> Option<UserId>)
    requires DistinctSockets(g.connected)
    ensures DistinctSockets(HandleConnection(g, client, hs, verify).0.connected)
  {
    var token := SelectToken(hs);
    if token.Some? && verify(token.value).Some? {
      var sub := verify(token.value).value;
      assert HandleConnection(g, client, hs, verify).0.connected == Register(g.connected, client.id, sub);
      RegisterKeepsSocketsDistinct(g.connected, client.id, sub);
    } else {
      assert HandleConnection(g, client, hs, verify).0.connected == g.connected;
    }
  }

  /** Disconnection keeps socket ids unique in the registry. */
  lemma DisconnectKeepsSocketsDistinct(g: Gateway, client: Socket)
    requires DistinctSockets(g.connected)
    ensures DistinctSockets(HandleDisconnect(g, client).connected)
  {
    if Authenticated(client) {
      UnregisterKeepsSocketsDistinct(g.connected, client.id);
    }
  }

  /** `userOffline` goes out on every authenticated disconnect, even while
      the same user is still reachable through another socket. */
  lemma OfflineDespiteOtherSocket(g: Gateway, client: Socket, other: SocketId)
    requires Authenticated(client) && other != client.id
    requires Lookup(g.connected, other) == Some(client.userId.value)
    ensures var g' := HandleDisconnect(g, client);
            && g'.log[|g'.log| - 1] == Emit(ToOthers(client.id), UserOffline, Presence(client.userId.value))
            && ReceiverSocket(g'.connected, client.userId.value).Some?
  {
    var g' := HandleDisconnect(g, client);
    assert Lookup(g'.connected, other) == Some(client.userId.value);
    assert Entry(other, client.userId.value) in g'.connected;
  }

  /** A token whose subject is the empty string registers the socket, but the
      socket then fails every authentication test: its intents are refused
      and its disconnect leaves the entry behind. */
  lemma EmptySubjectLeavesStaleEntry(g: Gateway, client: Socket, hs: Handshake, verify: string -> Option<UserId>)
    requires SelectToken(hs).Some? && verify(SelectToken(hs).value) == Some([])
    ensures var (g', client') := HandleConnection(g, client, hs, verify);
            && Lookup(g'.connected, client.id) == Some([])
            && !Authenticated(client')
            && Lookup(HandleDisconnect(g', client').connected, client.id) == Some([])
  {
  }

  /** A send to a receiver with no registered socket pushes nothing: the
      gateway is left as it was, whether or not the send succeeds. */
  lemma OfflineReceiverGetsNoPush(g: Gateway, st: Store, dto: ChatService.CreateMessageDto, client: Socket,
                                  id: MessageId, now: Time)
    requires forall i :: 0 <= i < |g.connected| ==> g.connected[i].user != dto.receiverId
    ensures HandleMessage(g, st, dto, client, id, now).gateway == g
  {
  }

  /** A successful send to an online receiver pushes the message to exactly
      one socket: the first one registered for them. */
  lemma OnlineReceiverGetsOnePush(g: Gateway, st: Store, dto: ChatService.CreateMessageDto, client: Socket,
                                  id: MessageId, now: Time, i: nat)
    requires i < |g.connected| && g.connected[i].user == dto.receiverId && g.connected[i].socket != []
    requires forall j :: 0 <= j < i ==> g.connected[j].user != dto.receiverId
    ensures var r := HandleMessage(g, st, dto, client, id, now);
            r.reply.Success? ==>
              && r.reply.message.Some?
              && r.gateway.log == g.log + [Emit(ToSocket(g.connected[i].socket), NewMessage,
                                                Delivered(r.reply.message.value))]
  {
    var r := HandleMessage(g, st, dto, client, id, now);
    if r.reply.Success? {
      var pushed := ReceiverSocket(g.connected, dto.receiverId);
      var k :| 0 <= k < |g.connected| && g.connected[k] == Entry(pushed.value, dto.receiverId)
               && forall j :: 0 <= j < k ==> g.connected[j].user != dto.receiverId;
      assert k == i;
    }
  }

  /** Deleting a socket that is not the receiver's push target leaves the
      push target as it was: `delete` keeps the other entries in order, so
      the first entry of the receiver stays first. */
  lemma {:induction false} DisconnectOtherKeepsPushTarget(es: seq<Entry>, socket: SocketId, receiver: UserId)
    requires ReceiverSocket(es, receiver) != Some(socket)
    ensures ReceiverSocket(Unregister(es, socket), receiver) == ReceiverSocket(es, receiver)
  {
    if |es| > 0 {
      var rest := Unregister(es[1..], socket);
      assert es == [es[0]] + es[1..];
      ReceiverSocketCons(es[0], es[1..], receiver);
      if es[0].user != receiver {
        DisconnectOtherKeepsPushTarget(es[1..], socket, receiver);
      }
      if es[0].socket != socket {
        ReceiverSocketCons(es[0], rest, receiver);
      }
    }
  }

  /** The push target of a registry is its head when the head belongs to
      the receiver, and otherwise the push target of the remainder. */
  lemma ReceiverSocketCons(e: Entry, rest: seq<Entry>, receiver: UserId)
    ensures ReceiverSocket([e] + rest, receiver)
            == if e.user == receiver then Some(e.socket) else ReceiverSocket(rest, receiver)
  {
    var es := [e] + rest;
    assert es[0] == e && es[1..] == rest;
    if e.user != receiver {
      match Seqs.FirstIndex(rest, UserIs(receiver))
      case None =>
      case Some(k) => assert es[k + 1] == rest[k];
    }
  }

  /** The authentication gate: every intent of an unauthenticated socket is
      answered `{ error: 'Não autenticado' }` and changes neither the
      gateway nor the store. */
  lemma UnauthenticatedIntentsChangeNothing(g: Gateway, st: Store, dto: ChatService.CreateMessageDto,
                                            groupId: GroupId, content: string, userId: UserId,
                                            client: Socket, id: MessageId, now: Time)
    requires !Authenticated(client)
    ensures HandleMessage(g, st, dto, client, id, now) == Step(g, st, Failure(NotAuthenticated))
    ensures HandleGroupMessage(g, st, groupId, content, client, id, now) == Step(g, st, Failure(NotAuthenticated))
    ensures HandleJoinRoom(g, userId, client) == (g, Failure(NotAuthenticated))
    ensures HandleLeaveRoom(g, userId, client) == (g, Failure(NotAuthenticated))
    ensures HandleJoinGroup(g, groupId, client) == (g, Failure(NotAuthenticated))
    ensures HandleLeaveGroup(g, groupId, client) == (g, Failure(NotAuthenticated))
  {
  }

  /** `g'` keeps `g`'s registry and only appends to its log. */
  predicate Extends(g: Gateway, g': Gateway) {
    g'.connected == g.connected && |g.log| <= |g'.log| && g'.log[..|g.log|] == g.log
  }

  /** Only connection and disconnection touch the registry: every intent
      keeps it, and every intent only appends to the effect log. */
  lemma IntentsKeepRegistry(g: Gateway, st: Store, dto: ChatService.CreateMessageDto,
                            groupId: GroupId, content: string, userId: UserId,
                            client: Socket, id: MessageId, now: Time)
    ensures Extends(g, HandleMessage(g, st, dto, client, id, now).gateway)
    ensures Extends(g, HandleGroupMessage(g, st, groupId, content, client, id, now).gateway)
    ensures Extends(g, HandleJoinRoom(g, userId, client).0)
    ensures Extends(g, HandleLeaveRoom(g, userId, client).0)
    ensures Extends(g, HandleJoinGroup(g, groupId, client).0)
    ensures Extends(g, HandleLeaveGroup(g, groupId, client).0)
  {
    var g1 := HandleMessage(g, st, dto, client, id, now).gateway;
    assert g1.log[..|g.log|] == g.log;
    var g2 := HandleGroupMessage(g, st, groupId, content, client, id, now).gateway;
    assert g2.log[..|g.log|] == g.log;
  }

  /** A socket that joins a group's room receives that group's messages:
      the room `joinGroup` enters is the room `sendGroupMessage` pushes to,
      and it is no user's private room. */
  lemma JoinedGroupRoomReceivesGroupMessages(g: Gateway, g2: Gateway, st: Store, groupId: GroupId,
                                             content: string, client: Socket, sender: Socket,
                                             id: MessageId, now: Time)
    requires Authenticated(client)
    ensures var joined := HandleJoinGroup(g, groupId, client).0;
            var room := joined.log[|g.log|].room;
            var sent := HandleGroupMessage(g2, st, groupId, content, sender, id, now);
            && joined.log[|g.log|] == Join(client.id, room)
            && (sent.reply.Success? ==> sent.gateway.log[|g2.log|] == Emit(ToRoom(room), NewGroupMessage,
                                                                             Delivered(sent.reply.message.value)))
            && (forall u :: room != UserRoom(u))
  {
    var room := GroupRoom(groupId);
    forall u
      ensures room != UserRoom(u)
    {
      RoomNamesDistinct(u, groupId);
    }
  }
}
