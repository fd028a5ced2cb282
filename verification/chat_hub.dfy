/** The real-time hub as a sequential state machine. Its state is the
    message store together with the registry from user id to the id of
    that user's most recently registered connection. Each operation
    returns the next state and the pushes it emits, in emission order.
    Pushes are fire-and-forget: nothing here waits for or retries them. */
module ChatHub {
  import opened Optional
  import opened Guids
  import opened Messages
  import opened MessageRepository
  import opened ChatService

  type ConnectionId = string

  /** The first `UserId` header value and the first `userId` query value of
      the connection's request, each `None` when absent. */
  datatype HttpRequest = HttpRequest(userIdHeader: Option<string>, userIdQuery: Option<string>)

  /** A live connection: its transport id and, when available, its request. */
  datatype Connection = Connection(connectionId: ConnectionId, http: Option<HttpRequest>)

  datatype Hub = Hub(store: seq<Message>, connections: map<UserId, ConnectionId>)

  /** What a push carries: one message, or a conversation history. */
  datatype Payload = Delivered(message: MessageDto) | History(messages: seq<MessageDto>)

  datatype Push = Push(connectionId: ConnectionId, event: string, payload: Payload)

  /** Why an operation failed: no caller identity (the source's
      `HubException`), or the database rejected the save. */
  datatype HubError = UnidentifiedSender | SaveRejected(error: StoreError)

  /** The state after an operation, the pushes it emitted, and its error. */
  datatype Step = Step(hub: Hub, pushes: seq<Push>, error: Option<HubError>)

  const ReceiveMessage := "ReceiveMessage"
  const LoadMessagesEvent := "LoadMessages"

  /** `GetUserId`: the header value when the header is present, else the
      query value. A present but empty header is returned as it is, so it
      hides a query value. */
  function GetUserId(c: Connection): Option<string> {
    match c.http
    case None => None
    case Some(req) => if req.userIdHeader.Some? then req.userIdHeader else req.userIdQuery
  }

  /** The header is consulted before the query string. */
  lemma HeaderTakesPrecedence(id: ConnectionId, header: string, query: Option<string>)
    ensures GetUserId(Connection(id, Some(HttpRequest(Some(header), query)))) == Some(header)
    ensures GetUserId(Connection(id, Some(HttpRequest(None, query)))) == query
    ensures !Identified(GetUserId(Connection(id, None)))
    ensures header == "" ==> !Identified(GetUserId(Connection(id, Some(HttpRequest(Some(header), query)))))
  {
  }

  /** `OnConnectedAsync`: an identified connection becomes its user's
      connection, replacing any earlier one. */
  function OnConnected(hub: Hub, c: Connection): (r: Hub)
    ensures r.store == hub.store
    ensures Identified(GetUserId(c)) ==>
              && GetUserId(c).value in r.connections
              && r.connections[GetUserId(c).value] == c.connectionId
              && forall u :: u != GetUserId(c).value ==> Lookup(r, u) == Lookup(hub, u)
    ensures !Identified(GetUserId(c)) ==> r == hub
  {
    var userId := GetUserId(c);
    if Identified(userId) then hub.(connections := hub.connections[userId.value := c.connectionId])
    else hub
  }

  /** `OnDisconnectedAsync`: the user's entry is removed whichever
      connection it names, so a stale disconnect also evicts a newer
      connection of the same user. */
  function OnDisconnected(hub: Hub, c: Connection): (r: Hub)
    ensures r.store == hub.store
    ensures Identified(GetUserId(c)) ==>
              && GetUserId(c).value !in r.connections
              && forall u :: u != GetUserId(c).value ==> Lookup(r, u) == Lookup(hub, u)
    ensures !Identified(GetUserId(c)) ==> r == hub
  {
    var userId := GetUserId(c);
    if Identified(userId) then hub.(connections := hub.connections - {userId.value}) else hub
  }

  /** `TryGetValue` on the registry. */
  function Lookup(hub: Hub, u: UserId): Option<ConnectionId> {
    if u in hub.connections then Some(hub.connections[u]) else None
  }

  /** A push to `u`'s registered connection, or none when `u` has none. */
  function PushTo(hub: Hub, u: UserId, event: string, payload: Payload): (r: seq<Push>)
    ensures |r| == if u in hub.connections then 1 else 0
    ensures forall p :: p in r ==> p == Push(hub.connections[u], event, payload)
  {
    match Lookup(hub, u)
    case Some(id) => [Push(id, event, payload)]
    case None => []
  }

  /** `SendMessage`: saves once through the chat service, without checking
      the content, then delivers the saved message to the sender's
      registered connection and then to the receiver's, skipping whichever
      is not registered. */
  function SendMessage(hub: Hub, c: Connection, receiverId: UserId, content: string, id: Guid, now: Time): (r: Step)
    ensures r.hub.connections == hub.connections
    ensures r.error.Some? ==> r.hub == hub && r.pushes == []
    ensures !Identified(GetUserId(c)) ==> r.error == Some(UnidentifiedSender)
    ensures Identified(GetUserId(c)) && r.error.Some? ==>
              r.error == Some(SaveRejected(if id in Ids(hub.store) then DuplicateKey(id) else ContentTooLong(id)))
    ensures r.error.None? <==> Identified(GetUserId(c)) && id !in Ids(hub.store) && |content| <= MaxStoredContent
    ensures r.error.None? ==>
              var sender := GetUserId(c).value;
              var m := NewMessage(id, sender, receiverId, content, now);
              && multiset(r.hub.store) == multiset(hub.store) + multiset{m}
              && GetById(r.hub.store, id) == Some(m)
              && |r.pushes| == (if sender in hub.connections then 1 else 0) + (if receiverId in hub.connections then 1 else 0)
              && (forall p :: p in r.pushes ==> p.event == ReceiveMessage && p.payload == Delivered(ToDto(m)))
              && (sender in hub.connections ==> r.pushes[0].connectionId == hub.connections[sender])
              && (receiverId in hub.connections ==> r.pushes[|r.pushes| - 1].connectionId == hub.connections[receiverId])
    ensures r.error.None? && Valid(hub.store) ==> Valid(r.hub.store)
  {
    var senderId := GetUserId(c);
    if !Identified(senderId) then Step(hub, [], Some(UnidentifiedSender))
    else
      match SaveMessage(hub.store, senderId.value, receiverId, content, id, now)
      case SaveFailed(e) => Step(hub, [], Some(SaveRejected(e)))
      case SaveOk(store, dto) => Deliver(hub, store, senderId.value, receiverId, dto)
  }

  /** After a successful save: the new store, and the saved message pushed
      to the sender's registered connection and then to the receiver's. */
  function Deliver(hub: Hub, store: seq<Message>, sender: UserId, receiverId: UserId, dto: MessageDto): (r: Step)
    ensures r.hub == hub.(store := store) && r.error == None
    ensures |r.pushes| == (if sender in hub.connections then 1 else 0) + (if receiverId in hub.connections then 1 else 0)
    ensures forall p :: p in r.pushes ==> p.event == ReceiveMessage && p.payload == Delivered(dto)
    ensures sender in hub.connections ==> r.pushes[0].connectionId == hub.connections[sender]
    ensures receiverId in hub.connections ==> r.pushes[|r.pushes| - 1].connectionId == hub.connections[receiverId]
  {
    var toSender := PushTo(hub, sender, ReceiveMessage, Delivered(dto));
    var toReceiver := PushTo(hub, receiverId, ReceiveMessage, Delivered(dto));
    Step(hub.(store := store), toSender + toReceiver, None)
  }

  /** `LoadMessages`: pushes the caller's conversation with `otherId`, oldest
      first, to the connection registered for the caller, which need not
      be the calling connection. Nothing is pushed to `otherId`. */
  function LoadMessages(hub: Hub, c: Connection, otherId: UserId): (r: Step)
    ensures r.hub == hub
    ensures r.error.Some? ==> r.pushes == []
    ensures r.error.None? <==> Identified(GetUserId(c))
    ensures r.error.Some? ==> r.error == Some(UnidentifiedSender)
    ensures r.error.None? ==>
              var caller := GetUserId(c).value;
              && |r.pushes| == (if caller in hub.connections then 1 else 0)
              && forall p :: p in r.pushes ==>
                   && p.connectionId == hub.connections[caller]
                   && p.event == LoadMessagesEvent
                   && p.payload == History(GetConversation(hub.store, caller, otherId))
  {
    var senderId := GetUserId(c);
    if !Identified(senderId) then Step(hub, [], Some(UnidentifiedSender))
    else
      var messages := GetConversation(hub.store, senderId.value, otherId);
      Step(hub, PushTo(hub, senderId.value, LoadMessagesEvent, History(messages)), None)
  }

  /** Connecting twice as the same user and then closing the first
      connection leaves the user with no registered connection, although
      the second connection is still open. */
  lemma StaleDisconnectEvictsNewer(hub: Hub, c1: Connection, c2: Connection)
    requires Identified(GetUserId(c1)) && GetUserId(c2) == GetUserId(c1)
    requires c1.connectionId != c2.connectionId
    ensures var u := GetUserId(c1).value;
      && Lookup(OnConnected(OnConnected(hub, c1), c2), u) == Some(c2.connectionId)
      && Lookup(OnDisconnected(OnConnected(OnConnected(hub, c1), c2), c1), u) == None
  {
  }

  /** A message to oneself reaches the sender's connection twice. */
  lemma SendToSelfPushesTwice(hub: Hub, c: Connection, content: string, id: Guid, now: Time)
    requires Identified(GetUserId(c)) && GetUserId(c).value in hub.connections
    requires id !in Ids(hub.store) && |content| <= MaxStoredContent
    ensures var r := SendMessage(hub, c, GetUserId(c).value, content, id, now);
      |r.pushes| == 2 && r.pushes[0] == r.pushes[1]
      && r.pushes[0].connectionId == hub.connections[GetUserId(c).value]
  {
  }

  /** Only the registered connection hears a history request: a caller
      whose entry was taken over by a newer connection of the same user
      gets nothing back on the calling connection. */
  lemma HistoryGoesToRegisteredConnection(hub: Hub, c: Connection, newer: ConnectionId, otherId: UserId)
    requires Identified(GetUserId(c)) && newer != c.connectionId
    requires GetUserId(c).value in hub.connections && hub.connections[GetUserId(c).value] == newer
    ensures forall p :: p in LoadMessages(hub, c, otherId).pushes ==> p.connectionId != c.connectionId
  {
  }
}
