/** End-to-end scenarios of the hub and the command handlers, stated on small concrete
    states, and the two places where the hub and the commands disagree. */
module Scenarios {
  import opened Optional
  import opened Guids
  import opened Seqs
  import opened Messages
  import opened MessageRepository
  import opened ChatService
  import opened Results
  import opened Ordering
  import CreateMessage
  import DeleteMessage
  import opened ChatHub

  /** A connection identifying itself through the `UserId` header. */
  function As(u: UserId, connectionId: ConnectionId): Connection {
    Connection(connectionId, Some(HttpRequest(Some(u), None)))
  }

  /** "u1" and "u2" connect; "u1" says hello. One row is stored and both
      connections are told, the sender's first. */
  lemma HelloReachesBoth()
    ensures var hub := OnConnected(OnConnected(Hub([], map[]), As("u1", "c1")), As("u2", "c2"));
      var r := SendMessage(hub, As("u1", "c1"), "u2", "hello", 1, 100);
      var m := NewMessage(1, "u1", "u2", "hello", 100);
      && r.error == None
      && r.hub.store == [m]
      && r.pushes == [Push("c1", ReceiveMessage, Delivered(ToDto(m))), Push("c2", ReceiveMessage, Delivered(ToDto(m)))]
  {
  }

  /** The state after "u1" and "u2" connect. */
  function BothOnline(): Hub {
    OnConnected(OnConnected(Hub([], map[]), As("u1", "c1")), As("u2", "c2"))
  }

  /** Continuing: "u2" leaves and "u1" says bye. The row is stored but only
      the sender hears of it. */
  lemma ByeWhileAway()
    ensures var hello := SendMessage(BothOnline(), As("u1", "c1"), "u2", "hello", 1, 100);
      var away := OnDisconnected(hello.hub, As("u2", "c2"));
      var bye := SendMessage(away, As("u1", "c1"), "u2", "bye", 2, 200);
      && bye.error == None
      && bye.hub.store == [NewMessage(1, "u1", "u2", "hello", 100), NewMessage(2, "u1", "u2", "bye", 200)]
      && bye.hub.connections == map["u1" := "c1"]
      && bye.pushes == [Push("c1", ReceiveMessage, Delivered(ToDto(NewMessage(2, "u1", "u2", "bye", 200))))]
  {
    var m1 := NewMessage(1, "u1", "u2", "hello", 100);
    var m2 := NewMessage(2, "u1", "u2", "bye", 200);
    HelloReachesBoth();
    var hello := SendMessage(BothOnline(), As("u1", "c1"), "u2", "hello", 1, 100);
    assert BothOnline().connections == map["u1" := "c1", "u2" := "c2"];
    var away := OnDisconnected(hello.hub, As("u2", "c2"));
    assert away == Hub([m1], map["u1" := "c1"]);
    assert 2 !in Ids([m1]);
    var bye := SendMessage(away, As("u1", "c1"), "u2", "bye", 2, 200);
    assert bye.error == None;
  }

  /** When "u2" comes back on a new connection and asks for the history
      with "u1", both messages arrive on that connection, oldest first. */
  lemma HistoryAfterReconnect()
    ensures var m1 := NewMessage(1, "u1", "u2", "hello", 100);
      var m2 := NewMessage(2, "u1", "u2", "bye", 200);
      var back := OnConnected(Hub([m1, m2], map["u1" := "c1"]), As("u2", "c3"));
      LoadMessages(back, As("u2", "c3"), "u1").pushes == [Push("c3", LoadMessagesEvent, History([ToDto(m1), ToDto(m2)]))]
  {
    var m1 := NewMessage(1, "u1", "u2", "hello", 100);
    var m2 := NewMessage(2, "u1", "u2", "bye", 200);
    TwoMessageConversation(m1, m2, "u2", "u1");
  }

  /** Two messages of one conversation, the first older, are read back in
      that order from either side. */
  lemma TwoMessageConversation(m1: Message, m2: Message, a: UserId, b: UserId)
    requires InConversation(a, b, m1) && InConversation(a, b, m2)
    requires m1.sentAt < m2.sentAt
    ensures GetConversation([m1, m2], a, b) == [ToDto(m1), ToDto(m2)]
  {
    BetweenBoth(m1, m2, a, b);
    var c := GetConversation([m1, m2], a, b);
    assert |c| == 2;
    assert multiset(c) == multiset{ToDto(m1), ToDto(m2)} by {
      assert Map(ToDto, [m1, m2]) == [ToDto(m1), ToDto(m2)];
    }
    TwoSorted(c, ToDto(m1), ToDto(m2));
  }

  lemma BetweenBoth(m1: Message, m2: Message, a: UserId, b: UserId)
    requires InConversation(a, b, m1) && InConversation(a, b, m2)
    ensures Between([m1, m2], a, b) == [m1, m2]
  {
    assert [m1, m2][1..] == [m2];
    assert [m2][1..] == [];
  }

  lemma TwoSorted(c: seq<MessageDto>, d1: MessageDto, d2: MessageDto)
    requires |c| == 2 && multiset(c) == multiset{d1, d2}
    requires SortedBy(Timestamp, false, c) && Timestamp(d1) < Timestamp(d2)
    ensures c == [d1, d2]
  {
    assert c == [c[0], c[1]];
    assert multiset{c[0], c[1]} == multiset{d1, d2};
    assert c[0] in multiset{d1, d2} && c[1] in multiset{d1, d2};
    assert Timestamp(c[0]) <= Timestamp(c[1]);
  }

  /** A third user may not delete a message between two others; the store
      is left exactly as it was. */
  lemma OutsiderCannotDelete()
    ensures var store := [NewMessage(1, "u1", "u2", "hello", 100)];
      DeleteMessage.Handle(store, Some("u3"), DeleteMessage.DeleteMessageCommand(1), 300)
        == Completed(store, FailureResult(DeleteMessage.Forbidden))
  {
    var store := [NewMessage(1, "u1", "u2", "hello", 100)];
    assert GetById(store, 1) == Some(store[0]);
  }

  /** The hub path stores content that the command path refuses: an empty
      message is saved and delivered by the hub, while the same message
      sent as a command fails validation and stores nothing. */
  lemma HubSkipsContentRules(hub: Hub, c: Connection, receiverId: UserId, id: Guid, now: Time)
    requires Identified(GetUserId(c)) && id !in Ids(hub.store)
    ensures SendMessage(hub, c, receiverId, "", id, now).error == None
    ensures var sent := CreateMessage.Send(hub.store, CreateMessage.CreateMessageCommand(GetUserId(c).value, receiverId, ""), id, now);
      sent.Completed? && sent.state == hub.store && sent.result.HasFailed()
  {
    CreateMessage.SendRejectsInvalid(hub.store, CreateMessage.CreateMessageCommand(GetUserId(c).value, receiverId, ""), id, now);
  }
}
