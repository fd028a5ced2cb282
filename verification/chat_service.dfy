/** The chat service behind the hub: the conversation read and the save.
    Unlike the repository queries, the conversation read does not consult
    either soft-delete flag, so a message one party deleted still appears
    in that party's conversation history. */
module ChatService {
  import opened Optional
  import opened Guids
  import opened Seqs
  import opened Ordering
  import opened Messages
  import opened MessageRepository

  /** The messages exchanged between `a` and `b` in either direction, in
      store order, each as often as it is stored. The delete flags are not
      consulted. */
  function Between(store: seq<Message>, a: UserId, b: UserId): (r: seq<Message>)
    ensures forall m :: m in r <==> m in store && InConversation(a, b, m)
    ensures forall m :: multiset(r)[m] == if InConversation(a, b, m) then multiset(store)[m] else 0
  {
    Filter((m: Message) => InConversation(a, b, m), store)
  }

  /** `GetConversationAsync`: the exchanged messages, oldest first, as DTOs. */
  function GetConversation(store: seq<Message>, a: UserId, b: UserId): (r: seq<MessageDto>)
    ensures |r| == |Between(store, a, b)|
    ensures SortedBy(Timestamp, false, r)
    ensures multiset(r) == multiset(Map(ToDto, Between(store, a, b)))
  {
    var sorted := Sort(SentAt, false, Between(store, a, b));
    MapSorted(SentAt, Timestamp, ToDto, false, sorted);
    MapMultiset(ToDto, sorted, Between(store, a, b));
    Map(ToDto, sorted)
  }

  /** A DTO is in the conversation exactly when it projects a message
      exchanged between the two users, whatever that message's flags say. */
  lemma ConversationMembers(store: seq<Message>, a: UserId, b: UserId, d: MessageDto)
    ensures d in GetConversation(store, a, b) <==> exists m :: m in store && InConversation(a, b, m) && ToDto(m) == d
  {
    var mapped := Map(ToDto, Between(store, a, b));
    assert d in GetConversation(store, a, b) <==> d in mapped by {
      assert d in multiset(GetConversation(store, a, b)) <==> d in multiset(mapped);
    }
    MapMember(ToDto, Between(store, a, b), d);
  }

  /** Swapping the two users selects the same rows in the same order. */
  lemma BetweenSymmetric(store: seq<Message>, a: UserId, b: UserId)
    ensures Between(store, a, b) == Between(store, b, a)
  {
    FilterCongruent((m: Message) => InConversation(a, b, m), (m: Message) => InConversation(b, a, m), store);
  }

  /** The conversation of `a` with `b` is the conversation of `b` with `a`. */
  lemma ConversationSymmetric(store: seq<Message>, a: UserId, b: UserId)
    ensures GetConversation(store, a, b) == GetConversation(store, b, a)
  {
    BetweenSymmetric(store, a, b);
  }

  /** The filter reads only the two ids, so it commutes with `Strip`. */
  lemma BetweenStrip(store: seq<Message>, a: UserId, b: UserId)
    ensures Between(Map(Strip, store), a, b) == Map(Strip, Between(store, a, b))
  {
    FilterMap((m: Message) => InConversation(a, b, m), Strip, store);
  }

  /** The conversation depends only on the stripped messages: stores that
      differ only in read flags, delete flags and deletion audit give the
      same conversation. */
  lemma ConversationIgnoresDeletion(s1: seq<Message>, s2: seq<Message>, a: UserId, b: UserId)
    requires Map(Strip, s1) == Map(Strip, s2)
    ensures GetConversation(s1, a, b) == GetConversation(s2, a, b)
  {
    StrippedConversation(s1, a, b);
    StrippedConversation(s2, a, b);
  }

  lemma StrippedConversation(store: seq<Message>, a: UserId, b: UserId)
    ensures GetConversation(store, a, b) == Sort(Timestamp, false, Map(ToDto, Between(Map(Strip, store), a, b)))
  {
    var between := Between(store, a, b);
    SortMap(SentAt, Timestamp, ToDto, false, between);
    BetweenStrip(store, a, b);
    var stripped := Map(Strip, between);
    assert Map(ToDto, stripped) == Map(ToDto, between);
  }

  /** Result of a save: the new store and the DTO handed back, or the
      database error that was thrown. */
  datatype SaveOutcome = SaveOk(store: seq<Message>, dto: MessageDto) | SaveFailed(error: StoreError)

  /** `SaveMessageAsync`: stores a new message stamped `now` under the key
      `id` the database generates, and returns its DTO. Sender, receiver and
      content are taken as given; only the table's own constraints apply. */
  function SaveMessage(store: seq<Message>, senderId: UserId, receiverId: UserId, content: string,
                       id: Guid, now: Time): (r: SaveOutcome)
    ensures r.SaveOk? <==> id !in Ids(store) && |content| <= MaxStoredContent
    ensures r.SaveOk? ==>
              && GetById(r.store, id) == Some(NewMessage(id, senderId, receiverId, content, now))
              && (forall other :: other != id ==> GetById(r.store, other) == GetById(store, other))
              && multiset(r.store) == multiset(store) + multiset{NewMessage(id, senderId, receiverId, content, now)}
              && r.dto == ToDto(GetById(r.store, id).value)
    ensures r.SaveOk? && Valid(store) ==> Valid(r.store)
    ensures r.SaveFailed? && id in Ids(store) ==> r.error == DuplicateKey(id)
    ensures r.SaveFailed? && id !in Ids(store) ==> r.error == ContentTooLong(id)
  {
    var m := NewMessage(id, senderId, receiverId, content, now);
    match Add(store, m)
    case Saved(s) => SaveOk(s, ToDto(m))
    case Rejected(e) => SaveFailed(e)
  }

  /** Saving applies no content rules of its own: an empty message between
      any two users is stored like any other. */
  lemma SaveAcceptsEmptyContent(store: seq<Message>, senderId: UserId, receiverId: UserId, id: Guid, now: Time)
    requires id !in Ids(store)
    ensures SaveMessage(store, senderId, receiverId, "", id, now).SaveOk?
  {
  }
}
