/** The `Message` entity with the audit fields it inherits from `BaseEntity`,
    the schema constraints the message table enforces, and the `MessageDto`
    shape pushed to clients. */
module Messages {
  import opened Optional
  import opened Guids

  /** User ids are opaque strings owned by the identity store. */
  type UserId = string

  /** A UTC instant, as a count of ticks. */
  type Time = int

  /** One stored message. `deletedBy`/`deletedAt` are the audit fields of
      `BaseEntity`; `deletedAt == None` stands for the default instant a
      message carries until someone soft-deletes it. The other `BaseEntity`
      audit fields are never written by the messaging code and are omitted. */
  datatype Message = Message(
    id: Guid,
    senderId: UserId,
    recipientId: UserId,
    content: string,
    sentAt: Time,
    isRead: bool,
    isDeletedBySender: bool,
    isDeletedByRecipient: bool,
    deletedBy: string,
    deletedAt: Option<Time>)

  /** `new Message { Id, SenderId, RecipientId, Content, SentAt }`: every other
      property keeps its initialiser. Nothing here relates sender and
      recipient, so a user may message themself. */
  function NewMessage(id: Guid, senderId: UserId, recipientId: UserId, content: string, now: Time): Message
  {
    Message(id, senderId, recipientId, content, now, false, false, false, "", None)
  }

  /** Column bound on `Content` in the message table. */
  const MaxStoredContent: nat := 2000

  /** The column constraints of one row: `Content` is required (never null
      here, by typing) and at most 2000 characters; `SentAt` is a non-null
      instant by typing. */
  predicate ValidRow(m: Message) {
    |m.content| <= MaxStoredContent
  }

  /** The ids present in a store. */
  function Ids(store: seq<Message>): set<Guid> {
    set m | m in store :: m.id
  }

  /** `Id` is the primary key. */
  predicate UniqueIds(store: seq<Message>) {
    forall i, j :: 0 <= i < j < |store| ==> store[i].id != store[j].id
  }

  /** What the message table guarantees of its rows at every moment. */
  predicate Valid(store: seq<Message>) {
    UniqueIds(store) && forall i :: 0 <= i < |store| ==> ValidRow(store[i])
  }

  /** The primary key: a valid store has exactly as many distinct keys as
      rows, and every row's content fits the column. */
  lemma ValidIsKeyAndFit(store: seq<Message>)
    ensures Valid(store) <==> |Ids(store)| == |store| && forall m :: m in store ==> ValidRow(m)
  {
    KeyCount(store);
  }

  /** There are never more keys than rows, and as many exactly when no key
      repeats. */
  lemma {:induction false} KeyCount(store: seq<Message>)
    ensures |Ids(store)| <= |store|
    ensures UniqueIds(store) <==> |Ids(store)| == |store|
    decreases |store|
  {
    if |store| > 0 {
      IdsCons(store);
      UniqueCons(store);
      KeyCount(store[1..]);
    }
  }

  lemma IdsCons(s: seq<Message>)
    requires |s| > 0
    ensures Ids(s) == {s[0].id} + Ids(s[1..])
  {
    assert s == [s[0]] + s[1..];
  }

  /** Keys are unique exactly when the first key is not among the rest and
      the rest are unique. */
  lemma UniqueCons(store: seq<Message>)
    requires |store| > 0
    ensures UniqueIds(store) <==> store[0].id !in Ids(store[1..]) && UniqueIds(store[1..])
  {
    var t := store[1..];
    if UniqueIds(store) {
      forall i, j | 0 <= i < j < |t| ensures t[i].id != t[j].id {
        assert t[i] == store[i + 1] && t[j] == store[j + 1];
      }
      forall k | 0 <= k < |t| ensures t[k].id != store[0].id {
        assert t[k] == store[k + 1];
      }
    }
    if store[0].id !in Ids(t) && UniqueIds(t) {
      forall i, j | 0 <= i < j < |store| ensures store[i].id != store[j].id {
        assert store[j] == t[j - 1];
        if i > 0 {
          assert store[i] == t[i - 1];
        }
      }
    }
  }

  /** A message is visible to `u` when `u` is a participant whose own
      delete flag is clear. */
  predicate Visible(u: UserId, m: Message) {
    (m.senderId == u && !m.isDeletedBySender) || (m.recipientId == u && !m.isDeletedByRecipient)
  }

  /** `m` was sent between `a` and `b`, in either direction. */
  predicate InConversation(a: UserId, b: UserId, m: Message) {
    (m.senderId == a && m.recipientId == b) || (m.senderId == b && m.recipientId == a)
  }

  function SentAt(m: Message): Time { m.sentAt }

  /** The caller is identified: the id is neither null nor empty
      (`!string.IsNullOrEmpty`). */
  predicate Identified(id: Option<UserId>) {
    id.Some? && id.value != ""
  }

  /** A freshly constructed message is unread, visible to both parties and
      carries no deletion audit; it is a valid row exactly when its content
      fits the column. */
  lemma NewMessageDefaults(id: Guid, s: UserId, r: UserId, content: string, now: Time)
    ensures var m := NewMessage(id, s, r, content, now);
      && m.id == id && m.senderId == s && m.recipientId == r && m.content == content
      && m.sentAt == now
      && !m.isRead
      && !m.isDeletedBySender && !m.isDeletedByRecipient
      && Visible(s, m) && Visible(r, m)
      && m.deletedBy == "" && m.deletedAt == None
      && (ValidRow(m) <==> |content| <= MaxStoredContent)
  {
  }

  /** The message shape pushed over the hub. */
  datatype MessageDto = MessageDto(id: Guid, senderId: UserId, receiverId: UserId, content: string, timestamp: Time)

  function Timestamp(d: MessageDto): Time { d.timestamp }

  /** The projection used by the chat service. */
  function ToDto(m: Message): (d: MessageDto)
    ensures d.id == m.id && d.senderId == m.senderId && d.receiverId == m.recipientId
    ensures d.content == m.content && d.timestamp == m.sentAt
  {
    MessageDto(m.id, m.senderId, m.recipientId, m.content, m.sentAt)
  }

  /** `m` with its read flag, delete flags and deletion audit reset: the part
      of a message that the read and delete operations never change. */
  function Strip(m: Message): (r: Message)
    ensures ToDto(r) == ToDto(m)
    ensures InConversation(r.senderId, r.recipientId, m)
  {
    m.(isRead := false, isDeletedBySender := false, isDeletedByRecipient := false,
       deletedBy := "", deletedAt := None)
  }
}
