/** The message repository over a store modelled as a sequence of rows.
    Reads never change the store; writes return the new store or the error
    the database raises (duplicate key, missing row, over-long content, or
    paging arguments SQL Server refuses). */
module MessageRepository {
  import opened Optional
  import opened Guids
  import opened Seqs
  import opened Ordering
  import opened Messages

  /** Why the database rejects a statement. */
  datatype StoreError =
    | DuplicateKey(id: Guid)
    | RowMissing(id: Guid)
    | ContentTooLong(id: Guid)
    | PagingRejected(pageNumber: int, pageSize: int)

  /** Outcome of a write: the new store, or the error that was thrown. */
  datatype Saved = Saved(store: seq<Message>) | Rejected(error: StoreError)

  /** `GetByIdAsync`: the first row with this id, or `None` (the source's null). */
  function GetById(store: seq<Message>, id: Guid): (r: Option<Message>)
    ensures r.Some? <==> id in Ids(store)
    ensures r.Some? ==> r.value in store && r.value.id == id
    decreases |store|
  {
    if |store| == 0 then None
    else if store[0].id == id then Some(store[0])
    else
      assert Ids(store) == {store[0].id} + Ids(store[1..]) by {
        assert store == [store[0]] + store[1..];
      }
      GetById(store[1..], id)
  }

  /** Under the primary key, the row found is the one row with that id. */
  lemma GetByIdUnique(store: seq<Message>, i: nat)
    requires UniqueIds(store) && i < |store|
    ensures GetById(store, store[i].id) == Some(store[i])
  {
    var r := GetById(store, store[i].id);
    var j :| 0 <= j < |store| && store[j] == r.value;
    assert store[j].id == store[i].id;
  }

  /** `GetAllAsync`: every row. */
  function GetAll(store: seq<Message>): (r: seq<Message>)
    ensures multiset(r) == multiset(store)
  {
    store
  }

  predicate SentAndKeptBy(u: UserId, m: Message) {
    m.senderId == u && !m.isDeletedBySender
  }

  predicate ReceivedAndKeptBy(u: UserId, m: Message) {
    m.recipientId == u && !m.isDeletedByRecipient
  }

  /** `GetBySenderIdAsync`: the messages `u` sent and has not soft-deleted. */
  function GetBySender(store: seq<Message>, u: UserId): (r: seq<Message>)
    ensures forall m :: m in r <==> m in store && m.senderId == u && !m.isDeletedBySender
    ensures forall m :: multiset(r)[m] == if SentAndKeptBy(u, m) then multiset(store)[m] else 0
  {
    Filter(m => SentAndKeptBy(u, m), store)
  }

  /** `GetByRecipientIdAsync`: the messages `u` received and has not soft-deleted. */
  function GetByRecipient(store: seq<Message>, u: UserId): (r: seq<Message>)
    ensures forall m :: m in r <==> m in store && m.recipientId == u && !m.isDeletedByRecipient
    ensures forall m :: multiset(r)[m] == if ReceivedAndKeptBy(u, m) then multiset(store)[m] else 0
  {
    Filter(m => ReceivedAndKeptBy(u, m), store)
  }

  /** `AddAsync`: inserts a row; the key and the content column may reject it. */
  function Add(store: seq<Message>, m: Message): (r: Saved)
    ensures r.Saved? <==> m.id !in Ids(store) && ValidRow(m)
    ensures m.id in Ids(store) ==> r == Rejected(DuplicateKey(m.id))
    ensures m.id !in Ids(store) && !ValidRow(m) ==> r == Rejected(ContentTooLong(m.id))
    ensures r.Saved? ==> multiset(r.store) == multiset(store) + multiset{m}
    ensures r.Saved? ==> GetById(r.store, m.id) == Some(m)
    ensures r.Saved? ==> forall id :: id != m.id ==> GetById(r.store, id) == GetById(store, id)
    ensures r.Saved? && Valid(store) ==> Valid(r.store)
  {
    if m.id in Ids(store) then Rejected(DuplicateKey(m.id))
    else if !ValidRow(m) then Rejected(ContentTooLong(m.id))
    else
      AppendLookup(store, m);
      AppendValid(store, m);
      Saved(store + [m])
  }

  lemma {:induction false} AppendLookup(store: seq<Message>, m: Message)
    requires m.id !in Ids(store)
    ensures GetById(store + [m], m.id) == Some(m)
    ensures forall id :: id != m.id ==> GetById(store + [m], id) == GetById(store, id)
    decreases |store|
  {
    if |store| > 0 {
      assert (store + [m])[1..] == store[1..] + [m];
      assert Ids(store[1..]) <= Ids(store) by {
        forall x | x in store[1..] ensures x in store { }
      }
      AppendLookup(store[1..], m);
    }
  }

  lemma AppendValid(store: seq<Message>, m: Message)
    requires m.id !in Ids(store) && ValidRow(m)
    ensures Valid(store) ==> Valid(store + [m])
  {
    var s := store + [m];
    if Valid(store) {
      forall i, j | 0 <= i < j < |s| ensures s[i].id != s[j].id {
        if j == |store| { assert s[i] in store; }
      }
    }
  }

  /** The rows with `m`'s id replaced by `m`. */
  function Replace(store: seq<Message>, m: Message): (r: seq<Message>)
    ensures |r| == |store|
    ensures forall i :: 0 <= i < |r| ==> r[i] == if store[i].id == m.id then m else store[i]
  {
    if |store| == 0 then [] else [if store[0].id == m.id then m else store[0]] + Replace(store[1..], m)
  }

  /** `UpdateAsync`: overwrites the row with `m`'s key. Saving changes to a
      row that is not in the table affects no row and is reported as a
      failure, as is content the column cannot hold. */
  function Update(store: seq<Message>, m: Message): (r: Saved)
    ensures r.Saved? <==> m.id in Ids(store) && ValidRow(m)
    ensures m.id !in Ids(store) ==> r == Rejected(RowMissing(m.id))
    ensures m.id in Ids(store) && !ValidRow(m) ==> r == Rejected(ContentTooLong(m.id))
    ensures r.Saved? ==> |r.store| == |store| && Ids(r.store) == Ids(store)
    ensures r.Saved? ==> GetById(r.store, m.id) == Some(m)
    ensures r.Saved? ==> forall id :: id != m.id ==> GetById(r.store, id) == GetById(store, id)
    ensures r.Saved? && Valid(store) ==> Valid(r.store)
  {
    if m.id !in Ids(store) then Rejected(RowMissing(m.id))
    else if !ValidRow(m) then Rejected(ContentTooLong(m.id))
    else
      ReplaceLookup(store, m);
      ReplaceValid(store, m);
      Saved(Replace(store, m))
  }

  lemma {:induction false} ReplaceLookup(store: seq<Message>, m: Message)
    ensures Ids(Replace(store, m)) == Ids(store)
    ensures m.id in Ids(store) ==> GetById(Replace(store, m), m.id) == Some(m)
    ensures forall id :: id != m.id ==> GetById(Replace(store, m), id) == GetById(store, id)
    decreases |store|
  {
    var r := Replace(store, m);
    if |store| > 0 {
      assert r[1..] == Replace(store[1..], m);
      assert store == [store[0]] + store[1..];
      assert r == [r[0]] + r[1..];
      ReplaceLookup(store[1..], m);
      IdsCons(store);
      IdsCons(r);
    }
  }

  lemma ReplaceValid(store: seq<Message>, m: Message)
    requires ValidRow(m)
    ensures Valid(store) ==> Valid(Replace(store, m))
  {
    var r := Replace(store, m);
    forall i | 0 <= i < |r| ensures r[i].id == store[i].id {
    }
  }

  /** The rows whose id differs from `id`, in order. */
  function Without(store: seq<Message>, id: Guid): (r: seq<Message>)
    ensures |r| <= |store|
    ensures forall m :: m in r <==> m in store && m.id != id
  {
    if |store| == 0 then []
    else
      var rest := Without(store[1..], id);
      assert store == [store[0]] + store[1..];
      if store[0].id == id then rest else [store[0]] + rest
  }

  /** `DeleteAsync`: removes the row with this id; an absent id changes nothing. */
  function Delete(store: seq<Message>, id: Guid): (r: seq<Message>)
    ensures id !in Ids(store) ==> r == store
    ensures id !in Ids(r) && Ids(r) == Ids(store) - {id}
    ensures forall other :: other != id ==> GetById(r, other) == GetById(store, other)
    ensures UniqueIds(store) && id in Ids(store) ==> |r| == |store| - 1
    ensures Valid(store) ==> Valid(r)
  {
    WithoutAbsent(store, id);
    WithoutLookup(store, id);
    WithoutValid(store, id);
    WithoutCount(store, id);
    Without(store, id)
  }

  lemma {:induction false} WithoutAbsent(store: seq<Message>, id: Guid)
    ensures id !in Ids(store) ==> Without(store, id) == store
    decreases |store|
  {
    if |store| > 0 && id !in Ids(store) {
      IdsCons(store);
      WithoutAbsent(store[1..], id);
      assert store == [store[0]] + store[1..];
    }
  }

  lemma {:induction false} WithoutLookup(store: seq<Message>, id: Guid)
    ensures Ids(Without(store, id)) == Ids(store) - {id}
    ensures forall other :: other != id ==> GetById(Without(store, id), other) == GetById(store, other)
    decreases |store|
  {
    if |store| > 0 {
      var rest := Without(store[1..], id);
      WithoutLookup(store[1..], id);
      IdsCons(store);
      if store[0].id != id {
        var r := [store[0]] + rest;
        assert r[1..] == rest;
        IdsCons(r);
      }
    }
  }

  lemma {:induction false} WithoutValid(store: seq<Message>, id: Guid)
    ensures Valid(store) ==> Valid(Without(store, id))
    decreases |store|
  {
    if |store| > 0 && Valid(store) {
      var rest := Without(store[1..], id);
      UniqueTail(store);
      WithoutValid(store[1..], id);
      if store[0].id != id {
        HeadNotInTail(store);
        WithoutLookup(store[1..], id);
        ConsValid(store[0], rest);
      }
    }
  }

  /** The tail of a keyed store is keyed. */
  lemma UniqueTail(store: seq<Message>)
    requires |store| > 0
    ensures UniqueIds(store) ==> UniqueIds(store[1..])
    ensures Valid(store) ==> Valid(store[1..])
  {
    forall i, j | 0 <= i < j < |store[1..]| ensures store[1..][i] == store[i + 1] && store[1..][j] == store[j + 1] {
    }
  }

  /** Under the key, the first row's id does not recur. */
  lemma HeadNotInTail(store: seq<Message>)
    requires |store| > 0 && UniqueIds(store)
    ensures store[0].id !in Ids(store[1..])
  {
    forall m | m in store[1..] ensures m.id != store[0].id {
      var k :| 0 <= k < |store[1..]| && store[1..][k] == m;
      assert store[k + 1] == m;
    }
  }

  /** A valid row whose id is new keeps a valid store valid in front of it. */
  lemma ConsValid(m: Message, rest: seq<Message>)
    requires Valid(rest) && ValidRow(m) && m.id !in Ids(rest)
    ensures Valid([m] + rest)
  {
    var r := [m] + rest;
    forall i, j | 0 <= i < j < |r| ensures r[i].id != r[j].id {
      assert r[j] == rest[j - 1];
      if i > 0 {
        assert r[i] == rest[i - 1];
      } else {
        assert r[j] in rest;
      }
    }
  }

  lemma {:induction false} WithoutCount(store: seq<Message>, id: Guid)
    ensures UniqueIds(store) && id in Ids(store) ==> |Without(store, id)| == |store| - 1
    decreases |store|
  {
    if |store| > 0 && UniqueIds(store) && id in Ids(store) {
      IdsCons(store);
      UniqueTail(store);
      if store[0].id == id {
        HeadNotInTail(store);
        WithoutAbsent(store[1..], id);
      } else {
        WithoutCount(store[1..], id);
      }
    }
  }

  /** `MarkAsReadAsync`: sets `IsRead` on the row with this id through an
      update; an absent id changes nothing. */
  function MarkAsRead(store: seq<Message>, id: Guid): (r: seq<Message>)
    requires Valid(store)
    ensures id !in Ids(store) ==> r == store
    ensures Valid(r) && Ids(r) == Ids(store) && |r| == |store|
    ensures forall other :: other != id ==> GetById(r, other) == GetById(store, other)
    ensures id in Ids(store) ==> GetById(r, id) == Some(GetById(store, id).value.(isRead := true))
  {
    match GetById(store, id)
    case None => store
    case Some(m) =>
      var j :| 0 <= j < |store| && store[j] == m;
      assert ValidRow(m);
      Update(store, m.(isRead := true)).store
  }

  /** Marking a message read a second time changes nothing. */
  lemma MarkAsReadIdempotent(store: seq<Message>, id: Guid)
    requires Valid(store)
    ensures MarkAsRead(MarkAsRead(store, id), id) == MarkAsRead(store, id)
  {
    var once := MarkAsRead(store, id);
    if id in Ids(store) {
      var m := GetById(once, id).value;
      assert m.isRead;
      assert m == m.(isRead := true);
      ReplaceSame(once, m);
    }
  }

  /** Overwriting a row with itself leaves the store as it was. */
  lemma ReplaceSame(store: seq<Message>, m: Message)
    requires UniqueIds(store) && GetById(store, m.id) == Some(m)
    ensures Replace(store, m) == store
  {
    var j :| 0 <= j < |store| && store[j] == m;
    forall i | 0 <= i < |store| && store[i].id == m.id
      ensures store[i] == m
    {
      SameIdSameRow(store, i, j);
    }
  }

  lemma SameIdSameRow(store: seq<Message>, i: nat, j: nat)
    requires UniqueIds(store) && i < |store| && j < |store|
    requires store[i].id == store[j].id
    ensures i == j
  {
  }

  /** Deleting the row just added gives back the store it was added to. */
  lemma AddThenDelete(store: seq<Message>, m: Message)
    requires Add(store, m).Saved?
    ensures Delete(Add(store, m).store, m.id) == store
  {
    WithoutAppend(store, m);
  }

  lemma {:induction false} WithoutAppend(store: seq<Message>, m: Message)
    requires m.id !in Ids(store)
    ensures Without(store + [m], m.id) == store
    decreases |store|
  {
    if |store| == 0 {
      assert store + [m] == [m];
    } else {
      assert (store + [m])[1..] == store[1..] + [m];
      assert store[0] in store;
      assert m.id !in Ids(store[1..]) by {
        forall x | x in store[1..] ensures x.id != m.id {
          assert x in store;
        }
      }
      WithoutAppend(store[1..], m);
      assert store == [store[0]] + store[1..];
    }
  }

  /** What a user may see is what they sent and kept plus what they
      received and kept. */
  lemma VisibleIsSentOrReceived(store: seq<Message>, u: UserId, m: Message)
    ensures m in VisibleTo(store, u) <==> m in GetBySender(store, u) || m in GetByRecipient(store, u)
  {
  }

  /** One page of the user's feed and the size of the whole feed. */
  datatype Page = Page(messages: seq<Message>, totalCount: nat)

  /** Everything `u` may see, in store order. */
  function VisibleTo(store: seq<Message>, u: UserId): (r: seq<Message>)
    ensures forall m :: m in r <==> m in store && Visible(u, m)
  {
    Filter(m => Visible(u, m), store)
  }

  /** Everything `u` may see, newest first. */
  function Feed(store: seq<Message>, u: UserId): (r: seq<Message>)
    ensures SortedBy(SentAt, true, r)
    ensures multiset(r) == multiset(VisibleTo(store, u))
    ensures |r| == |VisibleTo(store, u)|
  {
    Sort(SentAt, true, VisibleTo(store, u))
  }

  /** LINQ `Skip(skip).Take(take)` on a sequence. */
  function SkipTake<T>(s: seq<T>, skip: nat, take: nat): (r: seq<T>)
    ensures |r| == if skip >= |s| then 0 else if take < |s| - skip then take else |s| - skip
    ensures forall i :: 0 <= i < |r| ==> skip + i < |s| && r[i] == s[skip + i]
  {
    var lo := if skip < |s| then skip else |s|;
    var hi := if lo + take < |s| then lo + take else |s|;
    s[lo..hi]
  }

  /** The number of feed entries before page `pageNumber`. */
  function Offset(pageNumber: int, pageSize: int): (k: nat)
    requires pageNumber >= 1 && pageSize >= 0
  {
    (pageNumber - 1) * pageSize
  }

  /** The page a query with a valid page number and size selects, with
      1-based page numbers. */
  function GetPaged(store: seq<Message>, u: UserId, pageNumber: int, pageSize: int): (r: Page)
    requires pageNumber >= 1 && pageSize >= 1
    ensures forall m :: m in r.messages ==> m in store && Visible(u, m)
    ensures r.totalCount == |VisibleTo(store, u)|
    ensures |r.messages| <= pageSize
    ensures |r.messages| == if Offset(pageNumber, pageSize) >= r.totalCount then 0
                            else if pageSize < r.totalCount - Offset(pageNumber, pageSize) then pageSize
                            else r.totalCount - Offset(pageNumber, pageSize)
    ensures SortedBy(SentAt, true, r.messages)
    ensures forall i :: 0 <= i < |r.messages| ==>
              Offset(pageNumber, pageSize) + i < r.totalCount && r.messages[i] == Feed(store, u)[Offset(pageNumber, pageSize) + i]
  {
    var feed := Feed(store, u);
    var items := SkipTake(feed, Offset(pageNumber, pageSize), pageSize);
    forall m | m in items ensures m in store && Visible(u, m) {
      assert m in multiset(feed);
    }
    Page(items, |VisibleTo(store, u)|)
  }

  /** Outcome of the paged read: the page, or the error the database raised. */
  datatype PageQuery = PageOk(page: Page) | QueryRejected(error: StoreError)

  /** `GetPagedMessagesByUserIdAsync` as SQL Server runs it. The skip becomes
      an OFFSET, which must not be negative, and the take becomes a FETCH,
      which must ask for at least one row; otherwise the statement fails. */
  function GetPagedMessages(store: seq<Message>, u: UserId, pageNumber: int, pageSize: int): (r: PageQuery)
    ensures r.PageOk? <==> (pageNumber - 1) * pageSize >= 0 && pageSize >= 1
    ensures r.QueryRejected? ==> r.error == PagingRejected(pageNumber, pageSize)
    ensures r.PageOk? ==> pageNumber >= 1 && r.page == GetPaged(store, u, pageNumber, pageSize)
  {
    OffsetSign(pageNumber, pageSize);
    if pageNumber >= 1 && pageSize >= 1 then PageOk(GetPaged(store, u, pageNumber, pageSize))
    else QueryRejected(PagingRejected(pageNumber, pageSize))
  }

  /** With a positive page size the offset is non-negative exactly from page 1 on. */
  lemma OffsetSign(pageNumber: int, pageSize: int)
    ensures pageSize >= 1 ==> ((pageNumber - 1) * pageSize >= 0 <==> pageNumber >= 1)
  {
    if pageSize >= 1 && pageNumber < 1 {
      assert (pageNumber - 1) * pageSize <= (pageNumber - 1) * 1;
    }
  }
}
