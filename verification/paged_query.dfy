/** `GetPagedUserMessagesQuery`: the caller's feed, one page at a time, with
    navigation metadata. The caller is always the user whose feed is read. */
module PagedUserMessages {
  import opened Optional
  import opened Seqs
  import opened Ordering
  import opened Messages
  import opened MessageRepository
  import opened PagedLists
  import opened Results

  datatype GetPagedUserMessagesQuery = GetPagedUserMessagesQuery(pageNumber: int, pageSize: int)

  /** A query that sets neither property asks for the first page of ten. */
  const DefaultQuery := GetPagedUserMessagesQuery(1, 10)

  const NotAuthenticated := "User is not authenticated."

  /** `GetPagedUserMessagesQueryHandler.Handle`. An empty feed is answered
      with the parameterless `PagedList`, which does not echo the request.
      Paging arguments the database refuses surface as the thrown error. */
  function Handle(store: seq<Message>, caller: Option<UserId>, query: GetPagedUserMessagesQuery)
    : (r: Handled<seq<Message>, PagedList<Message>, StoreError>)
    ensures r.Completed? ==> r.state == store
    ensures !Identified(caller) ==> r == Completed(store, FailureResult(NotAuthenticated))
    ensures Identified(caller) ==> (r.Threw? <==> query.pageNumber < 1 || query.pageSize < 1)
    ensures r.Threw? ==> r.error == PagingRejected(query.pageNumber, query.pageSize)
    ensures Identified(caller) && r.Completed? ==>
              !r.result.HasFailed() && r.result.failures == [] && r.result.value.Some?
    ensures Identified(caller) && r.Completed? && |VisibleTo(store, caller.value)| == 0 ==>
              r.result.value == Some(Empty())
    ensures Identified(caller) && r.Completed? && |VisibleTo(store, caller.value)| > 0 ==>
              var page := r.result.value.value;
              && page.items == GetPaged(store, caller.value, query.pageNumber, query.pageSize).messages
              && page.totalCount == |VisibleTo(store, caller.value)|
              && page.pageNumber == query.pageNumber && page.pageSize == query.pageSize
    ensures Identified(caller) && r.Completed? ==>
              forall m :: m in r.result.value.value.items ==> m in store && Visible(caller.value, m)
  {
    if !Identified(caller) then Completed(store, FailureResult(NotAuthenticated))
    else
      match GetPagedMessages(store, caller.value, query.pageNumber, query.pageSize)
      case QueryRejected(error) => Threw(error)
      case PageOk(paged) =>
        if paged.totalCount == 0 then Completed(store, SuccessResult(Empty()))
        else Completed(store, SuccessResult(PagedList(paged.messages, paged.totalCount, query.pageNumber, query.pageSize)))
  }

  /** The answer depends on the store only through what the caller may see:
      stores that agree on the caller's visible messages answer alike. */
  lemma AnswerDependsOnlyOnCallersView(s1: seq<Message>, s2: seq<Message>, u: UserId, query: GetPagedUserMessagesQuery)
    requires VisibleTo(s1, u) == VisibleTo(s2, u)
    ensures Handle(s1, Some(u), query).Threw? == Handle(s2, Some(u), query).Threw?
    ensures Handle(s1, Some(u), query).Completed? ==>
              Handle(s1, Some(u), query).result == Handle(s2, Some(u), query).result
    ensures Handle(s1, Some(u), query).Threw? ==>
              Handle(s1, Some(u), query).error == Handle(s2, Some(u), query).error
  {
  }

  /** The count does not depend on which page is asked for. */
  lemma TotalCountIndependentOfPage(store: seq<Message>, u: UserId, p1: int, s1: int, p2: int, s2: int)
    requires p1 >= 1 && s1 >= 1 && p2 >= 1 && s2 >= 1
    ensures GetPaged(store, u, p1, s1).totalCount == GetPaged(store, u, p2, s2).totalCount
  {
  }

  /** Page `p` starts before the end of `n` items exactly when `p` is at
      most the page count. */
  lemma PageStartsWithin(p: int, size: int, n: int)
    requires p >= 1 && size >= 1
    ensures (p - 1) * size < n <==> p <= CeilDiv(n, size)
  {
    var k := CeilDiv(n, size);
    if p <= k {
      MulMonotone(p - 1, k - 1, size);
    } else {
      MulMonotone(k, p - 1, size);
    }
  }

  /** A page has items exactly when its number is between 1 and the page count. */
  lemma PageNonEmptyIffWithinPages(store: seq<Message>, u: UserId, p: int, size: int)
    requires p >= 1 && size >= 1
    ensures var page := GetPaged(store, u, p, size);
      |page.messages| > 0 <==> p <= PagedList(page.messages, page.totalCount, p, size).TotalPages()
  {
    var page := GetPaged(store, u, p, size);
    PageStartsWithin(p, size, page.totalCount);
  }

  /** `HasNextPage` on an answered page holds exactly when the next page of
      the feed has items. */
  lemma HasNextPageIffNextPageNonEmpty(store: seq<Message>, u: UserId, query: GetPagedUserMessagesQuery)
    requires query.pageNumber >= 1 && query.pageSize >= 1
    requires u != "" && |VisibleTo(store, u)| > 0
    ensures var page := Handle(store, Some(u), query).result.value.value;
      page.HasNextPage() <==> |GetPaged(store, u, query.pageNumber + 1, query.pageSize).messages| > 0
  {
    var page := Handle(store, Some(u), query).result.value.value;
    PageStartsWithin(query.pageNumber + 1, query.pageSize, page.totalCount);
  }

  lemma DivModSplit(i: nat, size: int)
    requires size >= 1
    ensures Offset(i / size + 1, size) + i % size == i
    ensures i % size < size
  {
  }

  /** The page that holds feed position `i`. */
  function PageOf(i: nat, size: int): (p: int)
    requires size >= 1
    ensures p >= 1
  {
    i / size + 1
  }

  /** The slot on its page that feed position `i` occupies. */
  function SlotOf(i: nat, size: int): (k: nat)
    requires size >= 1
    ensures k < size
  {
    i % size
  }

  /** Every message of the feed sits on the page its position selects, in
      the slot its position selects. */
  lemma FeedPositionPage(store: seq<Message>, u: UserId, i: nat, size: int)
    requires size >= 1 && i < |Feed(store, u)|
    ensures var page := GetPaged(store, u, PageOf(i, size), size);
      SlotOf(i, size) < |page.messages| && page.messages[SlotOf(i, size)] == Feed(store, u)[i]
  {
    var p, k := PagePosition(i, size);
    PageAt(store, u, p, size, k);
  }

  /** The page number and in-page offset of feed position `i`. */
  lemma PagePosition(i: nat, size: int) returns (p: int, k: nat)
    requires size >= 1
    ensures p == PageOf(i, size) && k == SlotOf(i, size)
    ensures p >= 1 && k < size && Offset(p, size) + k == i
  {
    DivModSplit(i, size);
    p, k := i / size + 1, i % size;
  }

  /** Entry `k` of page `p` is feed entry `Offset(p, size) + k`, whenever
      that entry exists and `k` is within the page size. */
  lemma PageAt(store: seq<Message>, u: UserId, p: int, size: int, k: nat)
    requires p >= 1 && size >= 1 && k < size
    requires Offset(p, size) + k < |Feed(store, u)|
    ensures var page := GetPaged(store, u, p, size);
      k < |page.messages| && page.messages[k] == Feed(store, u)[Offset(p, size) + k]
  {
    var page := GetPaged(store, u, p, size);
    var off := Offset(p, size);
    assert off < page.totalCount;
  }

  /** The default query reads the ten newest messages the caller may see. */
  lemma DefaultQueryReadsNewestTen(store: seq<Message>, u: UserId)
    requires u != ""
    requires |VisibleTo(store, u)| > 0
    ensures var page := Handle(store, Some(u), DefaultQuery).result.value.value;
      && page.pageNumber == 1 && page.pageSize == 10 && !page.HasPreviousPage()
      && |page.items| == (if |VisibleTo(store, u)| < 10 then |VisibleTo(store, u)| else 10)
      && forall i :: 0 <= i < |page.items| ==> page.items[i] == Feed(store, u)[i]
  {
    var page := Handle(store, Some(u), DefaultQuery).result.value.value;
    assert Offset(1, 10) == 0;
  }
}
