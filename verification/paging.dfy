/** `PagedList<T>`: one page of items with the metadata a client needs to
    navigate. `TotalPages` is ceiling division, defined when the page size
    is positive. */
module PagedLists {

  datatype PagedList<T> = PagedList(items: seq<T>, totalCount: int, pageNumber: int, pageSize: int) {

    /** The number of pages needed to hold `totalCount` items. */
    function TotalPages(): (k: int)
      requires pageSize > 0
      ensures (k - 1) * pageSize < totalCount <= k * pageSize
    {
      CeilDiv(totalCount, pageSize)
    }

    predicate HasPreviousPage() {
      pageNumber > 1
    }

    predicate HasNextPage()
      requires pageSize > 0
    {
      pageNumber < TotalPages()
    }
  }

  /** The least `k` with `k * b >= a`. */
  function CeilDiv(a: int, b: int): (k: int)
    requires b > 0
    ensures (k - 1) * b < a <= k * b
  {
    var q := (-a) / b;
    var r := (-a) % b;
    assert -a == q * b + r && 0 <= r < b;
    assert (-q) * b == a + r;
    -q
  }

  /** The parameterless constructor: no items, every number zero. */
  function Empty<T>(): (p: PagedList<T>)
    ensures p.items == [] && p.pageNumber == 0 && p.pageSize == 0 && p.totalCount == 0
  {
    PagedList([], 0, 0, 0)
  }

  /** `TotalPages` is the least page count that can hold every item. */
  lemma TotalPagesIsLeast<T>(p: PagedList<T>, j: int)
    requires p.pageSize > 0
    ensures j * p.pageSize >= p.totalCount ==> j >= p.TotalPages()
    ensures p.totalCount >= 0 ==> p.TotalPages() >= 0
  {
    var k := p.TotalPages();
    if j < k {
      MulMonotone(j, k - 1, p.pageSize);
    }
    if p.totalCount >= 0 && k < 0 {
      MulMonotone(k, -1, p.pageSize);
    }
  }

  lemma MulMonotone(a: int, b: int, c: int)
    requires a <= b && c >= 0
    ensures a * c <= b * c
  {
  }

  /** With no items there are no pages, so no page number reaches a next page. */
  lemma EmptyHasNoPages<T>(p: PagedList<T>)
    requires p.pageSize > 0 && p.totalCount == 0
    ensures p.TotalPages() == 0
    ensures p.pageNumber >= 0 ==> !p.HasNextPage()
  {
    TotalPagesIsLeast(p, 0);
  }

  /** There is a next page exactly while the current one is not the last. */
  lemma NextPageBounds<T>(p: PagedList<T>)
    requires p.pageSize > 0
    ensures p.HasNextPage() <==> p.pageNumber * p.pageSize < p.totalCount
    ensures p.HasPreviousPage() <==> p.pageNumber >= 2
  {
    var k := p.TotalPages();
    if p.pageNumber < k {
      MulMonotone(p.pageNumber, k - 1, p.pageSize);
    } else {
      MulMonotone(k, p.pageNumber, p.pageSize);
    }
  }
}
