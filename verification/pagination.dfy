/** `Page` and `LimitOffsetPagination` (backend/core/pagination.py). */
module Pagination {
  import opened Wrappers

  /** One page of a listing: the window asked for, the size of the whole listing, the items. */
  datatype Page<T> = Page(limit: int, offset: int, total: int, items: seq<T>)

  /** The paging parameters of a request. */
  datatype LimitOffsetPagination = LimitOffsetPagination(limit: int, offset: int)
  {
    /** `paginate`: a page carrying this window, the given total and the items as they are. */
    function Paginate<T>(items: seq<T>, total: int): (page: Page<T>)
      ensures page.limit == limit && page.offset == offset
      ensures page.total == total && page.items == items
    {
      Page(limit, offset, total, items)
    }
  }

  /**
   * The paging parameters of a request as the framework admits them, `Query(10, ge=1)` and
   * `Query(0, ge=0)`: defaults 10 and 0, and a request outside the bounds is refused (`None`).
   */
  function FromQuery(limit: int := 10, offset: int := 0): (p: Option<LimitOffsetPagination>)
    ensures p.Some? <==> limit >= 1 && offset >= 0
    ensures p.Some? ==> p.value.limit == limit && p.value.offset == offset
  {
    if limit >= 1 && offset >= 0 then Some(LimitOffsetPagination(limit, offset)) else None
  }

  /** A request that names no paging parameter gets the first ten items. */
  lemma DefaultWindow()
    ensures FromQuery() == Some(LimitOffsetPagination(10, 0))
  {
  }
}
