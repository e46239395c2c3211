/** Page arithmetic of the `paginate` helper: from a row count, a page size
    (`limit`) and a row offset it derives the total number of pages and the
    numbers of the next and previous pages. */
module Pagination {
  import opened Wrappers

  /** What `paginate` returns: the rows it was given and the page pointers.
      A missing pointer is JavaScript's `null`. */
  datatype PaginateResult<T> = PaginateResult(
    data: seq<T>,
    nextPage: Option<nat>,
    previousPage: Option<nat>,
    totalPages: nat)

  /** Integer ceiling of n / d, that is `Math.ceil(n / d)` for naturals. */
  function CeilDiv(n: nat, d: nat): (q: nat)
    requires d > 0
    ensures q * d >= n
    ensures q == 0 || (q - 1) * d < n
  {
    var q := (n + d - 1) / d;
    var m := (n + d - 1) % d;
    assert q * d + m == n + d - 1;
    assert q * d >= n;
    assert q > 0 ==> (q - 1) * d == q * d - d;
    q
  }

  /** The 1-based number of the page that starts at or before `offset`,
      that is `Math.floor(offset / limit) + 1`. */
  function CurrentPage(offset: nat, limit: nat): (p: nat)
    requires limit > 0
    ensures p >= 1
    ensures (p - 1) * limit <= offset < p * limit
    ensures p > 1 <==> offset >= limit
  {
    var q := offset / limit;
    assert q * limit + offset % limit == offset;
    assert (q + 1) * limit == q * limit + limit;
    assert q >= 1 ==> q * limit >= limit by {
      if q >= 1 { MulMonotone(1, q, limit); }
    }
    q + 1
  }

  /** `paginate(data, table, limit, offset)` once the exact row count of the
      table has come back; `count` is `None` when the count is `null`. */
  function Paginate<T>(data: seq<T>, limit: nat, offset: nat, count: Option<nat>): (r: PaginateResult<T>)
    requires limit > 0
    ensures r.data == data
    // total pages: the fewest pages of `limit` rows that hold `count` rows, or 1 without a count
    ensures count.None? ==> r.totalPages == 1
    ensures count.Some? ==> r.totalPages * limit >= count.value
    ensures count.Some? ==> r.totalPages == 0 || (r.totalPages - 1) * limit < count.value
    // a next page exactly when the current page is not the last one
    ensures r.nextPage.Some? <==> CurrentPage(offset, limit) < r.totalPages
    ensures r.nextPage.Some? ==> r.nextPage.value == CurrentPage(offset, limit) + 1 <= r.totalPages
    // a previous page exactly when the offset lies beyond the first page
    ensures r.previousPage.Some? <==> offset >= limit
    ensures r.previousPage.Some? ==> r.previousPage.value == CurrentPage(offset, limit) - 1 >= 1
  {
    var totalPages := if count.Some? then CeilDiv(count.value, limit) else 1;
    var currentPage := CurrentPage(offset, limit);
    var nextPage := if currentPage < totalPages then Some(currentPage + 1) else None;
    var previousPage := if currentPage > 1 then Some(currentPage - 1) else None;
    PaginateResult(data, nextPage, previousPage, totalPages)
  }

  /** The bounds that `Paginate` promises for the page total determine it:
      any number of pages meeting them is the ceiling of count / limit. */
  lemma TotalPagesIsCeiling(count: nat, limit: nat, pages: nat)
    requires limit > 0
    requires pages * limit >= count
    requires pages == 0 || (pages - 1) * limit < count
    ensures pages == CeilDiv(count, limit)
  {
    var q := CeilDiv(count, limit);
    if pages < q {
      MulMonotone(pages, q - 1, limit);
      assert false;
    } else if q < pages {
      MulMonotone(q, pages - 1, limit);
      assert false;
    }
  }

  lemma MulMonotone(a: nat, b: nat, c: nat)
    requires a <= b
    ensures a * c <= b * c
  {
  }

  /** The worked examples: 25 rows in pages of 10 make three pages; the first
      page links forward only, the third backward only; an empty table has no pages. */
  lemma PaginateExamples<T>(data: seq<T>)
    ensures Paginate(data, 10, 0, Some(25)).totalPages == 3
    ensures Paginate(data, 10, 0, Some(25)).nextPage == Some(2)
    ensures Paginate(data, 10, 0, Some(25)).previousPage == None
    ensures Paginate(data, 10, 20, Some(25)).nextPage == None
    ensures Paginate(data, 10, 20, Some(25)).previousPage == Some(2)
    ensures Paginate(data, 10, 0, Some(0)).totalPages == 0
    ensures Paginate(data, 10, 0, Some(0)).nextPage == None
    ensures Paginate(data, 10, 0, None).totalPages == 1
  {
    assert CurrentPage(0, 10) == 1;
    assert CurrentPage(20, 10) == 3;
  }
}
