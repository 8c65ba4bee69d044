/**
 * The paging arithmetic of the published-blog listing: the `page` and `limit`
 * query parameters with their defaults, the number of records skipped, and the
 * `pagination` block of the response.
 */
module Pagination {
  import opened Wrappers
  import opened Numeric

  const DefaultPage: int := 1
  const DefaultLimit: int := 10

  /**
   * `parseInt(q) || d`. `None` stands for a missing or unparsable query value
   * (`NaN`); like `NaN`, a parsed `0` is falsy and also gives `d`. Negative
   * values are truthy and kept.
   */
  function OrDefault(q: Option<int>, d: int): int {
    if q.Some? && q.value != 0 then q.value else d
  }

  /** The `pagination` object of the listing response. */
  datatype PageMeta = PageMeta(
    currentPage: int,
    totalPages: int,
    totalBlogs: nat,
    hasNext: bool,
    hasPrev: bool)

  /** What the listing asks the store for (`skip`, `limit`) and the block it reports when the store answers (see `ListPage`). */
  datatype Window = Window(skip: int, limit: int, meta: PageMeta)

  /**
   * The listing's paging for `total` matching records. `totalPages` is
   * `Math.ceil(total / limit)`; the limit is never 0 because 0 falls back to
   * the default.
   */
  function Paginate(pageQ: Option<int>, limitQ: Option<int>, total: nat): (w: Window)
    ensures w.limit != 0 && w.meta.currentPage != 0
    ensures w.meta.totalBlogs == total
    ensures w.meta.hasPrev <==> w.meta.currentPage > 1
    ensures w.meta.hasNext <==> w.meta.currentPage < w.meta.totalPages
  {
    var page := OrDefault(pageQ, DefaultPage);
    var limit := OrDefault(limitQ, DefaultLimit);
    var pages := CeilDiv(total, limit);
    Window((page - 1) * limit, limit, PageMeta(page, pages, total, page < pages, page > 1))
  }

  /** Why the listing fails: the store refuses a negative `skip`, and the handler's `catch` answers 500 without a `pagination` block. */
  datatype ListError = NegativeSkip

  /**
   * The listing's outcome: the window of `Paginate` when the store accepts
   * its `skip`, and a failure when that `skip` is negative. A negative
   * `limit` alone is accepted by the store.
   */
  function ListPage(pageQ: Option<int>, limitQ: Option<int>, total: nat): (r: Result<Window, ListError>)
    ensures r.Success? ==> r.value == Paginate(pageQ, limitQ, total) && r.value.skip >= 0
    ensures r.Failure? ==> Paginate(pageQ, limitQ, total).skip < 0
  {
    var w := Paginate(pageQ, limitQ, total);
    if w.skip < 0 then Failure(NegativeSkip) else Success(w)
  }

  /**
   * Which queries the store refuses: with a positive limit, exactly a page
   * below 1 (`?page=-1`, say); with a negative limit, exactly a page above 1.
   * The default page is always answered.
   */
  lemma ListPageFails(pageQ: Option<int>, limitQ: Option<int>, total: nat)
    ensures var w := Paginate(pageQ, limitQ, total);
      && (w.limit > 0 ==> (ListPage(pageQ, limitQ, total).Failure? <==> w.meta.currentPage < 1))
      && (w.limit < 0 ==> (ListPage(pageQ, limitQ, total).Failure? <==> w.meta.currentPage > 1))
      && (pageQ.None? ==> ListPage(pageQ, limitQ, total).Success?)
  {
    var w := Paginate(pageQ, limitQ, total);
    PaginateSkip(pageQ, limitQ, total);
    MulSign(w.meta.currentPage - 1, w.limit);
  }

  /** The sign of a product. */
  lemma MulSign(a: int, b: int)
    ensures a * b < 0 <==> (a < 0 && b > 0) || (a > 0 && b < 0)
  {
    if a < 0 && b > 0 {
      MulMonotone(a, -1, b);
    } else if a > 0 && b < 0 {
      MulMonotone(-1, -b, a);
    } else if a >= 0 && b >= 0 {
      MulMonotone(0, a, b);
    } else if a <= 0 && b <= 0 {
      MulMonotone(0, -a, -b);
    }
  }

  /** A missing, unparsable or zero query value gives page 1 and limit 10; any other value is used as given. */
  lemma PaginateQuery(pageQ: Option<int>, limitQ: Option<int>, total: nat)
    ensures var w := Paginate(pageQ, limitQ, total);
      && (pageQ.None? || pageQ.value == 0 ==> w.meta.currentPage == DefaultPage)
      && (pageQ.Some? && pageQ.value != 0 ==> w.meta.currentPage == pageQ.value)
      && (limitQ.None? || limitQ.value == 0 ==> w.limit == DefaultLimit)
      && (limitQ.Some? && limitQ.value != 0 ==> w.limit == limitQ.value)
  {
  }

  /** The records skipped are those of all earlier pages. */
  lemma PaginateSkip(pageQ: Option<int>, limitQ: Option<int>, total: nat)
    ensures var w := Paginate(pageQ, limitQ, total);
      w.skip + w.limit == w.meta.currentPage * w.limit
  {
  }

  /** With a positive limit, `totalPages` pages of `limit` hold all records and one page fewer does not. */
  lemma PaginatePageCount(pageQ: Option<int>, limitQ: Option<int>, total: nat)
    ensures var w := Paginate(pageQ, limitQ, total);
      w.limit > 0 ==>
        && w.meta.totalPages >= 0
        && (w.meta.totalPages - 1) * w.limit < total <= w.meta.totalPages * w.limit
  {
    var w := Paginate(pageQ, limitQ, total);
    CeilDivBounds(total, w.limit);
  }

  /** With a positive limit, there is a next page exactly when records remain after this page's window. */
  lemma PaginateHasNext(pageQ: Option<int>, limitQ: Option<int>, total: nat)
    ensures var w := Paginate(pageQ, limitQ, total);
      w.limit > 0 ==> (w.meta.hasNext <==> w.skip + w.limit < total)
  {
    var w := Paginate(pageQ, limitQ, total);
    if w.limit > 0 {
      var p := w.meta.currentPage;
      var n := w.meta.totalPages;
      PaginatePageCount(pageQ, limitQ, total);
      PaginateSkip(pageQ, limitQ, total);
      if p < n {
        assert p * w.limit <= (n - 1) * w.limit by {
          MulMonotone(p, n - 1, w.limit);
        }
      } else {
        assert n * w.limit <= p * w.limit by {
          MulMonotone(n, p, w.limit);
        }
      }
    }
  }

  /** With a positive limit, there is a previous page exactly when some records are skipped. */
  lemma PaginateHasPrev(pageQ: Option<int>, limitQ: Option<int>, total: nat)
    ensures var w := Paginate(pageQ, limitQ, total);
      w.limit > 0 ==> (w.meta.hasPrev <==> w.skip > 0)
  {
    var w := Paginate(pageQ, limitQ, total);
    if w.limit > 0 {
      var p := w.meta.currentPage;
      if p > 1 {
        MulMonotone(1, p - 1, w.limit);
      } else {
        MulMonotone(p - 1, 0, w.limit);
      }
    }
  }

  lemma MulMonotone(a: int, b: int, c: int)
    requires a <= b && c >= 0
    ensures a * c <= b * c
  {
  }
}
