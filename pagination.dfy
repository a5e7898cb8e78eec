/**
 * The pagination bar of src/components/Pagination.jsx: whether it is shown, the
 * number of pages, the guarded page change, the Prev/Next buttons and the
 * sliding window of at most five page numbers.
 */
module Pagination {

  import opened Wrappers

  /** At most this many page numbers are shown. */
  const MaxVisible: int := 5

  function Max(a: int, b: int): int {
    if a >= b then a else b
  }

  /** The bar is rendered only when there is more than one page of items. */
  predicate Renders(totalItems: int, pageSize: int) {
    totalItems > pageSize
  }

  /** `Math.ceil(totalItems / pageSize)`: the least number of pages of
      `pageSize` items that hold `totalItems` items. */
  function TotalPages(totalItems: nat, pageSize: nat): (pages: nat)
    requires pageSize > 0
    ensures (pages - 1) * pageSize < totalItems <= pages * pageSize || (totalItems == 0 && pages == 0)
  {
    (totalItems + pageSize - 1) / pageSize
  }

  /** Whenever the bar is rendered there are at least two pages. */
  lemma RenderedHasTwoPages(totalItems: nat, pageSize: nat)
    requires pageSize > 0 && Renders(totalItems, pageSize)
    ensures TotalPages(totalItems, pageSize) >= 2
  {
    var t := TotalPages(totalItems, pageSize);
    assert t * pageSize > 1 * pageSize;
  }

  /** `handlePageChange`: the page reported to `onPageChange`, if any. */
  function PageChange(page: int, currentPage: int, totalPages: int): (r: Option<int>)
    ensures r.Some? ==> r.value == page && 1 <= page <= totalPages && page != currentPage
    ensures r.None? ==> page < 1 || page > totalPages || page == currentPage
  {
    if 1 <= page <= totalPages && page != currentPage then Some(page) else None
  }

  /** Prev is disabled on page 1. */
  predicate PrevDisabled(currentPage: int) {
    currentPage == 1
  }

  /** Next is disabled on the last page. */
  predicate NextDisabled(currentPage: int, totalPages: int) {
    currentPage == totalPages
  }

  /** On a valid page the buttons are disabled exactly when their click would be
      ignored. */
  lemma ButtonsMatchGuard(currentPage: int, totalPages: int)
    requires 1 <= currentPage <= totalPages
    ensures PrevDisabled(currentPage) <==> PageChange(currentPage - 1, currentPage, totalPages).None?
    ensures NextDisabled(currentPage, totalPages) <==> PageChange(currentPage + 1, currentPage, totalPages).None?
    ensures !PrevDisabled(currentPage) ==> PageChange(currentPage - 1, currentPage, totalPages) == Some(currentPage - 1)
    ensures !NextDisabled(currentPage, totalPages) ==> PageChange(currentPage + 1, currentPage, totalPages) == Some(currentPage + 1)
  {
  }

  /** The first and last page number of the window. */
  function WindowStart(currentPage: int, totalPages: int): int {
    var start := Max(1, currentPage - MaxVisible / 2);
    if start + MaxVisible - 1 > totalPages then Max(1, totalPages - MaxVisible + 1) else start
  }

  function WindowEnd(currentPage: int, totalPages: int): int {
    var start := Max(1, currentPage - MaxVisible / 2);
    if start + MaxVisible - 1 > totalPages then totalPages else start + MaxVisible - 1
  }

  /** The integers from `lo` to `hi`, in order. */
  function Range(lo: int, hi: int): (r: seq<int>)
    ensures |r| == if hi >= lo then hi - lo + 1 else 0
  {
    seq(if hi >= lo then hi - lo + 1 else 0, k => lo + k)
  }

  /** `getPageNumbers`. */
  method GetPageNumbers(currentPage: int, totalPages: int) returns (pages: seq<int>)
    ensures pages == Range(WindowStart(currentPage, totalPages), WindowEnd(currentPage, totalPages))
    ensures forall k :: 0 <= k < |pages| ==> 1 <= pages[k] <= totalPages
  {
    var start := Max(1, currentPage - MaxVisible / 2);
    var end := start + MaxVisible - 1;
    if end > totalPages {
      end := totalPages;
      start := Max(1, end - MaxVisible + 1);
    }
    pages := [];
    var i := start;
    while i <= end
      invariant start <= i && (i <= end + 1 || i == start)
      invariant pages == Range(start, i - 1)
      decreases end - i
    {
      pages := pages + [i];
      i := i + 1;
    }
    WindowInBounds(currentPage, totalPages);
  }

  /** The window's page numbers are consecutive and lie within the pages. */
  lemma WindowInBounds(currentPage: int, totalPages: int)
    ensures var w := Range(WindowStart(currentPage, totalPages), WindowEnd(currentPage, totalPages));
      && (forall k :: 0 <= k < |w| ==> 1 <= w[k] <= totalPages)
      && (forall k :: 0 < k < |w| ==> w[k] == w[k - 1] + 1)
  {
  }

  /** On a valid current page the window has `min(5, totalPages)` numbers,
      contains the current page, and starts two before it unless that would run
      past the last page, in which case it ends on the last page. */
  lemma WindowShape(currentPage: int, totalPages: int)
    requires 1 <= currentPage <= totalPages
    ensures var w := Range(WindowStart(currentPage, totalPages), WindowEnd(currentPage, totalPages));
      && |w| == (if totalPages < MaxVisible then totalPages else MaxVisible)
      && currentPage in w
      && (Max(1, currentPage - 2) + 4 <= totalPages ==> w[0] == Max(1, currentPage - 2))
      && (Max(1, currentPage - 2) + 4 > totalPages ==> w[|w| - 1] == totalPages)
  {
    var s, e := WindowStart(currentPage, totalPages), WindowEnd(currentPage, totalPages);
    var w := Range(s, e);
    assert w[currentPage - s] == currentPage;
  }

  /** Clicking a number in the window always reports that page, except the
      current one. */
  lemma WindowClicks(currentPage: int, totalPages: int, k: nat)
    requires k < |Range(WindowStart(currentPage, totalPages), WindowEnd(currentPage, totalPages))|
    ensures var p := Range(WindowStart(currentPage, totalPages), WindowEnd(currentPage, totalPages))[k];
      PageChange(p, currentPage, totalPages) == if p == currentPage then None else Some(p)
  {
    WindowInBounds(currentPage, totalPages);
  }
}
