/** Paging through the ranked results: the slice shown for the current page
    (app.js:347-350) and the pagination controls (app.js:381-403). */
module Pagination {

  function Max(a: int, b: int): int {
    if a >= b then a else b
  }

  function Min(a: int, b: int): int {
    if a <= b then a else b
  }

  /** How `Array.prototype.slice` reads an index: a negative one counts from the end, and
      the result is clamped to `0..len`. */
  function SliceIndex(i: int, len: nat): (k: nat)
    ensures k <= len
    ensures 0 <= i <= len ==> k == i
    ensures i > len ==> k == len
    ensures i < 0 ==> k == Max(len + i, 0)
  {
    if i < 0 then Max(len + i, 0) else Min(i, len)
  }

  /** `s.slice(start, end)` */
  function Slice<T>(s: seq<T>, start: int, end: int): (r: seq<T>)
    ensures 0 <= start <= end ==> |r| <= end - start
    ensures 0 <= start <= end <= |s| ==> r == s[start..end]
    ensures 0 <= start <= |s| <= end ==> r == s[start..]
    ensures |s| <= start ==> r == []
  {
    var from, to := SliceIndex(start, |s|), SliceIndex(end, |s|);
    if from <= to then s[from..to] else []
  }

  /** A slice holds elements of the sequence only, and no more than its index range,
      negative indices included. */
  lemma SliceWithin<T>(s: seq<T>, start: int, end: int)
    requires start <= end
    ensures |Slice(s, start, end)| <= end - start
    ensures forall x :: x in Slice(s, start, end) ==> x in s
  {
    var from, to := SliceIndex(start, |s|), SliceIndex(end, |s|);
    if from <= to {
      assert forall x :: x in s[from..to] ==> x in s;
    }
  }

  /** The results shown on `page`: the slice from `(page - 1) * perPage`, `perPage` long.
      Whatever the page, it shows at most `perPage` results, all of them from the list. */
  function PageSlice<T>(results: seq<T>, page: int, perPage: nat): (shown: seq<T>)
    ensures |shown| <= perPage
    ensures forall x :: x in shown ==> x in results
  {
    var start := (page - 1) * perPage;
    SliceWithin(results, start, start + perPage);
    Slice(results, start, start + perPage)
  }

  /** `Math.ceil(total / perPage)` */
  function TotalPages(total: nat, perPage: nat): (pages: nat)
    requires perPage > 0
    ensures pages * perPage >= total
    ensures pages > 0 ==> (pages - 1) * perPage < total
    ensures pages == 0 <==> total == 0
  {
    (total + perPage - 1) / perPage
  }

  lemma MultiplyMonotonic(a: int, b: int, n: nat)
    requires a <= b
    ensures a * n <= b * n
  {
  }

  /** Where a page within the results starts and what it holds. */
  lemma PageSliceWithin<T>(results: seq<T>, page: int, perPage: nat)
    requires page >= 1 && (page - 1) * perPage <= |results|
    ensures var start := (page - 1) * perPage;
      PageSlice(results, page, perPage) == results[start..Min(start + perPage, |results|)]
  {
    var start := (page - 1) * perPage;
    MultiplyMonotonic(0, page - 1, perPage);
    assert 0 <= start;
    var r := Slice(results, start, start + perPage);
    if start + perPage <= |results| {
      assert r == results[start..start + perPage];
    } else {
      assert r == results[start..];
    }
  }

  /** A page from 1 up shows some result exactly when it is at most the page count. */
  lemma PageSliceNonEmpty<T>(results: seq<T>, page: int, perPage: nat)
    requires perPage > 0 && page >= 1
    ensures PageSlice(results, page, perPage) != [] <==> page <= TotalPages(|results|, perPage)
  {
    var total := TotalPages(|results|, perPage);
    MultiplyMonotonic(0, page - 1, perPage);
    if page <= total {
      MultiplyMonotonic(page - 1, total - 1, perPage);
      PageSliceWithin(results, page, perPage);
    } else {
      MultiplyMonotonic(total, page - 1, perPage);
    }
  }

  lemma DivMod(i: nat, n: nat)
    requires n > 0
    ensures i == (i / n) * n + i % n && 0 <= i % n < n
  {
  }

  /** Every result is shown on a page between 1 and the page count: result `i` is at
      position `i % perPage` of page `i / perPage + 1`. */
  lemma PageOfIndex<T>(results: seq<T>, perPage: nat, i: nat)
    requires perPage > 0 && i < |results|
    ensures 1 <= i / perPage + 1 <= TotalPages(|results|, perPage)
    ensures var page := PageSlice(results, i / perPage + 1, perPage);
      i % perPage < |page| && page[i % perPage] == results[i]
  {
    var p, r := i / perPage, i % perPage;
    var total := TotalPages(|results|, perPage);
    DivMod(i, perPage);
    assert p * perPage < total * perPage;
    MultiplyStrict(p, total, perPage);
    var start := p * perPage;
    assert (p + 1 - 1) * perPage == start;
    PageSliceWithin(results, p + 1, perPage);
    assert start + r == i;
  }

  lemma MultiplyStrict(a: int, b: int, n: nat)
    requires a * n < b * n
    ensures a < b
  {
    if b <= a {
      MultiplyMonotonic(b, a, n);
    }
  }

  /** A page button: its number and whether it is the current page's. */
  datatype PageButton = PageButton(number: int, active: bool)

  /** The page numbers of the buttons, in order. */
  function Numbers(buttons: seq<PageButton>): (r: seq<int>)
    ensures |r| == |buttons|
    ensures forall k :: 0 <= k < |r| ==> r[k] == buttons[k].number
  {
    seq(|buttons|, k requires 0 <= k < |buttons| => buttons[k].number)
  }

  /** The controls `displayPagination` builds: the previous button's state, the numbered
      buttons, and the next button's state. Only the current page and the page count are
      read; `perPage` is the engine's fixed page size. */
  method PaginationControls(currentPage: int, totalResults: nat, perPage: nat)
    returns (prevDisabled: bool, buttons: seq<PageButton>, nextDisabled: bool)
    requires perPage > 0
    ensures prevDisabled <==> currentPage == 1
    ensures nextDisabled <==> currentPage == TotalPages(totalResults, perPage)
    ensures |buttons| <= 5
    ensures forall k :: 0 <= k < |buttons| ==> buttons[k].number == Max(1, currentPage - 2) + k
    ensures forall n :: n in Numbers(buttons) <==>
      1 <= n <= TotalPages(totalResults, perPage) && currentPage - 2 <= n <= currentPage + 2
    ensures forall k :: 0 <= k < |buttons| ==> (buttons[k].active <==> buttons[k].number == currentPage)
  {
    var totalPages := TotalPages(totalResults, perPage);
    prevDisabled := currentPage == 1;
    var low, high := Max(1, currentPage - 2), Min(totalPages, currentPage + 2);
    buttons := [];
    var i := low;
    while i <= high
      invariant low <= i <= Max(low, high + 1)
      invariant |buttons| == i - low
      invariant forall k :: 0 <= k < |buttons| ==> buttons[k] == PageButton(low + k, low + k == currentPage)
    {
      buttons := buttons + [PageButton(i, i == currentPage)];
      i := i + 1;
    }
    nextDisabled := currentPage == totalPages;
    assert |buttons| == if low <= high then high - low + 1 else 0;
    forall n ensures n in Numbers(buttons) <==> low <= n <= high {
      if n in Numbers(buttons) {
        var k :| 0 <= k < |buttons| && Numbers(buttons)[k] == n;
        assert n == low + k;
      }
      if low <= n <= high {
        assert Numbers(buttons)[n - low] == n;
      }
    }
  }
}
