/**
 * `PaginatedList<T>`: one page of an ordered source, the 1-based index of
 * that page and the number of pages the whole source fills.
 */
module Pagination {

  /** LINQ `Skip(n)`: drop the first `n` elements; a negative `n` drops none. */
  function Skip<T>(s: seq<T>, n: int): (r: seq<T>)
    ensures n <= 0 ==> r == s
    ensures 0 <= n <= |s| ==> r == s[n..]
    ensures n >= |s| ==> r == []
  {
    if n <= 0 then s else if n >= |s| then [] else s[n..]
  }

  /** LINQ `Take(n)`: the first `n` elements, or all of them when there are fewer. */
  function Take<T>(s: seq<T>, n: int): (r: seq<T>)
    ensures n <= 0 ==> r == []
    ensures 0 <= n <= |s| ==> r == s[..n]
    ensures n >= |s| ==> r == s
  {
    if n <= 0 then [] else if n >= |s| then s else s[..n]
  }

  /** `Take(n)` and `Skip(n)` split a sequence at `n`: together they give it back, for every `n`. */
  lemma TakeSkipSplit<T>(s: seq<T>, n: int)
    ensures Take(s, n) + Skip(s, n) == s
  {
    if 0 < n < |s| {
      assert s == s[..n] + s[n..];
    }
  }

  /** Skipping `a` and then `b` items skips `a + b` items. */
  lemma SkipSkip<T>(s: seq<T>, a: int, b: int)
    requires a >= 0 && b >= 0
    ensures Skip(Skip(s, a), b) == Skip(s, a + b)
  {
    if a < |s| && b > 0 && a + b < |s| {
      assert s[a..][b..] == s[a + b..];
    }
  }

  /**
   * The number of pages `count` items fill at `pageSize` per page.  The
   * source rounds `count / (double)pageSize` up; with `pageSize >= 1`
   * that is this integer division (Dafny's `/` floors for a positive divisor).
   */
  function TotalPagesFor(count: int, pageSize: int): (pages: int)
    requires pageSize >= 1
    ensures (pages - 1) * pageSize < count <= pages * pageSize
  {
    var q := (count + pageSize - 1) / pageSize;
    var rem := (count + pageSize - 1) % pageSize;
    assert count + pageSize - 1 == q * pageSize + rem;
    assert (q - 1) * pageSize == q * pageSize - pageSize;
    q
  }

  /** The index in the source of the first item of page `pageIndex`, before `Skip` clamps it. */
  function PageStart(pageIndex: int, pageSize: int): int {
    (pageIndex - 1) * pageSize
  }

  /** The items of page `pageIndex`: `source.Skip((pageIndex - 1) * pageSize).Take(pageSize)`. */
  function PageSlice<T>(source: seq<T>, pageIndex: int, pageSize: int): seq<T> {
    Take(Skip(source, PageStart(pageIndex, pageSize)), pageSize)
  }

  class PaginatedList<T> {
    /** The current page, as requested; never clamped. */
    var PageIndex: int
    var TotalPages: int
    /** The contents of the underlying `List<T>`. */
    var Items: seq<T>

    constructor (items: seq<T>, count: int, pageIndex: int, pageSize: int)
      requires pageSize >= 1
      ensures PageIndex == pageIndex
      ensures TotalPages == TotalPagesFor(count, pageSize)
      ensures Items == items
    {
      PageIndex := pageIndex;
      TotalPages := TotalPagesFor(count, pageSize);
      Items := [];
      new;
      Items := Items + items;
    }

    /** Enables the "Previous" link. */
    function HasPreviousPage(): bool
      reads this
    {
      PageIndex > 1
    }

    /** Enables the "Next" link. */
    function HasNextPage(): bool
      reads this
    {
      PageIndex < TotalPages
    }

    /** `CreateAsync`: count the whole source, then take the requested page of it. */
    static method Create(source: seq<T>, pageIndex: int, pageSize: int) returns (list: PaginatedList<T>)
      requires pageSize >= 1
      ensures fresh(list)
      ensures list.PageIndex == pageIndex
      ensures list.TotalPages == TotalPagesFor(|source|, pageSize)
      ensures list.Items == PageSlice(source, pageIndex, pageSize)
    {
      var count := |source|;
      var items := Take(Skip(source, (pageIndex - 1) * pageSize), pageSize);
      list := new PaginatedList(items, count, pageIndex, pageSize);
    }
  }

  /**
   * Page `pageIndex` holds the source items from position
   * `(pageIndex - 1) * pageSize` on (from 0 when that is negative), at most
   * `pageSize` of them, in source order.
   */
  lemma PageSliceItems<T>(source: seq<T>, pageIndex: int, pageSize: int)
    requires pageSize >= 1
    ensures var start := if PageStart(pageIndex, pageSize) < 0 then 0 else PageStart(pageIndex, pageSize);
      var page := PageSlice(source, pageIndex, pageSize);
      && |page| == (if start >= |source| then 0 else if |source| - start < pageSize then |source| - start else pageSize)
      && forall k :: 0 <= k < |page| ==> page[k] == source[start + k]
  {
  }

  lemma MulMonotone(a: int, b: int, c: int)
    requires a <= b && c >= 0
    ensures a * c <= b * c
  {
    assert b * c - a * c == (b - a) * c;
  }

  lemma DivMod(i: int, d: int)
    requires i >= 0 && d >= 1
    ensures i == i / d * d + i % d && 0 <= i % d < d && i / d >= 0
  {
  }

  /** `TotalPagesFor` is the ceiling of `count / pageSize`: no page when there is no item. */
  lemma TotalPagesZeroIffEmpty(count: int, pageSize: int)
    requires count >= 0 && pageSize >= 1
    ensures TotalPagesFor(count, pageSize) >= 0
    ensures TotalPagesFor(count, pageSize) == 0 <==> count == 0
  {
    var pages := TotalPagesFor(count, pageSize);
    if pages < 0 {
      MulMonotone(pages, -1, pageSize);
    }
    if pages > 0 {
      MulMonotone(0, pages - 1, pageSize);
    }
  }

  /** Every item of the source is on exactly the page its position says, at the matching place. */
  lemma {:induction false} ItemOnItsPage<T>(source: seq<T>, pageSize: int, i: int)
    requires pageSize >= 1 && 0 <= i < |source|
    ensures var pageIndex := i / pageSize + 1;
      && 1 <= pageIndex <= TotalPagesFor(|source|, pageSize)
      && i % pageSize < |PageSlice(source, pageIndex, pageSize)|
      && PageSlice(source, pageIndex, pageSize)[i % pageSize] == source[i]
  {
    var pageIndex := i / pageSize + 1;
    var q, r := i / pageSize, i % pageSize;
    DivMod(i, pageSize);
    var start := PageStart(pageIndex, pageSize);
    assert start == q * pageSize;
    MulMonotone(0, q, pageSize);
    if q >= TotalPagesFor(|source|, pageSize) {
      MulMonotone(TotalPagesFor(|source|, pageSize), q, pageSize);
    }
    var tail := Skip(source, start);
    assert tail == source[start..] && |tail| > r;
    assert tail[r] == source[i];
  }

  /**
   * A page index past the last page is not an error: the page is empty and
   * has no next page, while it still has a previous one.
   */
  lemma PastLastPage<T>(source: seq<T>, pageIndex: int, pageSize: int, list: PaginatedList<T>)
    requires pageSize >= 1
    requires list.PageIndex == pageIndex && list.TotalPages == TotalPagesFor(|source|, pageSize)
    requires list.Items == PageSlice(source, pageIndex, pageSize)
    requires pageIndex > list.TotalPages
    ensures list.Items == []
    ensures !list.HasNextPage()
    ensures |source| > 0 ==> list.HasPreviousPage()
  {
    MulMonotone(list.TotalPages, pageIndex - 1, pageSize);
    TotalPagesZeroIffEmpty(|source|, pageSize);
  }

  /** From a real page, "Next" is enabled exactly when the following page has items. */
  lemma {:induction false} HasNextIffNextPageNonEmpty<T>(source: seq<T>, pageSize: int, list: PaginatedList<T>)
    requires pageSize >= 1 && list.PageIndex >= 1
    requires list.TotalPages == TotalPagesFor(|source|, pageSize)
    ensures list.HasNextPage() <==> PageSlice(source, list.PageIndex + 1, pageSize) != []
  {
    var p := list.PageIndex;
    var pages := list.TotalPages;
    var start := PageStart(p + 1, pageSize);
    assert start == p * pageSize;
    MulMonotone(0, p, pageSize);
    PageSliceItems(source, p + 1, pageSize);
    assert PageSlice(source, p + 1, pageSize) != [] <==> start < |source|;
    if p < pages {
      MulMonotone(p, pages - 1, pageSize);
    } else {
      MulMonotone(pages, p, pageSize);
    }
  }

  /** From a page index of 1 or more, "Previous" is enabled exactly when the page does not start at the first item. */
  lemma HasPreviousIffItemsBefore<T>(pageSize: int, list: PaginatedList<T>)
    requires pageSize >= 1 && list.PageIndex >= 1
    ensures list.HasPreviousPage() <==> PageStart(list.PageIndex, pageSize) > 0
  {
    if list.PageIndex > 1 {
      assert (list.PageIndex - 1) * pageSize >= pageSize;
    }
  }

  /** A non-empty source no longer than a page is one page, and page 1 holds all of it. */
  lemma SinglePage<T>(source: seq<T>, pageSize: int)
    requires pageSize >= 1 && 0 < |source| <= pageSize
    ensures TotalPagesFor(|source|, pageSize) == 1
    ensures PageSlice(source, 1, pageSize) == source
  {
    var pages := TotalPagesFor(|source|, pageSize);
    if pages < 1 {
      MulMonotone(pages, 0, pageSize);
    } else if pages > 1 {
      MulMonotone(1, pages - 1, pageSize);
    }
  }

  /** Seven items at three per page: three pages; page 2 holds items 4 to 6 and has both links. */
  lemma SevenItemsSecondPage<T>(source: seq<T>, list: PaginatedList<T>)
    requires |source| == 7
    requires list.PageIndex == 2 && list.TotalPages == TotalPagesFor(7, 3)
    requires list.Items == PageSlice(source, 2, 3)
    ensures list.TotalPages == 3
    ensures list.Items == source[3..6]
    ensures list.HasPreviousPage() && list.HasNextPage()
  {
  }
}
