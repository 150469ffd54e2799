/**
 * The match table's pagination bar and its year filter choices.
 */
module DataTable {
  import opened Types
  import opened Calculations

  /** One slot of the pagination bar. */
  datatype PageItem = Page(n: int) | Ellipsis

  function Max(a: int, b: int): int { if a >= b then a else b }
  function Min(a: int, b: int): int { if a <= b then a else b }

  /** Page links `lo`, `lo + 1`, ..., `hi`; none when `lo > hi`. */
  function Range(lo: int, hi: int): (r: seq<PageItem>)
    ensures |r| == if lo <= hi then hi - lo + 1 else 0
    ensures forall k :: 0 <= k < |r| ==> r[k] == Page(lo + k)
    decreases hi - lo
  {
    if lo > hi then [] else Range(lo, hi - 1) + [Page(hi)]
  }

  /** Whether a leading / trailing ellipsis is shown. */
  predicate LeadingGap(currentPage: int) { currentPage > 3 }
  predicate TrailingGap(currentPage: int, totalPages: int) { currentPage < totalPages - 2 }

  function WindowStart(currentPage: int): int { Max(2, currentPage - 1) }
  function WindowEnd(currentPage: int, totalPages: int): int { Min(totalPages - 1, currentPage + 1) }

  /**
   * The bar as a value: every page when there are at most seven; otherwise
   * the first page, an optional ellipsis, the neighbours of the current
   * page, an optional ellipsis and the last page.
   */
  function PageWindow(currentPage: int, totalPages: int): (r: seq<PageItem>)
  {
    if totalPages <= 7 then Range(1, totalPages)
    else
      [Page(1)]
      + (if LeadingGap(currentPage) then [Ellipsis] else [])
      + Range(WindowStart(currentPage), WindowEnd(currentPage, totalPages))
      + (if TrailingGap(currentPage, totalPages) then [Ellipsis] else [])
      + [Page(totalPages)]
  }

  /** One of the bar's two `for` loops: pushes page links `lo` to `hi` onto `pages`. */
  method PushPages(pages: seq<PageItem>, lo: int, hi: int) returns (r: seq<PageItem>)
    ensures r == pages + Range(lo, hi)
  {
    r := pages;
    var i := lo;
    while i <= hi
      invariant lo <= i <= Max(lo, hi + 1)
      invariant r == pages + Range(lo, i - 1)
      decreases hi - i
    {
      assert Range(lo, i) == Range(lo, i - 1) + [Page(i)];
      r := r + [Page(i)];
      i := i + 1;
    }
  }

  /** `getPageNumbers`: builds the bar by pushing onto a list. */
  method GetPageNumbers(currentPage: int, totalPages: int) returns (pages: seq<PageItem>)
    ensures pages == PageWindow(currentPage, totalPages)
  {
    pages := [];
    if totalPages <= 7 {
      pages := PushPages(pages, 1, totalPages);
    } else {
      pages := pages + [Page(1)];
      if currentPage > 3 {
        pages := pages + [Ellipsis];
      }
      var start := Max(2, currentPage - 1);
      var end := Min(totalPages - 1, currentPage + 1);
      pages := PushPages(pages, start, end);
      if currentPage < totalPages - 2 {
        pages := pages + [Ellipsis];
      }
      pages := pages + [Page(totalPages)];
    }
  }

  /** The slot at position `k` of a bar over more than seven pages. */
  function SlotAt(currentPage: int, totalPages: int, k: int): PageItem
  {
    var lead := if LeadingGap(currentPage) then 1 else 0;
    var s, e := WindowStart(currentPage), WindowEnd(currentPage, totalPages);
    var m := if s <= e then e - s + 1 else 0;
    if k == 0 then Page(1)
    else if k < 1 + lead then Ellipsis
    else if k < 1 + lead + m then Page(s + k - 1 - lead)
    else if k < 1 + lead + m + (if TrailingGap(currentPage, totalPages) then 1 else 0) then Ellipsis
    else Page(totalPages)
  }

  lemma WindowShape(currentPage: int, totalPages: int)
    requires currentPage >= 1 && totalPages > 7
    ensures var p := PageWindow(currentPage, totalPages);
            var s, e := WindowStart(currentPage), WindowEnd(currentPage, totalPages);
            && |p| == 2 + (if LeadingGap(currentPage) then 1 else 0) + (if s <= e then e - s + 1 else 0)
                        + (if TrailingGap(currentPage, totalPages) then 1 else 0)
            && forall k :: 0 <= k < |p| ==> p[k] == SlotAt(currentPage, totalPages, k)
  {
  }

  /** At most seven pages: exactly the pages 1 to `totalPages`, no ellipsis. */
  lemma FewPagesAllShown(currentPage: int, totalPages: int)
    requires 0 <= totalPages <= 7
    ensures var p := PageWindow(currentPage, totalPages);
            |p| == totalPages && forall k :: 0 <= k < |p| ==> p[k] == Page(k + 1)
  {
  }

  /** More than seven pages: the bar starts at page 1, ends at the last page, and each ellipsis shows exactly when its condition holds. */
  lemma ManyPagesEnds(currentPage: int, totalPages: int)
    requires currentPage >= 1 && totalPages > 7
    ensures var p := PageWindow(currentPage, totalPages);
            && |p| >= 3 && p[0] == Page(1) && p[|p| - 1] == Page(totalPages)
            && (p[1] == Ellipsis <==> currentPage > 3)
            && (currentPage <= totalPages ==> (p[|p| - 2] == Ellipsis <==> currentPage < totalPages - 2))
  {
    WindowShape(currentPage, totalPages);
  }

  predicate NumbersIncreasing(p: seq<PageItem>)
  {
    forall i, j :: 0 <= i < j < |p| && p[i].Page? && p[j].Page? ==> p[i].n < p[j].n
  }

  predicate NumbersWithin(p: seq<PageItem>, totalPages: int)
  {
    forall i :: 0 <= i < |p| && p[i].Page? ==> 1 <= p[i].n <= totalPages
  }

  predicate NoAdjacentEllipses(p: seq<PageItem>)
  {
    forall i :: 0 <= i < |p| - 1 ==> !(p[i].Ellipsis? && p[i + 1].Ellipsis?)
  }

  /** Neighbouring page links are consecutive; an ellipsis sits between pages at least two apart. */
  predicate GapsAreReal(p: seq<PageItem>)
  {
    && (forall i :: 0 <= i < |p| - 1 && p[i].Page? && p[i + 1].Page? ==> p[i + 1].n == p[i].n + 1)
    && (forall i :: 0 <= i < |p| && p[i].Ellipsis? ==>
          0 < i < |p| - 1 && p[i - 1].Page? && p[i + 1].Page? && p[i + 1].n >= p[i - 1].n + 2)
  }

  lemma {:induction false} GapsGiveIncrease(p: seq<PageItem>, i: int, j: int)
    requires GapsAreReal(p)
    requires 0 <= i < j < |p| && p[i].Page? && p[j].Page?
    ensures p[i].n < p[j].n
    decreases j - i
  {
    if j == i + 1 {
    } else if p[i + 1].Page? {
      GapsGiveIncrease(p, i + 1, j);
    } else if j > i + 2 {
      GapsGiveIncrease(p, i + 2, j);
    }
  }

  /** A bar bounded by page 1 and page `totalPages` whose gaps are real is ordered, in range and has no double ellipsis. */
  lemma BoundsFromGaps(p: seq<PageItem>, totalPages: int)
    requires GapsAreReal(p)
    requires p != [] ==> p[0] == Page(1) && p[|p| - 1] == Page(totalPages)
    ensures NumbersIncreasing(p) && NumbersWithin(p, totalPages) && NoAdjacentEllipses(p)
  {
    forall i, j | 0 <= i < j < |p| && p[i].Page? && p[j].Page?
      ensures p[i].n < p[j].n
    {
      GapsGiveIncrease(p, i, j);
    }
    forall i | 0 <= i < |p| && p[i].Page?
      ensures 1 <= p[i].n <= totalPages
    {
      if i > 0 { GapsGiveIncrease(p, 0, i); }
      if i < |p| - 1 { GapsGiveIncrease(p, i, |p| - 1); }
    }
  }

  lemma WindowGaps(currentPage: int, totalPages: int)
    requires currentPage >= 1 && totalPages >= 0
    ensures GapsAreReal(PageWindow(currentPage, totalPages))
  {
    var p := PageWindow(currentPage, totalPages);
    if totalPages > 7 {
      WindowShape(currentPage, totalPages);
      forall i | 0 <= i < |p| - 1 && p[i].Page? && p[i + 1].Page?
        ensures p[i + 1].n == p[i].n + 1
      {
        assert p[i] == SlotAt(currentPage, totalPages, i);
        assert p[i + 1] == SlotAt(currentPage, totalPages, i + 1);
      }
      forall i | 0 <= i < |p| && p[i].Ellipsis?
        ensures 0 < i < |p| - 1 && p[i - 1].Page? && p[i + 1].Page? && p[i + 1].n >= p[i - 1].n + 2
      {
        assert p[i] == SlotAt(currentPage, totalPages, i);
        assert p[i - 1] == SlotAt(currentPage, totalPages, i - 1);
        assert p[i + 1] == SlotAt(currentPage, totalPages, i + 1);
      }
    }
  }

  /** The bar's bounds: ordered, in range, compact and with honest ellipses. */
  lemma WindowBounds(currentPage: int, totalPages: int)
    requires currentPage >= 1 && totalPages >= 0
    ensures var p := PageWindow(currentPage, totalPages);
            && NumbersIncreasing(p)
            && NumbersWithin(p, totalPages)
            && NoAdjacentEllipses(p)
            && GapsAreReal(p)
            && |p| <= 7
  {
    var p := PageWindow(currentPage, totalPages);
    WindowGaps(currentPage, totalPages);
    if totalPages > 7 {
      WindowShape(currentPage, totalPages);
      assert p[0] == Page(1) && p[|p| - 1] == Page(totalPages);
    }
    BoundsFromGaps(p, totalPages);
  }

  /** The current page always has a link of its own. */
  lemma CurrentPageShown(currentPage: int, totalPages: int)
    requires 1 <= currentPage <= totalPages
    ensures Page(currentPage) in PageWindow(currentPage, totalPages)
  {
    var p := PageWindow(currentPage, totalPages);
    if totalPages <= 7 {
      assert p[currentPage - 1] == Page(currentPage);
    } else {
      WindowShape(currentPage, totalPages);
      var lead := if LeadingGap(currentPage) then 1 else 0;
      if currentPage == 1 {
        assert p[0] == Page(1);
      } else if currentPage == totalPages {
        assert p[|p| - 1] == Page(totalPages);
      } else {
        var k := 1 + lead + currentPage - WindowStart(currentPage);
        assert p[k] == Page(currentPage);
      }
    }
  }

  function RowYears(data: seq<Match>): seq<int>
  {
    seq(|data|, i requires 0 <= i < |data| => data[i].date.year)
  }

  /** `["all", ...distinct years of the rows, latest first]`. */
  function AvailableYears(data: seq<Match>): (r: seq<YearOption>)
    ensures |r| >= 1 && r[0] == AllYears
    ensures forall i :: 1 <= i < |r| ==> r[i].InYear?
    ensures forall y :: InYear(y) in r <==> exists i :: 0 <= i < |data| && data[i].date.year == y
    ensures forall i, j :: 1 <= i < j < |r| ==> r[i].InYear? && r[j].InYear? && r[i].year > r[j].year
  {
    var years := RowYears(data);
    assert forall y :: y in years <==> exists i :: 0 <= i < |data| && data[i].date.year == y by {
      forall y | exists i :: 0 <= i < |data| && data[i].date.year == y ensures y in years {
        var i :| 0 <= i < |data| && data[i].date.year == y;
        assert years[i] == y;
      }
    }
    YearOptions(years)
  }
}
