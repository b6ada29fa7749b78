/**
 * The page-button rule of src/components/csv/Pagination.tsx: which of the
 * pages `1..totalPages` get a button, where an ellipsis stands in for a
 * run of hidden pages, and when Previous and Next act.
 */
module Pagination {
  import opened Wrappers

  /** The button variant: `default` marks the current page, `outline` the others. */
  datatype Variant = Default | Outline

  /** What one page renders as (React's `key` is the page number in both cases). */
  datatype PageItem = PageButton(page: int, variant: Variant) | Ellipsis(page: int)

  /** The rendered control: the two arrow buttons' disabled flags and the page items between them. */
  datatype PaginationView = PaginationView(previousDisabled: bool, items: seq<PageItem>, nextDisabled: bool)

  /** `showPage`: the first page, the last page, and the pages next to the current one. */
  predicate ShowPage(page: int, currentPage: int, totalPages: int)
  {
    page == 1 || page == totalPages || (page >= currentPage - 1 && page <= currentPage + 1)
  }

  /** What the map callback returns for one page: a button, an ellipsis, or nothing (`null`). */
  function ItemFor(page: int, currentPage: int, totalPages: int): Option<PageItem>
  {
    if !ShowPage(page, currentPage, totalPages) then
      if page == currentPage - 2 || page == currentPage + 2 then Some(Ellipsis(page)) else None
    else
      Some(PageButton(page, if currentPage == page then Default else Outline))
  }

  /**
   * The items rendered for pages `1..n`, in page order: each page gives
   * the item `ItemFor` says, or nothing, and no page gives two.
   */
  function ItemsUpTo(currentPage: int, totalPages: int, n: nat): (r: seq<PageItem>)
    ensures forall k :: 0 <= k < |r| ==>
      1 <= r[k].page <= n && ItemFor(r[k].page, currentPage, totalPages) == Some(r[k])
    ensures forall a, b :: 0 <= a < b < |r| ==> r[a].page < r[b].page
    ensures forall p :: 1 <= p <= n && ItemFor(p, currentPage, totalPages).Some? ==>
      exists k :: 0 <= k < |r| && r[k].page == p
  {
    if n == 0 then []
    else
      var front := ItemsUpTo(currentPage, totalPages, n - 1);
      var last := match ItemFor(n, currentPage, totalPages)
        case Some(item) => [item]
        case None => [];
      var r := front + last;
      assert forall k :: 0 <= k < |front| ==> r[k] == front[k];
      assert forall k :: 0 <= k < |last| ==> r[|front| + k] == last[k] && last[k].page == n;
      assert ItemFor(n, currentPage, totalPages).Some? ==> r[|front|].page == n;
      r
  }

  /** The page items for pages `1..totalPages`. */
  function PageItems(currentPage: int, totalPages: nat): seq<PageItem>
  {
    ItemsUpTo(currentPage, totalPages, totalPages)
  }

  /** The component: nothing at all without pages, otherwise the arrows and the page items. */
  function Render(currentPage: int, totalPages: nat): (r: Option<PaginationView>)
    ensures r.None? <==> totalPages == 0
    ensures r.Some? ==> r.value.items == PageItems(currentPage, totalPages)
    ensures r.Some? ==> (r.value.previousDisabled <==> currentPage == 1)
    ensures r.Some? ==> (r.value.nextDisabled <==> currentPage == totalPages)
  {
    if totalPages == 0 then None
    else Some(PaginationView(currentPage == 1, PageItems(currentPage, totalPages), currentPage == totalPages))
  }

  /** `goToPrevious`: the page it asks for, if any. */
  function GoToPrevious(currentPage: int): (r: Option<int>)
    ensures r.Some? <==> currentPage > 1
    ensures r.Some? ==> r.value == currentPage - 1
  {
    if currentPage > 1 then Some(currentPage - 1) else None
  }

  /** `goToNext`: the page it asks for, if any. */
  function GoToNext(currentPage: int, totalPages: int): (r: Option<int>)
    ensures r.Some? <==> currentPage < totalPages
    ensures r.Some? ==> r.value == currentPage + 1
  {
    if currentPage < totalPages then Some(currentPage + 1) else None
  }

  /**
   * From a page in range, Previous and Next only ever ask for a page in
   * range, and each arrow does nothing exactly when it is disabled.
   */
  lemma ArrowsStayInRange(currentPage: int, totalPages: nat)
    requires 1 <= currentPage <= totalPages
    ensures GoToPrevious(currentPage).Some? ==> 1 <= GoToPrevious(currentPage).value <= totalPages
    ensures GoToNext(currentPage, totalPages).Some? ==> 1 <= GoToNext(currentPage, totalPages).value <= totalPages
    ensures GoToPrevious(currentPage).None? <==> Render(currentPage, totalPages).value.previousDisabled
    ensures GoToNext(currentPage, totalPages).None? <==> Render(currentPage, totalPages).value.nextDisabled
  {
  }

  /** Page `p` has a button exactly when it is the first, the last, or next to the current page. */
  lemma ButtonsExactly(currentPage: int, totalPages: nat, p: int)
    ensures (exists k :: 0 <= k < |PageItems(currentPage, totalPages)|
               && PageItems(currentPage, totalPages)[k].PageButton?
               && PageItems(currentPage, totalPages)[k].page == p)
        <==> 1 <= p <= totalPages && (p == 1 || p == totalPages || currentPage - 1 <= p <= currentPage + 1)
  {
    var items := PageItems(currentPage, totalPages);
    if 1 <= p <= totalPages && ShowPage(p, currentPage, totalPages) {
      assert ItemFor(p, currentPage, totalPages).Some?;
      var k :| 0 <= k < |items| && items[k].page == p;
      assert items[k].PageButton?;
    }
  }

  /**
   * A hidden page shows an ellipsis exactly when it is two away from the
   * current page, and nothing otherwise.
   */
  lemma EllipsesExactly(currentPage: int, totalPages: nat, p: int)
    ensures (exists k :: 0 <= k < |PageItems(currentPage, totalPages)|
               && PageItems(currentPage, totalPages)[k].Ellipsis?
               && PageItems(currentPage, totalPages)[k].page == p)
        <==> 1 <= p <= totalPages && !ShowPage(p, currentPage, totalPages)
             && (p == currentPage - 2 || p == currentPage + 2)
  {
    var items := PageItems(currentPage, totalPages);
    if 1 <= p <= totalPages && !ShowPage(p, currentPage, totalPages) && (p == currentPage - 2 || p == currentPage + 2) {
      assert ItemFor(p, currentPage, totalPages).Some?;
      var k :| 0 <= k < |items| && items[k].page == p;
      assert items[k].Ellipsis?;
    }
  }

  /** Only the current page's button uses the `default` variant. */
  lemma CurrentPageHighlighted(currentPage: int, totalPages: nat)
    ensures forall k :: 0 <= k < |PageItems(currentPage, totalPages)| &&
                        PageItems(currentPage, totalPages)[k].PageButton? ==>
      ((PageItems(currentPage, totalPages)[k].variant == Default)
        <==> (PageItems(currentPage, totalPages)[k].page == currentPage))
  {
  }

  /** Two consecutive items are never both ellipses. */
  lemma EllipsesNotAdjacent(currentPage: int, totalPages: nat)
    ensures forall k :: 0 <= k < |PageItems(currentPage, totalPages)| - 1 ==>
      !(PageItems(currentPage, totalPages)[k].Ellipsis? && PageItems(currentPage, totalPages)[k + 1].Ellipsis?)
  {
    var items := PageItems(currentPage, totalPages);
    forall k | 0 <= k < |items| - 1 && items[k].Ellipsis?
      ensures !items[k + 1].Ellipsis?
    {
      var e := items[k].page;
      if e == currentPage - 2 {
        // The page just below the current one has a button, and it lies
        // between this ellipsis and any later one.
        var p := currentPage - 1;
        assert 1 <= p <= totalPages && ItemFor(p, currentPage, totalPages).Some?;
        var j :| 0 <= j < |items| && items[j].page == p;
        assert k < j;
        assert items[k + 1].page <= p;
        assert items[k + 1].page == p;
      } else {
        assert items[k + 1].page > currentPage + 2;
      }
    }
  }

  /** There are never more than two ellipses. */
  lemma AtMostTwoEllipses(currentPage: int, totalPages: nat)
    ensures forall a, b, c :: 0 <= a < b < c < |PageItems(currentPage, totalPages)| ==>
      !(PageItems(currentPage, totalPages)[a].Ellipsis? && PageItems(currentPage, totalPages)[b].Ellipsis?
        && PageItems(currentPage, totalPages)[c].Ellipsis?)
  {
  }

  /** A strictly increasing sequence drawn from a set is no longer than the set. */
  lemma {:induction false} IncreasingWithin(xs: seq<int>, s: set<int>)
    requires forall a, b :: 0 <= a < b < |xs| ==> xs[a] < xs[b]
    requires forall k :: 0 <= k < |xs| ==> xs[k] in s
    ensures |xs| <= |s|
  {
    if |xs| > 0 {
      var last := xs[|xs| - 1];
      IncreasingWithin(xs[..|xs| - 1], s - {last});
    }
  }

  /** At most seven items: the first and last page, three around the current one, and two ellipses. */
  lemma AtMostSevenItems(currentPage: int, totalPages: nat)
    ensures |PageItems(currentPage, totalPages)| <= 7
  {
    var items := PageItems(currentPage, totalPages);
    var pages := seq(|items|, k requires 0 <= k < |items| => items[k].page);
    var candidates := {1, totalPages, currentPage - 2, currentPage - 1, currentPage, currentPage + 1, currentPage + 2};
    IncreasingWithin(pages, candidates);
  }
}
