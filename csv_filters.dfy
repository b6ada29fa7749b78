/**
 * The row filter and pagination arithmetic of src/lib/csvFilters.ts.
 *
 * `FilterRows` applies the search step and then the marking step. As in
 * the source, the marking step looks markings up by a row's position in
 * the list the search step returned, not by its position among all rows;
 * the two frames agree when the query is blank (`BlankQueryMarkingFilter`)
 * and differ otherwise (`SearchShiftsMarkingFrame`).
 */
module CsvFilters {
  import opened Wrappers
  import opened Markings
  import Seqs
  import Text

  type Row = seq<string>

  /** The choice in the marking filter: every row, or one marking type. */
  datatype FilterType = All | Only(markingType: MarkingType)

  /** `searchQuery.trim()` is a non-empty string. */
  predicate HasQuery(searchQuery: string)
  {
    Text.Trim(searchQuery) != []
  }

  /** Some cell of the row, lowercased, contains `query` (already lowercased by the caller). */
  predicate RowMatches(row: Row, query: string)
  {
    exists c | 0 <= c < |row| :: Text.Contains(Text.LowerStr(row[c]), query)
  }

  /** The search step's callback: the row matches the lowercased query; its position is ignored. */
  function SearchKeep(query: string): (Row, int) -> bool
  {
    (row: Row, index: int) => RowMatches(row, query)
  }

  /** The marking step's callback: the marking stored under the row's position equals `t`. */
  function MarkingKeep(markings: map<int, MarkingType>, t: MarkingType): (Row, int) -> bool
  {
    (row: Row, index: int) => Get(markings, index) == Some(t)
  }

  /** The rows left after the search step: all of them when the trimmed query is empty. */
  function SearchStep(rows: seq<Row>, searchQuery: string): (r: seq<Row>)
    ensures !HasQuery(searchQuery) ==> r == rows
  {
    if HasQuery(searchQuery) then Seqs.Filter(rows, SearchKeep(Text.LowerStr(searchQuery)))
    else rows
  }

  /** The rows left after the marking step: all of them under `All`. */
  function MarkingStep(rows: seq<Row>, filterType: FilterType, markings: map<int, MarkingType>): (r: seq<Row>)
    ensures filterType == All ==> r == rows
  {
    match filterType
    case All => rows
    case Only(t) => Seqs.Filter(rows, MarkingKeep(markings, t))
  }

  /**
   * `filterCSVRows`: the search step, then the marking step on its result.
   * A blank query with filter `All` returns the rows unchanged.
   */
  function FilterRows(rows: seq<Row>, searchQuery: string, filterType: FilterType,
                      markings: map<int, MarkingType>): (r: seq<Row>)
    ensures |r| <= |rows|
    ensures !HasQuery(searchQuery) && filterType == All ==> r == rows
  {
    MarkingStep(SearchStep(rows, searchQuery), filterType, markings)
  }

  /** `r` is `s` read at strictly increasing positions: a subsequence in the same order. */
  ghost predicate IsSubsequence<T>(r: seq<T>, s: seq<T>)
  {
    exists idx: seq<int> :: SelectsFrom(r, s, idx)
  }

  /** `idx` lists strictly increasing positions of `s` whose elements make up `r`. */
  ghost predicate SelectsFrom<T>(r: seq<T>, s: seq<T>, idx: seq<int>)
  {
    && |idx| == |r|
    && Seqs.StrictlyIncreasing(idx)
    && (forall k :: 0 <= k < |idx| ==> 0 <= idx[k] < |s| && r[k] == s[idx[k]])
  }

  /** A filter result is a subsequence of its input. */
  lemma {:induction false} FilterIsSubsequence<T>(s: seq<T>, keep: (T, int) -> bool)
    ensures SelectsFrom(Seqs.Filter(s, keep), s, Seqs.Kept(s, keep))
  {
    Seqs.FilterSelectsKept(s, keep);
  }

  /** A subsequence of a subsequence is a subsequence. */
  lemma SubsequenceTransitive<T>(r: seq<T>, s: seq<T>, t: seq<T>)
    requires IsSubsequence(r, s) && IsSubsequence(s, t)
    ensures IsSubsequence(r, t)
  {
    var i :| SelectsFrom(r, s, i);
    var j :| SelectsFrom(s, t, j);
    var idx := seq(|i|, k requires 0 <= k < |i| => j[i[k]]);
    assert SelectsFrom(r, t, idx);
  }

  /** Filtering never invents or reorders rows: the result is a subsequence of the input. */
  lemma FilterRowsIsSubsequence(rows: seq<Row>, searchQuery: string, filterType: FilterType,
                                markings: map<int, MarkingType>)
    ensures IsSubsequence(FilterRows(rows, searchQuery, filterType, markings), rows)
  {
    var mid := SearchStep(rows, searchQuery);
    if HasQuery(searchQuery) {
      FilterIsSubsequence(rows, SearchKeep(Text.LowerStr(searchQuery)));
    } else {
      var idx := seq(|rows|, k requires 0 <= k < |rows| => k);
      assert SelectsFrom(mid, rows, idx);
    }
    var out := FilterRows(rows, searchQuery, filterType, markings);
    match filterType {
      case All =>
        var idx := seq(|mid|, k requires 0 <= k < |mid| => k);
        assert SelectsFrom(out, mid, idx);
      case Only(t) =>
        FilterIsSubsequence(mid, MarkingKeep(markings, t));
    }
    SubsequenceTransitive(out, mid, rows);
  }

  /**
   * With a non-blank query the search step keeps, in order, exactly the
   * rows having a cell whose lowercase contains the lowercased query; the
   * query is matched untrimmed.
   */
  lemma {:induction false} SearchKeepsMatchingRows(rows: seq<Row>, searchQuery: string)
    requires HasQuery(searchQuery)
    ensures SelectsFrom(SearchStep(rows, searchQuery), rows,
                        Seqs.Kept(rows, SearchKeep(Text.LowerStr(searchQuery))))
    ensures forall i :: 0 <= i < |rows| ==>
      (i in Seqs.Kept(rows, SearchKeep(Text.LowerStr(searchQuery)))
       <==> (exists c | 0 <= c < |rows[i]| ::
               Text.Contains(Text.LowerStr(rows[i][c]), Text.LowerStr(searchQuery))))
  {
    FilterIsSubsequence(rows, SearchKeep(Text.LowerStr(searchQuery)));
  }

  /**
   * Under a specific marking type the marking step keeps, in order,
   * exactly the rows of its input whose position there has that marking;
   * rows without a marking are dropped.
   */
  lemma {:induction false} MarkingKeepsMarkedPositions(rows: seq<Row>, t: MarkingType, markings: map<int, MarkingType>)
    ensures SelectsFrom(MarkingStep(rows, Only(t), markings), rows, Seqs.Kept(rows, MarkingKeep(markings, t)))
    ensures forall i :: 0 <= i < |rows| ==>
      (i in Seqs.Kept(rows, MarkingKeep(markings, t)) <==> i in markings && markings[i] == t)
  {
    FilterIsSubsequence(rows, MarkingKeep(markings, t));
  }

  /**
   * With a blank query the two index frames coincide: filtering by a
   * marking type keeps, in order, exactly the original rows `i` marked
   * with that type.
   */
  lemma {:induction false} BlankQueryMarkingFilter(rows: seq<Row>, searchQuery: string, t: MarkingType,
                                markings: map<int, MarkingType>)
    requires !HasQuery(searchQuery)
    ensures SelectsFrom(FilterRows(rows, searchQuery, Only(t), markings), rows,
                        Seqs.Kept(rows, MarkingKeep(markings, t)))
    ensures forall i :: 0 <= i < |rows| ==>
      (i in Seqs.Kept(rows, MarkingKeep(markings, t)) <==> i in markings && markings[i] == t)
  {
    MarkingKeepsMarkedPositions(rows, t, markings);
  }

  /** A search that matches the second of two rows and not the first leaves only the second. */
  lemma {:induction false} SearchKeepsSecond(rows: seq<Row>, searchQuery: string)
    requires |rows| == 2 && HasQuery(searchQuery)
    requires !RowMatches(rows[0], Text.LowerStr(searchQuery)) && RowMatches(rows[1], Text.LowerStr(searchQuery))
    ensures SearchStep(rows, searchQuery) == [rows[1]]
  {
    var keep := SearchKeep(Text.LowerStr(searchQuery));
    assert !keep(rows[0], 0) && keep(rows[1], 1);
    assert Seqs.Filter(rows[..1], keep) == [] by {
      assert rows[..1][..0] == [];
    }
    assert Seqs.Filter(rows, keep) == Seqs.Filter(rows[..1], keep) + [rows[1]];
  }

  /**
   * The marking frame as written: when a search leaves only the second of
   * two rows, that row is kept under the filter `t` exactly when the FIRST
   * row's marking is `t`, because the marking is looked up at position 0
   * of the search result; the second row itself may be unmarked.
   */
  lemma {:induction false} SearchShiftsMarkingFrame(a: Row, b: Row, searchQuery: string, t: MarkingType)
    requires HasQuery(searchQuery)
    requires !RowMatches(a, Text.LowerStr(searchQuery)) && RowMatches(b, Text.LowerStr(searchQuery))
    ensures FilterRows([a, b], searchQuery, Only(t), map[0 := t]) == [b]
    ensures FilterRows([a, b], searchQuery, Only(t), map[1 := t]) == []
  {
    SearchKeepsSecond([a, b], searchQuery);
    var rows: seq<Row> := [b];
    assert rows[..0] == [];
  }

  // ---------------------------------------------------------------------
  // Pagination arithmetic
  // ---------------------------------------------------------------------

  /** What `getPaginationInfo` returns. */
  datatype PaginationInfo = PaginationInfo(totalPages: nat, startIndex: int, endIndex: int)

  /** `Math.ceil(n / k)` on whole numbers: the fewest pages of `k` that hold `n` items. */
  function CeilDiv(n: nat, k: nat): (pages: nat)
    requires k > 0
    ensures pages * k >= n
    ensures pages == 0 || (pages - 1) * k < n
    ensures pages == 0 <==> n == 0
  {
    var pages := (n + k - 1) / k;
    CeilDivBounds(n, k, pages, (n + k - 1) % k);
    pages
  }

  lemma CeilDivBounds(n: nat, k: nat, q: int, r: int)
    requires k > 0 && n + k - 1 == q * k + r && 0 <= r < k
    ensures q * k >= n
    ensures (q - 1) * k < n
    ensures q >= 0 && (q == 0 <==> n == 0)
  {
    assert (q - 1) * k == q * k - k;
    MulSign(q, k);
  }

  /** The sign of a product with a positive factor. */
  lemma MulSign(q: int, k: int)
    requires k > 0
    ensures q < 0 ==> q * k < 0
    ensures q == 0 ==> q * k == 0
    ensures q >= 1 ==> q * k >= k
  {
  }

  /**
   * `getPaginationInfo`: `totalPages` is the ceiling of `totalItems /
   * itemsPerPage` (0 exactly when there are no items), and page
   * `currentPage` spans exactly `itemsPerPage` positions from
   * `(currentPage - 1) * itemsPerPage`. The page is not clamped.
   */
  function GetPaginationInfo(totalItems: nat, currentPage: int, itemsPerPage: int): (info: PaginationInfo)
    requires itemsPerPage > 0
    ensures info.totalPages * itemsPerPage >= totalItems
    ensures info.totalPages == 0 || (info.totalPages - 1) * itemsPerPage < totalItems
    ensures info.totalPages == 0 <==> totalItems == 0
    ensures info.endIndex - info.startIndex == itemsPerPage
    ensures currentPage >= 1 ==> info.startIndex >= 0
  {
    var startIndex := (currentPage - 1) * itemsPerPage;
    PageStartBound(currentPage, itemsPerPage);
    PaginationInfo(CeilDiv(totalItems, itemsPerPage), startIndex, startIndex + itemsPerPage)
  }

  lemma PageStartBound(page: int, k: int)
    requires k > 0
    ensures page >= 1 ==> (page - 1) * k >= 0
  {
  }

  /** A page ends where the next one starts. */
  lemma EndIsNextStart(totalItems: nat, page: int, itemsPerPage: int)
    requires itemsPerPage > 0
    ensures GetPaginationInfo(totalItems, page, itemsPerPage).endIndex
         == GetPaginationInfo(totalItems, page + 1, itemsPerPage).startIndex
  {
    assert (page - 1) * itemsPerPage + itemsPerPage == page * itemsPerPage;
  }

  /**
   * `paginateRows`: the rows from `(page - 1) * itemsPerPage` up to
   * `itemsPerPage` further, cut off at the end of the list, and at most
   * `itemsPerPage` of them.
   */
  function PaginateRows<T>(rows: seq<T>, page: int, itemsPerPage: int): (r: seq<T>)
    requires itemsPerPage > 0
    ensures |r| <= itemsPerPage
    ensures page >= 1 ==>
      var start := (page - 1) * itemsPerPage;
      var end := start + itemsPerPage;
      r == rows[(if start < |rows| then start else |rows|)..(if end < |rows| then end else |rows|)]
  {
    var startIndex := (page - 1) * itemsPerPage;
    var endIndex := startIndex + itemsPerPage;
    PageStartBound(page, itemsPerPage);
    Seqs.Slice(rows, startIndex, endIndex)
  }

  /** The slice `getPaginationInfo` marks out is the page `paginateRows` cuts, starting where it says. */
  lemma {:induction false} InfoCutsPage<T>(rows: seq<T>, page: int, itemsPerPage: int)
    requires itemsPerPage > 0
    ensures var info := GetPaginationInfo(|rows|, page, itemsPerPage);
      && info.startIndex == (page - 1) * itemsPerPage
      && Seqs.Slice(rows, info.startIndex, info.endIndex) == PaginateRows(rows, page, itemsPerPage)
  {
  }

  /** A page past the last one is empty. */
  lemma PageAfterLastIsEmpty<T>(rows: seq<T>, page: int, itemsPerPage: int)
    requires itemsPerPage > 0
    ensures page > CeilDiv(|rows|, itemsPerPage) ==> PaginateRows(rows, page, itemsPerPage) == []
  {
    if page > CeilDiv(|rows|, itemsPerPage) {
      PastLastPage(|rows|, page, itemsPerPage);
      MulSign(page - 1, itemsPerPage);
    }
  }

  lemma PastLastPage(n: nat, page: int, k: int)
    requires k > 0
    ensures page > CeilDiv(n, k) ==> (page - 1) * k >= n
  {
    var t := CeilDiv(n, k);
    MulMonotone(t, page - 1, k);
  }

  /** Multiplying by a positive factor keeps the order. */
  lemma MulMonotone(a: int, b: int, k: int)
    requires k > 0
    ensures a <= b ==> a * k <= b * k
  {
    MulSign(b - a, k);
    assert b * k - a * k == (b - a) * k;
  }

  /** One more page advances the offset by one page size. */
  lemma MulStep(n: nat, k: int)
    requires n > 0 && k > 0
    ensures (n - 1) * k + k == n * k
    ensures 0 <= (n - 1) * k
  {
    MulSign(n - 1, k);
  }

  /** Twenty-five rows at ten a page: three pages, and the third holds rows 20 to 24. */
  lemma ThirdOfThreePages<T>(rows: seq<T>)
    requires |rows| == 25
    ensures GetPaginationInfo(25, 3, 10) == PaginationInfo(3, 20, 30)
    ensures PaginateRows(rows, 3, 10) == rows[20..25]
  {
    assert CeilDiv(25, 10) == 3;
  }

  /** Pages `1..n` one after the other. */
  function Pages<T>(rows: seq<T>, itemsPerPage: int, n: nat): seq<T>
    requires itemsPerPage > 0
  {
    if n == 0 then [] else Pages(rows, itemsPerPage, n - 1) + PaginateRows(rows, n, itemsPerPage)
  }

  /** The first `n` pages together are the first `n * itemsPerPage` rows. */
  lemma {:induction false} PagesArePrefix<T>(rows: seq<T>, itemsPerPage: int, n: nat)
    requires itemsPerPage > 0
    ensures Pages(rows, itemsPerPage, n)
         == rows[..if n * itemsPerPage < |rows| then n * itemsPerPage else |rows|]
  {
    if n > 0 {
      PagesArePrefix(rows, itemsPerPage, n - 1);
      var k := itemsPerPage;
      var s := (n - 1) * k;
      var e := n * k;
      MulStep(n, k);
      var a := if s < |rows| then s else |rows|;
      var b := if e < |rows| then e else |rows|;
      assert PaginateRows(rows, n, k) == rows[a..b];
      PrefixSplit(rows, a, b);
    }
  }

  lemma PrefixSplit<T>(s: seq<T>, a: nat, b: nat)
    requires a <= b <= |s|
    ensures s[..a] + s[a..b] == s[..b]
  {
  }

  /** Pages `1..totalPages` partition the rows: every row appears once, in order. */
  lemma {:induction false} PagesPartitionRows<T>(rows: seq<T>, itemsPerPage: int)
    requires itemsPerPage > 0
    ensures Pages(rows, itemsPerPage, CeilDiv(|rows|, itemsPerPage)) == rows
  {
    PagesArePrefix(rows, itemsPerPage, CeilDiv(|rows|, itemsPerPage));
  }
}
