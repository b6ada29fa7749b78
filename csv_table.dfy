/**
 * The stateful viewer of src/components/CSVTable.tsx: its six pieces of
 * React state as the fields of a class, the handlers that update them,
 * the loop that turns the fetched marking records into the markings map,
 * and the screen computed from the state on every render.
 *
 * The backend is not modelled: what a fetch returned, and whether a save
 * or a removal succeeded, are parameters of the handlers.
 */
module CsvTable {
  import opened Wrappers
  import opened Markings
  import Seqs
  import Text
  import CsvFilters
  import Pagination
  import DataTable

  /** The part of a stored marking the viewer reads: the row and its type. */
  datatype MarkingRecord = MarkingRecord(rowNumber: int, markingType: MarkingType)

  /** The request a row click sends to the backend. */
  datatype RemoteCall = SaveMarking(rowNumber: int, markingType: MarkingType) | RemoveMarking(rowNumber: int)

  /** The "Rows per page" choices of src/components/csv/ItemsPerPageSelect.tsx. */
  const ItemsPerPageOptions: seq<int> := [10, 25, 50, 100]

  /** Every choice the select offers is a usable page size. */
  lemma OptionsArePageSizes()
    ensures forall k :: 0 <= k < |ItemsPerPageOptions| ==> ItemsPerPageOptions[k] > 0
    ensures 10 in ItemsPerPageOptions
  {
  }

  // ---------------------------------------------------------------------
  // The markings map
  // ---------------------------------------------------------------------

  /**
   * The map a successful click leaves: the row moves to the next state of
   * the cycle (set, or deleted after `favorite`), every other row is kept.
   */
  function Click(markings: map<int, MarkingType>, row: int): (r: map<int, MarkingType>)
    ensures Get(r, row) == Next(Get(markings, row))
    ensures forall k :: k != row ==> Get(r, k) == Get(markings, k)
  {
    match Next(Get(markings, row))
    case Some(t) => markings[row := t]
    case None => markings - {row}
  }

  /** `n` successful clicks on the same row. */
  function ClickN(markings: map<int, MarkingType>, row: int, n: nat): map<int, MarkingType>
  {
    if n == 0 then markings else Click(ClickN(markings, row, n - 1), row)
  }

  /** After `n` clicks the row has moved `n` steps along the cycle and no other row has changed. */
  lemma {:induction false} ClickNMoves(markings: map<int, MarkingType>, row: int, n: nat)
    ensures Get(ClickN(markings, row, n), row) == Iterate(Get(markings, row), n)
    ensures forall k :: k != row ==> Get(ClickN(markings, row, n), k) == Get(markings, k)
  {
    ClickNRow(markings, row, n);
    forall k | k != row
      ensures Get(ClickN(markings, row, n), k) == Get(markings, k)
    {
      ClickNOther(markings, row, n, k);
    }
  }

  /** The clicked row, after `n` clicks. */
  lemma {:induction false} ClickNRow(markings: map<int, MarkingType>, row: int, n: nat)
    ensures Get(ClickN(markings, row, n), row) == Iterate(Get(markings, row), n)
  {
    IterateSteps(Get(markings, row), n);
    if n > 0 {
      ClickNRow(markings, row, n - 1);
    }
  }

  /** Any other row, after `n` clicks. */
  lemma {:induction false} ClickNOther(markings: map<int, MarkingType>, row: int, n: nat, k: int)
    requires k != row
    ensures Get(ClickN(markings, row, n), k) == Get(markings, k)
  {
    if n > 0 {
      ClickNOther(markings, row, n - 1, k);
    }
  }


  /** Two maps that agree on every lookup are equal. */
  lemma SameLookups(m: map<int, MarkingType>, n: map<int, MarkingType>)
    requires forall k :: Get(m, k) == Get(n, k)
    ensures m == n
  {
    forall k | k in m ensures k in n && m[k] == n[k] {
      assert Get(m, k) == Get(n, k);
    }
    forall k | k in n ensures k in m {
      assert Get(m, k) == Get(n, k);
    }
    assert m.Keys == n.Keys;
  }

  /** Seven clicks on a row give the markings back as they were. */
  lemma {:induction false} SevenClicks(markings: map<int, MarkingType>, row: int)
    ensures ClickN(markings, row, 7) == markings
  {
    ClickNMoves(markings, row, 7);
    WholeRounds(Get(markings, row), 7);
    SameLookups(ClickN(markings, row, 7), markings);
  }

  /** The request a click on `row` sends, given the markings at the time of the click. */
  function CallFor(markings: map<int, MarkingType>, row: int): (call: RemoteCall)
    ensures call.rowNumber == row
    ensures call.SaveMarking? <==> Next(Get(markings, row)).Some?
    ensures call.SaveMarking? ==> Get(Click(markings, row), row) == Some(call.markingType)
    ensures call.RemoveMarking? ==> row !in Click(markings, row)
  {
    match Next(Get(markings, row))
    case Some(t) => SaveMarking(row, t)
    case None => RemoveMarking(row)
  }

  /**
   * The map the `forEach` over the fetched records builds: each record sets
   * its row, so a later record for the same row overrides an earlier one.
   */
  function MarkingsOf(records: seq<MarkingRecord>): (m: map<int, MarkingType>)
    ensures forall row :: row in m <==> exists i :: 0 <= i < |records| && records[i].rowNumber == row
  {
    if |records| == 0 then map[]
    else
      var front := records[..|records| - 1];
      var last := records[|records| - 1];
      var m := MarkingsOf(front)[last.rowNumber := last.markingType];
      assert forall i :: 0 <= i < |front| ==> front[i] == records[i];
      m
  }

  /** A row's entry is the type of the last record for that row. */
  lemma {:induction false} LastRecordWins(records: seq<MarkingRecord>, i: nat)
    requires i < |records|
    requires forall j :: i < j < |records| ==> records[j].rowNumber != records[i].rowNumber
    ensures MarkingsOf(records)[records[i].rowNumber] == records[i].markingType
  {
    if i < |records| - 1 {
      var front := records[..|records| - 1];
      assert front[i] == records[i];
      LastRecordWins(front, i);
    }
  }

  /** The loop of `loadMarkings` that fills a fresh map from the fetched records. */
  method BuildMarkingsMap(records: seq<MarkingRecord>) returns (markingsMap: map<int, MarkingType>)
    ensures markingsMap == MarkingsOf(records)
  {
    markingsMap := map[];
    var i := 0;
    while i < |records|
      invariant 0 <= i <= |records|
      invariant markingsMap == MarkingsOf(records[..i])
    {
      assert records[..i + 1][..i] == records[..i];
      markingsMap := markingsMap[records[i].rowNumber := records[i].markingType];
      i := i + 1;
    }
    assert records[..i] == records;
  }

  // ---------------------------------------------------------------------
  // The screen
  // ---------------------------------------------------------------------

  /** The controls under the table, shown only when some row passes the filters. */
  datatype Controls = Controls(itemsPerPage: int, pagination: Option<Pagination.PaginationView>,
                               showFilterInfo: bool)

  /** What the component renders. */
  datatype Screen =
    | NoData
    | Viewer(table: DataTable.TableView, noResults: Option<string>, controls: Option<Controls>)

  /**
   * One render: the header row and the data rows, the filtered rows, the
   * slice for the current page handed to the table with its start index,
   * the no-results message and the controls.
   */
  function Render(data: seq<seq<string>>, currentPage: int, searchQuery: string,
                  filterType: CsvFilters.FilterType, itemsPerPage: int,
                  markings: map<int, MarkingType>): (s: Screen)
    requires itemsPerPage > 0
    ensures s.NoData? <==> data == []
  {
    if |data| == 0 then NoData
    else
      var headers := data[0];
      var allRows := data[1..];
      var filteredRows := CsvFilters.FilterRows(allRows, searchQuery, filterType, markings);
      var info := CsvFilters.GetPaginationInfo(|filteredRows|, currentPage, itemsPerPage);
      var currentRows := Seqs.Slice(filteredRows, info.startIndex, info.endIndex);
      Viewer(
        DataTable.Render(headers, currentRows, info.startIndex, markings),
        if |filteredRows| == 0 && searchQuery != "" then Some(searchQuery) else None,
        if |filteredRows| > 0 then
          Some(Controls(itemsPerPage, Pagination.Render(currentPage, info.totalPages),
                        searchQuery != "" || filterType != CsvFilters.All))
        else None)
  }

  /** The rows the filters leave, which the page is cut from. */
  function Filtered(data: seq<seq<string>>, searchQuery: string, filterType: CsvFilters.FilterType,
                    markings: map<int, MarkingType>): seq<seq<string>>
    requires data != []
  {
    CsvFilters.FilterRows(data[1..], searchQuery, filterType, markings)
  }

  /** The table is the table of `DataTable` for the page `paginateRows` cuts from the filtered rows. */
  lemma {:induction false} TableIsPage(data: seq<seq<string>>, currentPage: int, searchQuery: string,
                                       filterType: CsvFilters.FilterType, itemsPerPage: int,
                                       markings: map<int, MarkingType>)
    requires itemsPerPage > 0 && data != []
    ensures Render(data, currentPage, searchQuery, filterType, itemsPerPage, markings).table
      == DataTable.Render(data[0], CsvFilters.PaginateRows(Filtered(data, searchQuery, filterType, markings), currentPage, itemsPerPage),
                          (currentPage - 1) * itemsPerPage, markings)
  {
    CsvFilters.InfoCutsPage(Filtered(data, searchQuery, filterType, markings), currentPage, itemsPerPage);
  }

  /**
   * The table shows the current page of the filtered rows, exactly as the
   * page cut of `paginateRows` gives it, under the first row of the data as
   * headers; row `i` of the page gets index `(currentPage - 1) * itemsPerPage + i`.
   */
  lemma {:induction false} ShowsCurrentPage(data: seq<seq<string>>, currentPage: int, searchQuery: string,
                         filterType: CsvFilters.FilterType, itemsPerPage: int,
                         markings: map<int, MarkingType>)
    requires itemsPerPage > 0 && currentPage >= 1 && data != []
    ensures var s := Render(data, currentPage, searchQuery, filterType, itemsPerPage, markings);
      var page := CsvFilters.PaginateRows(Filtered(data, searchQuery, filterType, markings), currentPage, itemsPerPage);
      && s.table.headerCells == data[0]
      && |s.table.body| == |page| <= itemsPerPage
      && forall i :: 0 <= i < |page| ==>
           s.table.body[i].cells == page[i] && s.table.body[i].index == (currentPage - 1) * itemsPerPage + i
  {
    TableIsPage(data, currentPage, searchQuery, filterType, itemsPerPage, markings);
  }

  /**
   * The no-results message appears exactly when nothing passes the filters
   * and the query is not the empty string; the controls appear exactly
   * when something does, and then the pagination is rendered.
   */
  lemma MessagesAndControls(data: seq<seq<string>>, currentPage: int, searchQuery: string,
                            filterType: CsvFilters.FilterType, itemsPerPage: int,
                            markings: map<int, MarkingType>)
    requires itemsPerPage > 0 && data != []
    ensures var s := Render(data, currentPage, searchQuery, filterType, itemsPerPage, markings);
      var filtered := Filtered(data, searchQuery, filterType, markings);
      && (s.noResults.Some? <==> filtered == [] && searchQuery != "")
      && (s.controls.Some? <==> filtered != [])
      && (s.controls.Some? ==> s.controls.value.pagination.Some?)
      && (s.controls.Some? ==> (s.controls.value.showFilterInfo <==> searchQuery != "" || filterType != CsvFilters.All))
  {
  }

  /**
   * Without a query and without a marking filter, the row shown at index
   * `k` is data row `k`, so a click marks the row the user sees.
   */
  lemma UnfilteredIndicesAreRows(data: seq<seq<string>>, currentPage: int, searchQuery: string,
                                 itemsPerPage: int, markings: map<int, MarkingType>)
    requires itemsPerPage > 0 && currentPage >= 1 && data != [] && !CsvFilters.HasQuery(searchQuery)
    ensures var s := Render(data, currentPage, searchQuery, CsvFilters.All, itemsPerPage, markings);
      forall i :: 0 <= i < |s.table.body| ==>
        0 <= s.table.body[i].index < |data| - 1 && s.table.body[i].cells == data[s.table.body[i].index + 1]
  {
    ShowsCurrentPage(data, currentPage, searchQuery, CsvFilters.All, itemsPerPage, markings);
    assert Filtered(data, searchQuery, CsvFilters.All, markings) == data[1..];
    RowsAtIndices(data, Render(data, currentPage, searchQuery, CsvFilters.All, itemsPerPage, markings).table.body,
                  currentPage, itemsPerPage);
  }
  /** Rows of a page of all data rows, laid out from the page's start index, show the data row at their index. */
  lemma RowsAtIndices(data: seq<seq<string>>, body: seq<DataTable.RowView>, currentPage: int, itemsPerPage: int)
    requires itemsPerPage > 0 && currentPage >= 1 && data != []
    requires |body| == |CsvFilters.PaginateRows(data[1..], currentPage, itemsPerPage)|
    requires forall i :: 0 <= i < |body| ==>
      body[i].cells == CsvFilters.PaginateRows(data[1..], currentPage, itemsPerPage)[i]
      && body[i].index == (currentPage - 1) * itemsPerPage + i
    ensures forall i :: 0 <= i < |body| ==> 0 <= body[i].index < |data| - 1 && body[i].cells == data[body[i].index + 1]
  {
    var rows := data[1..];
    var start := (currentPage - 1) * itemsPerPage;
    CsvFilters.PageStartBound(currentPage, itemsPerPage);
    var page := CsvFilters.PaginateRows(rows, currentPage, itemsPerPage);
    var a := if start < |rows| then start else |rows|;
    var b := if start + itemsPerPage < |rows| then start + itemsPerPage else |rows|;
    assert page == rows[a..b];
    forall i | 0 <= i < |body|
      ensures 0 <= body[i].index < |data| - 1 && body[i].cells == data[body[i].index + 1]
    {
      assert a == start && page[i] == rows[start + i];
      assert rows[start + i] == data[start + i + 1];
    }
  }


  /**
   * With a query, the index a row is shown and clicked under is its
   * position in the search result: when a search leaves only data row 1,
   * that row is shown under index 0, the index of data row 0.
   */
  lemma {:induction false} SearchedIndexIsPosition(data: seq<seq<string>>, searchQuery: string, itemsPerPage: int)
    requires |data| == 3 && itemsPerPage > 0 && CsvFilters.HasQuery(searchQuery)
    requires !CsvFilters.RowMatches(data[1], Text.LowerStr(searchQuery))
    requires CsvFilters.RowMatches(data[2], Text.LowerStr(searchQuery))
    ensures var s := Render(data, 1, searchQuery, CsvFilters.All, itemsPerPage, map[]);
      |s.table.body| == 1 && s.table.body[0].index == 0 && s.table.body[0].cells == data[2]
  {
    assert Filtered(data, searchQuery, CsvFilters.All, map[]) == [data[2]] by {
      CsvFilters.SearchKeepsSecond(data[1..], searchQuery);
    }
    ShowsCurrentPage(data, 1, searchQuery, CsvFilters.All, itemsPerPage, map[]);
    assert CsvFilters.PaginateRows([data[2]], 1, itemsPerPage) == [data[2]];
  }

  /** The markings map in which rows 0 to `last` are marked and no other row is. */
  function MarkedUpTo(last: nat): (m: map<int, MarkingType>)
    ensures forall i :: Get(m, i) == (if 0 <= i <= last then Some(Marked) else None)
  {
    if last == 0 then map[0 := Marked]
    else
      var m := MarkedUpTo(last - 1);
      var r := m[last := Marked];
      assert forall i :: Get(r, i) == (if 0 <= i <= last then Some(Marked) else None) by {
        forall i ensures Get(r, i) == (if 0 <= i <= last then Some(Marked) else None) {
          if i != last {
            assert Get(r, i) == Get(m, i);
          }
        }
      }
      r
  }

  /** The fetched records that mark rows 0 to `last`, in row order. */
  function AllMarkedRecords(last: nat): (records: seq<MarkingRecord>)
  {
    seq(last + 1, i => MarkingRecord(i, Marked))
  }

  /**
   * `MarkedUpTo(last)` is the map `loadMarkings` builds from those records,
   * so it is a state the component reaches after a successful fetch.
   */
  lemma {:induction false} MarkedUpToIsLoaded(last: nat)
    ensures MarkedUpTo(last) == MarkingsOf(AllMarkedRecords(last))
  {
    if last == 0 {
      assert MarkingsOf(AllMarkedRecords(0)) == map[][0 := Marked];
    } else {
      var front := AllMarkedRecords(last - 1);
      var r := MarkingRecord(last, Marked);
      assert AllMarkedRecords(last) == front + [r];
      MarkedUpToIsLoaded(last - 1);
      LoadOneMore(front, r);
    }
  }

  /** One more record sets its row on top of the map the earlier ones built. */
  lemma LoadOneMore(front: seq<MarkingRecord>, r: MarkingRecord)
    ensures MarkingsOf(front + [r]) == MarkingsOf(front)[r.rowNumber := r.markingType]
  {
    assert (front + [r])[..|front|] == front;
  }

  /** With every data row marked, the filter `marked` keeps them all. */
  lemma {:induction false} AllMarkedKept(data: seq<seq<string>>, last: nat)
    requires |data| == last + 2
    ensures Filtered(data, "", CsvFilters.Only(Marked), MarkedUpTo(last)) == data[1..]
  {
    assert !CsvFilters.HasQuery("") by { assert Text.AllWhitespace(""); }
    var keep := CsvFilters.MarkingKeep(MarkedUpTo(last), Marked);
    var rows := data[1..];
    forall i | 0 <= i < |rows| ensures keep(rows[i], i) {
      assert Get(MarkedUpTo(last), i) == Some(Marked);
    }
    Seqs.FilterKeepsAll(rows, keep);
  }

  /**
   * Once the last data row has moved on to learned, the filter `marked`
   * keeps all the rows before it and drops it.
   */
  lemma {:induction false} LastMovedOnDropped(data: seq<seq<string>>, last: nat)
    requires |data| == last + 2
    ensures Filtered(data, "", CsvFilters.Only(Marked), MarkedUpTo(last)[last := Learned]) == data[1..last + 1]
  {
    var m := MarkedUpTo(last)[last := Learned];
    var keep := CsvFilters.MarkingKeep(m, Marked);
    var rows := data[1..];
    var front := rows[..last];
    assert Seqs.Filter(front, keep) == front by {
      forall i | 0 <= i < |front| ensures keep(front[i], i) {
        assert Get(m, i) == Get(MarkedUpTo(last), i);
      }
      Seqs.FilterKeepsAll(front, keep);
    }
    assert Seqs.Filter(rows, keep) == front by {
      assert rows[..|rows| - 1] == front;
      assert !keep(rows[last], last) by {
        assert Get(m, last) == Some(Learned);
      }
    }
    assert Filtered(data, "", CsvFilters.Only(Marked), m) == Seqs.Filter(rows, keep) by {
      assert !CsvFilters.HasQuery("") by { assert Text.AllWhitespace(""); }
    }
    assert front == data[1..last + 1];
  }

  /**
   * A click does not move the page: with `k` rows a page, `k + 1` marked
   * rows and the filter `marked`, page 2 shows only the row with index `k`.
   * A click on it moves that row out of the filter, and page 2 is then
   * past the last page and shows no rows, with the controls still shown.
   * This holds for every page size, the offered 10, 25, 50 and 100 among them.
   */
  lemma {:induction false} ClickCanLeavePagePastEnd(data: seq<seq<string>>, k: int)
    requires k > 0 && |data| == k + 2
    ensures var markings := MarkedUpTo(k);
      var before := Render(data, 2, "", CsvFilters.Only(Marked), k, markings);
      var after := Render(data, 2, "", CsvFilters.Only(Marked), k, Click(markings, k));
      && |before.table.body| == 1 && before.table.body[0].index == k
      && after.table.body == [] && after.controls.Some?
  {
    var only := CsvFilters.Only(Marked);
    var markings := MarkedUpTo(k);
    var clicked := Click(markings, k);
    assert clicked == markings[k := Learned] by {
      assert Get(markings, k) == Some(Marked);
      assert Next(Some(Marked)) == Some(Learned);
    }
    AllMarkedKept(data, k);
    LastMovedOnDropped(data, k);
    ShowsCurrentPage(data, 2, "", only, k, markings);
    ShowsCurrentPage(data, 2, "", only, k, clicked);
    MessagesAndControls(data, 2, "", only, k, clicked);
    assert |CsvFilters.PaginateRows(data[1..], 2, k)| == 1;
    assert CsvFilters.PaginateRows(data[1..k + 1], 2, k) == [];
  }

  /** The tooltip of a shown row names the state a successful click on it produces. */
  lemma TitleNamesClickResult(data: seq<seq<string>>, currentPage: int, searchQuery: string,
                              filterType: CsvFilters.FilterType, itemsPerPage: int,
                              markings: map<int, MarkingType>, i: nat)
    requires itemsPerPage > 0 && data != []
    requires i < |Render(data, currentPage, searchQuery, filterType, itemsPerPage, markings).table.body|
    ensures var row := Render(data, currentPage, searchQuery, filterType, itemsPerPage, markings).table.body[i];
      row.title == DataTable.TitlePrefix + MarkingLabel(Get(Click(markings, row.index), row.index))
  {
    var s := Render(data, currentPage, searchQuery, filterType, itemsPerPage, markings);
    var filtered := Filtered(data, searchQuery, filterType, markings);
    var info := CsvFilters.GetPaginationInfo(|filtered|, currentPage, itemsPerPage);
    var rows := Seqs.Slice(filtered, info.startIndex, info.endIndex);
    assert s.table == DataTable.Render(data[0], rows, info.startIndex, markings);
    DataTable.TitleNamesNextState(data[0], rows, info.startIndex, markings, i);
  }

  // ---------------------------------------------------------------------
  // The component's state
  // ---------------------------------------------------------------------

  class CSVTable {
    const data: seq<seq<string>>
    var currentPage: int
    var searchQuery: string
    var filterType: CsvFilters.FilterType
    var itemsPerPage: int
    var markings: map<int, MarkingType>
    var isLoadingMarkings: bool

    /** The page size is positive and the page is one of 1, 2, …. */
    ghost predicate Valid()
      reads this
    {
      itemsPerPage > 0 && currentPage >= 1
    }

    /** The initial state: page 1, no query, no markings yet, loading, no filter, ten rows a page. */
    constructor (data: seq<seq<string>>)
      ensures Valid()
      ensures this.data == data && currentPage == 1 && searchQuery == "" && markings == map[]
      ensures isLoadingMarkings && filterType == CsvFilters.All && itemsPerPage == 10
    {
      this.data := data;
      currentPage := 1;
      searchQuery := "";
      markings := map[];
      isLoadingMarkings := true;
      filterType := CsvFilters.All;
      itemsPerPage := 10;
    }

    /** What the component currently renders. */
    function View(): Screen
      reads this
      requires Valid()
    {
      Render(data, currentPage, searchQuery, filterType, itemsPerPage, markings)
    }

    /** `loadMarkings`: a successful fetch replaces the markings; loading ends either way. */
    method LoadMarkings(fetched: Option<seq<MarkingRecord>>)
      requires Valid()
      modifies this
      ensures Valid()
      ensures markings == (if fetched.Some? then MarkingsOf(fetched.value) else old(markings))
      ensures !isLoadingMarkings
      ensures currentPage == old(currentPage) && searchQuery == old(searchQuery)
      ensures filterType == old(filterType) && itemsPerPage == old(itemsPerPage)
    {
      if fetched.Some? {
        var markingsMap := BuildMarkingsMap(fetched.value);
        markings := markingsMap;
      }
      isLoadingMarkings := false;
    }

    /** `handleSearchChange`: a new query, back to page 1. */
    method HandleSearchChange(value: string)
      requires Valid()
      modifies this
      ensures Valid()
      ensures searchQuery == value && currentPage == 1
      ensures filterType == old(filterType) && itemsPerPage == old(itemsPerPage)
      ensures markings == old(markings) && isLoadingMarkings == old(isLoadingMarkings)
    {
      searchQuery := value;
      currentPage := 1;
    }

    /** `handleFilterChange`: a new marking filter, back to page 1. */
    method HandleFilterChange(filter: CsvFilters.FilterType)
      requires Valid()
      modifies this
      ensures Valid()
      ensures filterType == filter && currentPage == 1
      ensures searchQuery == old(searchQuery) && itemsPerPage == old(itemsPerPage)
      ensures markings == old(markings) && isLoadingMarkings == old(isLoadingMarkings)
    {
      filterType := filter;
      currentPage := 1;
    }

    /** `handleItemsPerPageChange`: a new page size, back to page 1. */
    method HandleItemsPerPageChange(value: int)
      requires Valid() && value > 0
      modifies this
      ensures Valid()
      ensures itemsPerPage == value && currentPage == 1
      ensures searchQuery == old(searchQuery) && filterType == old(filterType)
      ensures markings == old(markings) && isLoadingMarkings == old(isLoadingMarkings)
    {
      itemsPerPage := value;
      currentPage := 1;
    }

    /** `setCurrentPage`, as the pagination calls it with a page number. */
    method HandlePageChange(page: int)
      requires Valid() && page >= 1
      modifies this
      ensures Valid()
      ensures currentPage == page
      ensures searchQuery == old(searchQuery) && filterType == old(filterType) && itemsPerPage == old(itemsPerPage)
      ensures markings == old(markings) && isLoadingMarkings == old(isLoadingMarkings)
    {
      currentPage := page;
    }

    /**
     * `handleRowClick`: the request for the next state of `rowIndex`, and
     * the markings it leaves: the click applied when the request succeeded,
     * the markings as they were when it failed.
     */
    method HandleRowClick(rowIndex: int, succeeded: bool) returns (call: RemoteCall)
      requires Valid()
      modifies this
      ensures Valid()
      ensures call == CallFor(old(markings), rowIndex)
      ensures markings == (if succeeded then Click(old(markings), rowIndex) else old(markings))
      ensures currentPage == old(currentPage) && searchQuery == old(searchQuery)
      ensures filterType == old(filterType) && itemsPerPage == old(itemsPerPage)
      ensures isLoadingMarkings == old(isLoadingMarkings)
    {
      var currentMarkingType := Get(markings, rowIndex);
      var nextMarkingType := Next(currentMarkingType);
      if nextMarkingType.Some? {
        call := SaveMarking(rowIndex, nextMarkingType.value);
        if succeeded {
          markings := markings[rowIndex := nextMarkingType.value];
        }
      } else {
        call := RemoveMarking(rowIndex);
        if succeeded {
          markings := markings - {rowIndex};
        }
      }
    }
  }
}
