/**
 * The table body of src/components/csv/DataTable.tsx: one header cell per
 * header, and for every row on the page its React key, the index a click
 * reports, its CSS classes, its tooltip and its cells.
 */
module DataTable {
  import opened Wrappers
  import opened Markings

  /**
   * One rendered row. `index` is `startIndex + rowIndex`: it is both the
   * React key and the argument `onRowClick` is called with.
   */
  datatype RowView = RowView(index: int, className: string, title: string, cells: seq<string>)

  datatype TableView = TableView(headerCells: seq<string>, body: seq<RowView>)

  /** The prefix every row's tooltip starts with. */
  const TitlePrefix: string := "Click to mark as "

  /** The row rendered for `row` under the index `index`. */
  function RowFor(row: seq<string>, index: int, markings: map<int, MarkingType>): RowView
  {
    var markingType := Get(markings, index);
    RowView(index, "cursor-pointer " + MarkingClass(markingType),
            TitlePrefix + MarkingLabel(Next(markingType)), row)
  }

  /** The whole table for the rows of one page, the first of which has index `startIndex`. */
  function Render(headers: seq<string>, rows: seq<seq<string>>, startIndex: int,
                  markings: map<int, MarkingType>): (v: TableView)
    ensures v.headerCells == headers
    ensures |v.body| == |rows|
    ensures forall i :: 0 <= i < |rows| ==> v.body[i].index == startIndex + i && v.body[i].cells == rows[i]
    ensures forall i :: 0 <= i < |rows| ==>
      v.body[i].className == "cursor-pointer " + MarkingClass(Get(markings, startIndex + i))
  {
    TableView(headers, seq(|rows|, i requires 0 <= i < |rows| => RowFor(rows[i], startIndex + i, markings)))
  }

  /** The rows' indices are consecutive, so no two rows share a key or a click target. */
  lemma IndicesDistinct(headers: seq<string>, rows: seq<seq<string>>, startIndex: int,
                        markings: map<int, MarkingType>)
    ensures forall i, j :: 0 <= i < j < |Render(headers, rows, startIndex, markings).body| ==>
      Render(headers, rows, startIndex, markings).body[i].index
        < Render(headers, rows, startIndex, markings).body[j].index
  {
  }

  /**
   * Two rows have the same classes exactly when their indices carry the
   * same marking state: the colour of a row tells its state.
   */
  lemma ClassShowsState(headers: seq<string>, rows: seq<seq<string>>, startIndex: int,
                        markings: map<int, MarkingType>, i: nat, j: nat)
    requires i < |rows| && j < |rows|
    ensures Render(headers, rows, startIndex, markings).body[i].className
              == Render(headers, rows, startIndex, markings).body[j].className
        <==> Get(markings, startIndex + i) == Get(markings, startIndex + j)
  {
    var s := Get(markings, startIndex + i);
    var t := Get(markings, startIndex + j);
    if s != t {
      ClassesDistinct(s, t);
      var a := "cursor-pointer " + MarkingClass(s);
      var b := "cursor-pointer " + MarkingClass(t);
      assert a[15..] == MarkingClass(s) && b[15..] == MarkingClass(t);
    }
  }

  /** The tooltip announces the state a click on the row moves it to. */
  lemma TitleNamesNextState(headers: seq<string>, rows: seq<seq<string>>, startIndex: int,
                            markings: map<int, MarkingType>, i: nat)
    requires i < |rows|
    ensures Render(headers, rows, startIndex, markings).body[i].title
      == TitlePrefix + MarkingLabel(Next(Get(markings, startIndex + i)))
  {
  }

  /** An unmarked row offers "Marked"; a favourite offers to clear its mark. */
  lemma TitleEnds(markings: map<int, MarkingType>, row: seq<string>, index: int)
    ensures index !in markings ==> RowFor(row, index, markings).title == "Click to mark as • Marked"
    ensures Get(markings, index) == Some(Favorite) ==> RowFor(row, index, markings).title == "Click to mark as No mark"
  {
    CycleOrder();
  }
}
