/** Region-to-table reconstruction: keep the fragments inside the selection, cluster them into
    lines by y, group every line into cells by x, then force every row after the first onto the
    first row's columns. */
module Extraction {
  import opened Tables
  import opened Sorting
  import opened Clustering

  /** The fragment's box lies inside the selection rectangle, whose corners may come in any order. */
  predicate Inside(sel: Selection, f: Fragment) {
    f.x >= Min(sel.startX, sel.endX) && f.x + f.width <= Max(sel.startX, sel.endX) &&
    f.y >= Min(sel.startY, sel.endY) && f.y + f.height <= Max(sel.startY, sel.endY)
  }

  /** The fragments inside the selection, in their order on the page. */
  function InRegion(sel: Selection, fs: seq<Fragment>): seq<Fragment> {
    if fs == [] then []
    else InRegion(sel, fs[..|fs| - 1]) + (if Inside(sel, fs[|fs| - 1]) then [fs[|fs| - 1]] else [])
  }

  /** A fragment is kept exactly when it is on the page and inside the selection. */
  lemma {:induction false} InRegionMembers(sel: Selection, fs: seq<Fragment>)
    ensures |InRegion(sel, fs)| <= |fs|
    ensures forall f :: f in InRegion(sel, fs) <==> f in fs && Inside(sel, f)
  {
    if fs != [] {
      var front := fs[..|fs| - 1];
      InRegionMembers(sel, front);
      InitLast(fs);
      assert forall f :: f in fs <==> f in front || f == fs[|fs| - 1];
    }
  }

  /** Filtering commutes with concatenation, so the kept fragments keep their page order. */
  lemma {:induction false} InRegionAppend(sel: Selection, a: seq<Fragment>, b: seq<Fragment>)
    ensures InRegion(sel, a + b) == InRegion(sel, a) + InRegion(sel, b)
  {
    if b != [] {
      var front := b[..|b| - 1];
      InRegionAppend(sel, a, front);
      assert (a + b)[..|a + b| - 1] == a + front;
      assert (a + b)[|a + b| - 1] == b[|b| - 1];
    } else {
      assert a + b == a;
    }
  }

  /** The containment filter over the text layer's fragments. */
  method FilterFragments(sel: Selection, spans: seq<Fragment>) returns (textElements: seq<Fragment>)
    ensures textElements == InRegion(sel, spans)
  {
    textElements := [];
    for i := 0 to |spans|
      invariant textElements == InRegion(sel, spans[..i])
    {
      var span := spans[i];
      assert spans[..i + 1][..i] == spans[..i];
      if Inside(sel, span) {
        textElements := textElements + [span];
      }
    }
    Whole(spans);
  }

  /** The rows of the lines, in order. */
  function RowsOf(lines: seq<seq<Fragment>>): (rows: seq<Row>)
    ensures |rows| == |lines|
  {
    if lines == [] then [] else RowsOf(lines[..|lines| - 1]) + [RowOf(lines[|lines| - 1])]
  }

  lemma {:induction false} RowsOfAt(lines: seq<seq<Fragment>>, i: nat)
    requires i < |lines|
    ensures RowsOf(lines)[i] == RowOf(lines[i])
  {
    if i < |lines| - 1 {
      var front := lines[..|lines| - 1];
      RowsOfAt(front, i);
      assert front[i] == lines[i];
    }
  }

  lemma RowsOfPrefix(lines: seq<seq<Fragment>>, i: nat)
    requires i < |lines|
    ensures RowsOf(lines[..i + 1]) == RowsOf(lines[..i]) + [RowOf(lines[i])]
  {
    assert lines[..i + 1][..i] == lines[..i];
  }

  /** The per-line map that turns every line into a row. */
  method BuildRows(lines: seq<seq<Fragment>>) returns (rows: seq<Row>)
    ensures rows == RowsOf(lines)
  {
    rows := [];
    for i := 0 to |lines|
      invariant rows == RowsOf(lines[..i])
    {
      RowsOfPrefix(lines, i);
      var row := BuildRow(lines[i]);
      rows := rows + [row];
    }
    Whole(lines);
  }

  /** Array.prototype.find over the row's cells: the first cell within X_TOLERANCE of x. */
  function FindNear(cells: seq<Cell>, x: real): (r: Option<nat>)
    ensures r.Some? ==>
      r.value < |cells| && Abs(cells[r.value].x - x) < X_TOLERANCE &&
      forall k :: 0 <= k < r.value ==> Abs(cells[k].x - x) >= X_TOLERANCE
    ensures r.None? ==> forall k :: 0 <= k < |cells| ==> Abs(cells[k].x - x) >= X_TOLERANCE
  {
    if cells == [] then None
    else if Abs(cells[0].x - x) < X_TOLERANCE then Some(0)
    else
      match FindNear(cells[1..], x)
      case None => None
      case Some(k) => Some(k + 1)
  }

  /** The empty cell that stands in for a column the row has nothing near: the header cell's x and
      width, the y and height of the row's first cell (0 when the row has no cell). */
  function Filler(headerCell: Cell, row: Row): Cell {
    Cell("", headerCell.x, if |row.cells| > 0 then row.cells[0].y else 0.0,
         headerCell.width, if |row.cells| > 0 then row.cells[0].height else 0.0)
  }

  /** What the aligned row holds in the column of headerCell. */
  function AlignedCell(headerCell: Cell, row: Row): Cell {
    match FindNear(row.cells, headerCell.x)
    case Some(k) => row.cells[k]
    case None => Filler(headerCell, row)
  }

  /** The row forced onto the given header cells, one cell per header cell. */
  function AlignedCells(headerCells: seq<Cell>, row: Row): (cells: seq<Cell>)
    ensures |cells| == |headerCells|
  {
    if headerCells == [] then []
    else AlignedCells(headerCells[..|headerCells| - 1], row) + [AlignedCell(headerCells[|headerCells| - 1], row)]
  }

  lemma {:induction false} AlignedCellsAt(headerCells: seq<Cell>, row: Row, j: nat)
    requires j < |headerCells|
    ensures AlignedCells(headerCells, row)[j] == AlignedCell(headerCells[j], row)
  {
    if j < |headerCells| - 1 {
      var front := headerCells[..|headerCells| - 1];
      AlignedCellsAt(front, row, j);
      assert front[j] == headerCells[j];
    }
  }

  /** Column j of an aligned row is the row's first cell within X_TOLERANCE of header cell j, or,
      when the row has none, an empty cell placed under header cell j. */
  lemma AlignedCellsSpec(headerCells: seq<Cell>, row: Row, j: nat)
    requires j < |headerCells|
    ensures var c := AlignedCells(headerCells, row)[j]; var h := headerCells[j];
      (exists k :: 0 <= k < |row.cells| && Abs(row.cells[k].x - h.x) < X_TOLERANCE &&
                   (forall m :: 0 <= m < k ==> Abs(row.cells[m].x - h.x) >= X_TOLERANCE) &&
                   c == row.cells[k]) ||
      ((forall k :: 0 <= k < |row.cells| ==> Abs(row.cells[k].x - h.x) >= X_TOLERANCE) &&
       c.text == "" && c.x == h.x && c.width == h.width &&
       c.y == (if |row.cells| > 0 then row.cells[0].y else 0.0) &&
       c.height == (if |row.cells| > 0 then row.cells[0].height else 0.0))
  {
    AlignedCellsAt(headerCells, row, j);
    var h := headerCells[j];
    match FindNear(row.cells, h.x)
    case Some(k) =>
      assert AlignedCells(headerCells, row)[j] == row.cells[k];
    case None =>
  }

  /** Forcing one row onto the header's columns. */
  method AlignRow(headerRow: Row, currentRow: Row) returns (newRow: Row)
    ensures newRow == Row(AlignedCells(headerRow.cells, currentRow))
  {
    var newCells: seq<Cell> := [];
    for j := 0 to |headerRow.cells|
      invariant newCells == AlignedCells(headerRow.cells[..j], currentRow)
    {
      var headerCell := headerRow.cells[j];
      assert headerRow.cells[..j + 1][..j] == headerRow.cells[..j];
      var matchingCell := FindNear(currentRow.cells, headerCell.x);
      if matchingCell.Some? {
        newCells := newCells + [currentRow.cells[matchingCell.value]];
      } else {
        var y := if |currentRow.cells| > 0 then currentRow.cells[0].y else 0.0;
        var height := if |currentRow.cells| > 0 then currentRow.cells[0].height else 0.0;
        newCells := newCells + [Cell("", headerCell.x, y, headerCell.width, height)];
      }
    }
    Whole(headerRow.cells);
    newRow := Row(newCells);
  }

  /** The rows after the header, each forced onto the header's columns. */
  function AlignedRows(headerRow: Row, rows: seq<Row>): (aligned: seq<Row>)
    ensures |aligned| == |rows|
  {
    if rows == [] then []
    else AlignedRows(headerRow, rows[..|rows| - 1]) + [Row(AlignedCells(headerRow.cells, rows[|rows| - 1]))]
  }

  lemma {:induction false} AlignedRowsAt(headerRow: Row, rows: seq<Row>, i: nat)
    requires i < |rows|
    ensures AlignedRows(headerRow, rows)[i] == Row(AlignedCells(headerRow.cells, rows[i]))
  {
    if i < |rows| - 1 {
      var front := rows[..|rows| - 1];
      AlignedRowsAt(headerRow, front, i);
      assert front[i] == rows[i];
    }
  }

  /** The table's rows: the first row as it is, then every later row aligned to it. */
  function Processed(rows: seq<Row>): seq<Row>
    requires rows != []
  {
    [rows[0]] + AlignedRows(rows[0], rows[1..])
  }

  /** After alignment the header row is unchanged, the number of rows is unchanged, and every
      later row has exactly as many cells as the header, column j taken from the source row as
      AlignedCellsSpec describes. */
  lemma ProcessedSpec(rows: seq<Row>)
    requires rows != []
    ensures var p := Processed(rows);
      |p| == |rows| && p[0] == rows[0] &&
      forall i :: 1 <= i < |rows| ==>
        |p[i].cells| == |rows[0].cells| &&
        forall j :: 0 <= j < |rows[0].cells| ==> p[i].cells[j] == AlignedCell(rows[0].cells[j], rows[i])
  {
    var p := Processed(rows);
    forall i | 1 <= i < |rows|
      ensures |p[i].cells| == |rows[0].cells|
      ensures forall j :: 0 <= j < |rows[0].cells| ==> p[i].cells[j] == AlignedCell(rows[0].cells[j], rows[i])
    {
      AlignedRowsAt(rows[0], rows[1..], i - 1);
      forall j | 0 <= j < |rows[0].cells| ensures p[i].cells[j] == AlignedCell(rows[0].cells[j], rows[i]) {
        AlignedCellsAt(rows[0].cells, rows[i], j);
      }
    }
  }

  /** The loop over rows 1.. that builds processedRows. */
  method ProcessRows(rows: seq<Row>) returns (processedRows: seq<Row>)
    requires rows != []
    ensures processedRows == Processed(rows)
  {
    var headerRow := rows[0];
    processedRows := [headerRow];
    for i := 1 to |rows|
      invariant processedRows == [headerRow] + AlignedRows(headerRow, rows[1..i])
    {
      assert rows[1..i + 1][..i - 1] == rows[1..i];
      var newRow := AlignRow(headerRow, rows[i]);
      processedRows := processedRows + [newRow];
    }
    assert rows[1..|rows|] == rows[1..];
  }

  /** The lines of the selected fragments: the kept fragments sorted by y and clustered. */
  function LinesOf(sel: Selection, fragments: seq<Fragment>): seq<seq<Fragment>> {
    Chain(SortBy(InRegion(sel, fragments), Vertical), RowGap)
  }

  /** The table a selection yields, if any: none when no row results. */
  function Reconstruction(sel: Selection, fragments: seq<Fragment>, pageNumber: int): Option<Table> {
    var rows := RowsOf(LinesOf(sel, fragments));
    if |rows| > 0 then Some(Table(Processed(rows), pageNumber)) else None
  }

  /** The reconstruction up to, but not including, the store update. */
  method ReconstructTable(sel: Selection, fragments: seq<Fragment>, pageNumber: int) returns (r: Option<Table>)
    ensures r == Reconstruction(sel, fragments, pageNumber)
  {
    var textElements := FilterFragments(sel, fragments);
    var sorted := SortBy(textElements, Vertical);
    var lines := ClusterLines(sorted);
    var rows := BuildRows(lines);
    if |rows| > 0 {
      var processedRows := ProcessRows(rows);
      r := Some(Table(processedRows, pageNumber));
    } else {
      r := None;
    }
  }

  /** The lines partition the kept fragments sorted by y, and hold every kept fragment exactly as
      often as the page does. */
  lemma LinesSpec(sel: Selection, fragments: seq<Fragment>)
    ensures var sorted := SortBy(InRegion(sel, fragments), Vertical);
      IsPartition(sorted, LinesOf(sel, fragments), RowGap) &&
      multiset(Concat(LinesOf(sel, fragments))) == multiset(InRegion(sel, fragments))
  {
    ChainPartition(SortBy(InRegion(sel, fragments), Vertical), RowGap);
  }

  /** No table results exactly when no fragment lies inside the selection. */
  lemma ReconstructionNone(sel: Selection, fragments: seq<Fragment>, pageNumber: int)
    ensures Reconstruction(sel, fragments, pageNumber).None? <==> forall f :: f in fragments ==> !Inside(sel, f)
  {
    InRegionMembers(sel, fragments);
    var kept := InRegion(sel, fragments);
    if kept != [] {
      assert kept[0] in kept;
    }
  }

  /** A reconstructed table is well formed, carries the page number, has one row per line, and its
      header row is the row of the first line. */
  lemma ReconstructionShape(sel: Selection, fragments: seq<Fragment>, pageNumber: int)
    requires Reconstruction(sel, fragments, pageNumber).Some?
    ensures var t := Reconstruction(sel, fragments, pageNumber).value;
      var lines := LinesOf(sel, fragments);
      WellFormed(t) && t.pageNumber == pageNumber && |t.rows| == |lines| && t.rows[0] == RowOf(lines[0])
  {
    var lines := LinesOf(sel, fragments);
    var rows := RowsOf(lines);
    ProcessedSpec(rows);
    RowsOfAt(lines, 0);
    ChainPartition(SortBy(InRegion(sel, fragments), Vertical), RowGap);
    assert lines[0] != [];
    RowOfSpec(lines[0]);
  }
}
