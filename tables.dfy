/** The values the table reconstruction works on: positioned text fragments reported by the
    document viewer, the selection rectangle, and the cells, rows and tables built from them.
    Coordinates are page-local pixels, modelled exactly as reals. */
module Tables {

  datatype Option<T> = None | Some(value: T)

  /** One positioned run of text of the page's text layer. */
  datatype Fragment = Fragment(text: string, x: real, y: real, width: real, height: real)

  /** The selection rectangle; its corners are unordered. */
  datatype Selection = Selection(startX: real, startY: real, endX: real, endY: real)

  /** The joined text and bounding box of one or more fragments judged to belong together. */
  datatype Cell = Cell(text: string, x: real, y: real, width: real, height: real)

  datatype Row = Row(cells: seq<Cell>)

  /** A table reconstructed from one page; rows[0] is the header row. */
  datatype Table = Table(rows: seq<Row>, pageNumber: int)

  /** A stored table together with the selection that produced it. */
  datatype SelectedTable = SelectedTable(table: Table, selection: Selection)

  /** Largest vertical distance between two fragments of the same line. */
  const Y_TOLERANCE: real := 15.0
  /** Smallest horizontal gap that separates two cells, and the column-matching tolerance. */
  const X_TOLERANCE: real := 5.0

  function Abs(a: real): real { if a < 0.0 then -a else a }
  function Min(a: real, b: real): real { if a <= b then a else b }
  function Max(a: real, b: real): real { if a <= b then b else a }

  /** The shape every table produced by the reconstruction has: a header row with at least one
      cell, and every later row exactly as wide as the header. */
  predicate WellFormed(t: Table) {
    |t.rows| >= 1 && |t.rows[0].cells| >= 1 &&
    forall i :: 1 <= i < |t.rows| ==> |t.rows[i].cells| == |t.rows[0].cells|
  }
}
