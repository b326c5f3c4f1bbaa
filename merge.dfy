/** The merge of all stored tables into one combined table: a header row naming every column,
    then one row per row key, where a later row with a key already present fills in the values
    it has over the existing row's. */
module Merge {
  import opened Tables
  import opened Text
  import opened Headers

  /** What the merge needs of a table to run to the end: a header row, and data rows that have a
      first cell and a cell under every header cell. */
  predicate Mergeable(t: Table) {
    |t.rows| >= 1 && RowsFit(DataRows(t), TableNames(t))
  }

  /** Every table is mergeable, and when no table names any column no table has a data row
      (the key lookup reads the first cell of the combined header row). */
  predicate CanMerge(tables: seq<SelectedTable>) {
    (forall i :: 0 <= i < |tables| ==> Mergeable(tables[i].table)) &&
    NeedsColumns(tables, AllHeaders(tables))
  }

  /** A cell the merge treats as holding a value: its text is not blank once trimmed. */
  predicate Filled(c: Cell) {
    Trim(c.text) != []
  }

  /** Every row has one cell per column. */
  predicate Shaped(rows: seq<Row>, width: nat) {
    forall k :: 0 <= k < |rows| ==> |rows[k].cells| == width
  }

  /** The combined header row: one cell per column, its text the column name, no geometry. */
  function HeaderCells(headers: seq<string>): (cells: seq<Cell>)
    ensures |cells| == |headers|
    ensures forall k :: 0 <= k < |cells| ==> cells[k] == Cell(headers[k], 0.0, 0.0, 0.0, 0.0)
  {
    if headers == [] then []
    else HeaderCells(headers[..|headers| - 1]) + [Cell(headers[|headers| - 1], 0.0, 0.0, 0.0, 0.0)]
  }

  /** The cell standing for a missing value: no text, at the y and height of the row's first
      cell (0 when the row has none). */
  function EmptyCellFor(row: Row): Cell {
    if row.cells == [] then Cell([], 0.0, 0.0, 0.0, 0.0)
    else Cell([], 0.0, row.cells[0].y, 0.0, row.cells[0].height)
  }

  /** The first cell whose trimmed text is name. */
  function FindCell(cells: seq<Cell>, name: string): (r: Option<nat>)
    ensures r.Some? ==> r.value < |cells| && Trim(cells[r.value].text) == name
    ensures forall k :: 0 <= k < |cells| && (r.None? || k < r.value) ==> Trim(cells[k].text) != name
  {
    if cells == [] then None
    else if Trim(cells[0].text) == name then Some(0)
    else
      match FindCell(cells[1..], name)
      case None => None
      case Some(k) => Some(k + 1)
  }

  /** The first row having any cell whose trimmed text is text. */
  function FindRowWith(rows: seq<Row>, text: string): (r: Option<nat>)
    ensures r.Some? ==> r.value < |rows| && FindCell(rows[r.value].cells, text).Some?
    ensures forall k :: 0 <= k < |rows| && (r.None? || k < r.value) ==> FindCell(rows[k].cells, text).None?
  {
    if rows == [] then None
    else if FindCell(rows[0].cells, text).Some? then Some(0)
    else
      match FindRowWith(rows[1..], text)
      case None => None
      case Some(k) => Some(k + 1)
  }

  /** The first row whose first cell's trimmed text is the key. */
  function FindKey(rows: seq<Row>, key: string): (r: Option<nat>)
    requires forall k :: 0 <= k < |rows| ==> |rows[k].cells| >= 1
    ensures r.Some? ==> r.value < |rows| && Trim(rows[r.value].cells[0].text) == key
    ensures forall k :: 0 <= k < |rows| && (r.None? || k < r.value) ==> Trim(rows[k].cells[0].text) != key
  {
    if rows == [] then None
    else if Trim(rows[0].cells[0].text) == key then Some(0)
    else
      match FindKey(rows[1..], key)
      case None => None
      case Some(k) => Some(k + 1)
  }

  /** The back-fill for a blank value: in the first combined row that has a cell reading like
      the row's key, the first cell reading like the column name; otherwise an empty cell. */
  function BackFill(combined: seq<Row>, row: Row, name: string): Cell
    requires |row.cells| >= 1
  {
    match FindRowWith(combined, Trim(row.cells[0].text))
    case None => EmptyCellFor(row)
    case Some(m) =>
      match FindCell(combined[m].cells, name)
      case None => EmptyCellFor(row)
      case Some(j) => combined[m].cells[j]
  }

  /** The candidate value of one column for a data row of a table with column names names. */
  function CandidateCell(combined: seq<Row>, row: Row, names: seq<string>, name: string): Cell
    requires 1 <= |row.cells| && |names| <= |row.cells|
  {
    match IndexOf(names, name)
    case None => EmptyCellFor(row)
    case Some(i) => if Filled(row.cells[i]) then row.cells[i] else BackFill(combined, row, name)
  }

  /** The candidate row (`newCells`): one candidate value per column of headers. */
  function Candidate(combined: seq<Row>, row: Row, names: seq<string>, headers: seq<string>): (cells: seq<Cell>)
    requires 1 <= |row.cells| && |names| <= |row.cells|
    ensures |cells| == |headers|
  {
    if headers == [] then []
    else
      Candidate(combined, row, names, headers[..|headers| - 1]) +
      [CandidateCell(combined, row, names, headers[|headers| - 1])]
  }

  lemma {:induction false} CandidateAt(combined: seq<Row>, row: Row, names: seq<string>, headers: seq<string>, k: nat)
    requires 1 <= |row.cells| && |names| <= |row.cells| && k < |headers|
    ensures Candidate(combined, row, names, headers)[k] == CandidateCell(combined, row, names, headers[k])
  {
    if k < |headers| - 1 {
      CandidateAt(combined, row, names, headers[..|headers| - 1], k);
    }
  }

  /** Where a candidate value comes from: a column the table lacks gets an empty cell; a column
      it has gets the row's own cell when that is filled; otherwise the back-fill gives either an
      empty cell or a cell of the combined rows whose trimmed text is the column name itself. */
  lemma CandidateCellCases(combined: seq<Row>, row: Row, names: seq<string>, name: string)
    requires 1 <= |row.cells| && |names| <= |row.cells|
    ensures var c := CandidateCell(combined, row, names, name);
      (name !in names ==> c == EmptyCellFor(row)) &&
      (name in names && Filled(row.cells[IndexOf(names, name).value]) ==>
        c == row.cells[IndexOf(names, name).value]) &&
      (name in names && !Filled(row.cells[IndexOf(names, name).value]) ==>
        c == EmptyCellFor(row) ||
        (Trim(c.text) == name && exists m, j :: 0 <= m < |combined| && 0 <= j < |combined[m].cells| &&
                                                c == combined[m].cells[j]))
  {
    var c := CandidateCell(combined, row, names, name);
    if name in names && !Filled(row.cells[IndexOf(names, name).value]) {
      var key := Trim(row.cells[0].text);
      var mr := FindRowWith(combined, key);
      if mr.Some? {
        var jc := FindCell(combined[mr.value].cells, name);
        if jc.Some? {
          assert c == combined[mr.value].cells[jc.value];
        }
      }
    }
  }

  /** The merge of a candidate into an existing row: each filled candidate value replaces the
      existing one, every other existing value stays. */
  function Overwrite(existing: seq<Cell>, newCells: seq<Cell>): (r: seq<Cell>)
    requires |newCells| == |existing|
    ensures |r| == |existing|
    ensures forall k :: 0 <= k < |r| ==> r[k] == if Filled(newCells[k]) then newCells[k] else existing[k]
  {
    if newCells == [] then []
    else
      var n := |newCells| - 1;
      Overwrite(existing[..n], newCells[..n]) + [if Filled(newCells[n]) then newCells[n] else existing[n]]
  }

  /** One data row merged into the combined rows: with a key already present the candidate is
      merged into the first row with that key, otherwise it is appended. */
  function AddRow(combined: seq<Row>, row: Row, names: seq<string>, headers: seq<string>): (r: seq<Row>)
    requires Shaped(combined, |headers|) && |headers| >= 1
    requires 1 <= |row.cells| && |names| <= |row.cells|
    ensures Shaped(r, |headers|) && |combined| <= |r| <= |combined| + 1
  {
    var newCells := Candidate(combined, row, names, headers);
    match FindKey(combined, Trim(row.cells[0].text))
    case Some(k) => combined[k := Row(Overwrite(combined[k].cells, newCells))]
    case None => combined + [Row(newCells)]
  }

  /** The data rows of a table have a first cell and a cell under every one of its names. */
  predicate RowsFit(rows: seq<Row>, names: seq<string>) {
    forall k :: 0 <= k < |rows| ==> 1 <= |rows[k].cells| && |names| <= |rows[k].cells|
  }

  /** The data rows of one table merged in order. */
  function AddRows(combined: seq<Row>, rows: seq<Row>, names: seq<string>, headers: seq<string>): (r: seq<Row>)
    requires Shaped(combined, |headers|) && (rows != [] ==> |headers| >= 1)
    requires RowsFit(rows, names)
    ensures Shaped(r, |headers|) && |combined| <= |r|
  {
    if rows == [] then combined
    else
      var n := |rows| - 1;
      AddRow(AddRows(combined, rows[..n], names, headers), rows[n], names, headers)
  }

  lemma AddRowsStep(combined: seq<Row>, rows: seq<Row>, names: seq<string>, headers: seq<string>, j: nat)
    requires Shaped(combined, |headers|) && |headers| >= 1
    requires RowsFit(rows, names) && j < |rows|
    ensures AddRows(combined, rows[..j + 1], names, headers) ==
      AddRow(AddRows(combined, rows[..j], names, headers), rows[j], names, headers)
  {
    assert rows[..j + 1][..j] == rows[..j];
  }

  /** The data rows of a table: all rows but the header row. */
  function DataRows(t: Table): seq<Row>
    requires |t.rows| >= 1
  {
    t.rows[1..]
  }

  /** The tables have data rows only if there are columns. */
  predicate NeedsColumns(tables: seq<SelectedTable>, headers: seq<string>) {
    headers == [] ==> forall i :: 0 <= i < |tables| ==> |tables[i].table.rows| == 1
  }

  /** The data rows of every table merged, table after table. */
  function AddTables(combined: seq<Row>, tables: seq<SelectedTable>, headers: seq<string>): (r: seq<Row>)
    requires Shaped(combined, |headers|)
    requires forall i :: 0 <= i < |tables| ==> Mergeable(tables[i].table)
    requires NeedsColumns(tables, headers)
    ensures Shaped(r, |headers|) && |combined| <= |r|
  {
    if tables == [] then combined
    else
      var n := |tables| - 1;
      var t := tables[n].table;
      assert Mergeable(t);
      AddRows(AddTables(combined, tables[..n], headers), DataRows(t), TableNames(t), headers)
  }

  lemma AddTablesStep(combined: seq<Row>, tables: seq<SelectedTable>, headers: seq<string>, i: nat)
    requires Shaped(combined, |headers|)
    requires forall i :: 0 <= i < |tables| ==> Mergeable(tables[i].table)
    requires NeedsColumns(tables, headers) && i < |tables|
    ensures AddTables(combined, tables[..i + 1], headers) ==
      AddRows(AddTables(combined, tables[..i], headers), DataRows(tables[i].table), TableNames(tables[i].table), headers)
  {
    assert tables[..i + 1][..i] == tables[..i];
  }

  /** Every row projected onto the column order. */
  function ReorderRows(rows: seq<Row>, all: seq<string>, order: seq<string>): (r: seq<Row>)
    requires Shaped(rows, |all|)
    requires forall k :: 0 <= k < |order| ==> order[k] in all
    ensures |r| == |rows| && Shaped(r, |order|)
  {
    if rows == [] then []
    else
      var n := |rows| - 1;
      ReorderRows(rows[..n], all, order) + [Row(Project(rows[n].cells, all, order))]
  }

  /** Projecting every row onto a duplicate-free all gives the rows back. */
  lemma {:induction false} ReorderRowsIdentity(rows: seq<Row>, all: seq<string>)
    requires Shaped(rows, |all|) && Distinct(all)
    ensures ReorderRows(rows, all, all) == rows
  {
    if rows != [] {
      var n := |rows| - 1;
      ReorderRowsIdentity(rows[..n], all);
      ProjectIdentity(rows[n].cells, all);
      assert rows == rows[..n] + [Row(rows[n].cells)];
    }
  }

  /** Every name of the final column order is a name of all. */
  lemma SortedWithin(common: seq<string>, all: seq<string>)
    requires common <= all
    ensures forall k :: 0 <= k < |SortedHeaders(common, all)| ==> SortedHeaders(common, all)[k] in all
  {
    var order := SortedHeaders(common, all);
    forall k | 0 <= k < |order| ensures order[k] in all {
      if k < |common| {
        assert order[k] == common[k] == all[k];
      } else {
        assert order[k] == Missing(all, common)[k - |common|];
      }
    }
  }

  /** The rows of the combined table before the reordering: the combined header row, then the
      data rows of every table merged in store order. */
  function MergedRows(tables: seq<SelectedTable>): (rows: seq<Row>)
    requires CanMerge(tables)
    ensures |rows| >= 1 && Shaped(rows, |AllHeaders(tables)|)
  {
    var all := AllHeaders(tables);
    AddTables([Row(HeaderCells(all))], tables, all)
  }

  /** `getCombinedTable`: nothing without stored tables, otherwise the merged rows reordered by
      the final column order. */
  function Combined(tables: seq<SelectedTable>): (r: Option<seq<Row>>)
    requires CanMerge(tables)
  {
    if tables == [] then None
    else
      var all := AllHeaders(tables);
      var order := SortedHeaders(CommonHeaders(tables), all);
      CommonPrefix(tables);
      SortedWithin(CommonHeaders(tables), all);
      Some(ReorderRows(MergedRows(tables), all, order))
  }

  /** There is a combined table exactly when a table is stored, and the reordering step changes
      nothing: the first table's names already lead allHeaders, so the combined table is the
      merged rows with one cell per name of allHeaders. */
  lemma CombinedIsMerged(tables: seq<SelectedTable>)
    requires CanMerge(tables)
    ensures Combined(tables).None? <==> tables == []
    ensures tables != [] ==> Combined(tables) == Some(MergedRows(tables))
    ensures tables != [] ==> |MergedRows(tables)| >= 1 && Shaped(MergedRows(tables), |AllHeaders(tables)|)
  {
    if tables != [] {
      var all := AllHeaders(tables);
      CommonPrefix(tables);
      AllHeadersDistinct(tables);
      SortedHeadersIdentity(CommonHeaders(tables), all);
      ReorderRowsIdentity(MergedRows(tables), all);
    }
  }

  /** Nothing is erased from a to b: no row is removed and a filled cell stays filled. */
  ghost predicate Keeps(a: seq<Row>, b: seq<Row>) {
    |a| <= |b| &&
    forall k, j :: 0 <= k < |a| && 0 <= j < |a[k].cells| && Filled(a[k].cells[j]) ==>
      j < |b[k].cells| && Filled(b[k].cells[j])
  }

  lemma KeepsTrans(a: seq<Row>, b: seq<Row>, c: seq<Row>)
    requires Keeps(a, b) && Keeps(b, c)
    ensures Keeps(a, c)
  {
  }

  /** Merging one data row erases nothing: an overwrite only puts filled values in. */
  lemma AddRowKeeps(combined: seq<Row>, row: Row, names: seq<string>, headers: seq<string>)
    requires Shaped(combined, |headers|) && |headers| >= 1
    requires 1 <= |row.cells| && |names| <= |row.cells|
    ensures Keeps(combined, AddRow(combined, row, names, headers))
  {
  }

  lemma {:induction false} AddRowsKeeps(combined: seq<Row>, rows: seq<Row>, names: seq<string>, headers: seq<string>)
    requires Shaped(combined, |headers|) && (rows != [] ==> |headers| >= 1)
    requires RowsFit(rows, names)
    ensures Keeps(combined, AddRows(combined, rows, names, headers))
  {
    if rows != [] {
      var n := |rows| - 1;
      var before := AddRows(combined, rows[..n], names, headers);
      AddRowsKeeps(combined, rows[..n], names, headers);
      AddRowKeeps(before, rows[n], names, headers);
      KeepsTrans(combined, before, AddRows(combined, rows, names, headers));
    }
  }

  /** Whatever the first i tables put into the combined rows, the later tables do not erase. */
  lemma {:induction false} AddTablesKeeps(combined: seq<Row>, tables: seq<SelectedTable>, headers: seq<string>, i: nat)
    requires Shaped(combined, |headers|)
    requires forall i :: 0 <= i < |tables| ==> Mergeable(tables[i].table)
    requires NeedsColumns(tables, headers) && i <= |tables|
    ensures Keeps(AddTables(combined, tables[..i], headers), AddTables(combined, tables, headers))
  {
    if i == |tables| {
      assert tables[..i] == tables;
    } else {
      var n := |tables| - 1;
      var front := tables[..n];
      assert front[..i] == tables[..i];
      AddTablesKeeps(combined, front, headers, i);
      var t := tables[n].table;
      assert Mergeable(t);
      AddRowsKeeps(AddTables(combined, front, headers), DataRows(t), TableNames(t), headers);
      KeepsTrans(AddTables(combined, tables[..i], headers), AddTables(combined, front, headers),
                 AddTables(combined, tables, headers));
    }
  }

  /** The names of allHeaders are trimmed texts. */
  lemma AllHeadersTrimmed(tables: seq<SelectedTable>, x: string)
    requires HasHeaderRows(tables) && x in AllHeaders(tables)
    ensures Trim(x) == x
  {
    AllHeadersFrom(tables, x);
    var i :| 0 <= i < |tables| && x in TableNames(tables[i].table);
    var names := TableNames(tables[i].table);
    var j :| 0 <= j < |names| && names[j] == x;
    TrimIdempotent(tables[i].table.rows[0].cells[j].text);
  }

  /** No value is ever erased by the merge: every cell filled after the first i tables is still
      filled in the combined table, and in particular every non-empty column name of the
      combined header row stays a filled cell. */
  lemma MergeKeepsValues(tables: seq<SelectedTable>, i: nat)
    requires CanMerge(tables) && i <= |tables|
    ensures var all := AllHeaders(tables);
      Keeps(AddTables([Row(HeaderCells(all))], tables[..i], all), MergedRows(tables))
    ensures forall j :: 0 <= j < |AllHeaders(tables)| && AllHeaders(tables)[j] != [] ==>
      Filled(MergedRows(tables)[0].cells[j])
  {
    var all := AllHeaders(tables);
    var header := [Row(HeaderCells(all))];
    AddTablesKeeps(header, tables, all, i);
    AddTablesKeeps(header, tables, all, 0);
    assert tables[..0] == [];
    forall j | 0 <= j < |all| && all[j] != [] ensures Filled(MergedRows(tables)[0].cells[j]) {
      AllHeadersTrimmed(tables, all[j]);
      assert header[0].cells[j].text == all[j];
    }
  }

  /** No data row's trimmed key is name. */
  ghost predicate KeyNotIn(rows: seq<Row>, name: string) {
    forall k :: 0 <= k < |rows| && |rows[k].cells| >= 1 ==> Trim(rows[k].cells[0].text) != name
  }

  lemma AddRowKeepsFirst(combined: seq<Row>, row: Row, names: seq<string>, headers: seq<string>)
    requires Shaped(combined, |headers|) && |headers| >= 1 && combined != []
    requires 1 <= |row.cells| && |names| <= |row.cells|
    requires Trim(combined[0].cells[0].text) != Trim(row.cells[0].text)
    ensures AddRow(combined, row, names, headers)[0] == combined[0]
  {
  }

  lemma {:induction false} AddRowsKeepsFirst(combined: seq<Row>, rows: seq<Row>, names: seq<string>, headers: seq<string>)
    requires Shaped(combined, |headers|) && |headers| >= 1 && combined != []
    requires RowsFit(rows, names) && KeyNotIn(rows, Trim(combined[0].cells[0].text))
    ensures AddRows(combined, rows, names, headers)[0] == combined[0]
  {
    if rows != [] {
      var n := |rows| - 1;
      AddRowsKeepsFirst(combined, rows[..n], names, headers);
      AddRowKeepsFirst(AddRows(combined, rows[..n], names, headers), rows[n], names, headers);
    }
  }

  lemma {:induction false} AddTablesKeepsFirst(combined: seq<Row>, tables: seq<SelectedTable>, headers: seq<string>)
    requires Shaped(combined, |headers|) && |headers| >= 1 && combined != []
    requires forall i :: 0 <= i < |tables| ==>
      Mergeable(tables[i].table) && KeyNotIn(DataRows(tables[i].table), Trim(combined[0].cells[0].text))
    ensures AddTables(combined, tables, headers)[0] == combined[0]
  {
    if tables != [] {
      var n := |tables| - 1;
      var t := tables[n].table;
      assert Mergeable(t);
      AddTablesKeepsFirst(combined, tables[..n], headers);
      AddRowsKeepsFirst(AddTables(combined, tables[..n], headers), DataRows(t), TableNames(t), headers);
    }
  }

  /** The combined header row is one cell per name of allHeaders, named by it, unless a data
      row's key reads like the first column name, in which case the key lookup finds the header
      row and merges that data row into it. */
  lemma CombinedHeaderRow(tables: seq<SelectedTable>)
    requires CanMerge(tables) && |AllHeaders(tables)| >= 1
    requires forall i :: 0 <= i < |tables| ==> KeyNotIn(DataRows(tables[i].table), AllHeaders(tables)[0])
    ensures MergedRows(tables)[0] == Row(HeaderCells(AllHeaders(tables)))
  {
    var all := AllHeaders(tables);
    var header := [Row(HeaderCells(all))];
    AllHeadersTrimmed(tables, all[0]);
    assert Trim(header[0].cells[0].text) == all[0];
    AddTablesKeepsFirst(header, tables, all);
    assert MergedRows(tables) == AddTables(header, tables, all);
  }

  /** Every cell of the rows holds a value. */
  ghost predicate AllFilled(rows: seq<Row>) {
    forall k, j :: 0 <= k < |rows| && 0 <= j < |rows[k].cells| ==> Filled(rows[k].cells[j])
  }

  /** The rows' trimmed keys are pairwise different, and none reads like name. */
  ghost predicate DistinctKeys(rows: seq<Row>, name: string) {
    KeyNotIn(rows, name) &&
    forall k1, k2 :: 0 <= k1 < k2 < |rows| && |rows[k1].cells| >= 1 && |rows[k2].cells| >= 1 ==>
      Trim(rows[k1].cells[0].text) != Trim(rows[k2].cells[0].text)
  }

  /** Adding duplicate-free names to an empty set gives them back in their order. */
  lemma {:induction false} AddAllFresh(names: seq<string>)
    requires Distinct(names)
    ensures AddAll([], names) == names
  {
    if names != [] {
      var n := |names| - 1;
      AddAllFresh(names[..n]);
      assert names[n] !in names[..n];
      assert names[..n] + [names[n]] == names;
    }
  }

  /** A row with every value filled, on duplicate-free columns, is its own candidate. */
  lemma CandidateOfFilled(combined: seq<Row>, row: Row, names: seq<string>)
    requires Distinct(names) && 1 <= |row.cells| == |names|
    requires forall j :: 0 <= j < |row.cells| ==> Filled(row.cells[j])
    ensures Candidate(combined, row, names, names) == row.cells
  {
    var c := Candidate(combined, row, names, names);
    forall k | 0 <= k < |names| ensures c[k] == row.cells[k] {
      CandidateAt(combined, row, names, names, k);
      IndexOfDistinct(names, k);
    }
  }

  /** A data row whose key no combined row has is appended as its candidate. */
  lemma AddRowNewKey(combined: seq<Row>, row: Row, names: seq<string>, headers: seq<string>)
    requires Shaped(combined, |headers|) && |headers| >= 1
    requires 1 <= |row.cells| && |names| <= |row.cells|
    requires forall k :: 0 <= k < |combined| ==> Trim(combined[k].cells[0].text) != Trim(row.cells[0].text)
    ensures AddRow(combined, row, names, headers) == combined + [Row(Candidate(combined, row, names, headers))]
  {
    assert FindKey(combined, Trim(row.cells[0].text)).None?;
  }

  lemma SnocPrefix<T>(h: T, s: seq<T>, j: nat)
    requires j < |s|
    ensures [h] + s[..j] + [s[j]] == [h] + s[..j + 1]
  {
    assert s[..j + 1] == s[..j] + [s[j]];
  }

  /** The keys of the header row and of the first j data rows all differ from the next key. */
  lemma SingleKeys(names: seq<string>, data: seq<Row>, j: nat)
    requires |names| >= 1 && Trim(names[0]) == names[0]
    requires forall m :: 0 <= m < |data| ==> |data[m].cells| == |names|
    requires DistinctKeys(data, names[0]) && j < |data|
    ensures var combined := [Row(HeaderCells(names))] + data[..j];
      Shaped(combined, |names|) &&
      forall k :: 0 <= k < |combined| ==> Trim(combined[k].cells[0].text) != Trim(data[j].cells[0].text)
  {
    var combined := [Row(HeaderCells(names))] + data[..j];
    forall k | 0 <= k < |combined|
      ensures |combined[k].cells| == |names|
      ensures Trim(combined[k].cells[0].text) != Trim(data[j].cells[0].text)
    {
      if k > 0 {
        assert combined[k] == data[k - 1];
      }
    }
  }

  /** With the header row and the first j data rows merged, the next data row has a new key
      and is appended as it is. */
  lemma SingleRowStep(names: seq<string>, data: seq<Row>, j: nat)
    requires Distinct(names) && |names| >= 1 && Trim(names[0]) == names[0]
    requires forall m :: 0 <= m < |data| ==> |data[m].cells| == |names|
    requires AllFilled(data) && DistinctKeys(data, names[0]) && j < |data|
    ensures AddRow([Row(HeaderCells(names))] + data[..j], data[j], names, names) == [Row(HeaderCells(names))] + data[..j + 1]
  {
    var combined := [Row(HeaderCells(names))] + data[..j];
    var row := data[j];
    SingleKeys(names, data, j);
    AddRowNewKey(combined, row, names, names);
    CandidateOfFilled(combined, row, names);
    SnocPrefix(Row(HeaderCells(names)), data, j);
  }

  lemma {:induction false} SingleRows(names: seq<string>, data: seq<Row>, j: nat)
    requires Distinct(names) && |names| >= 1 && Trim(names[0]) == names[0]
    requires forall m :: 0 <= m < |data| ==> |data[m].cells| == |names|
    requires AllFilled(data) && DistinctKeys(data, names[0]) && j <= |data|
    ensures AddRows([Row(HeaderCells(names))], data[..j], names, names) == [Row(HeaderCells(names))] + data[..j]
  {
    if j > 0 {
      SingleRows(names, data, j - 1);
      AddRowsStep([Row(HeaderCells(names))], data, names, names, j - 1);
      SingleRowStep(names, data, j - 1);
    }
  }

  /** A single table's column names, when distinct, are allHeaders and commonHeaders alike. */
  lemma SingleHeaders(e: SelectedTable)
    requires WellFormed(e.table) && Distinct(TableNames(e.table))
    ensures AllHeaders([e]) == TableNames(e.table) == CommonHeaders([e])
  {
    assert [e][..0] == [];
    AddAllFresh(TableNames(e.table));
  }

  /** A well-formed table can be merged, and its data rows are as wide as its header. */
  lemma SingleMergeable(e: SelectedTable)
    requires WellFormed(e.table) && Distinct(TableNames(e.table))
    ensures CanMerge([e])
    ensures forall m :: 0 <= m < |DataRows(e.table)| ==> |DataRows(e.table)[m].cells| == |TableNames(e.table)|
  {
    var t := e.table;
    forall m | 0 <= m < |DataRows(t)| ensures |DataRows(t)[m].cells| == |TableNames(t)| {
      assert DataRows(t)[m] == t.rows[m + 1];
    }
    assert Mergeable(t);
    SingleHeaders(e);
  }

  /** With one table, the merged rows are its data rows merged into the header row. */
  lemma MergedSingle(e: SelectedTable)
    requires CanMerge([e])
    ensures Mergeable(e.table)
    ensures MergedRows([e]) ==
      AddRows([Row(HeaderCells(AllHeaders([e])))], DataRows(e.table), TableNames(e.table), AllHeaders([e]))
  {
    var all := AllHeaders([e]);
    var h := [Row(HeaderCells(all))];
    assert [e][0] == e;
    assert [e][..0] == [];
    assert AddTables(h, [e][..0], all) == h;
    assert AddTables(h, [e], all) ==
      AddRows(AddTables(h, [e][..0], all), DataRows(e.table), TableNames(e.table), all);
  }

  /** Combining a single table whose column names are distinct, whose values are all filled
      and whose row keys are distinct and unlike its first column name gives that table back:
      the combined header row names its columns, the data rows follow unchanged. */
  lemma CombinedSingle(e: SelectedTable)
    requires WellFormed(e.table) && Distinct(TableNames(e.table))
    requires AllFilled(DataRows(e.table)) && DistinctKeys(DataRows(e.table), TableNames(e.table)[0])
    ensures CanMerge([e])
    ensures Combined([e]) == Some([Row(HeaderCells(TableNames(e.table)))] + DataRows(e.table))
  {
    var t := e.table;
    var names := TableNames(t);
    var data := DataRows(t);
    SingleMergeable(e);
    SingleHeaders(e);
    TrimIdempotent(t.rows[0].cells[0].text);
    SingleRows(names, data, |data|);
    assert data[..|data|] == data;
    MergedSingle(e);
    CombinedIsMerged([e]);
  }

  lemma CandidateStep(combined: seq<Row>, row: Row, names: seq<string>, headers: seq<string>, c: nat)
    requires 1 <= |row.cells| && |names| <= |row.cells| && c < |headers|
    ensures Candidate(combined, row, names, headers[..c + 1]) ==
      Candidate(combined, row, names, headers[..c]) + [CandidateCell(combined, row, names, headers[c])]
  {
    assert headers[..c + 1][..c] == headers[..c];
  }

  /** The candidate-building loop over the columns of headerArray. */
  method BuildCandidate(combinedRows: seq<Row>, row: Row, tableHeaders: seq<string>, headerArray: seq<string>)
    returns (newCells: seq<Cell>)
    requires 1 <= |row.cells| && |tableHeaders| <= |row.cells|
    ensures newCells == Candidate(combinedRows, row, tableHeaders, headerArray)
  {
    newCells := [];
    var c := 0;
    while c < |headerArray|
      invariant 0 <= c <= |headerArray|
      invariant newCells == Candidate(combinedRows, row, tableHeaders, headerArray[..c])
    {
      var header := headerArray[c];
      var headerIndex := IndexOf(tableHeaders, header);
      var cell: Cell;
      if headerIndex.Some? {
        var cellValue := Trim(row.cells[headerIndex.value].text);
        if cellValue != [] {
          cell := row.cells[headerIndex.value];
        } else {
          var matchingRow := FindRowWith(combinedRows, Trim(row.cells[0].text));
          if matchingRow.Some? {
            var matchingCell := FindCell(combinedRows[matchingRow.value].cells, header);
            if matchingCell.Some? {
              cell := combinedRows[matchingRow.value].cells[matchingCell.value];
            } else {
              cell := EmptyCellFor(row);
            }
          } else {
            cell := EmptyCellFor(row);
          }
        }
      } else {
        cell := EmptyCellFor(row);
      }
      CandidateStep(combinedRows, row, tableHeaders, headerArray, c);
      newCells := newCells + [cell];
      c := c + 1;
    }
    assert headerArray[..c] == headerArray;
  }

  /** The overwrite loop: each filled candidate value replaces the existing row's value. */
  method MergeCells(existing: seq<Cell>, newCells: seq<Cell>) returns (merged: seq<Cell>)
    requires |newCells| == |existing|
    ensures merged == Overwrite(existing, newCells)
  {
    merged := existing;
    var index := 0;
    while index < |newCells|
      invariant 0 <= index <= |newCells| && |merged| == |existing|
      invariant forall k :: 0 <= k < |merged| ==>
        merged[k] == if k < index && Filled(newCells[k]) then newCells[k] else existing[k]
    {
      if Trim(newCells[index].text) != [] {
        merged := merged[index := newCells[index]];
      }
      index := index + 1;
    }
    var r := Overwrite(existing, newCells);
    assert forall k :: 0 <= k < |merged| ==> merged[k] == r[k];
  }

  lemma ReorderRowsStep(rows: seq<Row>, all: seq<string>, order: seq<string>, i: nat)
    requires Shaped(rows, |all|) && i < |rows|
    requires forall k :: 0 <= k < |order| ==> order[k] in all
    ensures ReorderRows(rows[..i + 1], all, order) ==
      ReorderRows(rows[..i], all, order) + [Row(Project(rows[i].cells, all, order))]
  {
    assert rows[..i + 1][..i] == rows[..i];
  }

  /** The reordering of every combined row. */
  method ReorderAll(combinedRows: seq<Row>, headerArray: seq<string>, sortedHeaderArray: seq<string>)
    returns (reorderedRows: seq<Row>)
    requires Shaped(combinedRows, |headerArray|)
    requires forall k :: 0 <= k < |sortedHeaderArray| ==> sortedHeaderArray[k] in headerArray
    ensures reorderedRows == ReorderRows(combinedRows, headerArray, sortedHeaderArray)
  {
    reorderedRows := [];
    var i := 0;
    while i < |combinedRows|
      invariant 0 <= i <= |combinedRows|
      invariant reorderedRows == ReorderRows(combinedRows[..i], headerArray, sortedHeaderArray)
    {
      var reorderedCells := ProjectRow(combinedRows[i].cells, headerArray, sortedHeaderArray);
      ReorderRowsStep(combinedRows, headerArray, sortedHeaderArray, i);
      reorderedRows := reorderedRows + [Row(reorderedCells)];
      i := i + 1;
    }
    assert combinedRows[..i] == combinedRows;
  }

  /** The merge of one data row into the combined rows. */
  method MergeRow(combinedRows: seq<Row>, row: Row, tableHeaders: seq<string>, headerArray: seq<string>)
    returns (updated: seq<Row>)
    requires Shaped(combinedRows, |headerArray|) && |headerArray| >= 1
    requires 1 <= |row.cells| && |tableHeaders| <= |row.cells|
    ensures updated == AddRow(combinedRows, row, tableHeaders, headerArray)
  {
    var newCells := BuildCandidate(combinedRows, row, tableHeaders, headerArray);
    var existingRowIndex := FindKey(combinedRows, Trim(row.cells[0].text));
    if existingRowIndex.Some? {
      var existingRow := combinedRows[existingRowIndex.value];
      var merged := MergeCells(existingRow.cells, newCells);
      updated := combinedRows[existingRowIndex.value := Row(merged)];
    } else {
      updated := combinedRows + [Row(newCells)];
    }
  }

  /** The loop over the data rows of one table. */
  method MergeTable(combinedRows: seq<Row>, table: Table, headerArray: seq<string>) returns (updated: seq<Row>)
    requires Mergeable(table) && Shaped(combinedRows, |headerArray|)
    requires DataRows(table) != [] ==> |headerArray| >= 1
    ensures updated == AddRows(combinedRows, DataRows(table), TableNames(table), headerArray)
  {
    var tableHeaders := TableNames(table);
    var dataRows := DataRows(table);
    updated := combinedRows;
    var j := 0;
    while j < |dataRows|
      invariant 0 <= j <= |dataRows|
      invariant updated == AddRows(combinedRows, dataRows[..j], tableHeaders, headerArray)
    {
      AddRowsStep(combinedRows, dataRows, tableHeaders, headerArray, j);
      updated := MergeRow(updated, dataRows[j], tableHeaders, headerArray);
      j := j + 1;
    }
    assert dataRows[..j] == dataRows;
  }

  /** `getCombinedTable`: the header collection, the merge of every data row of every table in
      store order, the column ordering and the reordering of every row. */
  method CombineTables(selectedTables: seq<SelectedTable>) returns (result: Option<seq<Row>>)
    requires CanMerge(selectedTables)
    ensures result == Combined(selectedTables)
  {
    if |selectedTables| == 0 {
      return None;
    }
    var headerArray, commonHeaderArray := CollectHeaders(selectedTables);
    var headerRow := Row(HeaderCells(headerArray));
    var combinedRows := [headerRow];
    var i := 0;
    while i < |selectedTables|
      invariant 0 <= i <= |selectedTables|
      invariant combinedRows == AddTables([headerRow], selectedTables[..i], headerArray)
    {
      var table := selectedTables[i].table;
      assert Mergeable(table);
      combinedRows := MergeTable(combinedRows, table, headerArray);
      AddTablesStep([headerRow], selectedTables, headerArray, i);
      i := i + 1;
    }
    assert selectedTables[..i] == selectedTables;
    var sortedHeaderArray := SortHeaders(commonHeaderArray, headerArray);
    CommonPrefix(selectedTables);
    SortedWithin(commonHeaderArray, headerArray);
    var reorderedRows := ReorderAll(combinedRows, headerArray, sortedHeaderArray);
    return Some(reorderedRows);
  }

  /** Tables as the reconstruction builds them can always be merged: each is mergeable, and the
      first one's non-empty header gives allHeaders a name. */
  lemma WellFormedCanMerge(tables: seq<SelectedTable>)
    requires forall k :: 0 <= k < |tables| ==> WellFormed(tables[k].table)
    ensures CanMerge(tables)
  {
    forall k | 0 <= k < |tables| ensures Mergeable(tables[k].table) {
      var t := tables[k].table;
      forall m | 0 <= m < |DataRows(t)| ensures 1 <= |DataRows(t)[m].cells| && |TableNames(t)| <= |DataRows(t)[m].cells| {
        assert DataRows(t)[m] == t.rows[m + 1];
      }
    }
    if tables != [] {
      AllHeadersHas(tables, 0, TableNames(tables[0].table)[0]);
    }
  }
}
