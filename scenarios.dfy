/** A worked merge: two stored tables sharing the key column Code. The first (page 1) has columns
    Code and Qty and one row X, 5; the second (page 2) has columns Code and Price and rows X with
    a blank Price, and Y, 9. */
module MergeExample {
  import opened Tables
  import opened Text
  import opened Headers
  import opened Merge
  import opened Extraction
  import opened Store

  const Sel := Selection(0.0, 0.0, 100.0, 100.0)
  const X1 := Cell("X", 0.0, 20.0, 10.0, 10.0)
  const Five := Cell("5", 30.0, 20.0, 10.0, 10.0)
  const X2 := Cell("X", 0.0, 25.0, 10.0, 12.0)
  const Blank := Cell("", 30.0, 25.0, 0.0, 12.0)
  const Y := Cell("Y", 0.0, 40.0, 10.0, 10.0)
  const Nine := Cell("9", 30.0, 40.0, 10.0, 10.0)
  const T1 := SelectedTable(Table([Row([Cell("Code", 0.0, 0.0, 20.0, 10.0), Cell("Qty", 30.0, 0.0, 20.0, 10.0)]),
                                   Row([X1, Five])], 1), Sel)
  const T2 := SelectedTable(Table([Row([Cell("Code", 0.0, 0.0, 20.0, 10.0), Cell("Price", 30.0, 0.0, 20.0, 10.0)]),
                                   Row([X2, Blank]), Row([Y, Nine])], 2), Sel)

  const All := ["Code", "Qty", "Price"]
  const H := [Row(HeaderCells(All))]
  /** Row X after the first table: Price is not a column of that table. */
  const RX := Row([X1, Five, Cell("", 0.0, 20.0, 0.0, 10.0)])
  /** Row X after the second table: only the filled key is written over it. */
  const RX2 := Row([X2, Five, Cell("", 0.0, 20.0, 0.0, 10.0)])
  /** Row Y: Qty is not a column of the second table. */
  const RY := Row([Y, Cell("", 0.0, 40.0, 0.0, 10.0), Nine])

  /** A text with a non-space at each end is its own trim. */
  lemma Plain(s: string)
    requires s != [] && !IsSpace(s[0]) && !IsSpace(s[|s| - 1])
    ensures Trim(s) == s
  {
    TrimSpec(s);
  }

  lemma AddTwo(acc: seq<string>, a: string, b: string)
    ensures AddAll(acc, [a, b]) ==
      var r := if a in acc then acc else acc + [a]; if b in r then r else r + [b]
  {
    assert [a, b][..1] == [a];
    assert [a][..0] == [];
    assert AddAll(acc, [a]) == if a in acc then acc else acc + [a];
  }

  lemma FirstNames()
    ensures TableNames(T1.table) == ["Code", "Qty"]
  {
    Plain("Code");
    Plain("Qty");
  }

  lemma SecondNames()
    ensures TableNames(T2.table) == ["Code", "Price"]
  {
    Plain("Code");
    Plain("Price");
  }

  lemma FirstHeaders()
    ensures AllHeaders([T1]) == ["Code", "Qty"]
  {
    FirstNames();
    assert [T1][..0] == [];
    AddTwo([], "Code", "Qty");
  }

  /** The combined columns are Code, Qty, Price. */
  lemma ExampleHeaders()
    ensures AllHeaders([T1, T2]) == All
  {
    FirstHeaders();
    SecondNames();
    assert [T1, T2][..1] == [T1];
    AddTwo(["Code", "Qty"], "Code", "Price");
  }

  /** A three-column candidate, column by column. */
  lemma Candidate3(combined: seq<Row>, row: Row, names: seq<string>, a: string, b: string, c: string)
    requires 1 <= |row.cells| && |names| <= |row.cells|
    ensures Candidate(combined, row, names, [a, b, c]) ==
      [CandidateCell(combined, row, names, a), CandidateCell(combined, row, names, b),
       CandidateCell(combined, row, names, c)]
  {
    CandidateAt(combined, row, names, [a, b, c], 0);
    CandidateAt(combined, row, names, [a, b, c], 1);
    CandidateAt(combined, row, names, [a, b, c], 2);
  }

  /** X is new: its row is appended, with an empty Price. */
  lemma FirstRow()
    ensures AddRow(H, Row([X1, Five]), ["Code", "Qty"], All) == H + [RX]
  {
    Plain("Code");
    Plain("X");
    Plain("5");
    assert H[0].cells[0].text == "Code";
    Candidate3(H, Row([X1, Five]), ["Code", "Qty"], "Code", "Qty", "Price");
    assert FindKey(H, "X") == None;
  }

  /** The back-fill of X's blank Price: row X is the first combined row with a cell reading "X",
      and none of its cells reads "Price". */
  /** Row X is the first combined row with a cell reading "X". */
  lemma RowWithX()
    ensures FindRowWith(H + [RX], "X") == Some(1)
  {
    Plain("Code");
    Plain("Qty");
    Plain("Price");
    Plain("X");
    assert H[0].cells == [Cell("Code", 0.0, 0.0, 0.0, 0.0), Cell("Qty", 0.0, 0.0, 0.0, 0.0), Cell("Price", 0.0, 0.0, 0.0, 0.0)];
    assert FindCell(H[0].cells, "X") == None;
  }

  /** No cell of row X reads "Price". */
  lemma NoPriceInX()
    ensures FindCell(RX.cells, "Price") == None
  {
    Plain("X");
    Plain("5");
  }

  lemma SecondBackFill()
    ensures BackFill(H + [RX], Row([X2, Blank]), "Price") == Cell("", 0.0, 25.0, 0.0, 12.0)
  {
    Plain("X");
    RowWithX();
    NoPriceInX();
  }


  /** X's candidate: the key, then an empty Qty (not a column of page 2), then the empty
      back-filled Price. */
  lemma SecondCandidate()
    ensures Candidate(H + [RX], Row([X2, Blank]), ["Code", "Price"], All) ==
      [X2, Cell("", 0.0, 25.0, 0.0, 12.0), Cell("", 0.0, 25.0, 0.0, 12.0)]
  {
    Plain("X");
    SecondBackFill();
    Candidate3(H + [RX], Row([X2, Blank]), ["Code", "Price"], "Code", "Qty", "Price");
  }

  /** The key X is in the first column of row X. */
  lemma KeyX()
    ensures FindKey(H + [RX], "X") == Some(1)
  {
    Plain("Code");
    Plain("X");
  }

  /** Only X's filled key is written over row X. */
  lemma OverwriteX()
    ensures Overwrite(RX.cells, [X2, Cell("", 0.0, 25.0, 0.0, 12.0), Cell("", 0.0, 25.0, 0.0, 12.0)]) == RX2.cells
  {
  }

  /** X again: its key is found at row X, and only the filled key is written over it. */
  lemma SecondRow()
    ensures AddRow(H + [RX], Row([X2, Blank]), ["Code", "Price"], All) == H + [RX2]
  {
    Plain("X");
    SecondCandidate();
    KeyX();
    OverwriteX();
  }

  /** The key Y is in no first column. */
  lemma KeyY()
    ensures FindKey(H + [RX2], "Y") == None
  {
    Plain("Code");
    Plain("X");
  }

  lemma FilledY()
    ensures Filled(Y) && Filled(Nine)
  {
    Plain("Y");
    Plain("9");
  }

  /** A filled cell under a column of the table is that column's candidate. */
  lemma FilledCell(combined: seq<Row>, row: Row, names: seq<string>, name: string, i: nat)
    requires 1 <= |row.cells| && |names| <= |row.cells|
    requires IndexOf(names, name) == Some(i) && Filled(row.cells[i])
    ensures CandidateCell(combined, row, names, name) == row.cells[i]
  {
  }

  /** Y's candidate: the key, an empty Qty (not a column of page 2), then Price 9. */
  lemma ThirdCandidate()
    ensures Candidate(H + [RX2], Row([Y, Nine]), ["Code", "Price"], All) ==
      [Y, Cell("", 0.0, 40.0, 0.0, 10.0), Nine]
  {
    var names := ["Code", "Price"];
    Candidate3(H + [RX2], Row([Y, Nine]), names, "Code", "Qty", "Price");
    assert IndexOf(names, "Code") == Some(0) && IndexOf(names, "Price") == Some(1);
    assert IndexOf(names, "Qty") == None;
    FilledY();
    FilledCell(H + [RX2], Row([Y, Nine]), names, "Code", 0);
    FilledCell(H + [RX2], Row([Y, Nine]), names, "Price", 1);
  }

  /** Y is new: its row is appended, with an empty Qty. */
  lemma ThirdRow()
    ensures AddRow(H + [RX2], Row([Y, Nine]), ["Code", "Price"], All) == H + [RX2, RY]
  {
    Plain("Y");
    ThirdCandidate();
    KeyY();
  }

  lemma FirstTable()
    ensures Mergeable(T1.table) && AddTables(H, [T1], All) == H + [RX]
  {
    FirstNames();
    FirstRow();
    assert [Row([X1, Five])][..0] == [];
    assert AddRows(H, [Row([X1, Five])], ["Code", "Qty"], All) == H + [RX];
    assert [T1][..0] == [];
  }

  lemma SecondMergeable()
    ensures Mergeable(T2.table) && DataRows(T2.table) == [Row([X2, Blank]), Row([Y, Nine])]
  {
    SecondNames();
  }

  /** Two data rows are merged one after the other. */
  lemma AddTwoRows(combined: seq<Row>, r1: Row, r2: Row, names: seq<string>, headers: seq<string>)
    requires Shaped(combined, |headers|) && |headers| >= 1
    requires 1 <= |r1.cells| && |names| <= |r1.cells| && 1 <= |r2.cells| && |names| <= |r2.cells|
    ensures AddRows(combined, [r1, r2], names, headers) ==
      AddRow(AddRow(combined, r1, names, headers), r2, names, headers)
  {
    var d := [r1, r2];
    assert d[..0] == [] && d[..2] == d;
    AddRowsStep(combined, d, names, headers, 0);
    AddRowsStep(combined, d, names, headers, 1);
  }

  lemma SecondTable()
    ensures Mergeable(T2.table)
    ensures AddRows(H + [RX], DataRows(T2.table), TableNames(T2.table), All) == H + [RX2, RY]
  {
    SecondMergeable();
    SecondNames();
    AddTwoRows(H + [RX], Row([X2, Blank]), Row([Y, Nine]), ["Code", "Price"], All);
    SecondRow();
    ThirdRow();
  }

  lemma ExampleCanMerge()
    ensures CanMerge([T1, T2])
  {
    ExampleHeaders();
    FirstNames();
    SecondMergeable();
  }

  lemma ExampleMerged()
    ensures CanMerge([T1, T2]) && MergedRows([T1, T2]) == H + [RX2, RY]
  {
    ExampleCanMerge();
    ExampleHeaders();
    FirstTable();
    SecondTable();
    assert [T1, T2][..1] == [T1];
  }

  /** The combined table: the header row Code, Qty, Price; row X with Qty 5 from page 1 and an
      empty Price (the blank Price of page 2 erases nothing, and nothing back-fills it); and
      row Y with an empty Qty and Price 9. */
  lemma TwoTables()
    ensures CanMerge([T1, T2])
    ensures Combined([T1, T2]) == Some(H + [RX2, RY])
  {
    ExampleMerged();
    CombinedIsMerged([T1, T2]);
  }

  /** A selection that holds no fragment of the page leaves the stored tables as they were. */
  method SelectNothing(store: TableStore, sel: Selection, fragments: seq<Fragment>, pageNumber: int)
    requires store.Valid()
    requires forall f :: f in fragments ==> !Inside(sel, f)
    modifies store
    ensures store.Valid() && store.selectedTables == old(store.selectedTables)
  {
    ReconstructionNone(sel, fragments, pageNumber);
    store.ExtractTableFromSelection(Some(sel), Some(fragments), pageNumber);
  }

  /** After clearing the store there is no combined table. */
  method ClearThenCombine(store: TableStore) returns (combined: Option<seq<Row>>)
    requires store.Valid()
    modifies store
    ensures combined == None
  {
    store.ClearAllTables();
    combined := store.GetCombinedTable();
    CombinedIsMerged([]);
  }
}

/** A worked reconstruction: four fragments on two lines, the second line given right to left and
    slightly out of y order. */
module ExtractionExample {
  import opened Tables
  import opened Text
  import opened Sorting
  import opened Clustering
  import opened Extraction

  /** Fragments inside the selection are all kept, in their order. */
  lemma AllKept(sel: Selection, a: Fragment, b: Fragment, c: Fragment, d: Fragment)
    requires Inside(sel, a) && Inside(sel, b) && Inside(sel, c) && Inside(sel, d)
    ensures InRegion(sel, [a, b, c, d]) == [a, b, c, d]
  {
    assert [a][..0] == [];
    assert InRegion(sel, [a]) == [a];
    assert [a, b][..1] == [a];
    assert InRegion(sel, [a, b]) == [a, b];
    assert [a, b, c][..2] == [a, b];
    assert InRegion(sel, [a, b, c]) == [a, b, c];
    assert [a, b, c, d][..3] == [a, b, c];
  }

  /** One step of the insertion sort. */
  lemma SortCons(f: Fragment, rest: seq<Fragment>, axis: Axis)
    ensures SortBy([f] + rest, axis) == Insert(f, SortBy(rest, axis), axis)
  {
    assert ([f] + rest)[1..] == rest;
  }

  /** A fragment whose key is not above the first one's goes in front. */
  lemma InsertFront(f: Fragment, s: seq<Fragment>, axis: Axis)
    requires s != [] && Key(f, axis) <= Key(s[0], axis)
    ensures Insert(f, s, axis) == [f] + s
  {
  }

  /** A fragment whose key is above the only one's goes behind it. */
  lemma InsertBack(f: Fragment, g: Fragment, axis: Axis)
    requires Key(f, axis) > Key(g, axis)
    ensures Insert(f, [g], axis) == [g, f]
  {
    assert [g][1..] == [];
  }

  lemma SortOne(g: Fragment, axis: Axis)
    ensures SortBy([g], axis) == [g]
  {
    assert [g][1..] == [];
  }

  /** Two fragments are swapped exactly when the second key is below the first. */
  lemma SortTwo(f: Fragment, g: Fragment, axis: Axis)
    ensures SortBy([f, g], axis) == if Key(f, axis) <= Key(g, axis) then [f, g] else [g, f]
  {
    SortCons(f, [g], axis);
    SortOne(g, axis);
    if Key(f, axis) <= Key(g, axis) { InsertFront(f, [g], axis); } else { InsertBack(f, g, axis); }
  }

  lemma Shapes(a: Fragment, b: Fragment, c: Fragment, d: Fragment)
    ensures [a, b, c, d] == [a] + ([b] + [c, d])
    ensures [a] + ([b] + [d, c]) == [a, b, d, c]
  {
  }

  /** Four fragments whose last two are in reverse y order: sorting by y swaps just those two. */
  lemma SortFour(a: Fragment, b: Fragment, c: Fragment, d: Fragment)
    requires a.y <= b.y <= d.y < c.y
    ensures SortBy([a, b, c, d], Vertical) == [a, b, d, c]
  {
    Shapes(a, b, c, d);
    SortTwo(c, d, Vertical);
    SortCons(b, [c, d], Vertical);
    InsertFront(b, [d, c], Vertical);
    SortCons(a, [b] + [c, d], Vertical);
    InsertFront(a, [b] + [d, c], Vertical);
  }

  /** Two fragments form one group exactly when the second joins the first. */
  lemma ChainTwo(f: Fragment, g: Fragment, gap: Gap)
    ensures Chain([f, g], gap) == if Joins(f, g, gap) then [[f, g]] else [[f], [g]]
  {
    assert [f, g][..1] == [f];
    assert [[f]][..0] == [];
    assert [f] + [g] == [f, g];
  }

  /** A fragment that does not join the last one opens a group of its own. */
  lemma ChainSplit(s: seq<Fragment>, f: Fragment, gap: Gap)
    requires s != [] && !Joins(s[|s| - 1], f, gap)
    ensures Chain(s + [f], gap) == Chain(s, gap) + [[f]]
  {
    assert (s + [f])[..|s|] == s;
  }

  /** A fragment that joins the last one extends the last group. */
  lemma ChainJoin(s: seq<Fragment>, f: Fragment, gap: Gap)
    requires s != [] && Joins(s[|s| - 1], f, gap)
    ensures var c := Chain(s, gap); Chain(s + [f], gap) == c[..|c| - 1] + [c[|c| - 1] + [f]]
  {
    assert (s + [f])[..|s|] == s;
  }

  /** Four fragments where only the middle pair does not join form two groups of two. */
  lemma TwoLines(a: Fragment, b: Fragment, c: Fragment, d: Fragment)
    requires Joins(a, b, RowGap) && !Joins(b, c, RowGap) && Joins(c, d, RowGap)
    ensures Chain([a, b, c, d], RowGap) == [[a, b], [c, d]]
  {
    ChainTwo(a, b, RowGap);
    ChainSplit([a, b], c, RowGap);
    assert [a, b] + [c] == [a, b, c];
    ChainJoin([a, b, c], d, RowGap);
    assert [a, b, c] + [d] == [a, b, c, d];
    assert [[a, b], [c]][..1] == [[a, b]];
    assert [c] + [d] == [c, d];
  }

  /** A fragment whose text has no space at either end makes a cell with that text and box. */
  lemma SingleCell(f: Fragment)
    requires f.text != [] && !IsSpace(f.text[0]) && !IsSpace(f.text[|f.text| - 1])
    ensures MakeCell([f]) == Cell(f.text, f.x, f.y, f.width, f.height)
  {
    TrimSpec(f.text);
  }

  lemma TwoCells(f: Fragment, g: Fragment)
    ensures CellsOf([[f], [g]]) == [MakeCell([f]), MakeCell([g])]
  {
    assert [[f], [g]][..1] == [[f]];
    assert [[f]][..0] == [];
  }

  /** A two-fragment line, already in x order, whose fragments fall into separate cells. */
  lemma RowOfTwo(f: Fragment, g: Fragment)
    requires f.x <= g.x && !Joins(f, g, CellGap)
    ensures RowOf([f, g]) == Row([MakeCell([f]), MakeCell([g])])
  {
    SortTwo(f, g, Horizontal);
    ChainTwo(f, g, CellGap);
    TwoCells(f, g);
  }

  /** A two-fragment line in reverse x order, whose fragments fall into separate cells. */
  lemma RowOfTwoSwapped(f: Fragment, g: Fragment)
    requires g.x < f.x && !Joins(g, f, CellGap)
    ensures RowOf([f, g]) == Row([MakeCell([g]), MakeCell([f])])
  {
    SortTwo(f, g, Horizontal);
    ChainTwo(g, f, CellGap);
    TwoCells(g, f);
  }

  lemma RowsOfTwo(l1: seq<Fragment>, l2: seq<Fragment>)
    ensures RowsOf([l1, l2]) == [RowOf(l1), RowOf(l2)]
  {
    assert [l1, l2][..1] == [l1];
    assert [l1][..0] == [];
  }

  /** A data row whose two cells lie under the header's two cells, in order, is kept as it is. */
  lemma AlignTwo(h: Row, r: Row)
    requires |h.cells| == 2 && |r.cells| == 2
    requires Abs(r.cells[0].x - h.cells[0].x) < X_TOLERANCE
    requires Abs(r.cells[0].x - h.cells[1].x) >= X_TOLERANCE && Abs(r.cells[1].x - h.cells[1].x) < X_TOLERANCE
    ensures Processed([h, r]) == [h, r]
  {
    assert [h, r][1..] == [r];
    assert [r][..0] == [];
    assert FindNear(r.cells, h.cells[0].x) == Some(0);
    assert FindNear(r.cells[1..], h.cells[1].x) == Some(0);
    assert FindNear(r.cells, h.cells[1].x) == Some(1);
    assert h.cells[..1] == [h.cells[0]];
    assert [h.cells[0]][..0] == [];
    assert AlignedCells(h.cells, r) == [r.cells[0], r.cells[1]];
    assert r.cells == [r.cells[0], r.cells[1]];
  }

  /** All four fragments are kept, and sorting by y swaps the last two. */
  lemma KeptSorted(sel: Selection, a: Fragment, b: Fragment, c: Fragment, d: Fragment)
    requires Inside(sel, a) && Inside(sel, b) && Inside(sel, c) && Inside(sel, d)
    requires a.y <= b.y <= d.y < c.y
    ensures SortBy(InRegion(sel, [a, b, c, d]), Vertical) == [a, b, d, c]
  {
    AllKept(sel, a, b, c, d);
    SortFour(a, b, c, d);
  }

  /** Four kept fragments where the first two join, the fourth is sorted before the third and
      does not join the second, and the third joins the fourth: two lines, the second in y order. */
  lemma FourLines(sel: Selection, a: Fragment, b: Fragment, c: Fragment, d: Fragment)
    requires Inside(sel, a) && Inside(sel, b) && Inside(sel, c) && Inside(sel, d)
    requires a.y <= b.y <= d.y < c.y
    requires Joins(a, b, RowGap) && !Joins(b, d, RowGap) && Joins(d, c, RowGap)
    ensures LinesOf(sel, [a, b, c, d]) == [[a, b], [d, c]]
  {
    KeptSorted(sel, a, b, c, d);
    TwoLines(a, b, d, c);
  }

  /** Lines at y 0, 1, 20 and 19: the first two and the last two are within Y_TOLERANCE. */
  lemma YGaps(a: Fragment, b: Fragment, c: Fragment, d: Fragment)
    requires a.y == 0.0 && b.y == 1.0 && c.y == 20.0 && d.y == 19.0
    ensures a.y <= b.y <= d.y < c.y
    ensures Joins(a, b, RowGap) && !Joins(b, d, RowGap) && Joins(d, c, RowGap)
  {
  }

  /** A fragment at x 0, 10 wide, and one at x 20 are more than X_TOLERANCE apart. */
  lemma XGaps(f: Fragment, g: Fragment)
    requires f.x == 0.0 && f.width == 10.0 && g.x == 20.0
    ensures f.x <= g.x && !Joins(f, g, CellGap)
  {
  }

  lemma InsideAll(sel: Selection, a: Fragment, b: Fragment, c: Fragment, d: Fragment)
    requires sel == Selection(0.0, 0.0, 100.0, 100.0)
    requires a == Fragment("A", 0.0, 0.0, 10.0, 10.0) && b == Fragment("B", 20.0, 1.0, 10.0, 10.0)
    requires c == Fragment("1", 0.0, 20.0, 10.0, 10.0) && d == Fragment("2", 20.0, 19.0, 10.0, 10.0)
    ensures Inside(sel, a) && Inside(sel, b) && Inside(sel, c) && Inside(sel, d)
  {
  }

  /** Two lines of two fragments that fall into separate cells; the second line is reordered by x. */
  lemma FourRows(a: Fragment, b: Fragment, c: Fragment, d: Fragment)
    requires a.x <= b.x && !Joins(a, b, CellGap) && c.x < d.x && !Joins(c, d, CellGap)
    ensures RowsOf([[a, b], [d, c]]) ==
      [Row([MakeCell([a]), MakeCell([b])]), Row([MakeCell([c]), MakeCell([d])])]
  {
    RowsOfTwo([a, b], [d, c]);
    RowOfTwo(a, b);
    RowOfTwoSwapped(d, c);
  }

  /** Under the header cells at x 0 and 20 the data cells at x 0 and 20 line up in order. */
  lemma AlignGaps(h: Row, r: Row)
    requires h == Row([Cell("A", 0.0, 0.0, 10.0, 10.0), Cell("B", 20.0, 1.0, 10.0, 10.0)])
    requires r == Row([Cell("1", 0.0, 20.0, 10.0, 10.0), Cell("2", 20.0, 19.0, 10.0, 10.0)])
    ensures |h.cells| == 2 && |r.cells| == 2
    ensures Abs(r.cells[0].x - h.cells[0].x) < X_TOLERANCE
    ensures Abs(r.cells[0].x - h.cells[1].x) >= X_TOLERANCE && Abs(r.cells[1].x - h.cells[1].x) < X_TOLERANCE
  {
  }

  /** The reconstruction of two lines of two cells each, which the alignment keeps. */
  lemma FourTable(sel: Selection, a: Fragment, b: Fragment, c: Fragment, d: Fragment, h: Row, r: Row)
    requires Inside(sel, a) && Inside(sel, b) && Inside(sel, c) && Inside(sel, d)
    requires a.y <= b.y <= d.y < c.y
    requires Joins(a, b, RowGap) && !Joins(b, d, RowGap) && Joins(d, c, RowGap)
    requires a.x <= b.x && !Joins(a, b, CellGap) && c.x < d.x && !Joins(c, d, CellGap)
    requires h == Row([MakeCell([a]), MakeCell([b])]) && r == Row([MakeCell([c]), MakeCell([d])])
    requires |h.cells| == 2 && |r.cells| == 2
    requires Abs(r.cells[0].x - h.cells[0].x) < X_TOLERANCE
    requires Abs(r.cells[0].x - h.cells[1].x) >= X_TOLERANCE && Abs(r.cells[1].x - h.cells[1].x) < X_TOLERANCE
    ensures Reconstruction(sel, [a, b, c, d], 1) == Some(Table([h, r], 1))
  {
    FourLines(sel, a, b, c, d);
    FourRows(a, b, c, d);
    AlignTwo(h, r);
  }

  /** The table of the four fragments at (0, 0), (20, 1), (0, 20) and (20, 19), each 10 by 10,
      is A, B over 1, 2. */
  lemma FourFragments(sel: Selection, a: Fragment, b: Fragment, c: Fragment, d: Fragment)
    requires sel == Selection(0.0, 0.0, 100.0, 100.0)
    requires a == Fragment("A", 0.0, 0.0, 10.0, 10.0) && b == Fragment("B", 20.0, 1.0, 10.0, 10.0)
    requires c == Fragment("1", 0.0, 20.0, 10.0, 10.0) && d == Fragment("2", 20.0, 19.0, 10.0, 10.0)
    ensures Reconstruction(sel, [a, b, c, d], 1) == Some(Table([
      Row([Cell("A", 0.0, 0.0, 10.0, 10.0), Cell("B", 20.0, 1.0, 10.0, 10.0)]),
      Row([Cell("1", 0.0, 20.0, 10.0, 10.0), Cell("2", 20.0, 19.0, 10.0, 10.0)])], 1))
  {
    var h := Row([Cell("A", 0.0, 0.0, 10.0, 10.0), Cell("B", 20.0, 1.0, 10.0, 10.0)]);
    var r := Row([Cell("1", 0.0, 20.0, 10.0, 10.0), Cell("2", 20.0, 19.0, 10.0, 10.0)]);
    InsideAll(sel, a, b, c, d);
    YGaps(a, b, c, d);
    XGaps(a, b);
    XGaps(c, d);
    SingleCell(a);
    SingleCell(b);
    SingleCell(c);
    SingleCell(d);
    AlignGaps(h, r);
    FourTable(sel, a, b, c, d, h, r);
  }
}
