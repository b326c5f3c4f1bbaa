/** The column names of the combined table: the union of every stored table's header names in
    first-seen order, the first table's names, the final column order and the projection of a
    row onto that order. */
module Headers {
  import opened Tables
  import opened Text
  import opened Clustering

  /** The trimmed texts of a header row's cells: a table's column names. */
  function Names(cells: seq<Cell>): (names: seq<string>)
    ensures |names| == |cells|
    ensures forall k :: 0 <= k < |names| ==> names[k] == Trim(cells[k].text)
  {
    if cells == [] then [] else Names(cells[..|cells| - 1]) + [Trim(cells[|cells| - 1].text)]
  }

  ghost predicate Distinct(s: seq<string>) {
    forall i, j :: 0 <= i < j < |s| ==> s[i] != s[j]
  }

  /** Adding the names to an insertion-ordered set held as a sequence: a name not yet present is
      appended, a name already present changes nothing. */
  function AddAll(acc: seq<string>, names: seq<string>): seq<string> {
    if names == [] then acc
    else
      var r := AddAll(acc, names[..|names| - 1]);
      var n := names[|names| - 1];
      if n in r then r else r + [n]
  }

  lemma AddAllStep(acc: seq<string>, names: seq<string>, j: nat)
    requires j < |names|
    ensures AddAll(acc, names[..j + 1]) ==
      var r := AddAll(acc, names[..j]); if names[j] in r then r else r + [names[j]]
  {
    assert names[..j + 1][..j] == names[..j];
  }

  /** The set stays duplicate-free, keeps what it held in place, and holds exactly the old
      members and the added names. */
  lemma {:induction false} AddAllSpec(acc: seq<string>, names: seq<string>)
    requires Distinct(acc)
    ensures var r := AddAll(acc, names);
      Distinct(r) && acc <= r && forall x :: x in r <==> x in acc || x in names
  {
    if names != [] {
      var front := names[..|names| - 1];
      AddAllSpec(acc, front);
      assert forall x :: x in names <==> x in front || x == names[|names| - 1] by {
        assert names == front + [names[|names| - 1]];
      }
    }
  }

  /** Adding two batches one after the other is adding their concatenation. */
  lemma {:induction false} AddAllAppend(acc: seq<string>, a: seq<string>, b: seq<string>)
    ensures AddAll(acc, a + b) == AddAll(AddAll(acc, a), b)
  {
    if b == [] {
      assert a + b == a;
    } else {
      var front := b[..|b| - 1];
      AddAllAppend(acc, a, front);
      assert (a + b)[..|a + b| - 1] == a + front;
      assert (a + b)[|a + b| - 1] == b[|b| - 1];
    }
  }

  /** The names a set holding acc gains from names, in their order: names[k] is kept when acc
      does not hold it and it does not occur before position k. */
  function Fresh(acc: seq<string>, names: seq<string>): (r: seq<string>)
    ensures |r| <= |names|
    ensures forall x :: x in r <==> x in names && x !in acc
  {
    if names == [] then []
    else
      var front := names[..|names| - 1];
      var n := names[|names| - 1];
      assert forall x :: x in names <==> x in front || x == n by {
        assert names == front + [n];
      }
      Fresh(acc, front) + (if n !in acc && n !in front then [n] else [])
  }

  /** Adding names appends exactly the fresh names, each at its first occurrence, in their order. */
  lemma {:induction false} AddAllIsFresh(acc: seq<string>, names: seq<string>)
    ensures AddAll(acc, names) == acc + Fresh(acc, names)
  {
    if names != [] {
      var front := names[..|names| - 1];
      AddAllIsFresh(acc, front);
    }
  }

  /** Every stored table has a header row. */
  predicate HasHeaderRows(tables: seq<SelectedTable>) {
    forall i :: 0 <= i < |tables| ==> |tables[i].table.rows| >= 1
  }

  function TableNames(t: Table): seq<string>
    requires |t.rows| >= 1
  {
    Names(t.rows[0].cells)
  }

  /** The union of the column names of all tables, in first-seen order (`allHeaders`). */
  function AllHeaders(tables: seq<SelectedTable>): seq<string>
    requires HasHeaderRows(tables)
  {
    if tables == [] then []
    else AddAll(AllHeaders(tables[..|tables| - 1]), TableNames(tables[|tables| - 1].table))
  }

  /** The column names of the first table (`commonHeaders`). */
  function CommonHeaders(tables: seq<SelectedTable>): seq<string>
    requires HasHeaderRows(tables)
  {
    if tables == [] then [] else AddAll([], TableNames(tables[0].table))
  }

  lemma AllHeadersStep(tables: seq<SelectedTable>, i: nat)
    requires HasHeaderRows(tables) && i < |tables|
    ensures AllHeaders(tables[..i + 1]) == AddAll(AllHeaders(tables[..i]), TableNames(tables[i].table))
  {
    assert tables[..i + 1][..i] == tables[..i];
  }

  /** allHeaders has no duplicates. */
  lemma {:induction false} AllHeadersDistinct(tables: seq<SelectedTable>)
    requires HasHeaderRows(tables)
    ensures Distinct(AllHeaders(tables))
  {
    if tables != [] {
      var front := tables[..|tables| - 1];
      AllHeadersDistinct(front);
      AddAllSpec(AllHeaders(front), TableNames(tables[|tables| - 1].table));
    }
  }

  /** The column names of all tables, table after table. */
  function AllNames(tables: seq<SelectedTable>): (r: seq<string>)
    requires HasHeaderRows(tables)
    ensures forall x :: x in r <==> exists i :: 0 <= i < |tables| && x in TableNames(tables[i].table)
  {
    if tables == [] then []
    else
      var front := tables[..|tables| - 1];
      var names := TableNames(tables[|tables| - 1].table);
      assert forall x :: (exists i :: 0 <= i < |tables| && x in TableNames(tables[i].table)) <==>
        (exists i :: 0 <= i < |front| && x in TableNames(front[i].table)) || x in names by {
        forall x, i | 0 <= i < |front| && x in TableNames(front[i].table)
          ensures 0 <= i < |tables| && x in TableNames(tables[i].table)
        {
          assert tables[i] == front[i];
        }
      }
      AllNames(front) + names
  }

  /** allHeaders is the set built by adding all column names, table after table, at once. */
  lemma {:induction false} AllHeadersAddAll(tables: seq<SelectedTable>)
    requires HasHeaderRows(tables)
    ensures AllHeaders(tables) == AddAll([], AllNames(tables))
  {
    if tables != [] {
      var front := tables[..|tables| - 1];
      AllHeadersAddAll(front);
      AddAllAppend([], AllNames(front), TableNames(tables[|tables| - 1].table));
    }
  }

  /** allHeaders holds every column name at its first occurrence across the tables, in that
      order, and nothing else. */
  lemma AllHeadersFirstSeen(tables: seq<SelectedTable>)
    requires HasHeaderRows(tables)
    ensures AllHeaders(tables) == Fresh([], AllNames(tables))
  {
    AllHeadersAddAll(tables);
    AddAllIsFresh([], AllNames(tables));
  }

  /** Every name of allHeaders is a column name of some table. */
  lemma {:induction false} AllHeadersFrom(tables: seq<SelectedTable>, x: string)
    requires HasHeaderRows(tables) && x in AllHeaders(tables)
    ensures exists i :: 0 <= i < |tables| && x in TableNames(tables[i].table)
  {
    var front := tables[..|tables| - 1];
    var last := tables[|tables| - 1];
    AllHeadersDistinct(front);
    AddAllSpec(AllHeaders(front), TableNames(last.table));
    if x !in TableNames(last.table) {
      AllHeadersFrom(front, x);
      var i :| 0 <= i < |front| && x in TableNames(front[i].table);
      assert tables[i] == front[i];
    }
  }

  /** Every column name of every table is in allHeaders. */
  lemma {:induction false} AllHeadersHas(tables: seq<SelectedTable>, i: nat, x: string)
    requires HasHeaderRows(tables) && i < |tables| && x in TableNames(tables[i].table)
    ensures x in AllHeaders(tables)
  {
    var front := tables[..|tables| - 1];
    AllHeadersDistinct(front);
    AddAllSpec(AllHeaders(front), TableNames(tables[|tables| - 1].table));
    if i < |front| {
      assert tables[i] == front[i];
      AllHeadersHas(front, i, x);
    }
  }

  /** allHeaders has no duplicates and holds exactly the column names of the tables. */
  lemma AllHeadersSpec(tables: seq<SelectedTable>)
    requires HasHeaderRows(tables)
    ensures Distinct(AllHeaders(tables))
    ensures forall x :: x in AllHeaders(tables) <==>
      exists i :: 0 <= i < |tables| && x in TableNames(tables[i].table)
  {
    AllHeadersDistinct(tables);
    forall x | x in AllHeaders(tables)
      ensures exists i :: 0 <= i < |tables| && x in TableNames(tables[i].table)
    {
      AllHeadersFrom(tables, x);
    }
    forall x, i | 0 <= i < |tables| && x in TableNames(tables[i].table)
      ensures x in AllHeaders(tables)
    {
      AllHeadersHas(tables, i, x);
    }
  }

  /** A later table only appends columns: the names seen in the first i tables keep their
      positions. */
  lemma {:induction false} AllHeadersPrefix(tables: seq<SelectedTable>, i: nat)
    requires HasHeaderRows(tables) && i <= |tables|
    ensures AllHeaders(tables[..i]) <= AllHeaders(tables)
  {
    if i < |tables| {
      var front := tables[..|tables| - 1];
      assert tables[..i] == front[..i];
      AllHeadersPrefix(front, i);
      AllHeadersDistinct(front);
      AddAllSpec(AllHeaders(front), TableNames(tables[|tables| - 1].table));
    } else {
      assert tables[..i] == tables;
    }
  }

  /** commonHeaders, the first table's names, is a prefix of allHeaders. */
  lemma CommonPrefix(tables: seq<SelectedTable>)
    requires HasHeaderRows(tables)
    ensures CommonHeaders(tables) <= AllHeaders(tables)
  {
    if tables != [] {
      AllHeadersPrefix(tables, 1);
      assert tables[..1][..0] == [];
    }
  }

  /** The collection loop: every table's names are added to allHeaders, and the first table's
      names to commonHeaders as well. */
  method CollectHeaders(tables: seq<SelectedTable>) returns (allHeaders: seq<string>, commonHeaders: seq<string>)
    requires HasHeaderRows(tables)
    ensures allHeaders == AllHeaders(tables) && commonHeaders == CommonHeaders(tables)
  {
    allHeaders := [];
    commonHeaders := [];
    var isFirstTable := true;
    var i := 0;
    while i < |tables|
      invariant 0 <= i <= |tables|
      invariant isFirstTable <==> i == 0
      invariant allHeaders == AllHeaders(tables[..i])
      invariant commonHeaders == if i == 0 then [] else CommonHeaders(tables)
    {
      var headers := TableNames(tables[i].table);
      var j := 0;
      while j < |headers|
        invariant 0 <= j <= |headers|
        invariant allHeaders == AddAll(AllHeaders(tables[..i]), headers[..j])
        invariant commonHeaders == if isFirstTable then AddAll([], headers[..j]) else CommonHeaders(tables)
      {
        var header := headers[j];
        AddAllStep(AllHeaders(tables[..i]), headers, j);
        if header !in allHeaders {
          allHeaders := allHeaders + [header];
        }
        if isFirstTable {
          AddAllStep([], headers, j);
          if header !in commonHeaders {
            commonHeaders := commonHeaders + [header];
          }
        }
        j := j + 1;
      }
      assert headers[..j] == headers;
      AllHeadersStep(tables, i);
      isFirstTable := false;
      i := i + 1;
    }
    assert tables[..i] == tables;
  }

  /** The names of all that are not in common, in their order. */
  function Missing(all: seq<string>, common: seq<string>): (r: seq<string>)
    ensures forall k :: 0 <= k < |r| ==> r[k] in all && r[k] !in common
  {
    if all == [] then []
    else
      var last := all[|all| - 1];
      Missing(all[..|all| - 1], common) + (if last in common then [] else [last])
  }

  lemma {:induction false} MissingAppend(a: seq<string>, b: seq<string>, common: seq<string>)
    ensures Missing(a + b, common) == Missing(a, common) + Missing(b, common)
  {
    if b == [] {
      assert a + b == a;
    } else {
      var front := b[..|b| - 1];
      MissingAppend(a, front, common);
      assert (a + b)[..|a + b| - 1] == a + front;
      assert (a + b)[|a + b| - 1] == b[|b| - 1];
    }
  }

  lemma {:induction false} MissingNone(s: seq<string>, common: seq<string>)
    requires forall k :: 0 <= k < |s| ==> s[k] in common
    ensures Missing(s, common) == []
  {
    if s != [] {
      MissingNone(s[..|s| - 1], common);
    }
  }

  lemma {:induction false} MissingAll(s: seq<string>, common: seq<string>)
    requires forall k :: 0 <= k < |s| ==> s[k] !in common
    ensures Missing(s, common) == s
  {
    if s != [] {
      MissingAll(s[..|s| - 1], common);
      InitLast(s);
    }
  }

  /** The final column order (`sortedHeaderArray`): the common names, then every other name of
      allHeaders in its order. */
  function SortedHeaders(common: seq<string>, all: seq<string>): seq<string> {
    common + Missing(all, common)
  }

  lemma NotInPrefix(common: seq<string>, all: seq<string>, j: nat)
    requires common <= all && Distinct(all) && |common| <= j < |all|
    ensures all[j] !in common
  {
    assert forall m :: 0 <= m < |common| ==> common[m] == all[m] && all[m] != all[j];
  }

  /** Because the first table's names are also the first names of allHeaders, the final column
      order is allHeaders itself. */
  lemma SortedHeadersIdentity(common: seq<string>, all: seq<string>)
    requires common <= all && Distinct(all)
    ensures SortedHeaders(common, all) == all
  {
    var rest := all[|common|..];
    forall k | 0 <= k < |rest| ensures rest[k] !in common {
      NotInPrefix(common, all, |common| + k);
    }
    MissingExtension(common, rest);
    assert common + rest == all;
  }

  /** Of common followed by names outside common, exactly the latter are missing. */
  lemma MissingExtension(common: seq<string>, rest: seq<string>)
    requires forall k :: 0 <= k < |rest| ==> rest[k] !in common
    ensures Missing(common + rest, common) == rest
  {
    MissingAppend(common, rest, common);
    MissingNone(common, common);
    MissingAll(rest, common);
  }

  /** The order-building loop. */
  method SortHeaders(commonHeaderArray: seq<string>, headerArray: seq<string>) returns (sortedHeaderArray: seq<string>)
    ensures sortedHeaderArray == SortedHeaders(commonHeaderArray, headerArray)
  {
    sortedHeaderArray := commonHeaderArray;
    var j := 0;
    while j < |headerArray|
      invariant 0 <= j <= |headerArray|
      invariant sortedHeaderArray == commonHeaderArray + Missing(headerArray[..j], commonHeaderArray)
    {
      assert headerArray[..j + 1][..j] == headerArray[..j];
      if headerArray[j] !in commonHeaderArray {
        sortedHeaderArray := sortedHeaderArray + [headerArray[j]];
      }
      j := j + 1;
    }
    assert headerArray[..j] == headerArray;
  }

  /** `indexOf`: the first position of x in s, if any. */
  function IndexOf(s: seq<string>, x: string): (r: Option<nat>)
    ensures r.Some? <==> x in s
    ensures r.Some? ==> r.value < |s| && s[r.value] == x && x !in s[..r.value]
  {
    if s == [] then None
    else if s[0] == x then Some(0)
    else
      match IndexOf(s[1..], x)
      case None => None
      case Some(k) =>
        assert s[..k + 1] == [s[0]] + s[1..][..k];
        Some(k + 1)
  }

  /** The first position of x is at or before any position holding x. */
  lemma {:induction false} IndexOfFirst(s: seq<string>, x: string, i: nat)
    requires i < |s| && s[i] == x
    ensures IndexOf(s, x).Some? && IndexOf(s, x).value <= i
  {
    if s[0] != x {
      IndexOfFirst(s[1..], x, i - 1);
    }
  }

  /** In a duplicate-free sequence the first position of s[k] is k. */
  lemma IndexOfDistinct(s: seq<string>, k: nat)
    requires Distinct(s) && k < |s|
    ensures IndexOf(s, s[k]) == Some(k)
  {
    IndexOfFirst(s, s[k], k);
  }

  /** A row's cells, indexed by `all`, projected onto the column order `order`. */
  function Project(cells: seq<Cell>, all: seq<string>, order: seq<string>): (r: seq<Cell>)
    requires |cells| == |all|
    requires forall k :: 0 <= k < |order| ==> order[k] in all
    ensures |r| == |order|
  {
    if order == [] then []
    else
      var h := order[|order| - 1];
      Project(cells, all, order[..|order| - 1]) + [cells[IndexOf(all, h).value]]
  }

  /** The cell a projected row holds for each name of the order: the row's cell in the column
      where that name first appears in all. */
  lemma {:induction false} ProjectAt(cells: seq<Cell>, all: seq<string>, order: seq<string>, k: nat)
    requires |cells| == |all|
    requires forall k :: 0 <= k < |order| ==> order[k] in all
    requires k < |order|
    ensures Project(cells, all, order)[k] == cells[IndexOf(all, order[k]).value]
  {
    if k < |order| - 1 {
      ProjectAt(cells, all, order[..|order| - 1], k);
    }
  }

  /** Projecting onto all itself, when it has no duplicates, gives the row back. */
  lemma ProjectIdentity(cells: seq<Cell>, all: seq<string>)
    requires |cells| == |all| && Distinct(all)
    ensures Project(cells, all, all) == cells
  {
    var r := Project(cells, all, all);
    forall k | 0 <= k < |all| ensures r[k] == cells[k] {
      ProjectAt(cells, all, all, k);
      IndexOfDistinct(all, k);
    }
  }

  /** The reordering loop for one row. */
  method ProjectRow(cells: seq<Cell>, headerArray: seq<string>, sortedHeaderArray: seq<string>)
    returns (reorderedCells: seq<Cell>)
    requires |cells| == |headerArray|
    requires forall k :: 0 <= k < |sortedHeaderArray| ==> sortedHeaderArray[k] in headerArray
    ensures reorderedCells == Project(cells, headerArray, sortedHeaderArray)
  {
    reorderedCells := [];
    var j := 0;
    while j < |sortedHeaderArray|
      invariant 0 <= j <= |sortedHeaderArray|
      invariant reorderedCells == Project(cells, headerArray, sortedHeaderArray[..j])
    {
      assert sortedHeaderArray[..j + 1][..j] == sortedHeaderArray[..j];
      var index := IndexOf(headerArray, sortedHeaderArray[j]);
      reorderedCells := reorderedCells + [cells[index.value]];
      j := j + 1;
    }
    assert sortedHeaderArray[..j] == sortedHeaderArray;
  }
}
