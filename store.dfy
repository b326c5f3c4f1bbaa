/** The per-page table store: at most one table per page, the latest put last. */
module Store {
  import opened Tables
  import opened Extraction
  import opened Clustering
  import opened Merge

  /** The entries that are not for the given page, in their order. */
  function WithoutPage(entries: seq<SelectedTable>, page: int): seq<SelectedTable> {
    if entries == [] then []
    else
      var last := entries[|entries| - 1];
      WithoutPage(entries[..|entries| - 1], page) + (if last.table.pageNumber != page then [last] else [])
  }

  /** The store update: drop the page's entry, if any, and append the new one. */
  function Put(entries: seq<SelectedTable>, entry: SelectedTable): seq<SelectedTable> {
    WithoutPage(entries, entry.table.pageNumber) + [entry]
  }

  /** WithoutPage keeps exactly the entries for other pages. */
  lemma {:induction false} WithoutPageMembers(entries: seq<SelectedTable>, page: int)
    ensures var r := WithoutPage(entries, page);
      |r| <= |entries| &&
      (forall k :: 0 <= k < |r| ==> r[k].table.pageNumber != page) &&
      (forall e: SelectedTable :: e in r <==> e in entries && e.table.pageNumber != page)
  {
    if entries != [] {
      var front := entries[..|entries| - 1];
      WithoutPageMembers(front, page);
      InitLast(entries);
      assert forall e :: e in entries <==> e in front || e == entries[|entries| - 1];
    }
  }

  /** WithoutPage commutes with concatenation: the entries it keeps stay in their order. */
  lemma {:induction false} WithoutPageAppend(a: seq<SelectedTable>, b: seq<SelectedTable>, page: int)
    ensures WithoutPage(a + b, page) == WithoutPage(a, page) + WithoutPage(b, page)
  {
    if b != [] {
      var front := b[..|b| - 1];
      WithoutPageAppend(a, front, page);
      assert (a + b)[..|a + b| - 1] == a + front;
      assert (a + b)[|a + b| - 1] == b[|b| - 1];
    } else {
      assert a + b == a;
    }
  }

  /** After a put exactly one entry is for the new entry's page, the new entry, and it is last;
      every entry for another page is kept and nothing else is added. */
  lemma PutSpec(entries: seq<SelectedTable>, entry: SelectedTable)
    ensures var r := Put(entries, entry); var p := entry.table.pageNumber;
      r != [] && r[|r| - 1] == entry &&
      (forall k :: 0 <= k < |r| - 1 ==> r[k].table.pageNumber != p) &&
      (forall e: SelectedTable :: e.table.pageNumber != p ==> (e in r <==> e in entries)) &&
      r[..|r| - 1] == WithoutPage(entries, p)
  {
    var p := entry.table.pageNumber;
    WithoutPageMembers(entries, p);
    var r := Put(entries, entry);
    assert r[..|r| - 1] == WithoutPage(entries, p);
    forall k | 0 <= k < |r| - 1 ensures r[k].table.pageNumber != p {
      assert r[k] == WithoutPage(entries, p)[k];
    }
  }

  /** Putting the same entry twice is putting it once. */
  lemma PutIdempotent(entries: seq<SelectedTable>, entry: SelectedTable)
    ensures Put(Put(entries, entry), entry) == Put(entries, entry)
  {
    var p := entry.table.pageNumber;
    var w := WithoutPage(entries, p);
    WithoutPageAppend(w, [entry], p);
    WithoutPageOnce(entries, p);
    assert [entry][..0] == [];
  }

  /** Dropping a page twice is dropping it once. */
  lemma {:induction false} WithoutPageOnce(entries: seq<SelectedTable>, page: int)
    ensures WithoutPage(WithoutPage(entries, page), page) == WithoutPage(entries, page)
  {
    if entries != [] {
      var front := entries[..|entries| - 1];
      var last := entries[|entries| - 1];
      WithoutPageOnce(front, page);
      var tail := if last.table.pageNumber != page then [last] else [];
      WithoutPageAppend(WithoutPage(front, page), tail, page);
      if tail != [] {
        assert tail[..0] == [];
      }
    }
  }

  /** No two entries are for the same page. */
  ghost predicate DistinctPages(entries: seq<SelectedTable>) {
    forall i, j :: 0 <= i < j < |entries| ==> entries[i].table.pageNumber != entries[j].table.pageNumber
  }

  /** WithoutPage keeps a subsequence, so it keeps the pages distinct. */
  lemma {:induction false} WithoutPageDistinct(entries: seq<SelectedTable>, page: int)
    requires DistinctPages(entries)
    ensures DistinctPages(WithoutPage(entries, page))
  {
    if entries != [] {
      var front := entries[..|entries| - 1];
      var last := entries[|entries| - 1];
      assert DistinctPages(front) by {
        forall i, j | 0 <= i < j < |front| ensures front[i].table.pageNumber != front[j].table.pageNumber {
          assert front[i] == entries[i] && front[j] == entries[j];
        }
      }
      WithoutPageDistinct(front, page);
      WithoutPageMembers(front, page);
      var w := WithoutPage(front, page);
      if last.table.pageNumber != page {
        var r := w + [last];
        forall i, j | 0 <= i < j < |r| ensures r[i].table.pageNumber != r[j].table.pageNumber {
          if j == |w| {
            assert r[i] in front;
            var k :| 0 <= k < |front| && front[k] == r[i];
            assert entries[k] == r[i];
          } else {
            assert r[i] == w[i] && r[j] == w[j];
          }
        }
      }
    }
  }

  /** A put keeps the pages distinct. */
  lemma PutDistinct(entries: seq<SelectedTable>, entry: SelectedTable)
    requires DistinctPages(entries)
    ensures DistinctPages(Put(entries, entry))
  {
    var p := entry.table.pageNumber;
    WithoutPageDistinct(entries, p);
    PutSpec(entries, entry);
    var r := Put(entries, entry);
    var w := WithoutPage(entries, p);
    forall i, j | 0 <= i < j < |r| ensures r[i].table.pageNumber != r[j].table.pageNumber {
      if j < |r| - 1 {
        assert r[i] == w[i] && r[j] == w[j];
      }
    }
  }

  /** Every stored table has the shape the reconstruction gives. */
  ghost predicate AllWellFormed(entries: seq<SelectedTable>) {
    forall k :: 0 <= k < |entries| ==> WellFormed(entries[k].table)
  }

  lemma PutWellFormed(entries: seq<SelectedTable>, entry: SelectedTable)
    requires AllWellFormed(entries) && WellFormed(entry.table)
    ensures AllWellFormed(Put(entries, entry))
  {
    var p := entry.table.pageNumber;
    WithoutPageMembers(entries, p);
    var w := WithoutPage(entries, p);
    var r := Put(entries, entry);
    forall k | 0 <= k < |r| ensures WellFormed(r[k].table) {
      if k < |w| {
        assert r[k] == w[k];
        assert w[k] in entries;
      }
    }
  }

  /** The component's table state. */
  class TableStore {
    var selectedTables: seq<SelectedTable>

    ghost predicate Valid()
      reads this
    {
      DistinctPages(selectedTables) && AllWellFormed(selectedTables)
    }

    constructor()
      ensures selectedTables == [] && Valid()
    {
      selectedTables := [];
    }

    /** Reconstructs the table under the selection on the given page and stores it. Nothing
        happens without a selection or without the page's text layer (textLayer is None), nor
        when no row results. */
    method ExtractTableFromSelection(selection: Option<Selection>, textLayer: Option<seq<Fragment>>,
                                     pageNumber: int)
      requires Valid()
      modifies this
      ensures Valid()
      ensures selection.None? || textLayer.None? ==> selectedTables == old(selectedTables)
      ensures selection.Some? && textLayer.Some? ==>
        selectedTables ==
          match Reconstruction(selection.value, textLayer.value, pageNumber)
          case None => old(selectedTables)
          case Some(t) => Put(old(selectedTables), SelectedTable(t, selection.value))
    {
      if selection.None? || textLayer.None? {
        return;
      }
      var newTable := ReconstructTable(selection.value, textLayer.value, pageNumber);
      if newTable.Some? {
        ReconstructionShape(selection.value, textLayer.value, pageNumber);
        var entry := SelectedTable(newTable.value, selection.value);
        PutDistinct(selectedTables, entry);
        PutWellFormed(selectedTables, entry);
        selectedTables := Put(selectedTables, entry);
      }
    }

    /** The combined table of all stored tables; nothing when the store is empty. */
    method GetCombinedTable() returns (combined: Option<seq<Row>>)
      requires Valid()
      ensures CanMerge(selectedTables) && combined == Combined(selectedTables)
    {
      WellFormedCanMerge(selectedTables);
      combined := CombineTables(selectedTables);
    }

    /** Empties the store. */
    method ClearAllTables()
      modifies this
      ensures selectedTables == [] && Valid()
    {
      selectedTables := [];
    }
  }
}
