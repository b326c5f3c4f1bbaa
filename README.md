# Table Fusion: region-to-table reconstruction and multi-table merge

Table Fusion is a PDF viewer. The user draws a rectangle over a table on a page. The viewer
reads the positioned text fragments of the page's text layer and rebuilds a table from them:

- it keeps the fragments whose box lies inside the rectangle;
- it clusters them into lines by their vertical position;
- it groups each line into cells by the horizontal gaps;
- it forces every later row onto the columns of the first (header) row.

It stores at most one such table per page. It can merge all stored tables into one combined
table. That table has one column per distinct header name. Data rows whose first cell reads
the same are merged into one row.

This project is a Dafny model of that core, `src/components/pdf-viewer-component.tsx`
(`extractTableFromSelection`, `clearAllTables`, `getCombinedTable`). It proves the
properties the code promises about it.

Modules, in dependency order:

- `Tables` (`tables.dfy`): the values the core works on. These are the fragment, the
  selection, the cell, the row, the table and the stored table. It also holds the two
  tolerances `Y_TOLERANCE = 15` and `X_TOLERANCE = 5`, and the `WellFormed` shape of a
  reconstructed table.
- `Text` (`text.dfy`): ECMAScript `String.prototype.trim`.
- `Sorting` (`sorting.dfy`): the two `Array.prototype.sort` calls. Each is a stable sort by
  one coordinate.
- `Clustering` (`clustering.dfy`): the two scans that group sorted fragments, into lines (by
  y) and into cells (by x). Both are a `Chain` with a join test. A `IsPartition`
  specification is proved to have the scan's grouping as its only solution. The scans
  themselves are loops (`ClusterLines`, `GroupCells`) proved against `Chain`.
- `Extraction` (`extraction.dfy`): the containment filter, the per-line row building, the
  alignment of later rows to the header's columns, and the whole reconstruction
  (`Reconstruction`).
- `Headers` (`headers.dfy`): the merge's column names. This covers `allHeaders` (an
  insertion-ordered set), `commonHeaders`, the final column order, `indexOf`, and the
  projection of a row onto that order.
- `Merge` (`merge.dfy`): the merge itself. Each data row gives a candidate row: its own
  filled values, values back-filled from earlier rows, or empty cells. The candidate either
  overwrites the filled values of the existing row with the same key or is appended. The
  loops are methods proved equal to the specification functions.
- `Store` (`store.dfy`): the component's `selectedTables` state as a class `TableStore`.
  - Its invariant: at most one table per page, and every table well formed.
  - Its methods: `ExtractTableFromSelection`, `GetCombinedTable`, `ClearAllTables`.
- `MergeExample` and `ExtractionExample` (`scenarios.dfy`): worked cases, each proved on
  concrete values.
  - A merge of two stored tables sharing the key column Code. The blank Price of a repeated
    key erases nothing, and the back-fill finds no cell reading "Price".
  - A selection holding no fragment leaves the store as it was; after clearing there is no
    combined table.
  - Four fragments on two lines, the second line given right to left and slightly out of y
    order, rebuilt as a two-by-two table.

Coordinates are `real`. A selection with no text layer for the page is passed as `None`.

The model follows what the code does, including where its comments or an evident intent
suggest otherwise:

- No step drops a table whose header row is blank: it takes part in the merge like any other.
- Merging tables that have data rows but no column names at all makes the code throw. The
  merge's precondition `CanMerge` excludes every input on which the code throws. Tables
  built by the reconstruction always satisfy it (`Merge.WellFormedCanMerge`).
- The back-fill of a blank value looks for the first combined row that has any cell reading
  like the row's key. In that row it takes the first cell whose text reads like the column
  *name*, not the cell in that column, although the comment at line 583 speaks of a matching
  cell.
- The key lookup (the "POM Code" of the comment at line 628) compares the first cell of every
  combined row, the header row included.
- The final column order is the first table's names, then the other names in first-seen order.
  The first table's names are the first names of `allHeaders`, so this order is always
  `allHeaders` itself (`Headers.SortedHeadersIdentity`, `Merge.ReorderRowsIdentity`). The
  reordering step never moves a column.

## Model

| member | source | states |
|---|---|---|
| Text.TrimStartSpec | src/components/pdf-viewer-component.tsx:216-219 | dropping leading white space keeps a suffix that is empty or starts with a non-space, and removes only spaces |
| Text.TrimStart | src/components/pdf-viewer-component.tsx:216-219 | drops the leading ECMAScript white space and line terminators (stated by TrimStartSpec) |
| Text.TrimEnd | src/components/pdf-viewer-component.tsx:216-219 | drops the trailing white space and line terminators (stated by TrimEndSpec) |
| Text.Trim | src/components/pdf-viewer-component.tsx:216-219 | `String.prototype.trim`: both ends trimmed (stated by TrimSpec and TrimIdempotent) |
| Text.TrimEndSpec | src/components/pdf-viewer-component.tsx:216-219 | dropping trailing white space keeps a prefix that is empty or ends with a non-space, and removes only spaces |
| Text.TrimSpec | src/components/pdf-viewer-component.tsx:216-219 | trim never lengthens; the result has a non-space at each end; it is empty exactly when the input is all white space; an input without white space at its ends is kept whole |
| Text.TrimIdempotent | src/components/pdf-viewer-component.tsx:575-594 | trimming a trimmed text changes nothing (the merge compares trimmed names with trimmed texts) |
| Sorting.Insert | src/components/pdf-viewer-component.tsx:180-181 | one insertion step adds exactly the new fragment to the multiset |
| Sorting.InsertSorted | src/components/pdf-viewer-component.tsx:180-181 | inserting into a sorted sequence keeps it sorted |
| Sorting.SortBy | src/components/pdf-viewer-component.tsx:180-181 | the sort returns a permutation of its input ordered by the chosen coordinate (y for lines; x within a line, line 200) |
| Sorting.InsertWithKey | src/components/pdf-viewer-component.tsx:180-181 | an insertion puts the new fragment in front of the fragments with its key |
| Sorting.SortByStable | src/components/pdf-viewer-component.tsx:180-181 | the sort is stable: fragments with equal keys keep their input order |
| Clustering.Chain | src/components/pdf-viewer-component.tsx:176-196 | the grouping has no more groups than fragments, and no group exactly when there is no fragment |
| Clustering.Joins | src/components/pdf-viewer-component.tsx:183-208 | the two join tests: a line continues while the y gap to the previous fragment is below Y_TOLERANCE, a cell while the next x lies before the previous right edge plus X_TOLERANCE; the -1 sentinels always join |
| Clustering.ChainPartition | src/components/pdf-viewer-component.tsx:180-196 | the scan's groups are non-empty, concatenate to the input, each fragment joins its predecessor inside a group, and no group's first fragment joins the previous group's last |
| Clustering.PartitionIsChain | src/components/pdf-viewer-component.tsx:180-196 | any grouping meeting that partition specification is the scan's grouping |
| Clustering.ChainNonEmpty | src/components/pdf-viewer-component.tsx:186-196 | the scan never emits an empty group |
| Clustering.ClusterLines | src/components/pdf-viewer-component.tsx:176-196 | the line-clustering loop (join when lastY is -1 or the y distance is below Y_TOLERANCE) yields the partition of the y-sorted fragments |
| Clustering.MaxHeightIsMax | src/components/pdf-viewer-component.tsx:223 | a cell's height is the largest height of its group and is attained |
| Clustering.JoinedTextBlank | src/components/pdf-viewer-component.tsx:216-219 | the space-joined text of a group is all white space exactly when every fragment's text is |
| Clustering.CellOfGroup | src/components/pdf-viewer-component.tsx:213-224 | a cell has the first fragment's x and y, spans to the last fragment's right edge, is as tall as the tallest fragment, and its text is empty exactly when all texts are blank |
| Clustering.CellsOf | src/components/pdf-viewer-component.tsx:212-245 | one cell per group |
| Clustering.MaxHeight | src/components/pdf-viewer-component.tsx:223 | the largest height of a group (stated by MaxHeightIsMax) |
| Clustering.JoinedText | src/components/pdf-viewer-component.tsx:216-218 | the group's texts joined by single spaces (stated by JoinedTextBlank) |
| Clustering.MakeCell | src/components/pdf-viewer-component.tsx:213-224 | a group's cell: trimmed joined text, first fragment's x and y, width to the last right edge, maximum height (stated by CellOfGroup) |
| Clustering.RowOf | src/components/pdf-viewer-component.tsx:199-248 | a line's row: the cells of the groups of the x-sorted line (stated by RowOfSpec) |
| Clustering.CellsFromChain | src/components/pdf-viewer-component.tsx:204-245 | what the cell-grouping scan emits from any intermediate state is the cells of the partition of the line |
| Clustering.GroupCells | src/components/pdf-viewer-component.tsx:204-245 | the cell-grouping loop (join when lastX is -1 or the fragment starts less than X_TOLERANCE after the previous right edge) yields one cell per group of the partition |
| Clustering.RowOfSpec | src/components/pdf-viewer-component.tsx:199-248 | a row's cells are the cells of the groups of the x-sorted line, and a non-empty line gives between one cell and one cell per fragment |
| Clustering.BuildRow | src/components/pdf-viewer-component.tsx:199-248 | the per-line body (sort by x, then group) computes the line's row |
| Extraction.InRegionMembers | src/components/pdf-viewer-component.tsx:159-164 | a fragment is kept exactly when its box lies inside the rectangle spanned by the selection's corners, in either order |
| Extraction.Inside | src/components/pdf-viewer-component.tsx:159-164 | a fragment's box lies within the normalised selection rectangle |
| Extraction.InRegion | src/components/pdf-viewer-component.tsx:151-173 | the fragments inside the selection, in page order (stated by InRegionMembers and InRegionAppend) |
| Extraction.InRegionAppend | src/components/pdf-viewer-component.tsx:151-173 | the filter keeps the kept fragments in page order |
| Extraction.FilterFragments | src/components/pdf-viewer-component.tsx:151-173 | the filter loop over the spans computes the fragments inside the selection |
| Extraction.RowsOf | src/components/pdf-viewer-component.tsx:199 | one row per line |
| Extraction.BuildRows | src/components/pdf-viewer-component.tsx:199-248 | the map over the lines gives each line's row, in order |
| Extraction.FindNear | src/components/pdf-viewer-component.tsx:266-268 | the first cell whose x is within X_TOLERANCE of the header cell's x, or none when no cell is |
| Extraction.Filler | src/components/pdf-viewer-component.tsx:273-280 | the empty cell under a header cell: the header cell's x and width, the row's first-cell y and height or 0 |
| Extraction.AlignedCell | src/components/pdf-viewer-component.tsx:264-282 | a column of the aligned row: the first cell near the header cell, else the filler (stated by AlignedCellsSpec) |
| Extraction.AlignedCells | src/components/pdf-viewer-component.tsx:264-282 | an aligned row has one cell per header cell |
| Extraction.AlignedCellsSpec | src/components/pdf-viewer-component.tsx:264-282 | column j is the first cell near header cell j, or else an empty cell at the header cell's x and width and at the first cell's y and height (0 without cells) |
| Extraction.AlignRow | src/components/pdf-viewer-component.tsx:260-284 | the column loop for one row computes the aligned row |
| Extraction.AlignedRows | src/components/pdf-viewer-component.tsx:259-285 | every later row is aligned |
| Extraction.ProcessedSpec | src/components/pdf-viewer-component.tsx:251-285 | the header row is kept as is, the row count is unchanged, and every later row is exactly as wide as the header and aligned to it |
| Extraction.Processed | src/components/pdf-viewer-component.tsx:251-285 | the header row, then every later row aligned to it (stated by ProcessedSpec) |
| Extraction.ProcessRows | src/components/pdf-viewer-component.tsx:256-285 | the loop over rows 1.. computes the processed rows |
| Extraction.ReconstructTable | src/components/pdf-viewer-component.tsx:144-287 | the reconstruction pipeline (filter, sort, cluster, group, align) yields the specified table, or none |
| Extraction.LinesSpec | src/components/pdf-viewer-component.tsx:176-196 | the lines partition the y-sorted kept fragments, and each kept fragment appears in them exactly as often as on the page |
| Extraction.LinesOf | src/components/pdf-viewer-component.tsx:175-196 | the lines of the kept fragments sorted by y (stated by LinesSpec) |
| Extraction.Reconstruction | src/components/pdf-viewer-component.tsx:144-287 | the table a selection yields, or none without rows (stated by ReconstructionNone and ReconstructionShape) |
| Extraction.ReconstructionNone | src/components/pdf-viewer-component.tsx:251 | no table results exactly when no fragment lies inside the selection |
| Extraction.ReconstructionShape | src/components/pdf-viewer-component.tsx:251-287 | a reconstructed table is well formed, carries the page number, has one row per line, and its header row is the first line's row |
| Store.WithoutPageMembers | src/components/pdf-viewer-component.tsx:289 | the filter keeps exactly the tables of other pages |
| Store.WithoutPage | src/components/pdf-viewer-component.tsx:289 | the stored tables of other pages, in their order (stated by WithoutPageMembers) |
| Store.Put | src/components/pdf-viewer-component.tsx:288-291 | the page's table replaced by the new one, put last (stated by PutSpec) |
| Store.WithoutPageAppend | src/components/pdf-viewer-component.tsx:289 | the filter keeps the stored order |
| Store.WithoutPageOnce | src/components/pdf-viewer-component.tsx:289 | filtering a page twice is filtering it once |
| Store.PutSpec | src/components/pdf-viewer-component.tsx:288-291 | after storing, the new table is last and the only one for its page; tables of other pages are kept, in order, and nothing else is added |
| Store.PutIdempotent | src/components/pdf-viewer-component.tsx:288-291 | storing the same table twice is storing it once |
| Store.WithoutPageDistinct | src/components/pdf-viewer-component.tsx:289 | the filter keeps pages distinct |
| Store.PutDistinct | src/components/pdf-viewer-component.tsx:288-291 | storing keeps at most one table per page |
| Store.PutWellFormed | src/components/pdf-viewer-component.tsx:287-291 | storing a well-formed table keeps every stored table well formed |
| Store.TableStore.constructor | src/components/pdf-viewer-component.tsx:93 | the state starts empty and valid |
| Store.TableStore.ExtractTableFromSelection | src/components/pdf-viewer-component.tsx:136-293 | nothing changes without a selection or text layer, or when no row results; otherwise the page's table is replaced by the reconstructed one; the invariant is kept |
| Store.TableStore.ClearAllTables | src/components/pdf-viewer-component.tsx:295-297 | the state becomes empty (and valid) |
| Store.TableStore.GetCombinedTable | src/components/pdf-viewer-component.tsx:526-667 | the stored tables can be merged without error, and the result is the combined table |
| Headers.Names | src/components/pdf-viewer-component.tsx:536 | a table's names are its header cells' trimmed texts, one per cell |
| Headers.AddAll | src/components/pdf-viewer-component.tsx:537-542 | adding names to an insertion-ordered set: an absent name is appended, a present one changes nothing (stated by AddAllSpec and AddAllIsFresh) |
| Headers.Fresh | src/components/pdf-viewer-component.tsx:537-542 | the names the set gains are exactly the given names it does not hold, never more than were given |
| Headers.AddAllIsFresh | src/components/pdf-viewer-component.tsx:537-542 | adding names appends exactly the fresh ones, each at its first occurrence, in their order |
| Headers.AllNames | src/components/pdf-viewer-component.tsx:535-536 | the column names of all tables, table after table: exactly the names of some table |
| Headers.AllHeaders | src/components/pdf-viewer-component.tsx:530-547 | `allHeaders` (stated by AllHeadersSpec and AllHeadersFirstSeen) |
| Headers.CommonHeaders | src/components/pdf-viewer-component.tsx:531-548 | `commonHeaders`, the first table's names (stated by CommonPrefix) |
| Headers.AddAllSpec | src/components/pdf-viewer-component.tsx:530-544 | the insertion-ordered set stays duplicate-free, keeps what it held as a prefix, and holds exactly the old names and the added ones |
| Headers.AddAllAppend | src/components/pdf-viewer-component.tsx:535-544 | adding two batches in turn is adding their concatenation |
| Headers.AllHeadersDistinct | src/components/pdf-viewer-component.tsx:530-547 | allHeaders has no duplicates |
| Headers.AllHeadersFrom | src/components/pdf-viewer-component.tsx:530-547 | every name of allHeaders is some table's column name |
| Headers.AllHeadersHas | src/components/pdf-viewer-component.tsx:530-547 | every table's column names are in allHeaders |
| Headers.AllHeadersSpec | src/components/pdf-viewer-component.tsx:530-547 | allHeaders is duplicate-free and holds exactly the column names of all tables |
| Headers.AllHeadersAddAll | src/components/pdf-viewer-component.tsx:530-547 | allHeaders is all column names, table after table, added to the empty set at once |
| Headers.AllHeadersFirstSeen | src/components/pdf-viewer-component.tsx:530-547 | allHeaders is every column name at its first occurrence across the tables and within each table, in that order |
| Headers.AllHeadersPrefix | src/components/pdf-viewer-component.tsx:535-544 | a later table only appends names: the names of the first i tables are a prefix |
| Headers.CommonPrefix | src/components/pdf-viewer-component.tsx:539-548 | commonHeaders, the first table's names, is a prefix of allHeaders |
| Headers.CollectHeaders | src/components/pdf-viewer-component.tsx:530-548 | the collection loop with the isFirstTable flag computes allHeaders and commonHeaders |
| Headers.Missing | src/components/pdf-viewer-component.tsx:650-654 | the appended names are names of allHeaders not in commonHeaders |
| Headers.MissingAppend | src/components/pdf-viewer-component.tsx:650-654 | the appended names keep the order of allHeaders |
| Headers.MissingNone | src/components/pdf-viewer-component.tsx:650-654 | names all in commonHeaders append nothing |
| Headers.MissingAll | src/components/pdf-viewer-component.tsx:650-654 | names none of which is in commonHeaders are all appended |
| Headers.MissingExtension | src/components/pdf-viewer-component.tsx:649-654 | of commonHeaders followed by new names, exactly the new names are appended |
| Headers.NotInPrefix | src/components/pdf-viewer-component.tsx:649-654 | in a duplicate-free allHeaders starting with commonHeaders, later names are not common |
| Headers.SortedHeadersIdentity | src/components/pdf-viewer-component.tsx:649-654 | when commonHeaders is a prefix of a duplicate-free allHeaders, the final column order is allHeaders |
| Headers.SortedHeaders | src/components/pdf-viewer-component.tsx:648-654 | `sortedHeaderArray`: the common names, then the other names of allHeaders in order (stated by Missing and SortedHeadersIdentity) |
| Headers.SortHeaders | src/components/pdf-viewer-component.tsx:649-654 | the order-building loop computes commonHeaders then the missing names |
| Headers.IndexOf | src/components/pdf-viewer-component.tsx:575 | indexOf finds a position exactly when the name is present, and it is the first position holding it |
| Headers.IndexOfFirst | src/components/pdf-viewer-component.tsx:575 | the found position is at or before any position holding the name |
| Headers.IndexOfDistinct | src/components/pdf-viewer-component.tsx:660 | in a duplicate-free sequence, indexOf of the k-th name is k |
| Headers.Project | src/components/pdf-viewer-component.tsx:657-664 | a reordered row has one cell per name of the order |
| Headers.ProjectAt | src/components/pdf-viewer-component.tsx:659-662 | the reordered row holds, for each name, the row's cell at that name's first position in allHeaders |
| Headers.ProjectIdentity | src/components/pdf-viewer-component.tsx:657-664 | reordering by a duplicate-free allHeaders itself gives the row back |
| Headers.ProjectRow | src/components/pdf-viewer-component.tsx:658-663 | the reordering loop for one row computes the projection |
| Merge.HeaderCells | src/components/pdf-viewer-component.tsx:554-562 | the combined header row has one cell per name, its text the name, with zero geometry |
| Merge.Mergeable | src/components/pdf-viewer-component.tsx:566-578 | a table has a header row and every data row a first cell and a cell under each of its names (see Left out) |
| Merge.CanMerge | src/components/pdf-viewer-component.tsx:535-631 | every table is mergeable, and tables without any column name have no data row (see Left out) |
| Merge.EmptyCellFor | src/components/pdf-viewer-component.tsx:598-624 | the empty cell of the merge: no text, zero x and width, the row's first-cell y and height or 0 |
| Merge.BackFill | src/components/pdf-viewer-component.tsx:583-614 | the blank value's replacement: the first cell reading like the column name in the first combined row holding the key, else an empty cell |
| Merge.CandidateCell | src/components/pdf-viewer-component.tsx:574-625 | one column's candidate value (stated by CandidateCellCases) |
| Merge.Combined | src/components/pdf-viewer-component.tsx:526-667 | `getCombinedTable` (stated by CombinedIsMerged, CombinedHeaderRow and CombinedSingle) |
| Merge.FindCell | src/components/pdf-viewer-component.tsx:592-594 | the first cell whose trimmed text is the name, or none when no cell's is |
| Merge.FindRowWith | src/components/pdf-viewer-component.tsx:584-589 | the first combined row having a cell that reads like the key, or none |
| Merge.FindKey | src/components/pdf-viewer-component.tsx:629-632 | the first combined row whose first cell reads like the key, or none |
| Merge.Candidate | src/components/pdf-viewer-component.tsx:571-626 | the candidate row has one cell per column of allHeaders |
| Merge.CandidateAt | src/components/pdf-viewer-component.tsx:574-626 | candidate column k is the candidate value of name k |
| Merge.CandidateCellCases | src/components/pdf-viewer-component.tsx:574-626 | a column the table lacks gets an empty cell; a filled value is taken as is; a blank one gets an empty cell or a combined cell whose trimmed text is the column name |
| Merge.Overwrite | src/components/pdf-viewer-component.tsx:636-641 | each position holds the candidate value when that is filled, the existing value otherwise |
| Merge.AddRow | src/components/pdf-viewer-component.tsx:628-644 | merging a row keeps every row one cell per column and adds at most one row |
| Merge.AddRows | src/components/pdf-viewer-component.tsx:570-645 | merging a table's data rows keeps the shape and never removes a row |
| Merge.AddTables | src/components/pdf-viewer-component.tsx:566-646 | merging every table keeps the shape and never removes a row |
| Merge.ReorderRows | src/components/pdf-viewer-component.tsx:657-664 | reordering keeps the number of rows and gives each one cell per name of the order |
| Merge.ReorderRowsIdentity | src/components/pdf-viewer-component.tsx:648-664 | reordering by a duplicate-free allHeaders leaves every row as it is |
| Merge.SortedWithin | src/components/pdf-viewer-component.tsx:649-654 | every name of the final order is in allHeaders, so indexOf at line 660 always finds it |
| Merge.MergedRows | src/components/pdf-viewer-component.tsx:551-646 | the merged rows hold at least the header row and have one cell per column |
| Merge.CombinedIsMerged | src/components/pdf-viewer-component.tsx:526-667 | there is a combined table exactly when a table is stored, and it is the merged rows unreordered, one cell per column |
| Merge.KeepsTrans | src/components/pdf-viewer-component.tsx:566-646 | not erasing anything is transitive |
| Merge.AddRowKeeps | src/components/pdf-viewer-component.tsx:634-644 | merging one row removes no row and empties no filled cell |
| Merge.AddRowsKeeps | src/components/pdf-viewer-component.tsx:570-645 | merging a table's rows erases nothing |
| Merge.AddTablesKeeps | src/components/pdf-viewer-component.tsx:566-646 | what the first i tables put in, later tables do not erase |
| Merge.AllHeadersTrimmed | src/components/pdf-viewer-component.tsx:536 | every name of allHeaders is already trimmed |
| Merge.MergeKeepsValues | src/components/pdf-viewer-component.tsx:566-646 | every cell filled after the first i tables is still filled in the result, and every non-empty column name of the header row stays filled |
| Merge.AddRowKeepsFirst | src/components/pdf-viewer-component.tsx:629-644 | a row whose key differs from the header row's first cell leaves the header row alone |
| Merge.AddRowsKeepsFirst | src/components/pdf-viewer-component.tsx:570-645 | data rows with such keys leave the header row alone |
| Merge.AddTablesKeepsFirst | src/components/pdf-viewer-component.tsx:566-646 | tables whose keys all differ from the first column name leave the header row alone |
| Merge.CombinedHeaderRow | src/components/pdf-viewer-component.tsx:553-646 | unless a data row's key reads like the first column name, the combined header row is exactly one cell per name of allHeaders |
| Merge.AddAllFresh | src/components/pdf-viewer-component.tsx:530-544 | adding duplicate-free names to an empty set gives them in their order |
| Merge.CandidateOfFilled | src/components/pdf-viewer-component.tsx:574-581 | a row with every value filled, over duplicate-free names, is its own candidate |
| Merge.AddRowNewKey | src/components/pdf-viewer-component.tsx:629-644 | a row whose key no combined row has is appended as its candidate |
| Merge.SingleKeys | src/components/pdf-viewer-component.tsx:629-632 | with distinct keys, no earlier row's key matches the next data row's |
| Merge.SingleRowStep | src/components/pdf-viewer-component.tsx:570-644 | with distinct keys and filled values, each data row is appended unchanged |
| Merge.SingleRows | src/components/pdf-viewer-component.tsx:570-645 | with distinct keys and filled values, a table's data rows follow the header row unchanged |
| Merge.SingleHeaders | src/components/pdf-viewer-component.tsx:530-548 | for one table with distinct names, allHeaders and commonHeaders are its names |
| Merge.SingleMergeable | src/components/pdf-viewer-component.tsx:566-631 | one well-formed table can be merged, and its data rows are as wide as its header |
| Merge.CombinedSingle | src/components/pdf-viewer-component.tsx:526-667 | combining one table with distinct names, filled values and distinct keys gives back its header names and its data rows unchanged |
| Merge.BuildCandidate | src/components/pdf-viewer-component.tsx:571-626 | the loop over allHeaders computes the candidate row |
| Merge.MergeCells | src/components/pdf-viewer-component.tsx:636-641 | the overwrite loop computes the overwrite |
| Merge.ReorderAll | src/components/pdf-viewer-component.tsx:657-664 | the map over the combined rows computes the reordering |
| Merge.MergeRow | src/components/pdf-viewer-component.tsx:571-644 | merging one data row computes the specified row merge |
| Merge.MergeTable | src/components/pdf-viewer-component.tsx:570-645 | the loop over a table's data rows computes their merge |
| Merge.CombineTables | src/components/pdf-viewer-component.tsx:526-667 | getCombinedTable computes the combined table: none without tables, else the merged rows reordered |
| Merge.WellFormedCanMerge | src/components/pdf-viewer-component.tsx:535-636 | tables as the reconstruction builds them never make the merge throw |
| MergeExample.ExampleHeaders | src/components/pdf-viewer-component.tsx:530-547 | the combined columns of the two example tables are Code, Qty, Price, in first-seen order |
| MergeExample.FirstRow | src/components/pdf-viewer-component.tsx:571-644 | a row whose key is not yet combined is appended, with an empty cell for the column its table lacks |
| MergeExample.SecondBackFill | src/components/pdf-viewer-component.tsx:582-600 | the back-fill of a blank value looks up the column name in the row holding the key, and finds none here |
| MergeExample.SecondCandidate | src/components/pdf-viewer-component.tsx:571-626 | the candidate for a repeated key: its key, an empty cell for the missing column, the empty back-fill |
| MergeExample.SecondRow | src/components/pdf-viewer-component.tsx:628-641 | a repeated key overwrites only the filled cells of its row: the earlier Qty survives a later table without Qty |
| MergeExample.ThirdRow | src/components/pdf-viewer-component.tsx:571-644 | a new key from the second table is appended with an empty cell for the first table's column |
| MergeExample.SecondTable | src/components/pdf-viewer-component.tsx:566-645 | the data rows of the second table are merged in order |
| MergeExample.TwoTables | src/components/pdf-viewer-component.tsx:526-667 | the combined table of the two examples is the header row, the merged row X and the appended row Y |
| MergeExample.SelectNothing | src/components/pdf-viewer-component.tsx:251 | extracting from a selection that holds no fragment leaves the stored tables unchanged |
| MergeExample.ClearThenCombine | src/components/pdf-viewer-component.tsx:295-297 | after clearAllTables, getCombinedTable gives no table |
| ExtractionExample.SortFour | src/components/pdf-viewer-component.tsx:180-181 | sorting by y swaps exactly the two fragments given out of order |
| ExtractionExample.TwoLines | src/components/pdf-viewer-component.tsx:176-196 | fragments where only the middle pair is too far apart in y form two lines of two |
| ExtractionExample.SingleCell | src/components/pdf-viewer-component.tsx:199-248 | a fragment alone in its cell gives a cell with its text and box |
| ExtractionExample.RowOfTwoSwapped | src/components/pdf-viewer-component.tsx:199-248 | a line of two distant fragments given right to left becomes two cells in x order |
| ExtractionExample.AlignTwo | src/components/pdf-viewer-component.tsx:251-285 | a data row whose cells lie under the header's cells in order is kept as it is |
| ExtractionExample.FourLines | src/components/pdf-viewer-component.tsx:151-196 | the four kept fragments form the header line and a data line in y order |
| ExtractionExample.FourFragments | src/components/pdf-viewer-component.tsx:144-287 | the four fragments are rebuilt as the table A, B over 1, 2 on page 1 |

## Left out

- The DOM is not modelled: the text-layer lookup, `querySelectorAll("span")` and
  `getBoundingClientRect`. The fragments, already relative to the page's box, are an input.
  A missing page element or text layer is the `None` input.
- The user interface is not modelled: mouse handling, resizing, navigation, rendering, the
  page input and the JSON export.
- The asynchrony of the React state update is not modelled. Each update is applied at once,
  as the updater function at lines 288-291 computes it.
- Coordinates are exact reals. IEEE double rounding in the subtractions and comparisons is
  not modelled.
- Sorting.SortBy: `Array.prototype.sort` is modelled as a stable insertion sort written as a
  function. Its result is unique for a stable sort, but the engine's algorithm and its in-place
  update of the array are not modelled.
- `combinedRows` is modelled as a value. The in-place overwrite of `existingRow.cells` is a
  new row that replaces the old one. Aliasing is not modelled: a back-filled cell is the same
  object as a cell of an earlier row, but the merge only replaces cells and never mutates one.
- Merge.Mergeable: it asks every data row to have a cell under every header cell of its
  table. The code needs this only up to the position that `indexOf` returns for each name. A
  row that is short but only under duplicated names would not throw there, yet is outside the
  model. Reconstructed tables meet the stronger condition (`Merge.WellFormedCanMerge`).
- Merge.CanMerge: inputs on which `getCombinedTable` throws are excluded, not modelled as an
  error result.
