/** Row clustering and cell grouping. Both scan sorted fragments once and close the current group
    when the next fragment is too far from the one scanned just before it; they differ only in
    the distance they measure (`Gap`). `Chain` is the grouping both scans compute, and
    `IsPartition` says what it means: the groups are the maximal runs of joined neighbours. */
module Clustering {
  import opened Tables
  import opened Text
  import opened Sorting

  /** RowGap: vertical distance between the tops of two fragments (line clustering).
      CellGap: horizontal gap after the previous fragment's right edge (cell grouping). */
  datatype Gap = RowGap | CellGap

  function Right(f: Fragment): real { f.x + f.width }

  /** Whether `next` joins the group of `prev`, the fragment scanned just before it. Each scan keeps
      the previous fragment's y (resp. right edge) in a variable that starts at -1 and reads -1 as
      "nothing scanned yet", so a previous fragment whose y (resp. right edge) is exactly -1 lets
      any next fragment join. */
  predicate Joins(prev: Fragment, next: Fragment, gap: Gap) {
    match gap
    case RowGap => prev.y == -1.0 || Abs(next.y - prev.y) < Y_TOLERANCE
    case CellGap => Right(prev) == -1.0 || next.x - (Right(prev) + X_TOLERANCE) < 0.0
  }

  /** A non-empty sequence is its front followed by its last element. */
  lemma InitLast<T>(s: seq<T>)
    requires s != []
    ensures s[..|s| - 1] + [s[|s| - 1]] == s
  {
  }

  /** A sequence taken up to its length is itself. */
  lemma Whole<T>(s: seq<T>)
    ensures s[..|s|] == s
  {
  }

  function Concat(parts: seq<seq<Fragment>>): seq<Fragment> {
    if parts == [] then [] else Concat(parts[..|parts| - 1]) + parts[|parts| - 1]
  }

  function Last(g: seq<Fragment>): Fragment
    requires g != []
  {
    g[|g| - 1]
  }

  /** Every fragment of g joins the one just before it. */
  ghost predicate Linked(g: seq<Fragment>, gap: Gap) {
    forall i, k :: 0 <= i && k == i + 1 && k < |g| ==> Joins(g[i], g[k], gap)
  }

  /** Every group is non-empty and linked. */
  ghost predicate Groups(parts: seq<seq<Fragment>>, gap: Gap) {
    forall j :: 0 <= j < |parts| ==> parts[j] != [] && Linked(parts[j], gap)
  }

  /** The first fragment of every group does not join the last fragment of the group before. */
  ghost predicate Separated(parts: seq<seq<Fragment>>, gap: Gap) {
    forall j, k :: 0 <= j && k == j + 1 && k < |parts| && parts[j] != [] && parts[k] != [] ==>
      !Joins(Last(parts[j]), parts[k][0], gap)
  }

  /** The groups of s: non-empty and concatenating to s, where two neighbours of s are in the
      same group exactly when the second joins the first. */
  ghost predicate IsPartition(s: seq<Fragment>, parts: seq<seq<Fragment>>, gap: Gap) {
    Concat(parts) == s && Groups(parts, gap) && Separated(parts, gap)
  }

  /** Every group holds at least one fragment. */
  predicate NonEmpty(parts: seq<seq<Fragment>>) {
    forall j :: 0 <= j < |parts| ==> parts[j] != []
  }

  /** The grouping the scans compute, one fragment at a time from the left. */
  function Chain(s: seq<Fragment>, gap: Gap): (parts: seq<seq<Fragment>>)
    ensures |parts| <= |s| && (s == [] <==> parts == [])
  {
    if |s| <= 1 then (if s == [] then [] else [s])
    else
      var parts := Chain(s[..|s| - 1], gap);
      var f := s[|s| - 1];
      if Joins(s[|s| - 2], f, gap) then parts[..|parts| - 1] + [parts[|parts| - 1] + [f]]
      else parts + [[f]]
  }

  /** One scan step: how the grouping grows when one more fragment is scanned, in the terms of
      the scan: the groups closed so far and the open group. */
  lemma ScanStep(s: seq<Fragment>, i: nat, closed: seq<seq<Fragment>>, open: seq<Fragment>, gap: Gap)
    requires i < |s|
    requires i == 0 ==> closed == [] && open == []
    requires i > 0 ==> closed + [open] == Chain(s[..i], gap)
    ensures Chain(s[..i + 1], gap) ==
      if i == 0 || Joins(s[i - 1], s[i], gap) then closed + [open + [s[i]]] else closed + [open] + [[s[i]]]
  {
    var t := s[..i + 1];
    if i == 0 {
      assert t == [s[0]] && open + [s[0]] == t;
    } else {
      var ps := closed + [open];
      assert t[..i] == s[..i] && t[i - 1] == s[i - 1] && t[i] == s[i];
      assert ps[..|ps| - 1] == closed && ps[|ps| - 1] == open;
    }
  }

  lemma ConcatSnoc(parts: seq<seq<Fragment>>, q: seq<Fragment>)
    ensures Concat(parts + [q]) == Concat(parts) + q
  {
    assert (parts + [q])[..|parts|] == parts;
  }

  /** Concatenated groups end with the last group's last fragment. */
  lemma ConcatLast(parts: seq<seq<Fragment>>)
    requires parts != [] && parts[|parts| - 1] != []
    ensures Concat(parts) != [] && Last(Concat(parts)) == Last(parts[|parts| - 1])
  {
  }

  lemma ConcatNonEmpty(parts: seq<seq<Fragment>>)
    requires parts != [] ==> parts[|parts| - 1] != []
    ensures Concat(parts) == [] <==> parts == []
  {
    if parts != [] { ConcatLast(parts); }
  }

  lemma LinkedSnoc(g: seq<Fragment>, f: Fragment, gap: Gap)
    requires g != [] && Linked(g, gap) && Joins(Last(g), f, gap)
    ensures Linked(g + [f], gap)
  {
    var h := g + [f];
    forall i, k | 0 <= i && k == i + 1 && k < |h| ensures Joins(h[i], h[k], gap) {
      if k < |g| { assert h[i] == g[i] && h[k] == g[k]; }
    }
  }

  lemma LinkedInit(g: seq<Fragment>, gap: Gap)
    requires |g| >= 2 && Linked(g, gap)
    ensures Linked(g[..|g| - 1], gap) && Joins(g[|g| - 2], g[|g| - 1], gap)
  {
    var h := g[..|g| - 1];
    forall i, k | 0 <= i && k == i + 1 && k < |h| ensures Joins(h[i], h[k], gap) {
      assert h[i] == g[i] && h[k] == g[k];
    }
  }

  lemma GroupsSnoc(ps: seq<seq<Fragment>>, q: seq<Fragment>, gap: Gap)
    requires Groups(ps, gap) && q != [] && Linked(q, gap)
    ensures Groups(ps + [q], gap)
  {
    forall j | 0 <= j < |ps| + 1 ensures (ps + [q])[j] != [] && Linked((ps + [q])[j], gap) {
      if j < |ps| { assert (ps + [q])[j] == ps[j]; }
    }
  }

  lemma GroupsPrefix(ps: seq<seq<Fragment>>, m: nat, gap: Gap)
    requires Groups(ps, gap) && m <= |ps|
    ensures Groups(ps[..m], gap)
  {
    forall j | 0 <= j < m ensures ps[..m][j] != [] && Linked(ps[..m][j], gap) {
      assert ps[..m][j] == ps[j];
    }
  }

  lemma SeparatedSnoc(ps: seq<seq<Fragment>>, q: seq<Fragment>, gap: Gap)
    requires Separated(ps, gap)
    requires ps != [] && ps[|ps| - 1] != [] && q != [] ==> !Joins(Last(ps[|ps| - 1]), q[0], gap)
    ensures Separated(ps + [q], gap)
  {
    var r := ps + [q];
    forall j, k | 0 <= j && k == j + 1 && k < |r| && r[j] != [] && r[k] != []
      ensures !Joins(Last(r[j]), r[k][0], gap)
    {
      assert r[j] == ps[j];
      if k < |ps| { assert r[k] == ps[k]; }
    }
  }

  lemma SeparatedPrefix(ps: seq<seq<Fragment>>, m: nat, gap: Gap)
    requires Separated(ps, gap) && m <= |ps|
    ensures Separated(ps[..m], gap)
  {
    var r := ps[..m];
    forall j, k | 0 <= j && k == j + 1 && k < |r| && r[j] != [] && r[k] != []
      ensures !Joins(Last(r[j]), r[k][0], gap)
    {
      assert r[j] == ps[j] && r[k] == ps[k];
    }
  }

  /** A scanned fragment that joins its predecessor extends the last group. */
  lemma PartitionSnocJoin(init: seq<Fragment>, ps: seq<seq<Fragment>>, f: Fragment, gap: Gap)
    requires IsPartition(init, ps, gap) && init != [] && Joins(Last(init), f, gap)
    ensures ps != [] && IsPartition(init + [f], ps[..|ps| - 1] + [ps[|ps| - 1] + [f]], gap)
  {
    ConcatNonEmpty(ps);
    var n := |ps|;
    var l := ps[n - 1];
    var front := ps[..n - 1];
    ConcatLast(ps);
    InitLast(ps);
    ConcatSnoc(front, l);
    ConcatSnoc(front, l + [f]);
    GroupsPrefix(ps, n - 1, gap);
    LinkedSnoc(l, f, gap);
    GroupsSnoc(front, l + [f], gap);
    SeparatedPrefix(ps, n - 1, gap);
    if n >= 2 {
      assert front[n - 2] == ps[n - 2];
    }
    SeparatedSnoc(front, l + [f], gap);
  }

  /** A scanned fragment that does not join its predecessor opens a new group. */
  lemma PartitionSnocSplit(init: seq<Fragment>, ps: seq<seq<Fragment>>, f: Fragment, gap: Gap)
    requires IsPartition(init, ps, gap) && init != [] && !Joins(Last(init), f, gap)
    ensures IsPartition(init + [f], ps + [[f]], gap)
  {
    ConcatNonEmpty(ps);
    ConcatLast(ps);
    ConcatSnoc(ps, [f]);
    GroupsSnoc(ps, [f], gap);
    SeparatedSnoc(ps, [f], gap);
  }

  /** One step of ChainPartition: scanning one more fragment keeps the grouping a partition. */
  lemma ChainPartitionStep(s: seq<Fragment>, gap: Gap)
    requires |s| >= 2 && IsPartition(s[..|s| - 1], Chain(s[..|s| - 1], gap), gap)
    ensures IsPartition(s, Chain(s, gap), gap)
  {
    var init := s[..|s| - 1];
    var f := s[|s| - 1];
    InitLast(s);
    assert Last(init) == s[|s| - 2];
    if Joins(s[|s| - 2], f, gap) {
      PartitionSnocJoin(init, Chain(init, gap), f, gap);
    } else {
      PartitionSnocSplit(init, Chain(init, gap), f, gap);
    }
  }

  lemma ChainPartitionSingle(s: seq<Fragment>, gap: Gap)
    requires |s| == 1
    ensures IsPartition(s, Chain(s, gap), gap)
  {
    assert Concat([s]) == Concat([]) + s;
    assert Linked(s, gap);
  }

  /** The scan's grouping meets the partition specification. */
  lemma {:induction false} ChainPartition(s: seq<Fragment>, gap: Gap)
    ensures IsPartition(s, Chain(s, gap), gap)
  {
    if |s| == 1 {
      ChainPartitionSingle(s, gap);
    } else if |s| > 1 {
      ChainPartition(s[..|s| - 1], gap);
      ChainPartitionStep(s, gap);
    }
  }

  /** No group of the scan's grouping is empty. */
  lemma ChainNonEmpty(s: seq<Fragment>, gap: Gap)
    ensures NonEmpty(Chain(s, gap))
  {
    ChainPartition(s, gap);
  }

  /** Taking the last fragment off a partition whose last group is that fragment alone. */
  lemma PartitionUnsnocSingle(s: seq<Fragment>, parts: seq<seq<Fragment>>, gap: Gap)
    requires IsPartition(s, parts, gap) && parts != [] && |parts[|parts| - 1]| == 1
    ensures var front := parts[..|parts| - 1];
      s != [] && parts == front + [[Last(s)]] && IsPartition(s[..|s| - 1], front, gap) &&
      (|s| >= 2 ==> !Joins(s[|s| - 2], Last(s), gap))
  {
    var n := |parts|;
    var front := parts[..n - 1];
    InitLast(parts);
    ConcatSnoc(front, parts[n - 1]);
    GroupsPrefix(parts, n - 1, gap);
    SeparatedPrefix(parts, n - 1, gap);
    assert s == Concat(front) + parts[n - 1];
    assert parts[n - 1] == [Last(s)];
    assert Concat(front) == s[..|s| - 1];
    if |s| >= 2 {
      ConcatNonEmpty(front);
      ConcatLast(front);
      assert front[n - 2] == parts[n - 2];
    }
  }

  /** Taking the last fragment off a partition whose last group holds more than that fragment. */
  lemma PartitionUnsnocLonger(s: seq<Fragment>, parts: seq<seq<Fragment>>, gap: Gap)
    requires IsPartition(s, parts, gap) && parts != [] && |parts[|parts| - 1]| >= 2
    ensures var n := |parts|; var l := parts[n - 1];
      var front := parts[..n - 1] + [l[..|l| - 1]];
      |s| >= 2 && parts == front[..n - 1] + [front[n - 1] + [Last(s)]] &&
      IsPartition(s[..|s| - 1], front, gap) && Joins(s[|s| - 2], Last(s), gap)
  {
    var n := |parts|;
    var l := parts[n - 1];
    var l' := l[..|l| - 1];
    var front := parts[..n - 1];
    InitLast(parts);
    InitLast(l);
    ConcatSnoc(front, l);
    ConcatSnoc(front, l');
    LinkedInit(l, gap);
    GroupsPrefix(parts, n - 1, gap);
    GroupsSnoc(front, l', gap);
    SeparatedPrefix(parts, n - 1, gap);
    if n >= 2 {
      assert front[n - 2] == parts[n - 2];
    }
    SeparatedSnoc(front, l', gap);
    ConcatLast(front + [l']);
    assert (front + [l'])[..n - 1] == front;
  }

  /** Chain rebuilt from the grouping of all but the last fragment, when that fragment opens a
      group of its own. */
  lemma ChainCloseSingle(s: seq<Fragment>, front: seq<seq<Fragment>>, gap: Gap)
    requires s != [] && front == Chain(s[..|s| - 1], gap)
    requires |s| >= 2 ==> !Joins(s[|s| - 2], Last(s), gap)
    ensures front + [[Last(s)]] == Chain(s, gap)
  {
    if |s| == 1 {
      assert [Last(s)] == s;
    }
  }

  /** Chain rebuilt from the grouping of all but the last fragment, when that fragment joins the
      last group. */
  lemma ChainCloseJoin(s: seq<Fragment>, front: seq<seq<Fragment>>, gap: Gap)
    requires |s| >= 2 && front == Chain(s[..|s| - 1], gap)
    requires Joins(s[|s| - 2], Last(s), gap)
    ensures front != [] && front[..|front| - 1] + [front[|front| - 1] + [Last(s)]] == Chain(s, gap)
  {
  }

  /** The partition specification has exactly one solution, the scan's grouping: the groups are
      determined by the join relation alone. */
  lemma {:induction false} PartitionIsChain(s: seq<Fragment>, parts: seq<seq<Fragment>>, gap: Gap)
    requires IsPartition(s, parts, gap)
    ensures parts == Chain(s, gap)
    decreases |s|
  {
    ConcatNonEmpty(parts);
    if s != [] {
      var n := |parts|;
      var l := parts[n - 1];
      if |l| == 1 {
        PartitionUnsnocSingle(s, parts, gap);
        PartitionIsChain(s[..|s| - 1], parts[..n - 1], gap);
        ChainCloseSingle(s, parts[..n - 1], gap);
      } else {
        var front := parts[..n - 1] + [l[..|l| - 1]];
        PartitionUnsnocLonger(s, parts, gap);
        PartitionIsChain(s[..|s| - 1], front, gap);
        ChainCloseJoin(s, front, gap);
      }
    }
  }

  /** Math.max over the heights of a non-empty group. */
  function MaxHeight(group: seq<Fragment>): real
    requires group != []
  {
    if |group| == 1 then group[0].height else Max(group[0].height, MaxHeight(group[1..]))
  }

  /** MaxHeight is the largest height of the group. */
  lemma {:induction false} MaxHeightIsMax(group: seq<Fragment>)
    requires group != []
    ensures forall f :: f in group ==> f.height <= MaxHeight(group)
    ensures exists f :: f in group && f.height == MaxHeight(group)
  {
    if |group| > 1 {
      MaxHeightIsMax(group[1..]);
      assert forall f :: f in group ==> f == group[0] || f in group[1..];
      if group[0].height < MaxHeight(group[1..]) {
        var g :| g in group[1..] && g.height == MaxHeight(group[1..]);
        assert g in group && g.height == MaxHeight(group);
      } else {
        assert group[0] in group && group[0].height == MaxHeight(group);
      }
    } else {
      assert group[0] in group;
    }
  }

  /** The group's texts joined with one space between neighbours (Array.prototype.join(" ")). */
  function JoinedText(group: seq<Fragment>): string
    requires group != []
  {
    if |group| == 1 then group[0].text else JoinedText(group[..|group| - 1]) + " " + group[|group| - 1].text
  }

  /** Closes a group into a cell. */
  function MakeCell(group: seq<Fragment>): Cell
    requires group != []
  {
    var first := group[0];
    var last := group[|group| - 1];
    Cell(Trim(JoinedText(group)), first.x, first.y, last.x + last.width - first.x, MaxHeight(group))
  }

  /** The joined text is all spaces exactly when every fragment's text is: the separators are
      spaces themselves. */
  lemma {:induction false} JoinedTextBlank(group: seq<Fragment>)
    requires group != []
    ensures AllSpaces(JoinedText(group)) <==> forall f :: f in group ==> AllSpaces(f.text)
  {
    if |group| > 1 {
      var init := group[..|group| - 1];
      var f := group[|group| - 1];
      JoinedTextBlank(init);
      var a := JoinedText(init);
      var j := a + " " + f.text;
      assert j == JoinedText(group);
      assert forall g :: g in group <==> g in init || g == f;
      if AllSpaces(j) {
        assert forall i :: 0 <= i < |a| ==> a[i] == j[i];
        assert forall i :: 0 <= i < |f.text| ==> f.text[i] == j[|a| + 1 + i];
      }
      if AllSpaces(a) && AllSpaces(f.text) {
        forall i | 0 <= i < |j| ensures IsSpace(j[i]) {
          if i < |a| {
            assert j[i] == a[i];
          } else if i > |a| {
            assert j[i] == f.text[i - |a| - 1];
          }
        }
      }
    } else {
      assert forall g :: g in group <==> g == group[0];
    }
  }

  /** The cell of a group has the first fragment's position, spans from the first left edge to the
      last right edge and is as tall as the tallest fragment; its text is empty exactly when every
      fragment's text is made of spaces. */
  lemma CellOfGroup(group: seq<Fragment>)
    requires group != []
    ensures var c := MakeCell(group);
      c.x == group[0].x && c.y == group[0].y && c.x + c.width == Right(Last(group)) &&
      (forall f :: f in group ==> f.height <= c.height) &&
      (exists f :: f in group && f.height == c.height) &&
      (c.text == [] <==> forall f :: f in group ==> AllSpaces(f.text))
  {
    MaxHeightIsMax(group);
    JoinedTextBlank(group);
    TrimSpec(JoinedText(group));
  }

  function CellsOf(groups: seq<seq<Fragment>>): (cells: seq<Cell>)
    requires NonEmpty(groups)
    ensures |cells| == |groups|
  {
    if groups == [] then [] else CellsOf(groups[..|groups| - 1]) + [MakeCell(groups[|groups| - 1])]
  }

  lemma {:induction false} CellsOfAt(groups: seq<seq<Fragment>>, j: nat)
    requires NonEmpty(groups) && j < |groups|
    ensures CellsOf(groups)[j] == MakeCell(groups[j])
  {
    if j < |groups| - 1 {
      var front := groups[..|groups| - 1];
      CellsOfAt(front, j);
      assert front[j] == groups[j];
    }
  }

  /** The row the cell grouping builds from one line. */
  function RowOf(line: seq<Fragment>): Row {
    var sorted := SortBy(line, Horizontal);
    ChainNonEmpty(sorted, CellGap);
    Row(CellsOf(Chain(sorted, CellGap)))
  }

  /** The cells of a line's row are, in order, the cells of the groups of the x-sorted line, and
      those groups partition it; a non-empty line yields at least one cell and never more cells
      than fragments. */
  lemma RowOfSpec(line: seq<Fragment>)
    ensures var groups := Chain(SortBy(line, Horizontal), CellGap);
      IsPartition(SortBy(line, Horizontal), groups, CellGap) &&
      |RowOf(line).cells| == |groups| &&
      (forall j :: 0 <= j < |groups| ==> RowOf(line).cells[j] == MakeCell(groups[j])) &&
      (line != [] ==> 1 <= |RowOf(line).cells| <= |line|)
  {
    var sorted := SortBy(line, Horizontal);
    var groups := Chain(sorted, CellGap);
    ChainPartition(sorted, CellGap);
    ChainNonEmpty(sorted, CellGap);
    forall j | 0 <= j < |groups| ensures RowOf(line).cells[j] == MakeCell(groups[j]) {
      CellsOfAt(groups, j);
    }
  }

  /** One scan step as the loops take it: when the scanned fragment joins, it extends the open
      group; otherwise the open group is closed and the fragment opens a new one. */
  lemma ScanJoin(s: seq<Fragment>, i: nat, closed: seq<seq<Fragment>>, open: seq<Fragment>, gap: Gap,
                 joins: bool)
    requires i < |s| && NonEmpty(closed)
    requires i == 0 ==> closed == [] && open == []
    requires i > 0 ==> open != [] && closed + [open] == Chain(s[..i], gap)
    requires joins == (i == 0 || Joins(s[i - 1], s[i], gap))
    ensures joins ==> closed + [open + [s[i]]] == Chain(s[..i + 1], gap)
    ensures !joins ==>
      open != [] && NonEmpty(closed + [open]) && closed + [open] + [[s[i]]] == Chain(s[..i + 1], gap)
  {
    ScanStep(s, i, closed, open, gap);
  }

  /** Line clustering (the scan over the y-sorted fragments): a new line starts when the next
      fragment's y is at least Y_TOLERANCE away from the previous fragment's y. */
  method ClusterLines(sorted: seq<Fragment>) returns (lines: seq<seq<Fragment>>)
    ensures lines == Chain(sorted, RowGap)
    ensures IsPartition(sorted, lines, RowGap)
  {
    lines := [];
    var currentLine: seq<Fragment> := [];
    var lastY := -1.0;
    for i := 0 to |sorted|
      invariant i == 0 ==> lines == [] && currentLine == [] && lastY == -1.0
      invariant i > 0 ==> lastY == sorted[i - 1].y
      invariant i > 0 ==> currentLine != [] && lines + [currentLine] == Chain(sorted[..i], RowGap)
      invariant NonEmpty(lines)
    {
      var element := sorted[i];
      var joins := lastY == -1.0 || Abs(element.y - lastY) < Y_TOLERANCE;
      ScanJoin(sorted, i, lines, currentLine, RowGap, joins);
      if joins {
        currentLine := currentLine + [element];
      } else {
        if |currentLine| > 0 {
          lines := lines + [currentLine];
        }
        currentLine := [element];
      }
      lastY := element.y;
    }
    if |currentLine| > 0 {
      lines := lines + [currentLine];
    }
    Whole(sorted);
    ChainPartition(sorted, RowGap);
  }

  lemma CellsOfSnoc(groups: seq<seq<Fragment>>, g: seq<Fragment>)
    requires NonEmpty(groups) && g != []
    ensures NonEmpty(groups + [g]) && CellsOf(groups + [g]) == CellsOf(groups) + [MakeCell(g)]
  {
    assert (groups + [g])[..|groups|] == groups;
  }

  /** The cells the cell-grouping scan emits once it has emitted `cells` and holds the open group
      `open` before position i. */
  function CellsFrom(s: seq<Fragment>, i: nat, cells: seq<Cell>, open: seq<Fragment>): seq<Cell>
    requires i <= |s| && (i > 0 ==> open != [])
    decreases |s| - i
  {
    if i == |s| then (if open == [] then cells else cells + [MakeCell(open)])
    else if i == 0 || Joins(s[i - 1], s[i], CellGap) then CellsFrom(s, i + 1, cells, open + [s[i]])
    else CellsFrom(s, i + 1, cells + [MakeCell(open)], [s[i]])
  }

  /** The scan's cells are the cells of the grouping. */
  lemma {:induction false} CellsFromChain(s: seq<Fragment>, i: nat, closed: seq<seq<Fragment>>, open: seq<Fragment>)
    requires i <= |s| && NonEmpty(closed)
    requires i == 0 ==> closed == [] && open == []
    requires i > 0 ==> open != [] && closed + [open] == Chain(s[..i], CellGap)
    ensures NonEmpty(Chain(s, CellGap)) && CellsFrom(s, i, CellsOf(closed), open) == CellsOf(Chain(s, CellGap))
    decreases |s| - i
  {
    ChainNonEmpty(s, CellGap);
    if i == |s| {
      Whole(s);
      if open != [] {
        CellsOfSnoc(closed, open);
      }
    } else {
      var joins := i == 0 || Joins(s[i - 1], s[i], CellGap);
      ScanJoin(s, i, closed, open, CellGap, joins);
      if joins {
        CellsFromChain(s, i + 1, closed, open + [s[i]]);
      } else {
        CellsOfSnoc(closed, open);
        CellsFromChain(s, i + 1, closed + [open], [s[i]]);
      }
    }
  }

  /** Cell grouping of one x-sorted line: closes the current group into a cell when the next
      fragment starts at least X_TOLERANCE to the right of the previous fragment's right edge. */
  method GroupCells(sortedElements: seq<Fragment>) returns (cells: seq<Cell>)
    ensures NonEmpty(Chain(sortedElements, CellGap)) && cells == CellsOf(Chain(sortedElements, CellGap))
  {
    cells := [];
    var currentGroup: seq<Fragment> := [];
    var lastX := -1.0;
    for i := 0 to |sortedElements|
      invariant i == 0 ==> cells == [] && currentGroup == [] && lastX == -1.0
      invariant i > 0 ==> lastX == Right(sortedElements[i - 1]) && currentGroup != []
      invariant CellsFrom(sortedElements, i, cells, currentGroup) == CellsFrom(sortedElements, 0, [], [])
    {
      var element := sortedElements[i];
      if lastX == -1.0 || element.x - (lastX + X_TOLERANCE) < 0.0 {
        currentGroup := currentGroup + [element];
      } else {
        if |currentGroup| > 0 {
          cells := cells + [MakeCell(currentGroup)];
          currentGroup := [element];
        }
      }
      lastX := element.x + element.width;
    }
    if |currentGroup| > 0 {
      cells := cells + [MakeCell(currentGroup)];
    }
    CellsFromChain(sortedElements, 0, [], []);
  }

  /** The body of the per-line map: sort the line by x, then group it into cells. */
  method BuildRow(line: seq<Fragment>) returns (row: Row)
    ensures row == RowOf(line)
  {
    var sortedElements := SortBy(line, Horizontal);
    var cells := GroupCells(sortedElements);
    row := Row(cells);
  }
}
