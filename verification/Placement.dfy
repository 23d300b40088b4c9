/** Columns, mine nodes, and the rectangles of the picture. */
module Placement {
  import opened Sorting
  import opened BlockForest
  import opened ForestNumbering
  import opened SlotCompaction
  import opened Folding

  // ----- Columns

  datatype Column = HeightColumn(height: nat) | FoldColumn(segment: (nat, nat), start: nat)

  function SortKey(c: Column): nat {
    match c
    case HeightColumn(h) => h
    case FoldColumn(_, start) => start
  }

  ghost predicate DistinctIds(segs: seq<FoldSegment>) {
    forall i, j :: 0 <= i < j < |segs| ==> segs[i].id != segs[j].id
  }

  /** One column for every visible height and one for every segment. */
  ghost predicate AreColumns(visible: seq<Block>, segs: seq<FoldSegment>, columns: seq<Column>) {
    && Distinct(columns)
    && (forall c :: c in columns <==> IsColumn(visible, segs, c))
  }

  ghost predicate IsColumn(visible: seq<Block>, segs: seq<FoldSegment>, c: Column) {
    match c
    case HeightColumn(h) => exists b :: b in visible && b.height == h
    case FoldColumn(id, start) => exists i :: 0 <= i < |segs| && segs[i].id == id && segs[i].startHeight == start
  }

  ghost predicate InKeyOrder(columns: seq<Column>) {
    forall i, j :: 0 <= i < j < |columns| ==> SortKey(columns[i]) <= SortKey(columns[j])
  }

  /** The lookups give the positions in the list of columns. */
  ghost predicate IsLookup(columns: seq<Column>, heightToDepth: map<nat, nat>, foldToDepth: map<(nat, nat), nat>) {
    && (forall h :: h in heightToDepth ==> heightToDepth[h] < |columns| && columns[heightToDepth[h]] == HeightColumn(h))
    && (forall id :: id in foldToDepth ==> foldToDepth[id] < |columns| && columns[foldToDepth[id]].FoldColumn?
                                           && columns[foldToDepth[id]].segment == id)
    && (forall i :: 0 <= i < |columns| ==>
          match columns[i]
          case HeightColumn(h) => h in heightToDepth && heightToDepth[h] == i
          case FoldColumn(id, _) => id in foldToDepth && foldToDepth[id] == i)
  }

  function SortColumns(columns: seq<Column>): (r: seq<Column>)
    requires Distinct(columns)
    ensures InKeyOrder(r) && Distinct(r) && forall c :: c in r <==> c in columns
  {
    var key := (c: Column) => SortKey(c) as real;
    var r := SortBy(columns, key);
    PermutationDistinct(columns, r);
    assert forall i, j :: 0 <= i < j < |r| ==> key(r[i]) <= key(r[j]);
    r
  }

  /** The visible heights, each once, from the lowest. */
  method VisibleHeights(visible: seq<Block>) returns (heights: seq<nat>)
    ensures Ascending(heights) && forall h :: h in heights <==> exists b :: b in visible && b.height == h
  {
    var found: seq<nat> := [];
    for i := 0 to |visible|
      invariant Distinct(found)
      invariant forall h :: h in found <==> exists b :: b in visible[..i] && b.height == h
    {
      assert visible[..i + 1] == visible[..i] + [visible[i]];
      if visible[i].height !in found {
        found := found + [visible[i].height];
      }
    }
    assert visible[..|visible|] == visible;
    heights := SortHeights(found);
  }

  /** A column for each of the heights. */
  function HeightColumns(heights: seq<nat>): seq<Column> {
    seq(|heights|, i requires 0 <= i < |heights| => HeightColumn(heights[i]))
  }

  lemma HeightColumnsOf(visible: seq<Block>, heights: seq<nat>)
    requires Ascending(heights) && forall h :: h in heights <==> exists b :: b in visible && b.height == h
    ensures Distinct(HeightColumns(heights)) && InKeyOrder(HeightColumns(heights))
    ensures forall c: Column :: c in HeightColumns(heights) <==> c.HeightColumn? && IsColumn(visible, [], c)
  {
    forall c: Column | c.HeightColumn? && c.height in heights
      ensures c in HeightColumns(heights)
    {
      var i :| 0 <= i < |heights| && heights[i] == c.height;
      assert HeightColumns(heights)[i] == c;
    }
    forall c: Column | c in HeightColumns(heights)
      ensures c.HeightColumn? && c.height in heights
    {
      var i :| 0 <= i < |heights| && HeightColumns(heights)[i] == c;
      assert heights[i] in heights;
    }
  }

  lemma HeightColumnsStay(visible: seq<Block>, segs: seq<FoldSegment>)
    ensures forall c: Column :: c.HeightColumn? ==> (IsColumn(visible, segs, c) <==> IsColumn(visible, [], c))
    ensures forall c: Column :: c.FoldColumn? ==> !IsColumn(visible, [], c)
    ensures segs[..0] == [] && segs[..|segs|] == segs
  {}

  method BuildColumns(visible: seq<Block>, segs: seq<FoldSegment>) returns (columns: seq<Column>)
    requires DistinctIds(segs)
    ensures AreColumns(visible, segs, columns) && InKeyOrder(columns)
  {
    var heights := VisibleHeights(visible);
    columns := HeightColumns(heights);
    HeightColumnsOf(visible, heights);
    HeightColumnsStay(visible, segs);
    hide IsColumn, HeightColumns, SortKey;
    if segs != [] {
      ghost var before := columns;
      for i := 0 to |segs|
        invariant Distinct(columns)
        invariant forall c :: c in columns <==> c in before || (c.FoldColumn? && IsColumn(visible, segs[..i], c))
      {
        FoldColumnStep(visible, segs, i);
        columns := columns + [FoldColumn(segs[i].id, segs[i].startHeight)];
      }
      columns := SortColumns(columns);
    }
  }

  lemma FoldColumnStep(visible: seq<Block>, segs: seq<FoldSegment>, i: nat)
    requires DistinctIds(segs) && i < |segs|
    ensures var c := FoldColumn(segs[i].id, segs[i].startHeight);
            && !IsColumn(visible, segs[..i], c)
            && forall d: Column :: d.FoldColumn? ==>
              (IsColumn(visible, segs[..i + 1], d) <==> IsColumn(visible, segs[..i], d) || d == c)
  {
    var more, less := segs[..i + 1], segs[..i];
    assert more == less + [segs[i]];
    forall d: Column | d.FoldColumn? && IsColumn(visible, less, d)
      ensures IsColumn(visible, more, d)
    {
      var k :| 0 <= k < |less| && less[k].id == d.segment && less[k].startHeight == d.start;
      assert more[k] == less[k];
    }
    assert more[i] == segs[i];
  }

  /** The positions of the columns, sorted by their keys. */
  ghost predicate IsDepthLookup(visible: seq<Block>, segs: seq<FoldSegment>, heightToDepth: map<nat, nat>,
                                foldToDepth: map<(nat, nat), nat>) {
    exists columns ::
      AreColumns(visible, segs, columns) && InKeyOrder(columns) && IsLookup(columns, heightToDepth, foldToDepth)
  }

  /** Maps heights and segments to columns. */
  method CreateDepthLookup(visible: seq<Block>, segs: seq<FoldSegment>)
    returns (heightToDepth: map<nat, nat>, foldToDepth: map<(nat, nat), nat>)
    requires DistinctIds(segs)
    ensures IsDepthLookup(visible, segs, heightToDepth, foldToDepth)
  {
    var list := BuildColumns(visible, segs);
    OneColumnPerId(visible, segs, list);
    heightToDepth, foldToDepth := map[], map[];
    for depth := 0 to |list|
      invariant IsLookup(list[..depth], heightToDepth, foldToDepth)
    {
      hide AreColumns, InKeyOrder;
      assert list[..depth + 1] == list[..depth] + [list[depth]];
      match list[depth]
      case HeightColumn(h) => heightToDepth := heightToDepth[h := depth];
      case FoldColumn(id, _) => foldToDepth := foldToDepth[id := depth];
    }
    assert list[..|list|] == list;
  }

  /** Two different columns are not for the same height or the same segment. */
  lemma OneColumnPerId(visible: seq<Block>, segs: seq<FoldSegment>, columns: seq<Column>)
    requires DistinctIds(segs) && AreColumns(visible, segs, columns)
    ensures forall i, j :: 0 <= i < j < |columns| && columns[i].HeightColumn? && columns[j].HeightColumn?
              ==> columns[i].height != columns[j].height
    ensures forall i, j :: 0 <= i < j < |columns| && columns[i].FoldColumn? && columns[j].FoldColumn?
              ==> columns[i].segment != columns[j].segment
  {
    forall i, j | 0 <= i < j < |columns| && columns[i].FoldColumn? && columns[j].FoldColumn?
      ensures columns[i].segment != columns[j].segment
    {
      assert columns[i] in columns && columns[j] in columns;
      var k :| 0 <= k < |segs| && segs[k].id == columns[i].segment && segs[k].startHeight == columns[i].start;
      var l :| 0 <= l < |segs| && segs[l].id == columns[j].segment && segs[l].startHeight == columns[j].start;
      assert k != l;
    }
  }

  /** Columns are strictly increasing in height. */
  lemma ColumnsIncrease(columns: seq<Column>, heightToDepth: map<nat, nat>, foldToDepth: map<(nat, nat), nat>, h: nat,
                        k: nat)
    requires InKeyOrder(columns) && IsLookup(columns, heightToDepth, foldToDepth)
    requires h in heightToDepth && k in heightToDepth && h < k
    ensures heightToDepth[h] < heightToDepth[k]
  {}

  lemma SortedByKey(columns: seq<Column>, i: nat, j: nat)
    requires InKeyOrder(columns) && i < |columns| && j < |columns| && SortKey(columns[i]) < SortKey(columns[j])
    ensures i < j
  {}

  /** An unfolded graph or a folded one: what is visible is what is in no segment. */
  ghost predicate ShowsRest(f: Forest, segs: seq<FoldSegment>, visible: seq<Block>) {
    forall b :: b in visible <==> b.id in f.blocks && f.blocks[b.id] == b && !InFold(segs, b.id)
  }

  /** The height of a folded block belongs to that block alone. */
  lemma FoldedHeight(f: Forest, segs: seq<FoldSegment>, i: nat, k: nat, b: nat)
    requires AreSegments(f, segs) && i < |segs| && k < |segs[i].blockIds|
    requires b in f.blocks && f.blocks[b].height == segs[i].startHeight + k
    ensures b == segs[i].blockIds[k] && b in segs[i].blockIds && InFold(segs, b) && !Protected(f.blocks, b)
  {
    hide Forest.Kids, DisjointFolds;
    assert IsSegment(f, segs[i]);
    var x := segs[i].blockIds[k];
    assert x in f.blocks && !Protected(f.blocks, x);
  }

  /** The segment is identified by its ends. */
  ghost predicate IdentifiedByEnds(s: FoldSegment) {
    s.blockIds != [] && s.id == (s.blockIds[0], s.blockIds[|s.blockIds| - 1])
  }

  /** Disjoint segments have different ids. */
  lemma SegmentIdsDistinct(segs: seq<FoldSegment>)
    requires DisjointFolds(segs) && forall i :: 0 <= i < |segs| ==> IdentifiedByEnds(segs[i])
    ensures DistinctIds(segs)
  {
    forall i, j | 0 <= i < j < |segs|
      ensures segs[i].id != segs[j].id
    {
      assert segs[i].blockIds[0] in segs[i].blockIds && segs[j].blockIds[0] in segs[j].blockIds;
    }
  }

  /** Between the heights before and after a segment, its own column is the only one. */
  lemma OnlyFoldColumn(f: Forest, segs: seq<FoldSegment>, visible: seq<Block>, columns: seq<Column>, i: nat, c: Column)
    requires f.Valid() && AreSegments(f, segs) && ShowsRest(f, segs, visible) && AreColumns(visible, segs, columns)
    requires i < |segs|
    requires c in columns && segs[i].startHeight <= SortKey(c) <= segs[i].endHeight
    ensures c == FoldColumn(segs[i].id, segs[i].startHeight)
  {
    hide Forest.Valid, Forest.Kids, DisjointFolds, Protected, InFold;
    var s, k := segs[i], SortKey(c) - segs[i].startHeight;
    assert IsSegment(f, s) && IsColumn(visible, segs, c);
    match c {
      case HeightColumn(h) =>
        var b :| b in visible && b.height == h;
        FoldedHeight(f, segs, i, k, b.id);
      case FoldColumn(id, start) =>
        var j :| 0 <= j < |segs| && segs[j].id == id && segs[j].startHeight == start;
        assert IsSegment(f, segs[j]);
        var b := segs[j].blockIds[0];
        assert b in f.blocks && f.blocks[b].height == start && b in segs[j].blockIds;
        FoldedHeight(f, segs, i, k, b);
        SameSegment(segs, i, j, b);
    }
  }

  lemma SameSegment(segs: seq<FoldSegment>, i: nat, j: nat, b: nat)
    requires DisjointFolds(segs) && i < |segs| && j < |segs| && b in segs[i].blockIds && b in segs[j].blockIds
    ensures i == j
  {}

  /** The column of a block next to a segment is a height column, and the only one with its key. */
  lemma OnlyHeightColumn(f: Forest, segs: seq<FoldSegment>, visible: seq<Block>, columns: seq<Column>, b: nat,
                         c: Column)
    requires f.Valid() && AreSegments(f, segs) && ShowsRest(f, segs, visible) && AreColumns(visible, segs, columns)
    requires KeysAreIds(f.blocks) && b in f.blocks && !InFold(segs, b)
    ensures HeightColumn(f.blocks[b].height) in columns
    ensures c in columns && SortKey(c) == f.blocks[b].height ==> c == HeightColumn(f.blocks[b].height)
  {
    hide Forest.Valid, Forest.Kids, DisjointFolds, Protected, InFold;
    assert f.blocks[b] in visible;
    if c in columns && SortKey(c) == f.blocks[b].height && c.FoldColumn? {
      assert IsColumn(visible, segs, c);
      var j :| 0 <= j < |segs| && segs[j].id == c.segment && segs[j].startHeight == c.start;
      assert IsSegment(f, segs[j]);
      FoldedHeight(f, segs, j, 0, b);
    }
  }

  lemma NextToFold(f: Forest, segs: seq<FoldSegment>, i: nat)
    requires f.Valid() && AreSegments(f, segs) && i < |segs|
    ensures segs[i].startHeight <= segs[i].endHeight
    ensures segs[i].predecessor.Some? ==> var p := segs[i].predecessor.value;
              p in f.blocks && !InFold(segs, p) && f.blocks[p].height + 1 == segs[i].startHeight
    ensures segs[i].successor.Some? ==> var q := segs[i].successor.value;
              q in f.blocks && !InFold(segs, q) && f.blocks[q].height == segs[i].endHeight + 1
  {
    ParentListsKid(f, segs[i].blockIds[0]);
    hide Forest.Valid, Forest.Kids, Protected, DisjointFolds;
    var s := segs[i];
    assert IsSegment(f, s);
    if s.successor.Some? {
      var last := s.blockIds[|s.blockIds| - 1];
      assert last in f.blocks && f.Kids(last) == [s.successor.value] && f.blocks[last].height == s.endHeight;
      KidFacts(f, last, 0);
    }
    ProtectedIsVisible(f, segs);
  }

  lemma ProtectedIsVisible(f: Forest, segs: seq<FoldSegment>)
    requires AreSegments(f, segs)
    ensures forall b :: b in f.blocks && Protected(f.blocks, b) ==> !InFold(segs, b)
  {
    hide Forest.Kids, Protected, DisjointFolds;
  }

  /** The column of a segment is no height's; the column of the block before it is the one to the left, and the
      column of the block after it the one to the right. */
  ghost predicate IsBetween(f: Forest, s: FoldSegment, heightToDepth: map<nat, nat>,
                            foldToDepth: map<(nat, nat), nat>) {
    && s.id in foldToDepth
    && (forall h :: h in heightToDepth ==> heightToDepth[h] != foldToDepth[s.id])
    && (s.predecessor.Some? ==>
          && s.predecessor.value in f.blocks && f.blocks[s.predecessor.value].height in heightToDepth
          && heightToDepth[f.blocks[s.predecessor.value].height] + 1 == foldToDepth[s.id])
    && (s.successor.Some? ==>
          && s.successor.value in f.blocks && f.blocks[s.successor.value].height in heightToDepth
          && foldToDepth[s.id] + 1 == heightToDepth[f.blocks[s.successor.value].height])
  }

  /** A folded segment has its own column, right between those of the blocks before and after it. */
  lemma FoldColumnIsBetween(f: Forest, segs: seq<FoldSegment>, visible: seq<Block>, columns: seq<Column>,
                            heightToDepth: map<nat, nat>, foldToDepth: map<(nat, nat), nat>, i: nat)
    requires f.Valid() && KeysAreIds(f.blocks) && AreSegments(f, segs) && ShowsRest(f, segs, visible) && i < |segs|
    requires AreColumns(visible, segs, columns) && InKeyOrder(columns) && IsLookup(columns, heightToDepth, foldToDepth)
    ensures IsBetween(f, segs[i], heightToDepth, foldToDepth)
  {
    hide Forest.Valid, Forest.Kids, AreSegments, InFold, ShowsRest, AreColumns;
    NextToFold(f, segs, i);
    var s := segs[i];
    var c := FoldColumn(s.id, s.startHeight);
    FoldColumnListed(visible, segs, columns, i);
    var d := foldToDepth[s.id];
    if s.predecessor.Some? {
      var p := s.predecessor.value;
      OnlyHeightColumn(f, segs, visible, columns, p, c);
      var e := heightToDepth[f.blocks[p].height];
      SortedByKey(columns, e, d);
      if e + 1 < d {
        OnlyHeightColumn(f, segs, visible, columns, p, columns[e + 1]);
        assert SortKey(columns[e]) <= SortKey(columns[e + 1]) <= SortKey(columns[d]);
        OnlyFoldColumnIfAbove(f, segs, visible, columns, i, e + 1);
      }
    }
    if s.successor.Some? {
      var q := s.successor.value;
      OnlyHeightColumn(f, segs, visible, columns, q, c);
      var e := heightToDepth[f.blocks[q].height];
      SortedByKey(columns, d, e);
      if d + 1 < e {
        OnlyHeightColumn(f, segs, visible, columns, q, columns[d + 1]);
        assert SortKey(columns[d]) <= SortKey(columns[d + 1]) <= SortKey(columns[e]);
        OnlyFoldColumnIfAbove(f, segs, visible, columns, i, d + 1);
      }
    }
  }

  lemma OnlyFoldColumnIfAbove(f: Forest, segs: seq<FoldSegment>, visible: seq<Block>, columns: seq<Column>, i: nat,
                              e: nat)
    requires f.Valid() && AreSegments(f, segs) && ShowsRest(f, segs, visible) && AreColumns(visible, segs, columns)
    requires i < |segs|
    requires e < |columns|
    ensures segs[i].startHeight <= SortKey(columns[e]) <= segs[i].endHeight
        ==> columns[e] == FoldColumn(segs[i].id, segs[i].startHeight)
  {
    hide *;
    if segs[i].startHeight <= SortKey(columns[e]) <= segs[i].endHeight {
      OnlyFoldColumn(f, segs, visible, columns, i, columns[e]);
    }
  }

  lemma FoldColumnListed(visible: seq<Block>, segs: seq<FoldSegment>, columns: seq<Column>, i: nat)
    requires AreColumns(visible, segs, columns) && i < |segs|
    ensures FoldColumn(segs[i].id, segs[i].startHeight) in columns
    ensures Distinct(columns)
  {
    assert IsColumn(visible, segs, FoldColumn(segs[i].id, segs[i].startHeight));
  }

  /** The columns of two visible blocks one height apart are next to each other. */
  lemma HeightColumnsAdjacent(f: Forest, segs: seq<FoldSegment>, visible: seq<Block>, columns: seq<Column>,
                              heightToDepth: map<nat, nat>, foldToDepth: map<(nat, nat), nat>, p: nat, b: nat)
    requires f.Valid() && KeysAreIds(f.blocks) && AreSegments(f, segs) && ShowsRest(f, segs, visible)
    requires AreColumns(visible, segs, columns) && InKeyOrder(columns) && IsLookup(columns, heightToDepth, foldToDepth)
    requires p in f.blocks && b in f.blocks && !InFold(segs, p) && !InFold(segs, b)
    requires f.blocks[b].height == f.blocks[p].height + 1
    ensures f.blocks[p].height in heightToDepth && f.blocks[b].height in heightToDepth
    ensures heightToDepth[f.blocks[b].height] == heightToDepth[f.blocks[p].height] + 1
  {
    hide Forest.Valid, Forest.Kids, AreSegments, InFold, ShowsRest, AreColumns;
    OnlyHeightColumn(f, segs, visible, columns, p, HeightColumn(f.blocks[p].height));
    OnlyHeightColumn(f, segs, visible, columns, b, HeightColumn(f.blocks[b].height));
    var d, e := heightToDepth[f.blocks[p].height], heightToDepth[f.blocks[b].height];
    SortedByKey(columns, d, e);
    if d + 1 < e {
      assert SortKey(columns[d]) <= SortKey(columns[d + 1]) <= SortKey(columns[e]);
      OnlyHeightColumn(f, segs, visible, columns, p, columns[d + 1]);
      OnlyHeightColumn(f, segs, visible, columns, b, columns[d + 1]);
    }
  }
}
