/** Four blocks in whose folded picture a mine node lies on a folded segment. */
module FoldOverlap {
  import opened Wrappers
  import opened Sorting
  import opened BlockForest
  import opened ForestNumbering
  import opened SlotLayout
  import opened ForestLayout
  import opened SlotCompaction
  import opened CompactionLaws
  import opened Folding
  import opened FoldGraph
  import opened Placement
  import opened MineNodes
  import opened G = Graph
  import opened DrawnEdges
  import opened RootFolds

  /** A lone block on which can be mined, and one height above it a second root with two quiet blocks on top. */
  const OVERLAP_BLOCKS: seq<Block> := [
    Block(0, None, 0, 0, true, true),
    Block(1, None, 1, 1, false, false),
    Block(2, Some(1), 2, 2, false, false),
    Block(3, Some(2), 3, 3, false, false)
  ]

  ghost predicate AreFour(m: BlockMap) {
    && m.Keys == {0, 1, 2, 3}
    && forall i: nat :: i < 4 ==> m[i] == OVERLAP_BLOCKS[i]
  }

  lemma FourAreMapped(m: BlockMap)
    requires IsBlockMap(OVERLAP_BLOCKS, m)
    ensures AreFour(m)
  {
    var b := OVERLAP_BLOCKS;
    forall i: nat | i < 4
      ensures i in m && m[i] == b[i]
    {
      assert b[i].id == i;
    }
    forall id | id in m
      ensures id < 4
    {
      var j :| 0 <= j < 4 && b[j] == m[id];
    }
  }

  lemma FourFacts(m: BlockMap)
    requires AreFour(m)
    ensures Parent(m, 0) == Parent(m, 1) == None && Parent(m, 2) == Some(1) && Parent(m, 3) == Some(2)
    ensures forall b :: b in m ==> m[b].height == b && (m[b].hasTips <==> b == 0) && (m[b].mineable <==> b == 0)
  {}

  /** The four blocks as a forest. */
  ghost predicate IsFourForest(f: Forest) {
    && f.Valid() && AreFour(f.blocks) && KeysAreIds(f.blocks)
    && f.Kids(0) == f.Kids(3) == [] && f.Kids(1) == [2] && f.Kids(2) == [3]
  }

  lemma FourForest(f: Forest)
    requires IsForestOf(f, OVERLAP_BLOCKS)
    ensures IsFourForest(f)
  {
    BlockIds(f, OVERLAP_BLOCKS);
    FourAreMapped(f.blocks);
    FourFacts(f.blocks);
    FourFamilies(f);
  }

  lemma FourFamilies(f: Forest)
    requires f.Valid() && AreFour(f.blocks)
    ensures f.Kids(0) == f.Kids(3) == [] && f.Kids(1) == [2] && f.Kids(2) == [3]
  {
    var m := f.blocks;
    FourFacts(m);
    assert forall b :: b in m ==> b == 0 || b == 1 || b == 2 || b == 3;
    FamiliesOf(f);
    hide *;
    FamilyOfNone(m, Some(0), f.Kids(0));
    FamilyOfOne(m, Some(1), f.Kids(1), 2);
    FamilyOfOne(m, Some(2), f.Kids(2), 3);
    FamilyOfNone(m, Some(3), f.Kids(3));
  }

  // ----- All slots are 0

  /** A block alone at its height is pushed to the slot of its parent. */
  lemma PushedAlone(f: Forest, pushed: Slots, b: nat)
    requires f.Valid() && b in f.blocks && ForwardOk(f, pushed, f.blocks.Keys)
    requires forall a :: a in f.blocks && f.blocks[a].height == f.blocks[b].height ==> a == b
    ensures b in pushed && pushed[b] == ParentSlot(f, pushed, b)
  {
    hide *;
    LeftOfIsOrder(f, b, b);
    OkFacts(f, pushed, f.blocks.Keys, b);
    NoneLeft(f, b);
    PushedToParent(f, pushed, b);
  }

  lemma NoneLeft(f: Forest, b: nat)
    requires f.Valid() && b in f.blocks && !LeftOf(f, b, b)
    requires forall a :: a in f.blocks && f.blocks[a].height == f.blocks[b].height ==> a == b
    ensures forall a :: !LeftOf(f, a, b) && !LeftOf(f, b, a)
  {
    hide Forest.Valid, Before;
  }

  lemma PushedToParent(f: Forest, slots: Slots, b: nat)
    requires f.Valid() && b in f.blocks && b in slots && PushedTo(f, slots, b) && forall a :: !LeftOf(f, a, b)
    ensures slots[b] == ParentSlot(f, slots, b)
  {
    hide Forest.Valid, LeftOf, ParentSlot;
  }

  /** And it is centred: a leaf stays, and a single child has it at its own slot. */
  lemma CentredAlone(f: Forest, pushed: Slots, slots: Slots, b: nat)
    requires f.Valid() && b in f.blocks && b in slots && pushed.Keys == slots.Keys && Centred(f, pushed, slots, b)
    requires forall a :: !LeftOf(f, a, b) && !LeftOf(f, b, a)
    ensures f.Kids(b) == [] ==> slots[b] == pushed[b]
    ensures forall k :: f.Kids(b) == [k] && k in slots ==> slots[b] == slots[k]
  {
    hide Forest.Valid, Forest.Kids, LeftOf;
    forall k | f.Kids(b) == [k] && k in slots
      ensures slots[b] == slots[k]
    {
      assert f.Kids(b)[1..] == [] && f.Kids(b)[0] == k;
      assert KnownSlots(f.Kids(b), slots) == [slots[k]];
    }
  }

  lemma AloneSlots(f: Forest, pushed: Slots, slots: Slots, b: nat)
    requires f.Valid() && b in f.blocks && ForwardOk(f, pushed, f.blocks.Keys)
    requires b in slots && pushed.Keys == slots.Keys && Centred(f, pushed, slots, b)
    requires forall a :: a in f.blocks && f.blocks[a].height == f.blocks[b].height ==> a == b
    ensures b in pushed && pushed[b] == ParentSlot(f, pushed, b)
    ensures f.Kids(b) == [] ==> slots[b] == pushed[b]
    ensures forall k :: f.Kids(b) == [k] && k in slots ==> slots[b] == slots[k]
  {
    hide *;
    PushedAlone(f, pushed, b);
    LeftOfIsOrder(f, b, b);
    NoneLeft(f, b);
    CentredAlone(f, pushed, slots, b);
  }

  lemma PassesOf(f: Forest, slots: Slots) returns (pushed: Slots)
    requires f.Valid() && IsCompacted(f, slots)
    ensures ForwardOk(f, pushed, f.blocks.Keys) && pushed.Keys == slots.Keys
    ensures forall b :: b in slots ==> Centred(f, pushed, slots, b)
  {
    hide Forest.Valid, IsLayout, AreRows, Compacted, Pushed, ForwardOk, Compact, Centred;
    var original: Slots :| IsLayout(f, original) && IsCompactionOf(f.blocks, f.children, original, slots);
    var rows, heights :|
      AreRows(f.blocks, rows, heights) && slots == Compacted(f.blocks, f.children, original, rows, heights);
    CompactionOfForest(f, original, rows, heights);
    pushed := Pushed(f.blocks, original, rows, heights);
  }

  lemma FourSlots(f: Forest, slots: Slots)
    requires IsFourForest(f) && IsCompacted(f, slots)
    ensures SlotKey(slots)(0) == SlotKey(slots)(1) == 0.0
  {
    var pushed := PassesOf(f, slots);
    hide IsCompacted, ForwardOk, Centred, Forest.Valid, Forest.Kids;
    FourFacts(f.blocks);
    ForwardKeys(f, pushed);
    AloneSlots(f, pushed, slots, 0);
    AloneSlots(f, pushed, slots, 1);
    AloneSlots(f, pushed, slots, 2);
    AloneSlots(f, pushed, slots, 3);
  }

  lemma ForwardKeys(f: Forest, pushed: Slots)
    requires f.Valid() && ForwardOk(f, pushed, f.blocks.Keys)
    ensures pushed.Keys == f.blocks.Keys
  {
    hide Forest.Valid, Spaced, PushedTo;
  }

  // ----- The fold

  lemma QuietFour(f: Forest)
    requires IsFourForest(f)
    ensures InQuietTriple(f, 1) && InQuietTriple(f, 2) && InQuietTriple(f, 3) && Protected(f.blocks, 0)
  {
    FourFacts(f.blocks);
    assert forall h :: !ForkHeight(f.blocks, h);
    assert QuietLink(f, 1, 2) && QuietLink(f, 2, 3);
  }

  /** The second tree is folded, and nothing else. */
  ghost predicate IsFoldOfFour(f: Forest, segs: seq<FoldSegment>) {
    && |segs| == 1 && segs[0].blockIds == [1, 2, 3] && segs[0].predecessor.None? && segs[0].startHeight == 1
    && forall b :: b in f.blocks ==> (InFold(segs, b) <==> b != 0)
  }

  lemma FoldOfFour(f: Forest, segs: seq<FoldSegment>)
    requires IsFourForest(f) && IsFolding(f, segs)
    ensures IsFoldOfFour(f, segs)
  {
    hide *;
    QuietFour(f);
    FoldedFour(f, segs);
    var i := FoldWithOne(f, segs);
    if |segs| > 1 {
      var j := if i == 0 then 1 else 0;
      FirstUnprotected(f, segs, j);
      SameSegment(segs, i, j, segs[j].blockIds[0]);
    }
    OneFold(f, segs);
  }

  lemma FoldedFour(f: Forest, segs: seq<FoldSegment>)
    requires IsFourForest(f) && IsFolding(f, segs) && Protected(f.blocks, 0)
    requires InQuietTriple(f, 1) && InQuietTriple(f, 2) && InQuietTriple(f, 3)
    ensures AreSegments(f, segs) && DisjointFolds(segs) && AreFour(f.blocks)
    ensures !InFold(segs, 0) && InFold(segs, 1) && InFold(segs, 2) && InFold(segs, 3)
  {
    hide Forest.Valid, Forest.Kids, Protected, InQuietTriple, InFold;
    ProtectedIsVisible(f, segs);
  }

  lemma FoldWithOne(f: Forest, segs: seq<FoldSegment>) returns (i: nat)
    requires IsFourForest(f) && AreSegments(f, segs) && Protected(f.blocks, 0) && InFold(segs, 1)
    ensures i < |segs| && segs[i].blockIds == [1, 2, 3] && segs[i].predecessor.None? && segs[i].startHeight == 1
  {
    hide IsFourForest, Protected, DisjointFolds;
    i :| 0 <= i < |segs| && 1 in segs[i].blockIds;
    assert IsSegment(f, segs[i]);
    FoldHasOne(f, segs[i]);
  }

  lemma OneFold(f: Forest, segs: seq<FoldSegment>)
    requires AreFour(f.blocks) && |segs| == 1 && segs[0].blockIds == [1, 2, 3]
    requires segs[0].predecessor.None? && segs[0].startHeight == 1
    requires !InFold(segs, 0) && InFold(segs, 1) && InFold(segs, 2) && InFold(segs, 3)
    ensures IsFoldOfFour(f, segs)
  {
    hide InFold;
  }

  lemma FirstUnprotected(f: Forest, segs: seq<FoldSegment>, j: nat)
    requires AreSegments(f, segs) && AreFour(f.blocks) && Protected(f.blocks, 0) && j < |segs|
    ensures segs[j].blockIds != [] && segs[j].blockIds[0] in segs[j].blockIds
    ensures segs[j].blockIds[0] in [1, 2, 3]
  {
    hide Forest.Kids, DisjointFolds, Protected;
    assert IsSegment(f, segs[j]);
    assert segs[j].blockIds[0] in f.blocks;
    assert [1, 2, 3][0] == 1 && [1, 2, 3][1] == 2 && [1, 2, 3][2] == 3;
  }

  lemma FoldHeights(f: Forest, s: FoldSegment)
    requires AreFour(f.blocks) && IsSegment(f, s) && Protected(f.blocks, 0)
    ensures |s.blockIds| >= 3 && s.predecessor == Parent(f.blocks, s.blockIds[0])
    ensures s.startHeight + |s.blockIds| <= 4
    ensures forall u :: 0 <= u < |s.blockIds| ==> s.blockIds[u] == s.startHeight + u && s.blockIds[u] in {1, 2, 3}
  {
    FourFacts(f.blocks);
    hide Forest.Kids, Protected, Parent;
    forall u | 0 <= u < |s.blockIds|
      ensures s.blockIds[u] == s.startHeight + u && s.blockIds[u] in {1, 2, 3}
    {
      assert s.blockIds[u] in f.blocks && !Protected(f.blocks, s.blockIds[u]);
    }
    assert s.blockIds[|s.blockIds| - 1] <= 3;
  }

  lemma FoldHasOne(f: Forest, s: FoldSegment)
    requires IsFourForest(f) && IsSegment(f, s) && 1 in s.blockIds && Protected(f.blocks, 0)
    ensures s.blockIds == [1, 2, 3] && s.predecessor.None? && s.startHeight == 1
  {
    FoldHeights(f, s);
    FourFacts(f.blocks);
    hide Forest.Valid, Forest.Kids, Protected, IsSegment, AreFour, IsFourForest, Parent;
    assert s.blockIds[0] in {1, 2, 3} && s.blockIds[2] in {1, 2, 3};
    assert s.startHeight == 1;
  }

  // ----- The overlap

  /** The fold is in the column after the one of the lone block. */
  lemma FourColumns(f: Forest, g: Graph)
    requires IsFourForest(f) && Shows(f, g, true) && IsDrawn(f, g) && IsFoldOfFour(f, g.segments)
    ensures NodeColumn(f, g, BlockNode(0)) + 1 == FoldDepth(g, 0)
  {
    hide *;
    var columns := ColumnsOf(f, g, true);
    FourMeans(f, g.segments);
    TwoColumns(f, g, columns);
    ColumnsAdjacent(f, g, columns);
  }

  lemma FourMeans(f: Forest, segs: seq<FoldSegment>)
    requires IsFourForest(f) && IsFoldOfFour(f, segs)
    ensures AreFour(f.blocks) && KeysAreIds(f.blocks) && |segs| == 1
  {
    hide InFold, Forest.Valid;
  }

  lemma TwoColumns(f: Forest, g: Graph, columns: seq<Column>)
    requires AreFour(f.blocks) && KeysAreIds(f.blocks) && IsFoldOfFour(f, g.segments)
    requires ShowsRest(f, g.segments, g.visible) && AreColumns(g.visible, g.segments, columns)
    ensures Distinct(columns) && HeightColumn(0) in columns && FoldColumn(g.segments[0].id, 1) in columns
    ensures forall c :: c in columns ==> c == HeightColumn(0) || c == FoldColumn(g.segments[0].id, 1)
  {
    FourFacts(f.blocks);
    hide InFold;
    assert f.blocks[0] in g.visible && f.blocks[0].height == 0;
    assert IsColumn(g.visible, g.segments, HeightColumn(0));
    assert g.segments[0].startHeight == 1;
    assert IsColumn(g.visible, g.segments, FoldColumn(g.segments[0].id, 1));
    assert forall b :: b in g.visible ==> b == f.blocks[0];
  }

  lemma TwoInOrder(columns: seq<Column>, x: Column, y: Column)
    requires Distinct(columns) && InKeyOrder(columns) && x in columns && y in columns && SortKey(x) < SortKey(y)
    requires forall c :: c in columns ==> c == x || c == y
    ensures columns == [x, y]
  {
    DistinctCardinality(columns);
    assert ToSet(columns) == {x, y};
  }

  lemma ColumnsAdjacent(f: Forest, g: Graph, columns: seq<Column>)
    requires AreFour(f.blocks) && |g.segments| == 1
    requires InKeyOrder(columns) && IsLookup(columns, g.heightToDepth, g.foldToDepth)
    requires Distinct(columns) && HeightColumn(0) in columns && FoldColumn(g.segments[0].id, 1) in columns
    requires forall c :: c in columns ==> c == HeightColumn(0) || c == FoldColumn(g.segments[0].id, 1)
    ensures NodeColumn(f, g, BlockNode(0)) + 1 == FoldDepth(g, 0)
  {
    TwoInOrder(columns, HeightColumn(0), FoldColumn(g.segments[0].id, 1));
    assert columns[0].height == 0 && columns[1].segment == g.segments[0].id;
    assert f.blocks[0].height == 0;
  }

  lemma MineOfLone(f: Forest, g: Graph) returns (k: nat)
    requires IsFourForest(f) && Shows(f, g, true) && IsFoldOfFour(f, g.segments)
    ensures k < |g.mines| && g.mines[k].block == 0
  {
    FourFacts(f.blocks);
    MineableDistinct(g.visible, |g.visible|);
    assert f.blocks[0] in g.visible && f.blocks[0].mineable && f.blocks[0].id == 0;
    var j :| 0 <= j < |g.visible| && g.visible[j] == f.blocks[0];
    hide ShowsRest, AreEdges, AreMineEdges, IsDepthLookup, MinesPlaced, MineableIds, IsFourForest, IsFoldOfFour;
    assert 0 in MineableIds(g.visible, |g.visible|);
    k :| 0 <= k < |MineableIds(g.visible, |g.visible|)| && MineableIds(g.visible, |g.visible|)[k] == 0;
  }

  lemma GraphIsFolded(f: Forest, g: Graph)
    requires f.Valid() && IsGraphOf(f, g, true)
    ensures IsCompacted(f, g.slots) && IsFolding(f, g.segments)
  {}

  /** In the folded picture of these four blocks the mine node of the lone block lies on the folded second tree. */
  lemma MineOnFold(f: Forest, g: Graph) returns (k: nat)
    requires IsForestOf(f, OVERLAP_BLOCKS) && Shows(f, g, true)
    requires f.Valid() ==> IsGraphOf(f, g, true) && IsDrawn(f, g)
    ensures k < |g.mines| && |g.segments| == 1 && g.segments[0].blockIds != []
    ensures Overlap(MineRect(g.mines[k]), RectOfFold(g, g.segments[0]))
  {
    FourForest(f);
    GraphIsFolded(f, g);
    FoldOfFour(f, g.segments);
    FourSlots(f, g.slots);
    FourColumns(f, g);
    k := MineOfLone(f, g);
    FourOverlap(f, g, k);
  }

  lemma FourOverlap(f: Forest, g: Graph, k: nat)
    requires f.Valid() && KeysAreIds(f.blocks) && Shows(f, g, true) && IsDrawn(f, g) && k < |g.mines|
    requires g.mines[k].block == 0 && IsFoldOfFour(f, g.segments)
    requires NodeColumn(f, g, BlockNode(0)) + 1 == FoldDepth(g, 0)
    requires SlotKey(g.slots)(0) == SlotKey(g.slots)(1) == 0.0
    ensures g.segments[0].blockIds != [] && Overlap(MineRect(g.mines[k]), RectOfFold(g, g.segments[0]))
  {
    hide Forest.Valid, KeysAreIds, Shows, IsDrawn, InFold, NodeColumn, FoldDepth, SlotKey, Overlap, MineRect,
      RectOfFold;
    MineOverlapsFoldIff(f, g, true, k, 0);
  }
}
