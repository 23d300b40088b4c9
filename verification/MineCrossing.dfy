/** Seven blocks whose picture has a crossing: an edge to a mine node over an edge of the tree. */
module MineCrossing {
  import opened Wrappers
  import opened BlockForest
  import opened ForestNumbering
  import opened SlotLayout
  import opened SlotCompaction
  import opened CompactionLaws
  import opened Folding
  import opened FoldGraph
  import opened MineSlots
  import opened Placement
  import opened MineNodes
  import opened G = Graph
  import opened DrawnEdges

  /** A root with three children, each of which has one child; blocks can be mined on the second of the three. */
  const CROSSING_BLOCKS: seq<Block> := [
    Block(0, None, 0, 0, false, false),
    Block(1, Some(0), 1, 1, false, false),
    Block(2, Some(0), 1, 2, true, true),
    Block(3, Some(0), 1, 3, false, false),
    Block(4, Some(1), 2, 4, true, false),
    Block(5, Some(2), 2, 5, true, false),
    Block(6, Some(3), 2, 6, true, false)
  ]

  /** The map of the seven blocks. */
  ghost predicate AreSeven(m: BlockMap) {
    && m.Keys == {0, 1, 2, 3, 4, 5, 6}
    && forall i: nat :: i < 7 ==> m[i] == CROSSING_BLOCKS[i]
  }

  lemma MapOfSeven(f: Forest)
    requires IsForestOf(f, CROSSING_BLOCKS)
    ensures AreSeven(f.blocks) && KeysAreIds(f.blocks) && f.Valid() && UniqueIds(CROSSING_BLOCKS)
  {
    BlockIds(f, CROSSING_BLOCKS);
    SevenAreMapped(f.blocks);
    SevenRise(f.blocks);
    hide *;
  }

  lemma SevenAreMapped(m: BlockMap)
    requires IsBlockMap(CROSSING_BLOCKS, m)
    ensures AreSeven(m)
  {
    var b := CROSSING_BLOCKS;
    forall i: nat | i < 7
      ensures i in m && m[i] == b[i]
    {
      assert b[i].id == i;
    }
    forall id | id in m
      ensures id < 7
    {
      var j :| 0 <= j < 7 && b[j] == m[id];
    }
  }

  lemma SevenParents(m: BlockMap)
    requires AreSeven(m)
    ensures Parent(m, 0) == None
    ensures Parent(m, 1) == Parent(m, 2) == Parent(m, 3) == Some(0)
    ensures Parent(m, 4) == Some(1) && Parent(m, 5) == Some(2) && Parent(m, 6) == Some(3)
  {}

  lemma SevenRise(m: BlockMap)
    requires AreSeven(m)
    ensures Rising(m)
  {
    SevenParents(m);
  }

  lemma SevenOrder(m: BlockMap)
    requires AreSeven(m)
    ensures !IdLe(m, 2, 1) && !IdLe(m, 3, 2) && !IdLe(m, 3, 1)
  {}

  /** The seven blocks as a forest. */
  ghost predicate IsSevenForest(f: Forest) {
    && f.Valid() && AreSeven(f.blocks) && KeysAreIds(f.blocks)
    && f.roots == [0] && f.Kids(0) == [1, 2, 3] && f.Kids(1) == [4] && f.Kids(2) == [5] && f.Kids(3) == [6]
    && f.Kids(4) == f.Kids(5) == f.Kids(6) == []
  }

  lemma SevenFamilies(f: Forest)
    requires f.Valid() && AreSeven(f.blocks) && KeysAreIds(f.blocks)
    ensures IsSevenForest(f)
  {
    var m := f.blocks;
    SevenParents(m);
    SevenOrder(m);
    assert forall b :: b in m ==> b == 0 || b == 1 || b == 2 || b == 3 || b == 4 || b == 5 || b == 6;
    FamiliesOf(f);
    hide *;
    FamilyOfOne(m, None, f.roots, 0);
    FamilyOfThree(m, Some(0), f.Kids(0), 1, 2, 3);
    FamilyOfOne(m, Some(1), f.Kids(1), 4);
    FamilyOfOne(m, Some(2), f.Kids(2), 5);
    FamilyOfOne(m, Some(3), f.Kids(3), 6);
    FamilyOfNone(m, Some(4), f.Kids(4));
    FamilyOfNone(m, Some(5), f.Kids(5));
    FamilyOfNone(m, Some(6), f.Kids(6));
  }

  // ----- The only slots there are

  lemma OneLeaf(f: Forest, b: nat)
    requires f.Valid() && b in f.blocks && f.Kids(b) == []
    ensures LeafCount(f, b) == 1
  {}

  lemma OneKidLeaves(f: Forest, b: nat, k: nat)
    requires f.Valid() && b in f.blocks && k in f.blocks && f.Kids(b) == [k] && LeafCount(f, k) == 1
    ensures LeafCount(f, b) == 1
  {
    hide Forest.Valid, Forest.Kids;
    assert LeafSum(f, b, 0) == 0 && LeafSum(f, b, 1) == 1;
  }

  /** Three leaves, and the children of the root from left to right. */
  lemma SevenLeaves(f: Forest)
    requires IsSevenForest(f)
    ensures f.Valid() && f.blocks.Keys == {0, 1, 2, 3, 4, 5, 6}
    ensures RootSum(f, |f.roots|) == 3 && Before(f, 1, 2) && Before(f, 2, 3)
  {
    hide Forest.Valid, Forest.Kids;
    OneLeaf(f, 4);
    OneLeaf(f, 5);
    OneLeaf(f, 6);
    OneKidLeaves(f, 1, 4);
    OneKidLeaves(f, 2, 5);
    OneKidLeaves(f, 3, 6);
    KidIndex(f, 0, 0);
    KidIndex(f, 0, 1);
    KidIndex(f, 0, 2);
    RootIndex(f, 0);
    hide First;
    assert LeafSum(f, 0, 0) == 0 && RootSum(f, 0) == 0;
    LeafCountIsSum(f, 0);
  }

  lemma KidsInOrder(f: Forest, slots: Slots, a: nat, b: nat)
    requires f.Valid() && Compact(f, slots) && a in f.blocks && b in f.blocks
    requires f.blocks[a].height == f.blocks[b].height
    requires Parent(f.blocks, a).Some? && Parent(f.blocks, b).Some?
    ensures var p, q := Parent(f.blocks, a).value, Parent(f.blocks, b).value;
            p in slots && q in slots && a in slots && b in slots && (slots[p] < slots[q] ==> slots[a] <= slots[b])
  {
    ParentListsKid(f, a);
    ParentListsKid(f, b);
    hide *;
    CompactKeys(f, slots);
    if slots[b] < slots[a] {
      NoCrossings(f, slots, b, a);
    }
  }

  /** The rows are full, so every compacted layout has these slots. */
  lemma SevenSlots(f: Forest, slots: Slots)
    requires IsSevenForest(f) && Compact(f, slots)
    ensures slots.Keys == f.blocks.Keys == {0, 1, 2, 3, 4, 5, 6}
    ensures slots[1] == 0.0 && slots[2] == 1.0 && slots[3] == 2.0
    ensures slots[4] == 0.0 && slots[5] == 1.0 && slots[6] == 2.0
  {
    SevenLeaves(f);
    SevenParents(f.blocks);
    SlotBounds(f, slots);
    hide IsSevenForest, Forest.Valid, Compact, Before, RootSum;
    var m := f.blocks;
    assert m[1].height == m[2].height == m[3].height == 1 && m[4].height == m[5].height == m[6].height == 2;
    CompactionSeparates(f, slots, 1, 2);
    CompactionSeparates(f, slots, 2, 3);
    CompactionSeparates(f, slots, 4, 5);
    CompactionSeparates(f, slots, 5, 6);
    KidsInOrder(f, slots, 4, 5);
    KidsInOrder(f, slots, 5, 6);
  }

  lemma SlotBounds(f: Forest, slots: Slots)
    requires f.Valid() && Compact(f, slots) && RootSum(f, |f.roots|) == 3
    ensures slots.Keys == f.blocks.Keys && forall b :: b in slots ==> 0.0 <= slots[b] <= 2.0
  {
    hide Forest.Valid, RootSum, Spaced;
  }

  // ----- The crossing

  lemma SevenProtected(m: BlockMap, b: nat)
    requires AreSeven(m) && b in m
    ensures Protected(m, b)
  {
    assert m[1].height == m[2].height == 1 && m[4].height == m[5].height == 2;
    assert ForkHeight(m, 1) && ForkHeight(m, 2);
  }

  lemma SevenVisible(f: Forest, g: Graph)
    requires IsSevenForest(f) && Shows(f, g, true) && IsDrawn(f, g)
    ensures forall b :: b in f.blocks ==> !InFold(g.segments, b) && f.blocks[b] in g.visible
  {
    forall b | b in f.blocks
      ensures Protected(f.blocks, b)
    {
      SevenProtected(f.blocks, b);
    }
    hide Forest.Valid, AreSeven, InFold, AreEdges, AreMineEdges, IsDepthLookup, MinesPlaced, MinesFor, Compact,
      Protected;
    ProtectedIsVisible(f, g.segments);
  }

  lemma MineOfTwo(f: Forest, g: Graph) returns (k: nat)
    requires IsSevenForest(f) && Shows(f, g, true) && IsDrawn(f, g)
    ensures k < |g.mines| && g.mines[k].block == 2
  {
    SevenVisible(f, g);
    MineableDistinct(g.visible, |g.visible|);
    assert f.blocks[2].mineable && f.blocks[2].id == 2;
    var j :| 0 <= j < |g.visible| && g.visible[j] == f.blocks[2];
    hide IsDrawn, ShowsRest, AreEdges, AreMineEdges, IsDepthLookup, MinesPlaced, MineableIds, IsSevenForest;
    assert 2 in MineableIds(g.visible, |g.visible|);
    k :| 0 <= k < |MineableIds(g.visible, |g.visible|)| && MineableIds(g.visible, |g.visible|)[k] == 2;
  }

  lemma NextSlotOfOneKid(f: Forest, slots: Slots, b: nat, k: nat, v: real)
    requires f.Valid() && b in f.blocks && k in f.blocks && f.Kids(b) == [k] && f.Kids(k) == []
    requires IsNextSlot(f, slots, b, v)
    ensures v == SlotKey(slots)(k) + 1.0
  {
    hide Forest.Valid, Forest.Kids, Below, SlotKey;
    forall d
      ensures d in Below(f, b) <==> d == b || d == k
    {
      InBelowKids(f, b, d);
      InBelowKids(f, k, d);
      assert [k][0] == k;
    }
  }

  lemma SevenMineSlot(f: Forest, slots: Slots, v: real)
    requires IsSevenForest(f) && Compact(f, slots) && IsNextSlot(f, slots, 2, v)
    ensures v == 2.0 && SlotKey(slots)(2) == 1.0 && SlotKey(slots)(3) == 2.0 && SlotKey(slots)(6) == 2.0
  {
    SevenSlots(f, slots);
    hide Forest.Valid, Compact, IsNextSlot;
    NextSlotOfOneKid(f, slots, 2, 5, v);
  }

  lemma SevenEdge(f: Forest, g: Graph)
    requires IsSevenForest(f) && Shows(f, g, true) && IsDrawn(f, g)
    ensures Edge(BlockNode(3), BlockNode(6)) in g.blockEdges
  {
    SevenVisible(f, g);
    SevenParents(f.blocks);
    TreeEdgeIn(f, g, true, 3, 6);
  }

  lemma SevenHeights(f: Forest, g: Graph)
    requires IsSevenForest(f)
    ensures NodeColumn(f, g, BlockNode(2)) == NodeColumn(f, g, BlockNode(3))
  {
    hide Forest.Valid, DepthOf;
  }

  lemma SlotOfBlock(g: Graph, b: nat)
    ensures NodeSlot(g, BlockNode(b)) == SlotKey(g.slots)(b)
  {}

  lemma SevenCross(f: Forest, g: Graph, k: nat)
    requires IsSevenForest(f) && f.Valid() && KeysAreIds(f.blocks) && Shows(f, g, true) && IsDrawn(f, g)
    requires k < |g.mines| == |g.mineEdges| && g.mines[k].block == 2
    requires Edge(BlockNode(3), BlockNode(6)) in g.blockEdges
    ensures Cross(f, g, g.mineEdges[k], Edge(BlockNode(3), BlockNode(6)))
  {
    hide *;
    var e := Edge(BlockNode(3), BlockNode(6));
    SevenHeights(f, g);
    MineEdgeEnds(f, g, true, k);
    DrawnIsCompact(f, g);
    InAllEdges(g, e);
    EdgesJoinNeighbours(f, g, true, e);
    var v, b := MineBlock(f, g, true, k);
    SevenMineSlot(f, g.slots, v);
    SlotOfBlock(g, 2);
    SlotOfBlock(g, 3);
    SlotOfBlock(g, 6);
    EdgeEnds(f, g, true, e);
    NodeOccupies(f, g, true, k, e.target);
    SameSlot(v);
    TakenBy(g, k, v, 2.0);
    MineSlotIs(f, g, true, k, v);
    CrossMeans(f, g, g.mineEdges[k], e);
  }

  lemma InAllEdges(g: Graph, e: FoldGraph.Edge)
    requires e in g.blockEdges
    ensures e in g.Edges()
  {}

  lemma SameSlot(v: real)
    ensures !Apart(v, v)
  {}

  /** Whatever the layout makes of these seven blocks, folded or not: the slot of the one mine node is taken, it is
      moved past all others, and the edge to it crosses the edge of the block below. */
  lemma MineEdgeCanCross(f: Forest, g: Graph) returns (d: FoldGraph.Edge, e: FoldGraph.Edge)
    requires IsForestOf(f, CROSSING_BLOCKS) && Shows(f, g, true) && (f.Valid() ==> IsDrawn(f, g))
    ensures d in g.mineEdges && e in g.blockEdges && Cross(f, g, d, e)
  {
    hide *;
    MapOfSeven(f);
    SevenFamilies(f);
    var k := MineOfTwo(f, g);
    SevenEdge(f, g);
    SameLength(f, g, true);
    SevenCross(f, g, k);
    d, e := g.mineEdges[k], Edge(BlockNode(3), BlockNode(6));
  }

  lemma DrawnIsCompact(f: Forest, g: Graph)
    requires f.Valid() && IsDrawn(f, g)
    ensures Compact(f, g.slots)
  {}

  lemma TakenBy(g: Graph, k: nat, v: real, x: real)
    requires k < |g.mines| && !Apart(x, v)
    requires Scene(g.visible, g.heightToDepth, g.slots).Occupied(g.mines[..k], g.mines[k].depth, x)
    ensures Taken(g, k, v)
  {
    hide Scene.Occupied, Apart;
  }
}
