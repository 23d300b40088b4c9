/** The whole graph: layout, folding, columns, edges and mine nodes of one list of blocks. */
module Graph {
  import opened BlockForest
  import opened ForestNumbering
  import opened SlotLayout
  import opened ForestLayout
  import opened SlotCompaction
  import opened CompactionLaws
  import opened Folding
  import opened FoldGraph
  import opened MineSlots
  import opened Placement
  import opened MineNodes

  datatype Graph = Graph(segments: seq<FoldSegment>, blockEdges: seq<FoldGraph.Edge>, visible: seq<Block>, slots: Slots,
                         heightToDepth: map<nat, nat>, foldToDepth: map<(nat, nat), nat>, mines: seq<MineNode>,
                         mineEdges: seq<FoldGraph.Edge>) {

    /** The edges of the tree and of its folds, and then those to the mine nodes. */
    function Edges(): seq<FoldGraph.Edge> {
      blockEdges + mineEdges
    }
  }

  /** Every child is one above its parent. */
  ghost predicate Rising(m: BlockMap) {
    forall b :: b in m && Parent(m, b).Some? ==> m[b].height == m[Parent(m, b).value].height + 1
  }

  /** The forest of a list of blocks. */
  ghost predicate IsForestOf(f: Forest, blocks: seq<Block>) {
    && UniqueIds(blocks) && IsBlockMap(blocks, f.blocks) && ListsBlocks(f)
    && f.Families() && (Rising(f.blocks) ==> f.Valid())
  }

  /** The slots are those of a compacted layout. */
  ghost predicate IsCompacted(f: Forest, slots: Slots)
    requires f.Valid()
  {
    exists original: Slots :: IsLayout(f, original) && IsCompactionOf(f.blocks, f.children, original, slots)
  }

  /** What the graph shows, whatever the blocks are. */
  ghost predicate Shows(f: Forest, g: Graph, hasNetwork: bool) {
    && f.blocks.Keys <= g.slots.Keys
    && UniqueIds(g.visible) && ShowsRest(f, g.segments, g.visible)
    && AreEdges(f, g.segments, g.blockEdges) && AreMineEdges(g.mines, g.mineEdges)
    && IsDepthLookup(g.visible, g.segments, g.heightToDepth, g.foldToDepth)
    && MinesPlaced(f, Scene(g.visible, g.heightToDepth, g.slots), g.mines)
    && (if hasNetwork then MinesFor(g.visible, g.mines) else g.mines == [])
  }

  /** One mine node for each block that can be mined on, in order. */
  ghost predicate MinesFor(visible: seq<Block>, mines: seq<MineNode>) {
    && |mines| == |MineableIds(visible, |visible|)|
    && forall k :: 0 <= k < |mines| ==> mines[k].block == MineableIds(visible, |visible|)[k]
  }

  /** What the graph of a forest is. */
  ghost predicate IsGraphOf(f: Forest, g: Graph, collapsed: bool)
    requires f.Valid()
  {
    IsCompacted(f, g.slots) && if collapsed then IsFolding(f, g.segments) else g.segments == []
  }

  method BuildForest(blocks: seq<Block>) returns (f: Forest)
    requires UniqueIds(blocks)
    ensures IsForestOf(f, blocks)
  {
    var m := BuildBlockMap(blocks);
    var children := BuildChildrenMap(blocks, m);
    var roots := GetRootBlocks(blocks, m);
    f := Forest(m, children, roots);
    hide IsFamily, BlockForest.Kids, GetList, IsBlockMap;
  }

  lemma BlockIds(f: Forest, blocks: seq<Block>)
    requires IsForestOf(f, blocks)
    ensures KeysAreIds(f.blocks) && IsBlockMap(blocks, f.blocks) && UniqueIds(blocks)
    ensures f.Families() && ListsBlocks(f) && (Rising(f.blocks) ==> f.Valid())
  {
    hide Forest.Valid, Forest.Families;
  }

  /** All slots: the depth-first layout, compacted. */
  method ComputeSlots(f: Forest, blocks: seq<Block>) returns (slots: Slots)
    requires IsForestOf(f, blocks)
    ensures f.blocks.Keys <= slots.Keys
    ensures Rising(f.blocks) ==> f.Valid() && IsCompacted(f, slots)
  {
    hide *;
    BlockIds(f, blocks);
    var ids := IdsOf(blocks);
    IdsListed(f, blocks, ids);
    var original := CreateSlotLayout(f, ids);
    slots := CompactSlots(original, blocks, f.blocks, f.children);
    if Rising(f.blocks) {
      LayoutOfForest(f, ids);
      CompactedBy(f, original, slots);
    }
  }

  method IdsOf(blocks: seq<Block>) returns (ids: seq<nat>)
    ensures |ids| == |blocks| && forall i :: 0 <= i < |blocks| ==> ids[i] == blocks[i].id
  {
    ids := [];
    for i := 0 to |blocks|
      invariant |ids| == i && forall j :: 0 <= j < i ==> ids[j] == blocks[j].id
    {
      ids := ids + [blocks[i].id];
    }
  }

  lemma IdsListed(f: Forest, blocks: seq<Block>, ids: seq<nat>)
    requires IsBlockMap(blocks, f.blocks) && |ids| == |blocks|
    requires forall i :: 0 <= i < |blocks| ==> ids[i] == blocks[i].id
    ensures forall b :: b in ids <==> b in f.blocks
  {
    forall b | b in f.blocks
      ensures b in ids
    {
      var i :| 0 <= i < |blocks| && blocks[i] == f.blocks[b];
      assert ids[i] == b;
    }
  }

  lemma CompactedBy(f: Forest, original: Slots, slots: Slots)
    requires f.Valid() && IsLayout(f, original) && IsCompactionOf(f.blocks, f.children, original, slots)
    ensures IsCompacted(f, slots)
  {
    hide Forest.Valid, IsLayout, IsCompactionOf;
  }

  lemma VisibleRest(f: Forest, blocks: seq<Block>, segs: seq<FoldSegment>, visible: seq<Block>)
    requires IsForestOf(f, blocks) && forall b :: b in visible <==> b in blocks && !InFold(segs, b.id)
    ensures ShowsRest(f, segs, visible) && forall b :: b in visible ==> b.id in f.blocks
  {
    hide Forest.Valid, InFold, ListsBlocks, Rising;
    assert forall b :: b in blocks <==> b.id in f.blocks && f.blocks[b.id] == b;
  }

  /** The graph of the page. */
  method BuildReactFlowGraph(blocks: seq<Block>, hasNetwork: bool, globalCollapsed: bool) returns (f: Forest, g: Graph)
    requires UniqueIds(blocks)
    ensures IsForestOf(f, blocks) && Shows(f, g, hasNetwork)
    ensures if globalCollapsed then FoldsSteps(f, g.segments) else g.segments == []
    ensures Rising(f.blocks) ==> f.Valid() && IsGraphOf(f, g, globalCollapsed) && IsDrawn(f, g)
  {
    hide *;
    f := BuildForest(blocks);
    BlockIds(f, blocks);
    var slots := ComputeSlots(f, blocks);
    var resolver := new NextMineSlotResolver(f, slots);
    var blockEdges, segs, visible := BuildGraphEdges(f, blocks, globalCollapsed);
    VisibleRest(f, blocks, segs, visible);
    FoldsIdentified(f, segs);
    SegmentIdsDistinct(segs);
    var heightToDepth, foldToDepth := CreateDepthLookup(visible, segs);
    var scene := Scene(visible, heightToDepth, slots);
    var mines, mineEdges := BuildMineGraphElements(scene, hasNetwork, resolver);
    g := Graph(segs, blockEdges, visible, slots, heightToDepth, foldToDepth, mines, mineEdges);
    ShowsAll(f, g, hasNetwork);
    if Rising(f.blocks) {
      GraphOf(f, g, globalCollapsed);
      GraphIsDrawn(f, g, globalCollapsed);
    }
  }

  lemma FoldsIdentified(f: Forest, segs: seq<FoldSegment>)
    ensures forall i :: 0 <= i < |segs| && Foldable(f, segs[i]) ==> IdentifiedByEnds(segs[i])
  {
    hide Protected, OnlyChild;
  }

  lemma ShowsAll(f: Forest, g: Graph, hasNetwork: bool)
    requires f.blocks.Keys <= g.slots.Keys && UniqueIds(g.visible) && ShowsRest(f, g.segments, g.visible)
    requires AreEdges(f, g.segments, g.blockEdges) && AreMineEdges(g.mines, g.mineEdges)
    requires IsDepthLookup(g.visible, g.segments, g.heightToDepth, g.foldToDepth)
    requires MinesPlaced(f, Scene(g.visible, g.heightToDepth, g.slots), g.mines)
    requires !hasNetwork ==> g.mines == []
    requires hasNetwork ==> |g.mines| == |MineableIds(g.visible, |g.visible|)|
    requires hasNetwork ==> forall k :: 0 <= k < |g.mines| ==>
            g.mines[k].block == MineableIds(g.visible, |g.visible|)[k]
    ensures Shows(f, g, hasNetwork)
  {
    hide UniqueIds, ShowsRest, AreEdges, AreMineEdges, IsDepthLookup, MinesPlaced;
  }

  lemma GraphOf(f: Forest, g: Graph, collapsed: bool)
    requires f.Valid() && IsCompacted(f, g.slots) && if collapsed then IsFolding(f, g.segments) else g.segments == []
    ensures IsGraphOf(f, g, collapsed)
  {
    hide Forest.Valid, IsCompacted, IsFolding;
  }

  // ----- What the picture looks like

  lemma CompactedIsCompact(f: Forest, slots: Slots)
    requires f.Valid() && IsCompacted(f, slots)
    ensures Compact(f, slots)
  {
    hide Forest.Valid, IsLayout, AreRows, Compacted, Compact;
    var original: Slots :| IsLayout(f, original) && IsCompactionOf(f.blocks, f.children, original, slots);
    var rows, heights :|
      AreRows(f.blocks, rows, heights) && slots == Compacted(f.blocks, f.children, original, rows, heights);
    CompactionOfForest(f, original, rows, heights);
  }

  /** What the lemmas below use: compacted slots, and segments or none. */
  ghost predicate IsDrawn(f: Forest, g: Graph)
    requires f.Valid()
  {
    Compact(f, g.slots) && AreSegments(f, g.segments)
  }

  lemma GraphIsDrawn(f: Forest, g: Graph, collapsed: bool)
    requires f.Valid() && IsGraphOf(f, g, collapsed)
    ensures IsDrawn(f, g)
  {
    hide Forest.Valid, IsCompacted, Compact, IsSegment;
    CompactedIsCompact(f, g.slots);
  }

  function RectOfBlock(g: Graph, b: Block): Rect {
    BlockRect(DepthOf(g.heightToDepth, b.height), SlotKey(g.slots)(b.id))
  }

  function RectOfFold(g: Graph, s: FoldSegment): Rect
    requires s.blockIds != []
  {
    FoldRect(if s.id in g.foldToDepth then g.foldToDepth[s.id] else 0, SlotKey(g.slots)(s.blockIds[0]))
  }

  lemma VisibleColumn(f: Forest, g: Graph, hasNetwork: bool, b: Block) returns (columns: seq<Column>)
    requires Shows(f, g, hasNetwork) && b in g.visible
    ensures b.id in f.blocks && f.blocks[b.id] == b && !InFold(g.segments, b.id)
    ensures AreColumns(g.visible, g.segments, columns) && InKeyOrder(columns)
    ensures IsLookup(columns, g.heightToDepth, g.foldToDepth)
    ensures b.height in g.heightToDepth
  {
    hide InFold, AreEdges, MinesPlaced, Scene.Lists, InKeyOrder;
    columns :| AreColumns(g.visible, g.segments, columns) && InKeyOrder(columns)
               && IsLookup(columns, g.heightToDepth, g.foldToDepth);
    assert IsColumn(g.visible, g.segments, HeightColumn(b.height));
  }

  /** Columns are strictly increasing in height. */
  lemma ColumnsInOrder(f: Forest, g: Graph, hasNetwork: bool, a: Block, b: Block)
    requires Shows(f, g, hasNetwork) && a in g.visible && b in g.visible
    ensures DepthOf(g.heightToDepth, a.height) < DepthOf(g.heightToDepth, b.height) <==> a.height < b.height
  {
    hide *;
    var columns := VisibleColumn(f, g, hasNetwork, a);
    var _ := VisibleColumn(f, g, hasNetwork, b);
    DepthIs(g.heightToDepth, a.height);
    DepthIs(g.heightToDepth, b.height);
    if a.height < b.height {
      ColumnsIncrease(columns, g.heightToDepth, g.foldToDepth, a.height, b.height);
    } else if b.height < a.height {
      ColumnsIncrease(columns, g.heightToDepth, g.foldToDepth, b.height, a.height);
    }
  }

  lemma DepthIs(heightToDepth: map<nat, nat>, h: nat)
    requires h in heightToDepth
    ensures DepthOf(heightToDepth, h) == heightToDepth[h]
  {}

  /** No two blocks overlap. */
  lemma BlocksDoNotOverlap(f: Forest, g: Graph, hasNetwork: bool, a: Block, b: Block)
    requires f.Valid() && Shows(f, g, hasNetwork) && IsDrawn(f, g) && a in g.visible && b in g.visible && a != b
    ensures !Overlap(RectOfBlock(g, a), RectOfBlock(g, b))
  {
    hide Forest.Valid, Forest.Kids, Shows, AreSegments, Compact, DepthOf;
    var _ := VisibleColumn(f, g, hasNetwork, a);
    var _ := VisibleColumn(f, g, hasNetwork, b);
    ColumnsInOrder(f, g, hasNetwork, a, b);
    ColumnsInOrder(f, g, hasNetwork, b, a);
    var (d, e) := (DepthOf(g.heightToDepth, a.height), DepthOf(g.heightToDepth, b.height));
    if d == e {
      CompactionSeparates(f, g.slots, a.id, b.id);
    }
    ApartRects(RectOfBlock(g, a), RectOfBlock(g, b), d, e, SlotKey(g.slots)(a.id), SlotKey(g.slots)(b.id));
  }

  lemma SegmentsOf(f: Forest, g: Graph)
    requires f.Valid() && IsDrawn(f, g)
    ensures AreSegments(f, g.segments) && DisjointFolds(g.segments)
    ensures forall i :: 0 <= i < |g.segments| ==> g.segments[i].blockIds != []
    ensures DistinctIds(g.segments)
  {
    hide Forest.Valid, Compact, InFold, Protected, Forest.Kids;
    forall i | 0 <= i < |g.segments|
      ensures IdentifiedByEnds(g.segments[i])
    {
      assert IsSegment(f, g.segments[i]);
    }
    SegmentIdsDistinct(g.segments);
  }

  lemma ColumnsOf(f: Forest, g: Graph, hasNetwork: bool) returns (columns: seq<Column>)
    requires Shows(f, g, hasNetwork)
    ensures ShowsRest(f, g.segments, g.visible)
    ensures AreColumns(g.visible, g.segments, columns) && InKeyOrder(columns)
    ensures IsLookup(columns, g.heightToDepth, g.foldToDepth)
  {
    hide ShowsRest, AreEdges, MinesPlaced, AreColumns, InKeyOrder, IsLookup;
    columns :| AreColumns(g.visible, g.segments, columns) && InKeyOrder(columns)
               && IsLookup(columns, g.heightToDepth, g.foldToDepth);
  }

  /** A folded segment is drawn between the columns of the blocks before and after it. */
  lemma FoldsAreBetween(f: Forest, g: Graph, hasNetwork: bool, i: nat)
    requires f.Valid() && KeysAreIds(f.blocks) && Shows(f, g, hasNetwork) && IsDrawn(f, g) && i < |g.segments|
    ensures IsBetween(f, g.segments[i], g.heightToDepth, g.foldToDepth)
  {
    hide *;
    SegmentsOf(f, g);
    var columns := ColumnsOf(f, g, hasNetwork);
    FoldColumnIsBetween(f, g.segments, g.visible, columns, g.heightToDepth, g.foldToDepth, i);
  }

  /** No folded segment overlaps a block. */
  lemma FoldAndBlockDoNotOverlap(f: Forest, g: Graph, hasNetwork: bool, i: nat, b: Block)
    requires f.Valid() && KeysAreIds(f.blocks) && Shows(f, g, hasNetwork) && IsDrawn(f, g)
    requires i < |g.segments| && b in g.visible
    ensures g.segments[i].blockIds != [] && !Overlap(RectOfFold(g, g.segments[i]), RectOfBlock(g, b))
  {
    hide Forest.Valid, Shows, IsDrawn, ShowsRest, AreSegments, AreColumns, InKeyOrder, IsLookup, InFold, DistinctIds,
      DisjointFolds, KeysAreIds;
    SegmentsOf(f, g);
    var columns := ColumnsOf(f, g, hasNetwork);
    FoldColumnIsBetween(f, g.segments, g.visible, columns, g.heightToDepth, g.foldToDepth, i);
    var _ := VisibleColumn(f, g, hasNetwork, b);
    ApartRects(RectOfFold(g, g.segments[i]), RectOfBlock(g, b), g.foldToDepth[g.segments[i].id],
               g.heightToDepth[b.height],
               SlotKey(g.slots)(g.segments[i].blockIds[0]), SlotKey(g.slots)(b.id));
  }

  /** No two folded segments overlap. */
  lemma FoldsDoNotOverlap(f: Forest, g: Graph, hasNetwork: bool, i: nat, j: nat)
    requires f.Valid() && KeysAreIds(f.blocks) && Shows(f, g, hasNetwork) && IsDrawn(f, g) && i < j < |g.segments|
    ensures g.segments[i].blockIds != [] && g.segments[j].blockIds != []
    ensures !Overlap(RectOfFold(g, g.segments[i]), RectOfFold(g, g.segments[j]))
  {
    hide Forest.Valid, Shows, IsDrawn, ShowsRest, AreSegments, AreColumns, InKeyOrder, InFold, DisjointFolds,
      KeysAreIds;
    SegmentsOf(f, g);
    var columns := ColumnsOf(f, g, hasNetwork);
    FoldsAreBetween(f, g, hasNetwork, i);
    FoldsAreBetween(f, g, hasNetwork, j);
    var (s, t) := (g.segments[i], g.segments[j]);
    assert s.id != t.id;
    ApartRects(RectOfFold(g, s), RectOfFold(g, t), g.foldToDepth[s.id], g.foldToDepth[t.id],
               SlotKey(g.slots)(s.blockIds[0]), SlotKey(g.slots)(t.blockIds[0]));
  }

  /** Mine nodes overlap neither each other nor a block, and none is above the slot the resolver gives. */
  lemma MinesDoNotOverlap(f: Forest, g: Graph, hasNetwork: bool, k: nat)
    requires Shows(f, g, hasNetwork) && k < |g.mines|
    ensures forall b :: b in g.visible ==> !Overlap(MineRect(g.mines[k]), RectOfBlock(g, b))
    ensures forall j :: 0 <= j < k ==> !Overlap(MineRect(g.mines[j]), MineRect(g.mines[k]))
    ensures f.Valid() && g.mines[k].block in f.blocks
        ==> exists v :: IsNextSlot(f, g.slots, g.mines[k].block, v) && v <= g.mines[k].slot
  {
    hide Forest.Valid, IsNextSlot, ShowsRest, AreEdges, AreColumns, InKeyOrder, IsLookup, PlacedAt, Overlap, DepthOf,
      SlotKey;
    var scene := Scene(g.visible, g.heightToDepth, g.slots);
    assert MinePlaced(f, scene, g.mines, k);
    var v :| PlacedAt(scene, g.mines, k, v)
             && (f.Valid() && g.mines[k].block in f.blocks ==> IsNextSlot(f, g.slots, g.mines[k].block, v));
    MineNotAbove(scene, g.mines, k, v);
    forall b | b in g.visible
      ensures !Overlap(MineRect(g.mines[k]), RectOfBlock(g, b))
    {
      MineAndBlockApart(scene, g.mines, k, v, b);
    }
    forall j | 0 <= j < k
      ensures !Overlap(MineRect(g.mines[j]), MineRect(g.mines[k]))
    {
      MinesApart(scene, g.mines, j, k, v);
    }
  }

  /** A mine node overlaps no folded segment that has a block before it: the block it belongs to would be that one,
      and the slot below all its children. */
  lemma MineAndFoldDoNotOverlap(f: Forest, g: Graph, hasNetwork: bool, k: nat, i: nat)
    requires f.Valid() && KeysAreIds(f.blocks) && Shows(f, g, hasNetwork) && IsDrawn(f, g) && k < |g.mines|
    requires i < |g.segments| && g.segments[i].predecessor.Some?
    ensures g.segments[i].blockIds != [] && !Overlap(MineRect(g.mines[k]), RectOfFold(g, g.segments[i]))
  {
    hide *;
    SegmentsOf(f, g);
    FoldsAreBetween(f, g, hasNetwork, i);
    BetweenColumn(f, g, i);
    var s, m := g.segments[i], g.mines[k];
    var d := g.foldToDepth[s.id];
    if m.depth == d {
      var v, b := MineBlock(f, g, hasNetwork, k);
      BlockBefore(f, g, hasNetwork, i, b);
      NextSlotPastKid(f, g.slots, b.id, s.blockIds[0], v);
    }
    MineFoldApart(g, m, s, d);
  }

  lemma BetweenColumn(f: Forest, g: Graph, i: nat)
    requires i < |g.segments| && IsBetween(f, g.segments[i], g.heightToDepth, g.foldToDepth)
    ensures g.segments[i].id in g.foldToDepth
  {}

  lemma MineFoldApart(g: Graph, m: MineNode, s: FoldSegment, d: nat)
    requires s.blockIds != [] && s.id in g.foldToDepth && g.foldToDepth[s.id] == d
    requires m.depth == d ==> SlotKey(g.slots)(s.blockIds[0]) + 1.0 <= m.slot
    ensures !Overlap(MineRect(m), RectOfFold(g, s))
  {
    hide SlotKey;
    ApartRects(MineRect(m), RectOfFold(g, s), m.depth, d, m.slot, SlotKey(g.slots)(s.blockIds[0]));
  }

  /** The block of a mine node, and the slot the resolver gives for it. */
  lemma MineBlock(f: Forest, g: Graph, hasNetwork: bool, k: nat) returns (v: real, b: Block)
    requires f.Valid() && Shows(f, g, hasNetwork) && k < |g.mines|
    ensures b in g.visible && b.id in f.blocks && b.id == g.mines[k].block
    ensures g.mines[k].depth == DepthOf(g.heightToDepth, b.height) + 1
    ensures IsNextSlot(f, g.slots, b.id, v) && v <= g.mines[k].slot
  {
    hide Forest.Valid, IsNextSlot, AreEdges, IsDepthLookup, DepthOf, InFold;
    var scene := Scene(g.visible, g.heightToDepth, g.slots);
    assert MinePlaced(f, scene, g.mines, k);
    v :| PlacedAt(scene, g.mines, k, v)
         && (f.Valid() && g.mines[k].block in f.blocks ==> IsNextSlot(f, g.slots, g.mines[k].block, v));
    MineNotAbove(scene, g.mines, k, v);
    b :| b in g.visible && b.mineable && b.id == g.mines[k].block && g.mines[k].depth == scene.Depth(b) + 1;
  }

  /** The one visible block in the column before a folded segment is the block before the segment. */
  lemma BlockBefore(f: Forest, g: Graph, hasNetwork: bool, i: nat, b: Block)
    requires f.Valid() && KeysAreIds(f.blocks) && Shows(f, g, hasNetwork) && IsDrawn(f, g)
    requires i < |g.segments| && g.segments[i].predecessor.Some? && b in g.visible
    requires g.segments[i].id in g.foldToDepth && IsBetween(f, g.segments[i], g.heightToDepth, g.foldToDepth)
    requires DepthOf(g.heightToDepth, b.height) + 1 == g.foldToDepth[g.segments[i].id]
    ensures b.id in f.blocks && g.segments[i].blockIds != [] && g.segments[i].blockIds[0] in f.Kids(b.id)
  {
    hide *;
    SegmentsOf(f, g);
    NextToFold(f, g.segments, i);
    var p := g.segments[i].predecessor.value;
    VisibleBlock(f, g, hasNetwork, p);
    BlockOfVisible(f, g, hasNetwork, b);
    BeforeColumn(f, g, i);
    ColumnsInOrder(f, g, hasNetwork, b, f.blocks[p]);
    ColumnsInOrder(f, g, hasNetwork, f.blocks[p], b);
    AloneBefore(f, g.segments, i, b.id);
  }

  lemma VisibleBlock(f: Forest, g: Graph, hasNetwork: bool, b: nat)
    requires Shows(f, g, hasNetwork) && KeysAreIds(f.blocks) && b in f.blocks && !InFold(g.segments, b)
    ensures f.blocks[b] in g.visible
  {
    hide AreEdges, IsDepthLookup, MinesPlaced, InFold;
  }

  lemma BlockOfVisible(f: Forest, g: Graph, hasNetwork: bool, b: Block)
    requires Shows(f, g, hasNetwork) && b in g.visible
    ensures b.id in f.blocks && f.blocks[b.id] == b
  {
    hide AreEdges, IsDepthLookup, MinesPlaced, InFold;
  }

  lemma BeforeColumn(f: Forest, g: Graph, i: nat)
    requires i < |g.segments| && IsBetween(f, g.segments[i], g.heightToDepth, g.foldToDepth)
    requires g.segments[i].predecessor.Some?
    ensures var s := g.segments[i];
            && s.id in g.foldToDepth && s.predecessor.value in f.blocks
            && DepthOf(g.heightToDepth, f.blocks[s.predecessor.value].height) + 1 == g.foldToDepth[s.id]
  {}

  /** No other block has the height of the block before a segment. */
  lemma AloneBefore(f: Forest, segs: seq<FoldSegment>, i: nat, b: nat)
    requires f.Valid() && AreSegments(f, segs) && i < |segs| && segs[i].predecessor.Some? && b in f.blocks
    requires segs[i].predecessor.value in f.blocks && f.blocks[b].height == f.blocks[segs[i].predecessor.value].height
    ensures segs[i].blockIds != [] && segs[i].blockIds[0] in f.Kids(b)
  {
    hide Forest.Kids, DisjointFolds;
    var s := segs[i];
    assert IsSegment(f, s);
    var x := s.blockIds[0];
    assert x in f.blocks && !Protected(f.blocks, x);
    ParentListsKid(f, x);
    assert !ForkHeight(f.blocks, f.blocks[x].height - 1);
  }

  lemma NextSlotPastKid(f: Forest, slots: Slots, b: nat, kid: nat, v: real)
    requires f.Valid() && b in f.blocks && kid in f.Kids(b) && IsNextSlot(f, slots, b, v)
    ensures SlotKey(slots)(kid) + 1.0 <= v
  {
    var i := IndexOf(f.Kids(b), kid);
    KidFacts(f, b, i);
    InBelowKids(f, kid, kid);
    InBelowKids(f, b, kid);
    BelowKidIsNotSelf(f, b, i, kid);
    hide Forest.Valid, Forest.Kids, Below, SlotKey;
  }
}
