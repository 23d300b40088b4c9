/** Mine nodes and folded segments: exactly when their rectangles overlap. */
module RootFolds {
  import opened BlockForest
  import opened ForestNumbering
  import opened SlotCompaction
  import opened CompactionLaws
  import opened Folding
  import opened FoldGraph
  import opened MineSlots
  import opened Placement
  import opened MineNodes
  import opened G = Graph
  import opened DrawnEdges

  /** The column of a folded segment. */
  ghost function FoldDepth(g: Graph, i: nat): nat
    requires i < |g.segments|
  {
    if g.segments[i].id in g.foldToDepth then g.foldToDepth[g.segments[i].id] else 0
  }

  lemma FoldDepthIs(f: Forest, g: Graph, i: nat)
    requires i < |g.segments|
    ensures NodeColumn(f, g, FoldNode(g.segments[i].id)) == FoldDepth(g, i)
    ensures IsDrawnNode(f, g, FoldNode(g.segments[i].id))
  {}

  /** In the column before a fold that begins at a root there are only blocks without children. */
  lemma ChildlessBefore(f: Forest, g: Graph, hasNetwork: bool, i: nat, b: Block)
    requires f.Valid() && KeysAreIds(f.blocks) && Shows(f, g, hasNetwork) && IsDrawn(f, g)
    requires i < |g.segments| && g.segments[i].predecessor.None? && b in g.visible
    requires DepthOf(g.heightToDepth, b.height) + 1 == FoldDepth(g, i)
    ensures b.id in f.blocks && f.Kids(b.id) == []
  {
    hide *;
    SegmentsOf(f, g);
    var _ := VisibleColumn(f, g, hasNetwork, b);
    FoldDepthIs(f, g, i);
    BlockColumn(f, g, b);
    if f.Kids(b.id) != [] {
      KidFacts(f, b.id, 0);
      var c := f.Kids(b.id)[0];
      if InFold(g.segments, c) {
        var j := SegmentWith(f, g, b.id, c);
        BoundaryEdgeIn(f, g, hasNetwork, j);
        BlockEdgesJoin(f, g, hasNetwork, Edge(BlockNode(b.id), FoldNode(g.segments[j].id)));
        FoldDepthIs(f, g, j);
        SameColumn(f, g, hasNetwork, FoldNode(g.segments[i].id), FoldNode(g.segments[j].id));
        DistinctIdsMean(g.segments, i, j);
      } else {
        TreeEdgeIn(f, g, hasNetwork, b.id, c);
        BlockEdgesJoin(f, g, hasNetwork, Edge(BlockNode(b.id), BlockNode(c)));
        BlockIsDrawn(f, g, c);
        SameColumn(f, g, hasNetwork, FoldNode(g.segments[i].id), BlockNode(c));
      }
    }
  }

  lemma BlockColumn(f: Forest, g: Graph, b: Block)
    requires b.id in f.blocks && f.blocks[b.id] == b
    ensures NodeColumn(f, g, BlockNode(b.id)) == DepthOf(g.heightToDepth, b.height)
    ensures !InFold(g.segments, b.id) ==> IsDrawnNode(f, g, BlockNode(b.id))
  {
    hide DepthOf, InFold;
  }

  lemma BlockIsDrawn(f: Forest, g: Graph, b: nat)
    requires b in f.blocks && !InFold(g.segments, b)
    ensures IsDrawnNode(f, g, BlockNode(b))
  {
    hide InFold;
  }

  lemma DistinctIdsMean(segs: seq<FoldSegment>, i: nat, j: nat)
    requires DistinctIds(segs) && i < |segs| && j < |segs| && segs[i].id == segs[j].id
    ensures i == j
  {}

  /** Before such a fold no mine node is moved: it is at the slot of its block. */
  lemma {:induction false} MineAtOwnSlot(f: Forest, g: Graph, hasNetwork: bool, i: nat, k: nat)
    requires f.Valid() && KeysAreIds(f.blocks) && Shows(f, g, hasNetwork) && IsDrawn(f, g)
    requires i < |g.segments| && g.segments[i].predecessor.None? && k < |g.mines|
    requires g.mines[k].depth == FoldDepth(g, i)
    ensures g.mines[k].block in f.blocks && f.Kids(g.mines[k].block) == []
    ensures g.mines[k].slot == SlotKey(g.slots)(g.mines[k].block)
    decreases k
  {
    hide *;
    var v, b := MineBlock(f, g, hasNetwork, k);
    ChildlessBefore(f, g, hasNetwork, i, b);
    LeafSlotIs(f, g.slots, b.id, v);
    if Taken(g, k, v) {
      var x := TakenMeans(g, k, v);
      if j: nat :| j < k && g.mines[j].depth == g.mines[k].depth && g.mines[j].slot == x {
        MineAtOwnSlot(f, g, hasNetwork, i, j);
        OwnSlotsApart(f, g, hasNetwork, i, j, k);
      } else {
        NoBlockInFoldColumn(f, g, hasNetwork, i, k, x);
      }
    }
    MineSlotIs(f, g, hasNetwork, k, v);
  }

  lemma LeafSlotIs(f: Forest, slots: Slots, b: nat, v: real)
    requires f.Valid() && f.Kids(b) == [] && IsNextSlot(f, slots, b, v)
    ensures v == SlotKey(slots)(b)
  {
    hide Forest.Valid, Forest.Kids, SlotKey;
  }

  lemma TakenMeans(g: Graph, k: nat, v: real) returns (x: real)
    requires k < |g.mines| && Taken(g, k, v)
    ensures !Apart(x, v)
    ensures (exists j: nat :: j < k && g.mines[j].depth == g.mines[k].depth && g.mines[j].slot == x)
            || InColumn(g, g.mines[k].depth, x)
  {
    x :| Scene(g.visible, g.heightToDepth, g.slots).Occupied(g.mines[..k], g.mines[k].depth, x) && !Apart(x, v);
    var d := g.mines[k].depth;
    if j :| 0 <= j < |g.mines[..k]| && g.mines[..k][j].depth == d && g.mines[..k][j].slot == x {
      assert g.mines[j] == g.mines[..k][j];
    }
    hide Apart, SlotKey, DepthOf;
  }

  /** A visible block of the column `d` is at slot `x`. */
  ghost predicate InColumn(g: Graph, d: nat, x: real) {
    exists b :: b in g.visible && DepthOf(g.heightToDepth, b.height) == d && SlotKey(g.slots)(b.id) == x
  }

  lemma NoBlockInFoldColumn(f: Forest, g: Graph, hasNetwork: bool, i: nat, k: nat, x: real)
    requires f.Valid() && KeysAreIds(f.blocks) && Shows(f, g, hasNetwork) && IsDrawn(f, g)
    requires i < |g.segments| && k < |g.mines| && g.mines[k].depth == FoldDepth(g, i)
    ensures !InColumn(g, g.mines[k].depth, x)
  {
    forall b | b in g.visible
      ensures DepthOf(g.heightToDepth, b.height) != FoldDepth(g, i)
    {
      hide *;
      var _ := VisibleColumn(f, g, hasNetwork, b);
      BlockColumn(f, g, b);
      FoldDepthIs(f, g, i);
      if DepthOf(g.heightToDepth, b.height) == FoldDepth(g, i) {
        SameColumn(f, g, hasNetwork, FoldNode(g.segments[i].id), BlockNode(b.id));
      }
    }
    hide *;
    InColumnMeans(g, g.mines[k].depth, x);
  }

  lemma InColumnMeans(g: Graph, d: nat, x: real)
    ensures InColumn(g, d, x) ==> exists b :: b in g.visible && DepthOf(g.heightToDepth, b.height) == d
  {
    hide DepthOf, SlotKey;
  }

  lemma OwnSlotsApart(f: Forest, g: Graph, hasNetwork: bool, i: nat, j: nat, k: nat)
    requires f.Valid() && KeysAreIds(f.blocks) && Shows(f, g, hasNetwork) && IsDrawn(f, g)
    requires i < |g.segments| && j < k < |g.mines| && g.mines[j].depth == g.mines[k].depth
    requires g.mines[j].slot == SlotKey(g.slots)(g.mines[j].block)
    ensures Apart(g.mines[j].slot, SlotKey(g.slots)(g.mines[k].block))
  {
    hide *;
    MinesAreDistinct(f, g, hasNetwork);
    MinesDiffer(g.mines, j, k);
    MineEdgeEnds(f, g, hasNetwork, j);
    MineEdgeEnds(f, g, hasNetwork, k);
    var _, a := MineBlock(f, g, hasNetwork, j);
    var _, b := MineBlock(f, g, hasNetwork, k);
    var _ := VisibleColumn(f, g, hasNetwork, a);
    var _ := VisibleColumn(f, g, hasNetwork, b);
    ColumnsInOrder(f, g, hasNetwork, a, b);
    ColumnsInOrder(f, g, hasNetwork, b, a);
    SlotsApart(f, g, a.id, b.id);
  }

  lemma MinesDiffer(mines: seq<MineNode>, j: nat, k: nat)
    requires DistinctMines(mines) && j < k < |mines|
    ensures mines[j].block != mines[k].block
  {}

  lemma SlotsApart(f: Forest, g: Graph, a: nat, b: nat)
    requires f.Valid() && IsDrawn(f, g) && a in f.blocks && b in f.blocks && a != b
    requires f.blocks[a].height == f.blocks[b].height
    ensures Apart(SlotKey(g.slots)(a), SlotKey(g.slots)(b))
  {
    hide Forest.Valid, AreSegments, Compact;
    CompactionSeparates(f, g.slots, a, b);
  }

  // ----- Overlaps

  /** Closer than a node is high, which is 64 of the 172 pixels from slot to slot. */
  ghost predicate Near(x: real, y: real) {
    -64.0 < (x - y) * 172.0 < 64.0
  }

  /** The ancestor of `c` at height `h`. */
  lemma {:induction false} AncestorAtHeight(f: Forest, c: nat, h: nat) returns (a: nat)
    requires f.Valid() && c in f.blocks && f.blocks[Root(f, c)].height <= h <= f.blocks[c].height
    ensures a in f.blocks && f.blocks[a].height == h && Root(f, a) == Root(f, c)
    decreases f.blocks[c].height
  {
    ParentListsKid(f, c);
    if f.blocks[c].height == h {
      a := c;
    } else {
      a := AncestorAtHeight(f, Parent(f.blocks, c).value, h);
    }
  }

  /** A block below a fold that begins at a root belongs to a tree that ends below the fold. */
  lemma TreeBelowFold(f: Forest, segs: seq<FoldSegment>, i: nat, b: nat, c: nat)
    requires f.Valid() && AreSegments(f, segs) && i < |segs| && segs[i].predecessor.None?
    requires b in f.blocks && f.blocks[b].height < segs[i].startHeight && c in f.blocks && Root(f, c) == Root(f, b)
    ensures f.blocks[c].height < segs[i].startHeight
  {
    hide Forest.Valid, Forest.Kids, DisjointFolds, Protected, AreSegments;
    AncestorIsLower(f, Root(f, b), b);
    if segs[i].startHeight <= f.blocks[c].height {
      var a := AncestorAtHeight(f, c, segs[i].startHeight);
      RootOfFold(f, segs, i, a);
    }
  }

  lemma RootOfFold(f: Forest, segs: seq<FoldSegment>, i: nat, a: nat)
    requires f.Valid() && AreSegments(f, segs) && i < |segs| && segs[i].predecessor.None?
    requires a in f.blocks && f.blocks[a].height == segs[i].startHeight
    ensures Root(f, a) == a
  {
    hide Forest.Valid, Forest.Kids, DisjointFolds, Protected;
    assert IsSegment(f, segs[i]);
    FoldedHeight(f, segs, i, 0, a);
  }

  /** What is visible in the column before a fold is lower than the fold. */
  lemma LowerThanFold(f: Forest, g: Graph, hasNetwork: bool, i: nat, b: Block)
    requires f.Valid() && KeysAreIds(f.blocks) && Shows(f, g, hasNetwork) && IsDrawn(f, g)
    requires i < |g.segments| && b in g.visible && DepthOf(g.heightToDepth, b.height) + 1 == FoldDepth(g, i)
    ensures b.height < g.segments[i].startHeight
  {
    hide *;
    SegmentsOf(f, g);
    var columns := ColumnsOf(f, g, hasNetwork);
    var _ := VisibleColumn(f, g, hasNetwork, b);
    DepthIs(g.heightToDepth, b.height);
    FoldColumnListed(g.visible, g.segments, columns, i);
    KeysOfColumns(g, columns, i, b.height);
    if b.height == g.segments[i].startHeight {
      FoldStart(f, g, i, b.id);
    }
  }

  lemma FoldStart(f: Forest, g: Graph, i: nat, b: nat)
    requires AreSegments(f, g.segments) && i < |g.segments| && b in f.blocks
    requires f.blocks[b].height == g.segments[i].startHeight
    ensures InFold(g.segments, b)
  {
    hide Forest.Kids, DisjointFolds, Protected;
    assert IsSegment(f, g.segments[i]);
    FoldedHeight(f, g.segments, i, 0, b);
  }

  lemma KeysOfColumns(g: Graph, columns: seq<Column>, i: nat, h: nat)
    requires InKeyOrder(columns) && IsLookup(columns, g.heightToDepth, g.foldToDepth) && i < |g.segments|
    requires FoldColumn(g.segments[i].id, g.segments[i].startHeight) in columns
    requires h in g.heightToDepth && g.heightToDepth[h] < FoldDepth(g, i)
    ensures h <= g.segments[i].startHeight
  {
    var c := FoldColumn(g.segments[i].id, g.segments[i].startHeight);
    var d :| 0 <= d < |columns| && columns[d] == c;
    assert SortKey(columns[g.heightToDepth[h]]) <= SortKey(columns[d]);
  }

  /** Exactly when a mine node overlaps a folded segment: the segment begins at a root, the block of the mine node is in
      the column before it, and block and segment are at nearly the same slot. The block is a leaf then, of a tree
      that ends below the segment. */
  lemma MineOverlapsFoldIff(f: Forest, g: Graph, hasNetwork: bool, k: nat, i: nat)
    requires f.Valid() && KeysAreIds(f.blocks) && Shows(f, g, hasNetwork) && IsDrawn(f, g)
    requires k < |g.mines| && i < |g.segments|
    ensures g.segments[i].blockIds != [] && g.mines[k].block in f.blocks
    ensures Overlap(MineRect(g.mines[k]), RectOfFold(g, g.segments[i])) <==>
            && g.segments[i].predecessor.None?
            && NodeColumn(f, g, BlockNode(g.mines[k].block)) + 1 == FoldDepth(g, i)
            && Near(SlotKey(g.slots)(g.mines[k].block), SlotKey(g.slots)(g.segments[i].blockIds[0]))
    ensures Overlap(MineRect(g.mines[k]), RectOfFold(g, g.segments[i])) ==> f.Kids(g.mines[k].block) == []
    ensures forall c :: Overlap(MineRect(g.mines[k]), RectOfFold(g, g.segments[i]))
                        && c in f.blocks && Root(f, c) == Root(f, g.mines[k].block)
                        ==> f.blocks[c].height < g.segments[i].startHeight
  {
    hide *;
    SegmentsOf(f, g);
    MineEdgeEnds(f, g, hasNetwork, k);
    if g.segments[i].predecessor.Some? {
      MineAndFoldDoNotOverlap(f, g, hasNetwork, k, i);
    } else if g.mines[k].depth == FoldDepth(g, i) {
      MineAtOwnSlot(f, g, hasNetwork, i, k);
      var _, b := MineBlock(f, g, hasNetwork, k);
      var _ := VisibleColumn(f, g, hasNetwork, b);
      LowerThanFold(f, g, hasNetwork, i, b);
      forall c | c in f.blocks && Root(f, c) == Root(f, b.id)
        ensures f.blocks[c].height < g.segments[i].startHeight
      {
        TreeBelowFold(f, g.segments, i, b.id, c);
      }
    }
    OverlapMeans(g, k, i);
  }

  lemma OverlapMeans(g: Graph, k: nat, i: nat)
    requires k < |g.mines| && i < |g.segments| && g.segments[i].blockIds != []
    ensures Overlap(MineRect(g.mines[k]), RectOfFold(g, g.segments[i])) <==>
            && g.mines[k].depth == FoldDepth(g, i)
            && Near(g.mines[k].slot, SlotKey(g.slots)(g.segments[i].blockIds[0]))
  {
    hide SlotKey;
  }
}
