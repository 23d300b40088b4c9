/** The edges of the graph, those to the mine nodes included: where they lead, and which of them cross. */
module DrawnEdges {
  import opened Wrappers
  import opened Sorting
  import opened BlockForest
  import opened ForestNumbering
  import opened SlotLayout
  import opened SlotCompaction
  import opened CompactionLaws
  import opened Folding
  import opened FoldGraph
  import opened MineSlots
  import opened Placement
  import opened MineNodes
  import opened G = Graph

  /** A visible block, or a folded segment. */
  ghost predicate IsDrawnNode(f: Forest, g: Graph, n: GraphNode) {
    match n
    case BlockNode(b) => b in f.blocks && !InFold(g.segments, b)
    case FoldNode(id) => exists i :: 0 <= i < |g.segments| && g.segments[i].id == id
    case MineTreeNode(_) => false
  }

  /** The mine node of a block. */
  ghost function MineFor(mines: seq<MineNode>, b: nat): Option<MineNode> {
    if mines == [] then None else if mines[0].block == b then Some(mines[0]) else MineFor(mines[1..], b)
  }

  ghost function NodeColumn(f: Forest, g: Graph, n: GraphNode): nat {
    match n
    case BlockNode(b) => if b in f.blocks then DepthOf(g.heightToDepth, f.blocks[b].height) else 0
    case FoldNode(id) => if id in g.foldToDepth then g.foldToDepth[id] else 0
    case MineTreeNode(b) => if MineFor(g.mines, b).Some? then MineFor(g.mines, b).value.depth else 0
  }

  /** A segment is drawn at the slot of its first block. */
  ghost function NodeSlot(g: Graph, n: GraphNode): real {
    if n.MineTreeNode? && MineFor(g.mines, n.mined).Some? then
      MineFor(g.mines, n.mined).value.slot
    else
      SlotKey(g.slots)(Rep(n))
  }

  lemma EdgesOf(f: Forest, g: Graph, hasNetwork: bool, e: FoldGraph.Edge)
    requires Shows(f, g, hasNetwork) && e in g.blockEdges
    ensures IsGraphEdge(f, g.segments, e) && ShowsRest(f, g.segments, g.visible)
  {
    hide ShowsRest, IsDepthLookup, MinesPlaced, IsGraphEdge;
  }

  ghost predicate IsTreeEdge(f: Forest, e: FoldGraph.Edge) {
    && e.source.BlockNode? && e.target.BlockNode? && e.target.block in f.blocks
    && Parent(f.blocks, e.target.block) == Some(e.source.block)
  }

  lemma BoundaryEnds(f: Forest, g: Graph, i: nat, e: FoldGraph.Edge)
    requires f.Valid() && IsDrawn(f, g) && i < |g.segments| && IsBoundaryEdge(g.segments[i], e)
    ensures IsDrawnNode(f, g, e.source) && IsDrawnNode(f, g, e.target) && (e.source.FoldNode? || e.target.FoldNode?)
  {
    SegmentsOf(f, g);
    NextToFold(f, g.segments, i);
    hide Forest.Valid, IsDrawn, InFold, AreSegments, DisjointFolds, DistinctIds;
  }

  lemma TreeEdgeEnds(f: Forest, g: Graph, e: FoldGraph.Edge)
    requires f.Valid() && IsGraphEdge(f, g.segments, e)
    requires forall i :: 0 <= i < |g.segments| ==> !IsBoundaryEdge(g.segments[i], e)
    ensures IsDrawnNode(f, g, e.source) && IsDrawnNode(f, g, e.target) && IsTreeEdge(f, e)
  {
    hide InFold, IsBoundaryEdge;
    ParentListsKid(f, e.target.block);
  }

  /** An edge leads into or out of a segment, or from a parent to its child. */
  lemma EdgeEnds(f: Forest, g: Graph, hasNetwork: bool, e: FoldGraph.Edge)
    requires f.Valid() && Shows(f, g, hasNetwork) && IsDrawn(f, g) && e in g.blockEdges
    ensures IsDrawnNode(f, g, e.source) && IsDrawnNode(f, g, e.target)
    ensures if e.source.BlockNode? && e.target.BlockNode? then IsTreeEdge(f, e)
            else exists i :: 0 <= i < |g.segments| && IsBoundaryEdge(g.segments[i], e)
  {
    hide *;
    EdgesOf(f, g, hasNetwork, e);
    if i :| 0 <= i < |g.segments| && IsBoundaryEdge(g.segments[i], e) {
      BoundaryEnds(f, g, i, e);
    } else {
      TreeEdgeEnds(f, g, e);
      TreeEdgeKinds(f, e);
    }
  }

  lemma TreeEdgeKinds(f: Forest, e: FoldGraph.Edge)
    requires IsTreeEdge(f, e)
    ensures e.source.BlockNode? && e.target.BlockNode? && e.target.block in f.blocks
    ensures Parent(f.blocks, e.target.block) == Some(e.source.block)
  {}

  lemma BoundaryJoins(f: Forest, g: Graph, i: nat, e: FoldGraph.Edge)
    requires i < |g.segments| && IsBoundaryEdge(g.segments[i], e)
    requires IsBetween(f, g.segments[i], g.heightToDepth, g.foldToDepth)
    ensures NodeColumn(f, g, e.target) == NodeColumn(f, g, e.source) + 1
  {}

  lemma TreeEdgeJoins(f: Forest, g: Graph, hasNetwork: bool, e: FoldGraph.Edge)
    requires f.Valid() && KeysAreIds(f.blocks) && Shows(f, g, hasNetwork) && IsDrawn(f, g) && IsTreeEdge(f, e)
    requires IsDrawnNode(f, g, e.source) && IsDrawnNode(f, g, e.target)
    ensures NodeColumn(f, g, e.target) == NodeColumn(f, g, e.source) + 1
  {
    TreeEdgeKinds(f, e);
    ParentListsKid(f, e.target.block);
    hide Forest.Valid, Shows, IsDrawn, InFold, AreSegments, DisjointFolds, DistinctIds, ShowsRest, AreColumns,
      InKeyOrder, IsLookup, IsTreeEdge;
    SegmentsOf(f, g);
    var columns := ColumnsOf(f, g, hasNetwork);
    HeightColumnsAdjacent(f, g.segments, g.visible, columns, g.heightToDepth, g.foldToDepth, e.source.block,
                          e.target.block);
  }

  lemma BlockEdgesJoin(f: Forest, g: Graph, hasNetwork: bool, e: FoldGraph.Edge)
    requires f.Valid() && KeysAreIds(f.blocks) && Shows(f, g, hasNetwork) && IsDrawn(f, g) && e in g.blockEdges
    ensures NodeColumn(f, g, e.target) == NodeColumn(f, g, e.source) + 1
  {
    hide *;
    EdgeEnds(f, g, hasNetwork, e);
    if e.source.BlockNode? && e.target.BlockNode? {
      TreeEdgeJoins(f, g, hasNetwork, e);
    } else {
      var i :| 0 <= i < |g.segments| && IsBoundaryEdge(g.segments[i], e);
      FoldsAreBetween(f, g, hasNetwork, i);
      BoundaryJoins(f, g, i, e);
    }
  }

  /** Two nodes in one column are blocks at one height, or one and the same segment. */
  lemma SameColumn(f: Forest, g: Graph, hasNetwork: bool, m: GraphNode, n: GraphNode)
    requires f.Valid() && KeysAreIds(f.blocks) && Shows(f, g, hasNetwork) && IsDrawn(f, g)
    requires IsDrawnNode(f, g, m) && IsDrawnNode(f, g, n) && NodeColumn(f, g, m) == NodeColumn(f, g, n)
    ensures m == n || (m.BlockNode? && n.BlockNode? && f.blocks[m.block].height == f.blocks[n.block].height)
  {
    hide *;
    SegmentsOf(f, g);
    var columns := ColumnsOf(f, g, hasNetwork);
    NodeHasColumn(f, g, hasNetwork, m);
    NodeHasColumn(f, g, hasNetwork, n);
    SameLookup(f, g, columns, m, n);
  }

  lemma SameLookup(f: Forest, g: Graph, columns: seq<Column>, m: GraphNode, n: GraphNode)
    requires IsLookup(columns, g.heightToDepth, g.foldToDepth)
    requires !m.MineTreeNode? && !n.MineTreeNode? && NodeColumn(f, g, m) == NodeColumn(f, g, n)
    requires m.BlockNode? ==> m.block in f.blocks && f.blocks[m.block].height in g.heightToDepth
    requires n.BlockNode? ==> n.block in f.blocks && f.blocks[n.block].height in g.heightToDepth
    requires m.FoldNode? ==> m.segment in g.foldToDepth
    requires n.FoldNode? ==> n.segment in g.foldToDepth
    ensures m == n || (m.BlockNode? && n.BlockNode? && f.blocks[m.block].height == f.blocks[n.block].height)
  {}

  lemma NodeHasColumn(f: Forest, g: Graph, hasNetwork: bool, n: GraphNode)
    requires f.Valid() && KeysAreIds(f.blocks) && Shows(f, g, hasNetwork) && IsDrawn(f, g) && IsDrawnNode(f, g, n)
    ensures !n.MineTreeNode?
    ensures n.BlockNode? ==> n.block in f.blocks && f.blocks[n.block].height in g.heightToDepth
    ensures n.FoldNode? ==> n.segment in g.foldToDepth
  {
    hide Forest.Valid, Shows, IsDrawn, InFold, AreColumns, InKeyOrder, IsLookup;
    match n
    case BlockNode(b) =>
      var columns := ColumnsOf(f, g, hasNetwork);
      assert f.blocks[b] in g.visible;
      var _ := VisibleColumn(f, g, hasNetwork, f.blocks[b]);
    case FoldNode(id) =>
      var i :| 0 <= i < |g.segments| && g.segments[i].id == id;
      FoldsAreBetween(f, g, hasNetwork, i);
  }

  /** Two edges between the same columns start in one order and end in the other. */
  ghost predicate Cross(f: Forest, g: Graph, d: FoldGraph.Edge, e: FoldGraph.Edge) {
    && NodeColumn(f, g, d.source) == NodeColumn(f, g, e.source)
    && NodeColumn(f, g, d.target) == NodeColumn(f, g, e.target)
    && ((NodeSlot(g, d.source) < NodeSlot(g, e.source) && NodeSlot(g, e.target) < NodeSlot(g, d.target))
        || (NodeSlot(g, e.source) < NodeSlot(g, d.source) && NodeSlot(g, d.target) < NodeSlot(g, e.target)))
  }

  /** No two edges of the tree and of its folds cross. */
  lemma EdgesDoNotCross(f: Forest, g: Graph, hasNetwork: bool, d: FoldGraph.Edge, e: FoldGraph.Edge)
    requires f.Valid() && KeysAreIds(f.blocks) && Shows(f, g, hasNetwork) && IsDrawn(f, g)
    requires d in g.blockEdges && e in g.blockEdges
    ensures !Cross(f, g, d, e)
  {
    hide *;
    EdgeEnds(f, g, hasNetwork, d);
    EdgeEnds(f, g, hasNetwork, e);
    if NodeColumn(f, g, d.source) == NodeColumn(f, g, e.source)
       && NodeColumn(f, g, d.target) == NodeColumn(f, g, e.target) {
      SameColumn(f, g, hasNetwork, d.source, e.source);
      SameColumn(f, g, hasNetwork, d.target, e.target);
      if d.source.BlockNode? && e.source.BlockNode? && d.target.BlockNode? && e.target.BlockNode? {
        TreeEdgeKinds(f, d);
        TreeEdgeKinds(f, e);
        ParentListsKid(f, d.target.block);
        ParentListsKid(f, e.target.block);
        LevelEdges(f, g, d.target.block, e.target.block);
        LevelEdges(f, g, e.target.block, d.target.block);
      }
    }
    CrossMeans(f, g, d, e);
  }

  lemma CrossMeans(f: Forest, g: Graph, d: FoldGraph.Edge, e: FoldGraph.Edge)
    ensures Cross(f, g, d, e) <==>
            && NodeColumn(f, g, d.source) == NodeColumn(f, g, e.source)
            && NodeColumn(f, g, d.target) == NodeColumn(f, g, e.target)
            && ((NodeSlot(g, d.source) < NodeSlot(g, e.source) && NodeSlot(g, e.target) < NodeSlot(g, d.target))
                || (NodeSlot(g, e.source) < NodeSlot(g, d.source) && NodeSlot(g, d.target) < NodeSlot(g, e.target)))
    ensures Cross(f, g, d, e) <==> Cross(f, g, e, d)
  {
    hide NodeColumn, NodeSlot;
  }

  lemma LevelEdges(f: Forest, g: Graph, a: nat, b: nat)
    requires f.Valid() && IsDrawn(f, g) && a in f.blocks && b in f.blocks
    requires a == b || f.blocks[a].height == f.blocks[b].height
    requires Parent(f.blocks, a).Some? && Parent(f.blocks, b).Some?
    ensures var p, q := BlockNode(Parent(f.blocks, a).value), BlockNode(Parent(f.blocks, b).value);
            NodeSlot(g, p) < NodeSlot(g, q) ==> NodeSlot(g, BlockNode(a)) <= NodeSlot(g, BlockNode(b))
  {
    hide Forest.Valid, AreSegments, Compact;
    CompactKeys(f, g.slots);
    if g.slots[b] < g.slots[a] {
      NoCrossings(f, g.slots, b, a);
    }
  }

  // ----- The edges to the mine nodes

  ghost predicate DistinctMines(mines: seq<MineNode>) {
    forall i, j :: 0 <= i < j < |mines| ==> mines[i].block != mines[j].block
  }

  lemma {:induction false} MineForIs(mines: seq<MineNode>, k: nat)
    requires DistinctMines(mines) && k < |mines|
    ensures MineFor(mines, mines[k].block) == Some(mines[k])
  {
    if k > 0 {
      MineForIs(mines[1..], k - 1);
    }
  }

  lemma {:induction false} MineableDistinct(visible: seq<Block>, n: nat)
    requires UniqueIds(visible) && n <= |visible|
    ensures Distinct(MineableIds(visible, n))
    ensures forall b :: b in MineableIds(visible, n) <==>
              exists j :: 0 <= j < n && visible[j].id == b && visible[j].mineable
  {
    if n > 0 {
      MineableDistinct(visible, n - 1);
      assert visible[n - 1].id !in MineableIds(visible, n - 1);
    }
  }

  /** No block has two mine nodes. */
  lemma MinesAreDistinct(f: Forest, g: Graph, hasNetwork: bool)
    requires Shows(f, g, hasNetwork)
    ensures DistinctMines(g.mines)
  {
    hide ShowsRest, AreEdges, AreMineEdges, IsDepthLookup, MinesPlaced, MineableIds;
    if hasNetwork {
      MineableDistinct(g.visible, |g.visible|);
    }
  }

  lemma MineEdgeIs(f: Forest, g: Graph, hasNetwork: bool, k: nat)
    requires Shows(f, g, hasNetwork) && k < |g.mines|
    ensures |g.mineEdges| == |g.mines| && g.mineEdges[k] == MineEdge(g.mines[k])
  {
    hide ShowsRest, AreEdges, IsDepthLookup, MinesPlaced, MinesFor;
  }

  /** The edge to a mine node starts at its block, one column to the left. */
  lemma MineEdgeEnds(f: Forest, g: Graph, hasNetwork: bool, k: nat)
    requires f.Valid() && Shows(f, g, hasNetwork) && k < |g.mines|
    ensures |g.mineEdges| == |g.mines| && g.mines[k].block in f.blocks
    ensures var d := g.mineEdges[k];
            && d.source == BlockNode(g.mines[k].block)
            && NodeColumn(f, g, d.target) == g.mines[k].depth == NodeColumn(f, g, d.source) + 1
            && NodeSlot(g, d.target) == g.mines[k].slot
            && NodeSlot(g, d.source) == SlotKey(g.slots)(g.mines[k].block)
  {
    MineEdgeIs(f, g, hasNetwork, k);
    MinesAreDistinct(f, g, hasNetwork);
    MineForIs(g.mines, k);
    hide *;
    var _, b := MineBlock(f, g, hasNetwork, k);
    BlockOfVisible(f, g, hasNetwork, b);
    MineEdgeMeans(f, g, k, b);
  }

  lemma MineEdgeMeans(f: Forest, g: Graph, k: nat, b: Block)
    requires k < |g.mines| && MineFor(g.mines, g.mines[k].block) == Some(g.mines[k])
    requires b.id == g.mines[k].block && b.id in f.blocks && f.blocks[b.id] == b
    ensures var d := MineEdge(g.mines[k]);
            && d.source == BlockNode(g.mines[k].block)
            && NodeColumn(f, g, d.target) == g.mines[k].depth && NodeSlot(g, d.target) == g.mines[k].slot
            && NodeColumn(f, g, d.source) == DepthOf(g.heightToDepth, b.height)
            && NodeSlot(g, d.source) == SlotKey(g.slots)(g.mines[k].block)
  {
    hide MineFor, DepthOf, SlotKey;
  }

  /** Every edge joins neighbouring columns. */
  lemma EdgesJoinNeighbours(f: Forest, g: Graph, hasNetwork: bool, e: FoldGraph.Edge)
    requires f.Valid() && KeysAreIds(f.blocks) && Shows(f, g, hasNetwork) && IsDrawn(f, g) && e in g.Edges()
    ensures NodeColumn(f, g, e.target) == NodeColumn(f, g, e.source) + 1
  {
    hide Forest.Valid, KeysAreIds, Shows, IsDrawn, NodeColumn, NodeSlot;
    if e in g.blockEdges {
      BlockEdgesJoin(f, g, hasNetwork, e);
    } else {
      var k :| 0 <= k < |g.mineEdges| && g.mineEdges[k] == e;
      SameLength(f, g, hasNetwork);
      MineEdgeEnds(f, g, hasNetwork, k);
    }
  }

  lemma SameLength(f: Forest, g: Graph, hasNetwork: bool)
    requires Shows(f, g, hasNetwork)
    ensures |g.mineEdges| == |g.mines|
  {
    hide ShowsRest, AreEdges, IsDepthLookup, MinesPlaced, MinesFor;
  }

  // ----- Crossings

  /** Something that was placed before the `k`-th mine node is less than a slot away from where it should be. */
  ghost predicate Taken(g: Graph, k: nat, v: real)
    requires k < |g.mines|
  {
    var scene := Scene(g.visible, g.heightToDepth, g.slots);
    exists x: real :: scene.Occupied(g.mines[..k], g.mines[k].depth, x) && !Apart(x, v)
  }

  /** What was drawn before the `k`-th edge to a mine node. */
  ghost function EarlierEdges(g: Graph, k: nat): seq<FoldGraph.Edge>
    requires k <= |g.mineEdges|
  {
    g.blockEdges + g.mineEdges[..k]
  }

  /** An edge from `source` to slot `v` in the next column leaves the order of `e` as it is. */
  ghost predicate InOrder(f: Forest, g: Graph, source: GraphNode, v: real, e: FoldGraph.Edge) {
    NodeColumn(f, g, e.source) == NodeColumn(f, g, source) ==>
      && (NodeSlot(g, e.source) < NodeSlot(g, source) ==> NodeSlot(g, e.target) <= v)
      && (NodeSlot(g, source) < NodeSlot(g, e.source) ==> v <= NodeSlot(g, e.target))
  }

  /** There is no edge from further down in the column of `source`. */
  ghost predicate NotBelow(f: Forest, g: Graph, source: GraphNode, e: FoldGraph.Edge) {
    NodeColumn(f, g, e.source) == NodeColumn(f, g, source) ==> NodeSlot(g, e.source) <= NodeSlot(g, source)
  }

  /** Whether the `k`-th mine node, which should be at slot `v`, can be reached without a crossing: if the slot is free,
      it must be in the order of the edges from its column; if not, no edge from its column may start further down. */
  ghost predicate Reachable(f: Forest, g: Graph, k: nat, v: real)
    requires k < |g.mines| == |g.mineEdges|
  {
    var source := BlockNode(g.mines[k].block);
    if Taken(g, k, v) then
      forall e :: e in EarlierEdges(g, k) ==> NotBelow(f, g, source, e)
    else
      forall e :: e in EarlierEdges(g, k) ==> InOrder(f, g, source, v, e)
  }

  lemma NextSlotUnique(f: Forest, slots: Slots, b: nat, v: real, w: real)
    requires f.Valid() && IsNextSlot(f, slots, b, v) && IsNextSlot(f, slots, b, w)
    ensures v == w
  {
    hide Forest.Valid, Forest.Kids, Below, SlotKey;
  }

  /** Where a mine node is, if the slot it should have is free, and if it is not. */
  lemma MineSlotIs(f: Forest, g: Graph, hasNetwork: bool, k: nat, v: real)
    requires f.Valid() && Shows(f, g, hasNetwork) && k < |g.mines| && g.mines[k].block in f.blocks
    requires IsNextSlot(f, g.slots, g.mines[k].block, v)
    ensures !Taken(g, k, v) ==> g.mines[k].slot == v
    ensures var scene := Scene(g.visible, g.heightToDepth, g.slots);
            Taken(g, k, v) ==>
              forall x: real :: scene.Occupied(g.mines[..k], g.mines[k].depth, x) ==> x < g.mines[k].slot
  {
    hide Forest.Valid, IsNextSlot, ShowsRest, AreEdges, AreMineEdges, IsDepthLookup, MinesFor, Scene.Occupied, Apart;
    var scene := Scene(g.visible, g.heightToDepth, g.slots);
    assert MinePlaced(f, scene, g.mines, k);
    var w :| PlacedAt(scene, g.mines, k, w) && IsNextSlot(f, g.slots, g.mines[k].block, w);
    NextSlotUnique(f, g.slots, g.mines[k].block, v, w);
  }

  /** A hidden child of a visible block begins its segment. */
  lemma SegmentWith(f: Forest, g: Graph, b: nat, c: nat) returns (j: nat)
    requires f.Valid() && AreSegments(f, g.segments) && !InFold(g.segments, b) && InFold(g.segments, c)
    requires c in f.blocks && Parent(f.blocks, c) == Some(b)
    ensures j < |g.segments| && g.segments[j].predecessor == Some(b) && g.segments[j].id.0 == c
  {
    hide Forest.Valid, Forest.Kids, DisjointFolds, Protected;
    j :| 0 <= j < |g.segments| && c in g.segments[j].blockIds;
    var s := g.segments[j];
    assert IsSegment(f, s);
    var t :| 0 <= t < |s.blockIds| && s.blockIds[t] == c;
    assert forall u :: 0 <= u < |s.blockIds| ==> s.blockIds[u] in s.blockIds;
    if t > 0 {
      SegmentLink(f, s, t - 1);
    }
  }

  lemma BoundaryEdgeIn(f: Forest, g: Graph, hasNetwork: bool, j: nat)
    requires Shows(f, g, hasNetwork) && j < |g.segments| && g.segments[j].predecessor.Some?
    ensures Edge(BlockNode(g.segments[j].predecessor.value), FoldNode(g.segments[j].id)) in g.blockEdges
  {
    hide InFold, ShowsRest, AreMineEdges, IsDepthLookup, MinesPlaced, MinesFor;
    var e := Edge(BlockNode(g.segments[j].predecessor.value), FoldNode(g.segments[j].id));
    assert IsBoundaryEdge(g.segments[j], e);
    assert IsGraphEdge(f, g.segments, e);
  }

  lemma TreeEdgeIn(f: Forest, g: Graph, hasNetwork: bool, p: nat, b: nat)
    requires Shows(f, g, hasNetwork) && b in f.blocks && Parent(f.blocks, b) == Some(p)
    requires !InFold(g.segments, p) && !InFold(g.segments, b)
    ensures Edge(BlockNode(p), BlockNode(b)) in g.blockEdges
  {
    hide InFold, ShowsRest, AreMineEdges, IsDepthLookup, MinesPlaced, MinesFor;
    assert IsGraphEdge(f, g.segments, Edge(BlockNode(p), BlockNode(b)));
  }

  /** A visible block with children has an edge to the slot of its first child. */
  lemma EdgeToFirstKid(f: Forest, g: Graph, hasNetwork: bool, b: nat) returns (d: FoldGraph.Edge)
    requires f.Valid() && Shows(f, g, hasNetwork) && IsDrawn(f, g) && b in f.blocks && !InFold(g.segments, b)
    requires f.Kids(b) != []
    ensures d in g.blockEdges && d.source == BlockNode(b) && NodeSlot(g, d.target) == SlotKey(g.slots)(f.Kids(b)[0])
  {
    hide *;
    SegmentsOf(f, g);
    KidFacts(f, b, 0);
    var c := f.Kids(b)[0];
    if InFold(g.segments, c) {
      var j := SegmentWith(f, g, b, c);
      BoundaryEdgeIn(f, g, hasNetwork, j);
      d := Edge(BlockNode(b), FoldNode(g.segments[j].id));
    } else {
      TreeEdgeIn(f, g, hasNetwork, b, c);
      d := Edge(BlockNode(b), BlockNode(c));
    }
    SlotsOfNodes(g, d.target);
  }

  lemma SlotsOfNodes(g: Graph, n: GraphNode)
    requires !n.MineTreeNode?
    ensures NodeSlot(g, n) == SlotKey(g.slots)(if n.BlockNode? then n.block else n.segment.0)
  {
    hide SlotKey;
  }

  /** To the slot that a mine node of a block with children should have, no edge that starts further up is in the way;
      so if that slot is free, only edges from further down can be crossed. */
  lemma EdgesAboveInOrder(f: Forest, g: Graph, hasNetwork: bool, k: nat, v: real, e: FoldGraph.Edge)
    requires f.Valid() && KeysAreIds(f.blocks) && Shows(f, g, hasNetwork) && IsDrawn(f, g)
    requires k < |g.mines| && g.mines[k].block in f.blocks && f.Kids(g.mines[k].block) != []
    requires IsNextSlot(f, g.slots, g.mines[k].block, v) && e in g.blockEdges
    requires NodeColumn(f, g, e.source) == NodeColumn(f, g, BlockNode(g.mines[k].block))
    requires NodeSlot(g, e.source) < NodeSlot(g, BlockNode(g.mines[k].block))
    ensures NodeSlot(g, e.target) < v
  {
    hide *;
    var b := g.mines[k].block;
    MineEdgeEnds(f, g, hasNetwork, k);
    var _, block := MineBlock(f, g, hasNetwork, k);
    var _ := VisibleColumn(f, g, hasNetwork, block);
    var d := EdgeToFirstKid(f, g, hasNetwork, b);
    BlockEdgesJoin(f, g, hasNetwork, d);
    BlockEdgesJoin(f, g, hasNetwork, e);
    EdgesDoNotCross(f, g, hasNetwork, d, e);
    CrossMeans(f, g, d, e);
    NextSlotPastKid(f, g.slots, b, f.Kids(b)[0], v);
  }

  /** If the slot of a mine node is taken, every edge between its columns ends above the node or starts at its block. */
  lemma EndsAbove(f: Forest, g: Graph, hasNetwork: bool, k: nat, v: real, e: FoldGraph.Edge)
    requires f.Valid() && KeysAreIds(f.blocks) && Shows(f, g, hasNetwork) && IsDrawn(f, g)
    requires k < |g.mines| == |g.mineEdges| && g.mines[k].block in f.blocks
    requires IsNextSlot(f, g.slots, g.mines[k].block, v) && Taken(g, k, v) && e in EarlierEdges(g, k)
    requires NodeColumn(f, g, e.source) == NodeColumn(f, g, BlockNode(g.mines[k].block))
    ensures NodeSlot(g, e.target) < g.mines[k].slot || e.source == BlockNode(g.mines[k].block)
  {
    hide *;
    MineSlotIs(f, g, hasNetwork, k, v);
    MineEdgeEnds(f, g, hasNetwork, k);
    InEarlier(g, k, e);
    if j: nat :| j < k && g.mineEdges[j] == e {
      MineEdgeEnds(f, g, hasNetwork, j);
      MineOccupies(g, j, k);
    } else {
      BlockEdgesJoin(f, g, hasNetwork, e);
      EdgeEnds(f, g, hasNetwork, e);
      NodeHasColumn(f, g, hasNetwork, e.target);
      if e.target.FoldNode? {
        FoldFromBlock(f, g, hasNetwork, k, e);
      } else {
        NodeOccupies(f, g, hasNetwork, k, e.target);
      }
    }
  }

  lemma InEarlier(g: Graph, k: nat, e: FoldGraph.Edge)
    requires k <= |g.mineEdges| && e in EarlierEdges(g, k)
    ensures e in g.Edges() && (e in g.blockEdges || exists j: nat :: j < k && g.mineEdges[j] == e)
  {}

  lemma MineOccupies(g: Graph, j: nat, k: nat)
    requires j < k < |g.mines| && g.mines[j].depth == g.mines[k].depth
    ensures Scene(g.visible, g.heightToDepth, g.slots).Occupied(g.mines[..k], g.mines[k].depth, g.mines[j].slot)
  {
    assert g.mines[..k][j] == g.mines[j];
  }

  lemma NodeOccupies(f: Forest, g: Graph, hasNetwork: bool, k: nat, n: GraphNode)
    requires KeysAreIds(f.blocks) && Shows(f, g, hasNetwork) && k < |g.mines|
    requires n.BlockNode? && IsDrawnNode(f, g, n) && NodeColumn(f, g, n) == g.mines[k].depth
    ensures Scene(g.visible, g.heightToDepth, g.slots).Occupied(g.mines[..k], g.mines[k].depth, NodeSlot(g, n))
  {
    hide InFold, AreEdges, AreMineEdges, IsDepthLookup, MinesPlaced, MinesFor, DepthOf, SlotKey;
    var b := f.blocks[n.block];
    assert b in g.visible && Scene(g.visible, g.heightToDepth, g.slots).Depth(b) == g.mines[k].depth;
  }

  /** An edge to a fold in the next column starts at the block. */
  lemma FoldFromBlock(f: Forest, g: Graph, hasNetwork: bool, k: nat, e: FoldGraph.Edge)
    requires f.Valid() && KeysAreIds(f.blocks) && Shows(f, g, hasNetwork) && IsDrawn(f, g) && k < |g.mines|
    requires e in g.blockEdges && e.target.FoldNode? && NodeColumn(f, g, e.target) == g.mines[k].depth
    requires exists i :: 0 <= i < |g.segments| && IsBoundaryEdge(g.segments[i], e)
    ensures e.source == BlockNode(g.mines[k].block)
  {
    hide *;
    var i :| 0 <= i < |g.segments| && IsBoundaryEdge(g.segments[i], e);
    SegmentsOf(f, g);
    FoldsAreBetween(f, g, hasNetwork, i);
    BetweenColumn(f, g, i);
    IntoFold(f, g, i, e);
    var _, b := MineBlock(f, g, hasNetwork, k);
    BlockBefore(f, g, hasNetwork, i, b);
    FirstKidOf(f, g, i, b.id);
  }

  lemma IntoFold(f: Forest, g: Graph, i: nat, e: FoldGraph.Edge)
    requires i < |g.segments| && IsBoundaryEdge(g.segments[i], e) && e.target.FoldNode?
    ensures g.segments[i].predecessor.Some? && e.source == BlockNode(g.segments[i].predecessor.value)
    ensures g.segments[i].id in g.foldToDepth ==> NodeColumn(f, g, e.target) == g.foldToDepth[g.segments[i].id]
  {}

  lemma FirstKidOf(f: Forest, g: Graph, i: nat, b: nat)
    requires f.Valid() && AreSegments(f, g.segments) && i < |g.segments| && g.segments[i].blockIds != []
    requires b in f.blocks && g.segments[i].blockIds[0] in f.Kids(b)
    ensures g.segments[i].predecessor == Some(b)
  {
    KidFacts(f, b, IndexOf(f.Kids(b), g.segments[i].blockIds[0]));
    hide Forest.Valid, Forest.Kids, DisjointFolds, Protected;
    assert IsSegment(f, g.segments[i]);
  }

  lemma MineCrossMeans(f: Forest, g: Graph, k: nat, e: FoldGraph.Edge)
    requires k < |g.mines| == |g.mineEdges|
    requires g.mineEdges[k].source == BlockNode(g.mines[k].block)
    requires NodeColumn(f, g, g.mineEdges[k].target) == NodeColumn(f, g, g.mineEdges[k].source) + 1
    requires NodeColumn(f, g, e.target) == NodeColumn(f, g, e.source) + 1
    requires NodeSlot(g, g.mineEdges[k].target) == g.mines[k].slot
    ensures !Cross(f, g, g.mineEdges[k], e) <==> InOrder(f, g, BlockNode(g.mines[k].block), g.mines[k].slot, e)
    ensures NodeSlot(g, e.target) < g.mines[k].slot || e.source == BlockNode(g.mines[k].block) ==>
              (InOrder(f, g, BlockNode(g.mines[k].block), g.mines[k].slot, e)
               <==> NotBelow(f, g, BlockNode(g.mines[k].block), e))
    ensures NodeColumn(f, g, e.source) != NodeColumn(f, g, BlockNode(g.mines[k].block)) ==>
              InOrder(f, g, BlockNode(g.mines[k].block), g.mines[k].slot, e)
              && NotBelow(f, g, BlockNode(g.mines[k].block), e)
  {
    hide NodeColumn, NodeSlot;
  }

  /** One earlier edge. */
  lemma MineEdgeCrosses(f: Forest, g: Graph, hasNetwork: bool, k: nat, v: real, e: FoldGraph.Edge)
    requires f.Valid() && KeysAreIds(f.blocks) && Shows(f, g, hasNetwork) && IsDrawn(f, g)
    requires k < |g.mines| == |g.mineEdges| && g.mines[k].block in f.blocks
    requires IsNextSlot(f, g.slots, g.mines[k].block, v) && e in EarlierEdges(g, k)
    ensures !Cross(f, g, g.mineEdges[k], e) <==>
            if Taken(g, k, v) then NotBelow(f, g, BlockNode(g.mines[k].block), e)
            else InOrder(f, g, BlockNode(g.mines[k].block), v, e)
  {
    hide *;
    MineSlotIs(f, g, hasNetwork, k, v);
    MineEdgeEnds(f, g, hasNetwork, k);
    InEarlier(g, k, e);
    EdgesJoinNeighbours(f, g, hasNetwork, e);
    MineCrossMeans(f, g, k, e);
    if Taken(g, k, v) && NodeColumn(f, g, e.source) == NodeColumn(f, g, BlockNode(g.mines[k].block)) {
      EndsAbove(f, g, hasNetwork, k, v, e);
    }
  }

  /** Exactly when the edge to a mine node crosses nothing that was drawn before it. */
  lemma MineEdgeCrossesIff(f: Forest, g: Graph, hasNetwork: bool, k: nat, v: real)
    requires f.Valid() && KeysAreIds(f.blocks) && Shows(f, g, hasNetwork) && IsDrawn(f, g)
    requires k < |g.mines| && g.mines[k].block in f.blocks && IsNextSlot(f, g.slots, g.mines[k].block, v)
    ensures |g.mineEdges| == |g.mines|
    ensures (forall e :: e in EarlierEdges(g, k) ==> !Cross(f, g, g.mineEdges[k], e)) <==> Reachable(f, g, k, v)
  {
    MineEdgeEnds(f, g, hasNetwork, k);
    hide *;
    forall e | e in EarlierEdges(g, k)
      ensures !Cross(f, g, g.mineEdges[k], e) <==>
              if Taken(g, k, v) then NotBelow(f, g, BlockNode(g.mines[k].block), e)
              else InOrder(f, g, BlockNode(g.mines[k].block), v, e)
    {
      MineEdgeCrosses(f, g, hasNetwork, k, v, e);
    }
    ReachableMeans(f, g, k, v);
  }

  lemma ReachableMeans(f: Forest, g: Graph, k: nat, v: real)
    requires k < |g.mines| == |g.mineEdges|
    ensures Reachable(f, g, k, v) <==>
            forall e :: e in EarlierEdges(g, k) ==>
              if Taken(g, k, v) then NotBelow(f, g, BlockNode(g.mines[k].block), e)
              else InOrder(f, g, BlockNode(g.mines[k].block), v, e)
  {
    hide Taken, NotBelow, InOrder, EarlierEdges;
  }

  /** No two edges cross. */
  ghost predicate IsPlanar(f: Forest, g: Graph) {
    forall d, e :: d in g.Edges() && e in g.Edges() ==> !Cross(f, g, d, e)
  }

  /** The mine nodes can all be reached without a crossing. */
  ghost predicate AllReachable(f: Forest, g: Graph)
    requires f.Valid() && |g.mineEdges| == |g.mines|
  {
    forall k: nat, v :: k < |g.mines| && IsNextSlot(f, g.slots, g.mines[k].block, v) ==> Reachable(f, g, k, v)
  }

  /** The whole picture is without crossings if and only if all its mine nodes can be reached without one. */
  lemma PictureIsPlanarIff(f: Forest, g: Graph, hasNetwork: bool)
    requires f.Valid() && KeysAreIds(f.blocks) && Shows(f, g, hasNetwork) && IsDrawn(f, g)
    ensures |g.mineEdges| == |g.mines|
    ensures IsPlanar(f, g) <==> AllReachable(f, g)
  {
    hide Forest.Valid, KeysAreIds, Shows, IsDrawn, Cross, Reachable, IsNextSlot, Graph.Edges;
    SameLength(f, g, hasNetwork);
    if AllReachable(f, g) {
      forall d, e | d in g.Edges() && e in g.Edges()
        ensures !Cross(f, g, d, e)
      {
        PlanarPair(f, g, hasNetwork, d, e);
      }
    }
    if IsPlanar(f, g) {
      forall k: nat, v | k < |g.mines| && IsNextSlot(f, g.slots, g.mines[k].block, v)
        ensures Reachable(f, g, k, v)
      {
        PlanarIsReachable(f, g, hasNetwork, k, v);
      }
    }
  }

  lemma PlanarIsReachable(f: Forest, g: Graph, hasNetwork: bool, k: nat, v: real)
    requires f.Valid() && KeysAreIds(f.blocks) && Shows(f, g, hasNetwork) && IsDrawn(f, g)
    requires k < |g.mines| == |g.mineEdges| && IsNextSlot(f, g.slots, g.mines[k].block, v) && IsPlanar(f, g)
    ensures Reachable(f, g, k, v)
  {
    hide *;
    MineEdgeEnds(f, g, hasNetwork, k);
    MineEdgeCrossesIff(f, g, hasNetwork, k, v);
    forall e | e in EarlierEdges(g, k)
      ensures !Cross(f, g, g.mineEdges[k], e)
    {
      InEarlier(g, k, e);
      PlanarMeans(f, g, k, e);
    }
  }

  lemma PlanarMeans(f: Forest, g: Graph, k: nat, e: FoldGraph.Edge)
    requires IsPlanar(f, g) && k < |g.mineEdges| && e in g.Edges()
    ensures !Cross(f, g, g.mineEdges[k], e)
  {
    hide Cross;
    assert g.mineEdges[k] in g.Edges();
  }

  lemma PlanarPair(f: Forest, g: Graph, hasNetwork: bool, d: FoldGraph.Edge, e: FoldGraph.Edge)
    requires f.Valid() && KeysAreIds(f.blocks) && Shows(f, g, hasNetwork) && IsDrawn(f, g)
    requires |g.mineEdges| == |g.mines| && AllReachable(f, g) && d in g.Edges() && e in g.Edges()
    ensures !Cross(f, g, d, e)
  {
    hide Forest.Valid, KeysAreIds, Shows, IsDrawn, Cross, Reachable, IsNextSlot;
    CrossMeans(f, g, d, e);
    if d in g.blockEdges && e in g.blockEdges {
      EdgesDoNotCross(f, g, hasNetwork, d, e);
    } else {
      var k, x := LaterOf(g, d, e);
      var v, _ := MineBlock(f, g, hasNetwork, k);
      MineEdgeEnds(f, g, hasNetwork, k);
      MineEdgeCrossesIff(f, g, hasNetwork, k, v);
      if x == g.mineEdges[k] {
        CrossMeans(f, g, x, x);
      }
    }
  }

  /** The later one of two edges, a mine edge, and the other one. */
  lemma LaterOf(g: Graph, d: FoldGraph.Edge, e: FoldGraph.Edge) returns (k: nat, x: FoldGraph.Edge)
    requires d in g.Edges() && e in g.Edges() && !(d in g.blockEdges && e in g.blockEdges)
    ensures k < |g.mineEdges| && (x in EarlierEdges(g, k) || x == g.mineEdges[k])
    ensures (d == g.mineEdges[k] && e == x) || (e == g.mineEdges[k] && d == x)
  {
    if d in g.blockEdges {
      k :| 0 <= k < |g.mineEdges| && g.mineEdges[k] == e;
      x := d;
    } else if e in g.blockEdges {
      k :| 0 <= k < |g.mineEdges| && g.mineEdges[k] == d;
      x := e;
    } else {
      var i: nat :| i < |g.mineEdges| && g.mineEdges[i] == d;
      var j: nat :| j < |g.mineEdges| && g.mineEdges[j] == e;
      if i <= j {
        k, x := j, d;
        assert i < j ==> g.mineEdges[..j][i] == d;
      } else {
        k, x := i, e;
        assert g.mineEdges[..i][j] == e;
      }
    }
  }

  /** Between visible blocks the picture connects exactly what the tree connects. */
  lemma PictureConnects(f: Forest, g: Graph, hasNetwork: bool, a: Block, b: Block)
    requires f.Valid() && Shows(f, g, hasNetwork) && IsDrawn(f, g) && a in g.visible && b in g.visible
    ensures a.id in f.blocks && b.id in f.blocks
    ensures Connected(g.Edges(), BlockNode(a.id), BlockNode(b.id)) <==> Ancestor(f, a.id, b.id)
  {
    hide Forest.Valid, IsDrawn, InFold, AreSegments, AreEdges, AreColumns, InKeyOrder, IsLookup, MinesPlaced, Connected;
    SegmentsOf(f, g);
    FoldingIsContraction(f, g.segments, g.blockEdges, a.id, b.id);
    MineNodesAreEnds(f, g, hasNetwork, a.id, b.id);
  }

  /** No walk goes on from a mine node. */
  lemma MineNodesAreEnds(f: Forest, g: Graph, hasNetwork: bool, a: nat, b: nat)
    requires Shows(f, g, hasNetwork)
    ensures Connected(g.Edges(), BlockNode(a), BlockNode(b)) <==> Connected(g.blockEdges, BlockNode(a), BlockNode(b))
  {
    hide ShowsRest, InFold, IsDepthLookup, MinesPlaced, MinesFor;
    if Connected(g.blockEdges, BlockNode(a), BlockNode(b)) {
      var path: seq<GraphNode> :|
        IsWalk(g.blockEdges, path) && path[0] == BlockNode(a) && path[|path| - 1] == BlockNode(b);
      assert IsWalk(g.Edges(), path);
    }
    if Connected(g.Edges(), BlockNode(a), BlockNode(b)) {
      var path: seq<GraphNode> :|
        IsWalk(g.Edges(), path) && path[0] == BlockNode(a) && path[|path| - 1] == BlockNode(b);
      forall i | 0 < i < |path|
        ensures Edge(path[i - 1], path[i]) in g.blockEdges
      {
        if i < |path| - 1 {
          assert Edge(path[i], path[i + 1]) in g.Edges();
          NotFromMine(f, g, hasNetwork, Edge(path[i], path[i + 1]));
        }
        assert !path[i].MineTreeNode?;
      }
    }
  }

  lemma NotFromMine(f: Forest, g: Graph, hasNetwork: bool, e: FoldGraph.Edge)
    requires Shows(f, g, hasNetwork) && e in g.Edges()
    ensures !e.source.MineTreeNode?
  {
    hide ShowsRest, InFold, IsDepthLookup, MinesPlaced, MinesFor;
    if e in g.blockEdges {
      EdgesOf(f, g, hasNetwork, e);
    }
  }
}
