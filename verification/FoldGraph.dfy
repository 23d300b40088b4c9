/** The edges of the graph with folded segments, and why folding only contracts it. */
module FoldGraph {
  import opened Wrappers
  import opened BlockForest
  import opened ForestNumbering
  import opened Folding

  /** A block, a folded segment, or the node that offers to mine on a block. */
  datatype GraphNode = BlockNode(block: nat) | FoldNode(segment: (nat, nat)) | MineTreeNode(mined: nat)

  datatype Edge = Edge(source: GraphNode, target: GraphNode)

  method CreateHiddenBlockIdSet(segs: seq<FoldSegment>) returns (hidden: set<nat>)
    ensures forall b :: b in hidden <==> InFold(segs, b)
  {
    hidden := {};
    for i := 0 to |segs|
      invariant forall b :: b in hidden <==> InFold(segs[..i], b)
    {
      InFoldStep(segs, i);
      hide InFold;
      hidden := hidden + (set b | b in segs[i].blockIds);
    }
    assert segs[..|segs|] == segs;
  }

  lemma InFoldStep(segs: seq<FoldSegment>, i: nat)
    requires i < |segs|
    ensures forall b :: InFold(segs[..i + 1], b) <==> InFold(segs[..i], b) || b in segs[i].blockIds
  {
    assert segs[..i + 1] == segs[..i] + [segs[i]];
    forall b | InFold(segs[..i], b) || b in segs[i].blockIds
      ensures InFold(segs[..i + 1], b)
    {
      InFoldMore(segs[..i], segs[i], b);
    }
  }

  /** The visible blocks, in the order of the blocks. */
  method VisibleBlocks(blocks: seq<Block>, m: BlockMap, hidden: set<nat>) returns (visible: seq<Block>)
    requires UniqueIds(blocks) && IsBlockMap(blocks, m)
    ensures UniqueIds(visible)
    ensures forall b :: b in visible <==> b in blocks && b.id !in hidden
  {
    visible := [];
    for i := 0 to |blocks|
      invariant UniqueIds(visible)
      invariant forall b :: b in visible <==> b in blocks[..i] && b.id !in hidden
    {
      assert blocks[..i + 1] == blocks[..i] + [blocks[i]];
      if blocks[i].id !in hidden {
        assert blocks[i] !in visible;
        forall j | 0 <= j < |visible|
          ensures visible[j].id != blocks[i].id
        {
          assert visible[j] in blocks[..i];
        }
        visible := visible + [blocks[i]];
      }
    }
    assert blocks[..|blocks|] == blocks;
  }

  /** From a visible parent to a visible child. */
  ghost predicate IsVisibleEdge(m: BlockMap, hidden: set<nat>, e: Edge) {
    && e.source.BlockNode? && e.target.BlockNode? && e.target.block in m
    && e.source.block !in hidden && e.target.block !in hidden
    && Parent(m, e.target.block) == Some(e.source.block)
  }

  method BuildVisibleBlockEdges(blocks: seq<Block>, visible: seq<Block>, m: BlockMap, hidden: set<nat>)
    returns (edges: seq<Edge>)
    requires UniqueIds(blocks) && IsBlockMap(blocks, m) && forall b :: b in visible <==> b in blocks && b.id !in hidden
    ensures forall e :: e in edges <==> IsVisibleEdge(m, hidden, e)
  {
    edges := [];
    for i := 0 to |visible|
      invariant forall e :: e in edges <==> IsVisibleEdge(m, hidden, e) && m[e.target.block] in visible[..i]
    {
      assert visible[i] in visible;
      assert visible[..i + 1] == visible[..i] + [visible[i]];
      var b := visible[i];
      if b.prev.Some? && b.prev.value in m && b.prev.value !in hidden {
        edges := edges + [Edge(BlockNode(b.prev.value), BlockNode(b.id))];
      }
    }
    forall e | IsVisibleEdge(m, hidden, e)
      ensures m[e.target.block] in visible[..|visible|]
    {
      assert visible[..|visible|] == visible;
    }
  }

  /** From the block before a segment to its node, or from its node to the block after it. */
  ghost predicate IsBoundaryEdge(s: FoldSegment, e: Edge) {
    || (s.predecessor.Some? && e == Edge(BlockNode(s.predecessor.value), FoldNode(s.id)))
    || (s.successor.Some? && e == Edge(FoldNode(s.id), BlockNode(s.successor.value)))
  }

  method BuildFoldBoundaryEdges(segs: seq<FoldSegment>) returns (edges: seq<Edge>)
    ensures forall e :: e in edges <==> exists i :: 0 <= i < |segs| && IsBoundaryEdge(segs[i], e)
  {
    edges := [];
    for i := 0 to |segs|
      invariant forall e :: e in edges <==> exists k :: 0 <= k < i && IsBoundaryEdge(segs[k], e)
    {
      var s := segs[i];
      ghost var before := edges;
      if s.predecessor.Some? {
        edges := edges + [Edge(BlockNode(s.predecessor.value), FoldNode(s.id))];
      }
      if s.successor.Some? {
        edges := edges + [Edge(FoldNode(s.id), BlockNode(s.successor.value))];
      }
      assert forall e :: e in edges <==> e in before || IsBoundaryEdge(s, e);
    }
  }

  /** Exactly the edges of the graph in which `segs` are folded. */
  ghost predicate AreEdges(f: Forest, segs: seq<FoldSegment>, edges: seq<Edge>) {
    forall e :: e in edges <==> IsGraphEdge(f, segs, e)
  }

  ghost predicate IsGraphEdge(f: Forest, segs: seq<FoldSegment>, e: Edge) {
    || (exists i :: 0 <= i < |segs| && IsBoundaryEdge(segs[i], e))
    || (&& e.source.BlockNode? && e.target.BlockNode? && e.target.block in f.blocks
        && !InFold(segs, e.source.block) && !InFold(segs, e.target.block)
        && Parent(f.blocks, e.target.block) == Some(e.source.block))
  }

  lemma NoFoldsDisjoint()
    ensures DisjointFolds([])
  {}

  /** The edges of the graph, folded or not. */
  method BuildGraphEdges(f: Forest, blocks: seq<Block>, globalCollapsed: bool)
    returns (edges: seq<Edge>, segs: seq<FoldSegment>, visible: seq<Block>)
    requires UniqueIds(blocks) && IsBlockMap(blocks, f.blocks)
    ensures UniqueIds(visible) && forall b :: b in visible <==> b in blocks && !InFold(segs, b.id)
    ensures AreEdges(f, segs, edges)
    ensures DisjointFolds(segs) && forall i :: 0 <= i < |segs| ==> Foldable(f, segs[i])
    ensures !globalCollapsed ==> segs == []
    ensures f.Families() && ListsBlocks(f) && globalCollapsed ==> FoldsSteps(f, segs)
    ensures f.Valid() && ListsBlocks(f) && globalCollapsed ==> IsFolding(f, segs)
  {
    hide IsBlockMap, UniqueIds, DisjointFolds, Foldable, IsFolding, FoldsSteps, ListsBlocks, Forest.Valid,
         Forest.Families, InFold, IsBoundaryEdge;
    segs := ComputeFoldSegments(f, blocks);
    if !globalCollapsed {
      segs := [];
      NoFoldsDisjoint();
    }
    var hidden := CreateHiddenBlockIdSet(segs);
    visible := VisibleBlocks(blocks, f.blocks, hidden);
    var blockEdges := BuildVisibleBlockEdges(blocks, visible, f.blocks, hidden);
    var foldEdges := BuildFoldBoundaryEdges(segs);
    edges := blockEdges + foldEdges;
  }

  // ----- Contraction

  ghost predicate IsWalk(edges: seq<Edge>, path: seq<GraphNode>) {
    path != [] && forall i :: 0 < i < |path| ==> Edge(path[i - 1], path[i]) in edges
  }

  ghost predicate Connected(edges: seq<Edge>, x: GraphNode, y: GraphNode) {
    exists path :: IsWalk(edges, path) && path[0] == x && path[|path| - 1] == y
  }

  lemma ConnectedTrivially(edges: seq<Edge>, x: GraphNode)
    ensures Connected(edges, x, x)
  {
    assert IsWalk(edges, [x]);
  }

  lemma ConnectedStep(edges: seq<Edge>, x: GraphNode, y: GraphNode, z: GraphNode)
    requires Connected(edges, x, y) && Edge(y, z) in edges
    ensures Connected(edges, x, z)
  {
    var path :| IsWalk(edges, path) && path[0] == x && path[|path| - 1] == y;
    assert IsWalk(edges, path + [z]);
  }

  /** The block a node stands for: itself, the first block of the segment, or the block to mine on. */
  ghost function Rep(n: GraphNode): nat {
    match n
    case BlockNode(b) => b
    case FoldNode(id) => id.0
    case MineTreeNode(b) => b
  }

  lemma {:induction false} AncestorTransitive(f: Forest, a: nat, b: nat, c: nat)
    requires f.Valid() && b in f.blocks && c in f.blocks && Ancestor(f, a, b) && Ancestor(f, b, c)
    ensures Ancestor(f, a, c)
    decreases f.blocks[c].height
  {
    if b != c {
      AncestorTransitive(f, a, b, Parent(f.blocks, c).value);
    }
  }

  lemma ParentIsAncestor(f: Forest, p: nat, b: nat)
    requires f.Valid() && b in f.blocks && Parent(f.blocks, b) == Some(p)
    ensures p in f.blocks && Ancestor(f, p, b)
  {
    assert Ancestor(f, p, p);
  }

  lemma {:induction false} FirstOfSegment(f: Forest, s: FoldSegment, i: nat)
    requires f.Valid() && IsSegment(f, s) && i < |s.blockIds|
    ensures s.blockIds[i] in f.blocks && Ancestor(f, s.blockIds[0], s.blockIds[i])
    decreases i
  {
    if i > 0 {
      hide Forest.Valid, Forest.Kids, Protected;
      FirstOfSegment(f, s, i - 1);
      SegmentLink(f, s, i - 1);
    }
  }

  lemma SuccessorFacts(f: Forest, s: FoldSegment)
    requires f.Valid() && IsSegment(f, s) && s.successor.Some?
    ensures s.successor.value in f.blocks && Parent(f.blocks, s.successor.value) == Some(s.blockIds[|s.blockIds| - 1])
  {
    hide Forest.Valid, Forest.Kids, Protected;
    var last := s.blockIds[|s.blockIds| - 1];
    assert last in f.blocks && f.Kids(last) == [s.successor.value];
    KidFacts(f, last, 0);
  }

  /** Along an edge one goes down in the tree. */
  lemma EdgeGoesDown(f: Forest, segs: seq<FoldSegment>, edges: seq<Edge>, e: Edge)
    requires f.Valid() && AreSegments(f, segs) && AreEdges(f, segs, edges) && e in edges
    ensures Rep(e.source) in f.blocks && Rep(e.target) in f.blocks && Ancestor(f, Rep(e.source), Rep(e.target))
  {
    hide Forest.Valid, Forest.Kids, Protected, InFold, DisjointFolds;
    if i :| 0 <= i < |segs| && IsBoundaryEdge(segs[i], e) {
      var s := segs[i];
      FirstOfSegment(f, s, 0);
      if e.target.FoldNode? {
        ParentIsAncestor(f, s.predecessor.value, s.blockIds[0]);
      } else {
        var last := s.blockIds[|s.blockIds| - 1];
        SuccessorFacts(f, s);
        FirstOfSegment(f, s, |s.blockIds| - 1);
        ParentIsAncestor(f, last, s.successor.value);
        AncestorTransitive(f, s.blockIds[0], last, s.successor.value);
      }
    } else {
      ParentIsAncestor(f, e.source.block, e.target.block);
    }
  }

  lemma {:induction false} WalkGoesDown(f: Forest, segs: seq<FoldSegment>, edges: seq<Edge>, path: seq<GraphNode>,
                                        n: nat)
    requires f.Valid() && AreSegments(f, segs) && AreEdges(f, segs, edges) && IsWalk(edges, path) && n < |path|
    requires Rep(path[0]) in f.blocks
    ensures Rep(path[n]) in f.blocks && Ancestor(f, Rep(path[0]), Rep(path[n]))
    decreases n
  {
    hide Forest.Valid, AreSegments, AreEdges, Rep;
    if n > 0 {
      WalkGoesDown(f, segs, edges, path, n - 1);
      EdgeGoesDown(f, segs, edges, Edge(path[n - 1], path[n]));
      AncestorTransitive(f, Rep(path[0]), Rep(path[n - 1]), Rep(path[n]));
    }
  }

  /** Above a block of a segment, an unfolded block is above the whole segment. */
  lemma {:induction false} AboveSegment(f: Forest, segs: seq<FoldSegment>, k: nat, i: nat, a: nat)
    requires f.Valid() && AreSegments(f, segs) && k < |segs| && i < |segs[k].blockIds|
    requires a in f.blocks && !InFold(segs, a) && segs[k].blockIds[i] in f.blocks && Ancestor(f, a, segs[k].blockIds[i])
    ensures segs[k].predecessor.Some? && segs[k].predecessor.value in f.blocks
    ensures Ancestor(f, a, segs[k].predecessor.value)
    decreases i
  {
    var s := segs[k];
    assert s.blockIds[i] in s.blockIds && a != s.blockIds[i];
    if i > 0 {
      hide Forest.Valid, Forest.Kids, Protected;
      assert IsSegment(f, s);
      SegmentLink(f, s, i - 1);
      AboveSegment(f, segs, k, i - 1, a);
    }
  }

  /** A block under a folded one comes right after its segment. */
  lemma UnderSegment(f: Forest, segs: seq<FoldSegment>, b: nat) returns (k: nat)
    requires f.Valid() && AreSegments(f, segs) && b in f.blocks && !InFold(segs, b)
    requires Parent(f.blocks, b).Some? && InFold(segs, Parent(f.blocks, b).value)
    ensures k < |segs| && segs[k].successor == Some(b) && IsSegment(f, segs[k])
    ensures segs[k].blockIds[|segs[k].blockIds| - 1] == Parent(f.blocks, b).value
  {
    ParentListsKid(f, b);
    hide Forest.Valid, Forest.Kids, IsSegment, DisjointFolds;
    var p := Parent(f.blocks, b).value;
    k :| 0 <= k < |segs| && p in segs[k].blockIds;
    KidOfSegment(f, segs[k], p, b);
  }

  lemma KidOfSegment(f: Forest, s: FoldSegment, p: nat, b: nat)
    requires IsSegment(f, s) && p in s.blockIds && b in f.Kids(p)
    ensures b in s.blockIds || (s.successor == Some(b) && s.blockIds[|s.blockIds| - 1] == p)
  {
    hide Forest.Kids, Protected;
    var i :| 0 <= i < |s.blockIds| && s.blockIds[i] == p;
    if i < |s.blockIds| - 1 {
      assert f.Kids(p) == [s.blockIds[i + 1]];
    }
  }

  lemma PredecessorIsVisible(f: Forest, segs: seq<FoldSegment>, k: nat)
    requires f.Valid() && AreSegments(f, segs) && k < |segs| && segs[k].predecessor.Some?
    ensures segs[k].predecessor.value in f.blocks && !InFold(segs, segs[k].predecessor.value)
    ensures f.blocks[segs[k].predecessor.value].height < f.blocks[segs[k].blockIds[0]].height
  {
    ParentListsKid(f, segs[k].blockIds[0]);
    hide Forest.Valid, Forest.Kids, Protected, DisjointFolds;
    assert IsSegment(f, segs[k]);
  }

  /** Downwards in the tree, from an unfolded block to an unfolded block, there is a walk. */
  lemma {:induction false} AncestorsConnected(f: Forest, segs: seq<FoldSegment>, edges: seq<Edge>, a: nat, b: nat)
    requires f.Valid() && AreSegments(f, segs) && AreEdges(f, segs, edges)
    requires a in f.blocks && b in f.blocks && !InFold(segs, a) && !InFold(segs, b) && Ancestor(f, a, b)
    ensures Connected(edges, BlockNode(a), BlockNode(b))
    decreases f.blocks[b].height
  {
    hide *;
    if a == b {
      ConnectedTrivially(edges, BlockNode(a));
    } else {
      AncestorOfParent(f, a, b);
      var p := Parent(f.blocks, b).value;
      if InFold(segs, p) {
        var k := UnderSegment(f, segs, b);
        SegmentIsLower(f, segs[k]);
        AboveSegment(f, segs, k, |segs[k].blockIds| - 1, a);
        PredecessorIsVisible(f, segs, k);
        AncestorsConnected(f, segs, edges, a, segs[k].predecessor.value);
        ConnectedOver(f, segs, edges, a, k);
      } else {
        AncestorsConnected(f, segs, edges, a, p);
        VisibleEdgeListed(f, segs, edges, p, b);
        ConnectedStep(edges, BlockNode(a), BlockNode(p), BlockNode(b));
      }
    }
  }

  lemma AncestorOfParent(f: Forest, a: nat, b: nat)
    requires f.Valid() && b in f.blocks && Ancestor(f, a, b) && a != b
    ensures Parent(f.blocks, b).Some? && Parent(f.blocks, b).value in f.blocks
    ensures Ancestor(f, a, Parent(f.blocks, b).value)
    ensures f.blocks[Parent(f.blocks, b).value].height < f.blocks[b].height
  {}

  lemma VisibleEdgeListed(f: Forest, segs: seq<FoldSegment>, edges: seq<Edge>, p: nat, b: nat)
    requires AreEdges(f, segs, edges) && b in f.blocks && Parent(f.blocks, b) == Some(p) && !InFold(segs, p)
    requires !InFold(segs, b)
    ensures Edge(BlockNode(p), BlockNode(b)) in edges
  {
    assert IsGraphEdge(f, segs, Edge(BlockNode(p), BlockNode(b)));
  }

  lemma ConnectedOver(f: Forest, segs: seq<FoldSegment>, edges: seq<Edge>, a: nat, k: nat)
    requires AreEdges(f, segs, edges) && k < |segs| && segs[k].predecessor.Some? && segs[k].successor.Some?
    requires Connected(edges, BlockNode(a), BlockNode(segs[k].predecessor.value))
    ensures Connected(edges, BlockNode(a), BlockNode(segs[k].successor.value))
  {
    hide Connected, InFold;
    var s := segs[k];
    var down := Edge(BlockNode(s.predecessor.value), FoldNode(s.id));
    var up := Edge(FoldNode(s.id), BlockNode(s.successor.value));
    assert IsBoundaryEdge(s, down) && IsBoundaryEdge(s, up);
    assert IsGraphEdge(f, segs, down) && IsGraphEdge(f, segs, up);
    ConnectedStep(edges, BlockNode(a), down.source, down.target);
    ConnectedStep(edges, BlockNode(a), up.source, up.target);
  }

  lemma SegmentIsLower(f: Forest, s: FoldSegment)
    requires IsSegment(f, s)
    ensures s.blockIds != [] && s.blockIds[0] in f.blocks && s.blockIds[|s.blockIds| - 1] in f.blocks
    ensures f.blocks[s.blockIds[0]].height <= f.blocks[s.blockIds[|s.blockIds| - 1]].height
  {
    hide Forest.Valid, Forest.Kids, Protected;
  }

  /** Folding is a contraction: between visible blocks the folded graph connects exactly what the tree connects. */
  lemma FoldingIsContraction(f: Forest, segs: seq<FoldSegment>, edges: seq<Edge>, a: nat, b: nat)
    requires f.Valid() && AreSegments(f, segs) && AreEdges(f, segs, edges)
    requires a in f.blocks && b in f.blocks && !InFold(segs, a) && !InFold(segs, b)
    ensures Connected(edges, BlockNode(a), BlockNode(b)) <==> Ancestor(f, a, b)
  {
    hide Forest.Valid, AreSegments, AreEdges, InFold;
    if Ancestor(f, a, b) {
      AncestorsConnected(f, segs, edges, a, b);
    }
    if Connected(edges, BlockNode(a), BlockNode(b)) {
      var path :| IsWalk(edges, path) && path[0] == BlockNode(a) && path[|path| - 1] == BlockNode(b);
      WalkGoesDown(f, segs, edges, path, |path| - 1);
    }
  }
}
