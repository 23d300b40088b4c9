/** From the header tree through the cache to the blocks of the page, and the whole way to the graph. */
module HeaderPayload {
  import opened Sorting
  import opened Chain
  import opened HeaderTree
  import opened MinerCache
  import Metrics
  import BlockForest
  import DrawnEdges
  import FoldGraph
  import Folding
  import ForestNumbering
  import MineNodes
  import Placement
  import G = Graph

  type Block = BlockForest.Block

  /** What the payload says about one node of the tree; the miner may be older or newer than the tree's. */
  ghost predicate IsEntryOf(t: TreeInfo, e: HeaderInfoJson)
    requires t.Valid()
  {
    && e.id < |t.nodes| && e.prevId == Metrics.Parent(t, e.id)
    && e.height == t.nodes[e.id].height && e.hash == t.nodes[e.id].Hash()
  }

  ghost predicate DistinctEntryIds(infos: seq<HeaderInfoJson>) {
    forall i, j :: 0 <= i < j < |infos| ==> infos[i].id != infos[j].id
  }

  ghost predicate HasId(infos: seq<HeaderInfoJson>, id: nat) {
    exists k :: 0 <= k < |infos| && infos[k].id == id
  }

  /** Every node of the tree once, in any order. */
  ghost predicate IsPayload(t: TreeInfo, infos: seq<HeaderInfoJson>)
    requires t.Valid()
  {
    && DistinctEntryIds(infos)
    && (forall k :: 0 <= k < |infos| ==> IsEntryOf(t, infos[k]))
    && (forall i: nat :: i < |t.nodes| ==> HasId(infos, i))
  }

  /** The nodes under their numbers, with the numbers of their parents. */
  method GraphToHeaderInfos(t: TreeInfo) returns (infos: seq<HeaderInfoJson>)
    requires t.Valid()
    ensures IsPayload(t, infos)
    ensures |infos| == |t.nodes|
    ensures forall i: nat :: i < |infos| ==> infos[i].id == i && infos[i].miner == t.nodes[i].miner
  {
    infos := [];
    for i := 0 to |t.nodes|
      invariant |infos| == i
      invariant forall j: nat :: j < i ==>
              infos[j].id == j && infos[j].miner == t.nodes[j].miner && IsEntryOf(t, infos[j])
    {
      hide Metrics.Parent, TreeInfo.Valid;
      var parent := Metrics.ParentIndex(t, i);
      infos := infos + [HeaderInfoJson(i, parent, t.nodes[i].height, t.nodes[i].Hash(), t.nodes[i].miner)];
    }
    forall i: nat | i < |t.nodes|
      ensures HasId(infos, i)
    {
      assert infos[i].id == i;
    }
  }

  // ----- Through the cache

  lemma PayloadHashes(t: TreeInfo, infos: seq<HeaderInfoJson>)
    requires t.Valid() && IsPayload(t, infos)
    ensures DistinctHashes(infos)
  {
    hide Metrics.Parent;
    forall i, j | 0 <= i < j < |infos|
      ensures infos[i].hash != infos[j].hash
    {
      assert IsEntryOf(t, infos[i]) && IsEntryOf(t, infos[j]);
    }
  }

  /** A cached entry is one of the snapshot but for its miner. */
  lemma CachedEntry(t: TreeInfo, infos: seq<HeaderInfoJson>, recent: seq<Found>, cached: seq<HeaderInfoJson>, k: nat)
    requires t.Valid() && IsPayload(t, infos) && DistinctHashes(infos) && DistinctHashes(cached)
    requires Table(cached) == ReplayInfos(Table(infos), recent) && k < |cached|
    ensures IsEntryOf(t, cached[k])
  {
    hide TreeInfo.Valid, Metrics.Parent, Table, HasId, ReplayInfos;
    TableLookup(cached);
    TableLookup(infos);
    ReplayInfosMiners(Table(infos), recent);
    var h := cached[k].hash;
    ReplayKeeps(Table(infos), recent);
    var j :| 0 <= j < |infos| && infos[j].hash == h;
    assert IsEntryOf(t, infos[j]) && cached[k].(miner := "") == infos[j].(miner := "");
  }

  lemma ReplayKeeps(table: map<BlockHash, HeaderInfoJson>, recent: seq<Found>)
    ensures ReplayInfos(table, recent).Keys == table.Keys
  {}

  lemma CachedId(t: TreeInfo, infos: seq<HeaderInfoJson>, recent: seq<Found>, cached: seq<HeaderInfoJson>, i: nat)
    requires t.Valid() && IsPayload(t, infos) && DistinctHashes(infos) && DistinctHashes(cached)
    requires Table(cached) == ReplayInfos(Table(infos), recent) && i < |t.nodes|
    requires forall k :: 0 <= k < |cached| ==> IsEntryOf(t, cached[k])
    ensures HasId(cached, i)
  {
    hide Metrics.Parent, Table, ReplayInfos;
    TableLookup(cached);
    TableLookup(infos);
    ReplayKeeps(Table(infos), recent);
    assert HasId(infos, i);
    var k :| 0 <= k < |infos| && infos[k].id == i;
    assert IsEntryOf(t, infos[k]);
    var j :| 0 <= j < |cached| && cached[j].hash == infos[k].hash;
    assert IsEntryOf(t, cached[j]);
  }

  lemma EntryIdsDistinct(t: TreeInfo, cached: seq<HeaderInfoJson>)
    requires t.Valid() && DistinctHashes(cached) && forall k :: 0 <= k < |cached| ==> IsEntryOf(t, cached[k])
    ensures DistinctEntryIds(cached)
  {
    hide TreeInfo.Valid, Metrics.Parent;
    assert forall k :: 0 <= k < |cached| ==> IsEntryOf(t, cached[k]) && cached[k].hash == t.nodes[cached[k].id].Hash();
  }

  /** Whatever results are replayed over it, and in whatever order it comes out of the table, the cached payload is
      one of the same tree. */
  lemma CacheKeepsPayload(t: TreeInfo, infos: seq<HeaderInfoJson>, recent: seq<Found>, cached: seq<HeaderInfoJson>)
    requires t.Valid() && IsPayload(t, infos) && DistinctHashes(infos) && DistinctHashes(cached)
    requires Table(cached) == ReplayInfos(Table(infos), recent)
    ensures IsPayload(t, cached)
  {
    hide TreeInfo.Valid, IsEntryOf, Table, ReplayInfos, DistinctHashes, DistinctEntryIds, HasId;
    forall k | 0 <= k < |cached|
      ensures IsEntryOf(t, cached[k])
    {
      CachedEntry(t, infos, recent, cached, k);
    }
    EntryIdsDistinct(t, cached);
    forall i: nat | i < |t.nodes|
      ensures HasId(cached, i)
    {
      CachedId(t, infos, recent, cached, i);
    }
  }

  /** A refresh of the cache: the payload of the tree, with the remembered miners. */
  method RefreshNetworkTreeCache(t: TreeInfo, cache: Cache)
    requires t.Valid() && cache.Valid()
    modifies cache
    ensures cache.Valid() && IsPayload(t, cache.headerInfos) && cache.recentMiners == old(cache.recentMiners)
    ensures MinersOf(Table(cache.headerInfos)) == Replay(TreeMiners(t), cache.recentMiners)
  {
    hide *;
    var infos := GraphToHeaderInfos(t);
    MinersOfPayload(t, infos);
    PayloadHashes(t, infos);
    cache.UpdateHeaderTree(infos);
    ValidCache(cache);
    CacheKeepsPayload(t, infos, cache.recentMiners, cache.headerInfos);
    ReplayInfosMiners(Table(infos), cache.recentMiners);
  }

  /** The miners in the tree. */
  ghost function TreeMiners(t: TreeInfo): Miners
    requires t.Valid()
  {
    map h | h in t.Hashes() :: t.Known()[h].miner
  }

  lemma MinersOfPayload(t: TreeInfo, infos: seq<HeaderInfoJson>)
    requires t.Valid() && IsPayload(t, infos) && |infos| == |t.nodes|
    requires forall i: nat :: i < |infos| ==> infos[i].id == i && infos[i].miner == t.nodes[i].miner
    ensures DistinctHashes(infos) && MinersOf(Table(infos)) == TreeMiners(t)
  {
    hide *;
    PayloadHashes(t, infos);
    forall h
      ensures h in Table(infos) <==> h in TreeMiners(t)
      ensures h in TreeMiners(t) && h in Table(infos) ==> Table(infos)[h].miner == TreeMiners(t)[h]
    {
      MinerOfEntry(t, infos, h);
    }
    SameMiners(Table(infos), TreeMiners(t));
  }

  lemma SameMiners(table: map<BlockHash, HeaderInfoJson>, miners: Miners)
    requires forall h :: h in table <==> h in miners
    requires forall h :: h in miners ==> table[h].miner == miners[h]
    ensures MinersOf(table) == miners
  {}

  lemma MinerOfEntry(t: TreeInfo, infos: seq<HeaderInfoJson>, h: BlockHash)
    requires t.Valid() && IsPayload(t, infos) && |infos| == |t.nodes| && DistinctHashes(infos)
    requires forall i: nat :: i < |infos| ==> infos[i].id == i && infos[i].miner == t.nodes[i].miner
    ensures h in Table(infos) <==> h in TreeMiners(t)
    ensures h in TreeMiners(t) && h in Table(infos) ==> Table(infos)[h].miner == TreeMiners(t)[h]
  {
    hide Metrics.Parent, HasId, DistinctEntryIds, DistinctHashes;
    if h in t.Hashes() {
      var i := t.index[h];
      assert IsEntryOf(t, infos[i]);
      TableAt(infos, i);
    }
    if h in Table(infos) {
      var j := InTable(infos, h);
      assert IsEntryOf(t, infos[j]);
    }
  }

  lemma TableAt(infos: seq<HeaderInfoJson>, i: nat)
    requires DistinctHashes(infos) && i < |infos|
    ensures infos[i].hash in Table(infos) && Table(infos)[infos[i].hash] == infos[i]
  {
    TableLookup(infos);
    hide Table;
  }

  lemma InTable(infos: seq<HeaderInfoJson>, h: BlockHash) returns (j: nat)
    requires DistinctHashes(infos) && h in Table(infos)
    ensures j < |infos| && infos[j].hash == h
  {
    TableLookup(infos);
    hide Table;
    j :| 0 <= j < |infos| && infos[j].hash == h;
  }

  lemma ValidCache(cache: Cache)
    requires cache.Valid()
    ensures DistinctHashes(cache.headerInfos)
  {}

  /** A miner that is patched in leaves it the payload of the same tree. */
  lemma PatchKeepsPayload(t: TreeInfo, infos: seq<HeaderInfoJson>, f: Found, cached: seq<HeaderInfoJson>)
    requires t.Valid() && IsPayload(t, infos) && DistinctHashes(infos) && DistinctHashes(cached)
    requires Table(cached) == SetMiner(Table(infos), f)
    ensures IsPayload(t, cached)
  {
    hide TreeInfo.Valid, IsPayload, Table;
    assert [f][..0] == [];
    assert ReplayInfos(Table(infos), [f]) == SetMiner(Table(infos), f);
    CacheKeepsPayload(t, infos, [f], cached);
  }

  // ----- To the page

  /** What a node reports, and whether blocks can be mined on it. */
  datatype NodeReport = NodeReport(supportsMining: bool, tips: seq<Metrics.TipInfo>)

  /** Some report lists the block. */
  ghost predicate IsTip(reports: seq<NodeReport>, hash: BlockHash) {
    exists n, k :: n in reports && 0 <= k < |n.tips| && n.tips[k].hash == hash
  }

  /** Some node that can mine reports the block as its active tip. */
  ghost predicate CanMineOn(reports: seq<NodeReport>, hash: BlockHash) {
    exists n, k :: n in reports && n.supportsMining && 0 <= k < |n.tips| && n.tips[k].hash == hash && n.tips[k].active
  }

  /** What a block shows of an entry and of the reports. */
  ghost predicate ShowsEntry(e: HeaderInfoJson, reports: seq<NodeReport>, rank: BlockHash -> nat, b: Block) {
    && b.id == e.id && b.prev == e.prevId && b.height == e.height && b.hash == rank(e.hash)
    && (b.hasTips <==> IsTip(reports, e.hash)) && (b.mineable <==> CanMineOn(reports, e.hash))
  }

  predicate HasTips(reports: seq<NodeReport>, hash: BlockHash) {
    exists n | n in reports :: exists k | 0 <= k < |n.tips| :: n.tips[k].hash == hash
  }

  predicate Mineable(reports: seq<NodeReport>, hash: BlockHash) {
    exists n | n in reports ::
      n.supportsMining && exists k | 0 <= k < |n.tips| :: n.tips[k].hash == hash && n.tips[k].active
  }

  function BlockOf(e: HeaderInfoJson, reports: seq<NodeReport>, rank: BlockHash -> nat): Block {
    BlockForest.Block(e.id, e.prevId, e.height, rank(e.hash), HasTips(reports, e.hash), Mineable(reports, e.hash))
  }

  lemma BlockOfShows(e: HeaderInfoJson, reports: seq<NodeReport>, rank: BlockHash -> nat, b: Block)
    ensures b == BlockOf(e, reports, rank) <==> ShowsEntry(e, reports, rank, b)
  {
    assert HasTips(reports, e.hash) <==> IsTip(reports, e.hash);
    assert Mineable(reports, e.hash) <==> CanMineOn(reports, e.hash);
    hide HasTips, IsTip, Mineable, CanMineOn;
  }

  /** From the lowest block to the highest, blocks of one height by hash, and then by id. */
  ghost predicate InBlockOrder(blocks: seq<Block>) {
    forall i, j :: 0 <= i < j < |blocks| ==> BlockForest.NotAfter(blocks[i], blocks[j])
  }

  /** `b` shows one of the entries. */
  ghost predicate Shown(infos: seq<HeaderInfoJson>, reports: seq<NodeReport>, rank: BlockHash -> nat, b: Block) {
    exists k :: 0 <= k < |infos| && ShowsEntry(infos[k], reports, rank, b)
  }

  /** Each entry as a block, in the order of the blocks. */
  ghost predicate AreBlocksOf(infos: seq<HeaderInfoJson>, reports: seq<NodeReport>, rank: BlockHash -> nat,
                              blocks: seq<Block>) {
    && |blocks| == |infos| && BlockForest.UniqueIds(blocks) && InBlockOrder(blocks)
    && forall b :: b in blocks <==> Shown(infos, reports, rank, b)
  }

  /** Annotates the headers with tips and sorts them; `rank` is the position of a hash in text order. */
  method PreprocessData(infos: seq<HeaderInfoJson>, reports: seq<NodeReport>, rank: BlockHash -> nat)
    returns (blocks: seq<Block>)
    requires DistinctEntryIds(infos)
    ensures AreBlocksOf(infos, reports, rank, blocks)
  {
    var unsorted: seq<Block> := [];
    for i := 0 to |infos|
      invariant |unsorted| == i && forall j :: 0 <= j < i ==> unsorted[j] == BlockOf(infos[j], reports, rank)
    {
      hide BlockOf;
      unsorted := unsorted + [BlockOf(infos[i], reports, rank)];
    }
    blocks := SortBlocks(unsorted);
    SortedBlocks(infos, reports, rank, unsorted, blocks);
  }

  function SortBlocks(blocks: seq<Block>): (r: seq<Block>)
    ensures multiset(r) == multiset(blocks) && |r| == |blocks| && InBlockOrder(r)
  {
    var le := (a: Block, b: Block) => BlockForest.CompareBlocks(a, b);
    assert IsOrder(le);
    assert forall a, b :: le(a, b) ==> BlockForest.NotAfter(a, b);
    Sort(blocks, le)
  }

  lemma SortedBlocks(infos: seq<HeaderInfoJson>, reports: seq<NodeReport>, rank: BlockHash -> nat, unsorted: seq<Block>,
                     blocks: seq<Block>)
    requires DistinctEntryIds(infos) && |blocks| == |unsorted| == |infos| && multiset(blocks) == multiset(unsorted)
    requires InBlockOrder(blocks)
    requires forall i :: 0 <= i < |infos| ==> unsorted[i] == BlockOf(infos[i], reports, rank)
    ensures AreBlocksOf(infos, reports, rank, blocks)
  {
    hide InBlockOrder, ShowsEntry;
    PermutationDistinct(unsorted, blocks);
    forall b
      ensures b in unsorted <==> Shown(infos, reports, rank, b)
    {
      if Shown(infos, reports, rank, b) {
        var k :| 0 <= k < |infos| && ShowsEntry(infos[k], reports, rank, b);
        BlockOfShows(infos[k], reports, rank, b);
        assert unsorted[k] == b;
      }
      if b in unsorted {
        var k :| 0 <= k < |infos| && unsorted[k] == b;
        BlockOfShows(infos[k], reports, rank, b);
      }
    }
    hide HasTips, Mineable;
    forall i, j | 0 <= i < j < |blocks|
      ensures blocks[i].id != blocks[j].id
    {
      assert blocks[i] in unsorted && blocks[j] in unsorted;
    }
  }

  lemma LowestBlock(x: seq<Block>, y: seq<Block>)
    requires BlockForest.UniqueIds(x) && InBlockOrder(x) && InBlockOrder(y) && forall b :: b in x <==> b in y
    requires x != [] && y != []
    ensures x[0] == y[0]
  {
    assert x[0] in y && y[0] in x;
    var i :| 0 <= i < |x| && x[i] == y[0];
    var j :| 0 <= j < |y| && y[j] == x[0];
  }

  lemma InTail(x: seq<Block>, b: Block)
    requires BlockForest.UniqueIds(x) && x != []
    ensures b in x[1..] <==> b in x && b != x[0]
  {
    assert x == [x[0]] + x[1..];
  }

  /** The order of the entries does not matter: there is only one sorted list of the same blocks. */
  lemma {:induction false} SortedBlocksUnique(x: seq<Block>, y: seq<Block>)
    requires BlockForest.UniqueIds(x) && BlockForest.UniqueIds(y) && InBlockOrder(x) && InBlockOrder(y)
    requires |x| == |y| && forall b :: b in x <==> b in y
    ensures x == y
  {
    if x != [] {
      assert x[0] in y;
      LowestBlock(x, y);
      forall b
        ensures b in x[1..] <==> b in y[1..]
      {
        InTail(x, b);
        InTail(y, b);
      }
      SortedBlocksUnique(x[1..], y[1..]);
      assert x == [x[0]] + x[1..] && y == [y[0]] + y[1..];
    }
  }

  /** The blocks of a payload have the heights and parents that the tree has. */
  lemma ParentsAgree(t: TreeInfo, infos: seq<HeaderInfoJson>, reports: seq<NodeReport>, rank: BlockHash -> nat,
                     blocks: seq<Block>, m: BlockForest.BlockMap, b: nat)
    requires t.Valid() && IsPayload(t, infos) && AreBlocksOf(infos, reports, rank, blocks)
    requires BlockForest.IsBlockMap(blocks, m)
    requires b in m
    ensures b < |t.nodes| && m[b].height == t.nodes[b].height && BlockForest.Parent(m, b) == Metrics.Parent(t, b)
    ensures m[b].hasTips <==> IsTip(reports, t.nodes[b].Hash())
    ensures m[b].mineable <==> CanMineOn(reports, t.nodes[b].Hash())
  {
    hide IsTip, CanMineOn, TreeInfo.Valid, InBlockOrder;
    assert m[b] in blocks;
    var k :| 0 <= k < |infos| && ShowsEntry(infos[k], reports, rank, m[b]);
    assert IsEntryOf(t, infos[k]);
    if Metrics.Parent(t, b).Some? {
      NodeIsShown(t, infos, reports, rank, blocks, m, Metrics.Parent(t, b).value);
    }
  }

  lemma NodeIsShown(t: TreeInfo, infos: seq<HeaderInfoJson>, reports: seq<NodeReport>, rank: BlockHash -> nat,
                    blocks: seq<Block>, m: BlockForest.BlockMap, b: nat)
    requires t.Valid() && IsPayload(t, infos) && AreBlocksOf(infos, reports, rank, blocks)
    requires BlockForest.IsBlockMap(blocks, m)
    requires b < |t.nodes|
    ensures b in m
  {
    hide HasTips, Mineable, IsTip, CanMineOn, TreeInfo.Valid, InBlockOrder, IsEntryOf;
    assert HasId(infos, b);
    var k :| 0 <= k < |infos| && infos[k].id == b;
    var x := BlockOf(infos[k], reports, rank);
    BlockOfShows(infos[k], reports, rank, x);
    assert Shown(infos, reports, rank, x);
    var i :| 0 <= i < |blocks| && blocks[i] == x;
  }

  /** In the payload of a tree that the poll loop keeps, every child is one above its parent. */
  lemma TrackedTreeRises(t: TreeInfo, first: nat, infos: seq<HeaderInfoJson>, reports: seq<NodeReport>,
                         rank: BlockHash -> nat, blocks: seq<Block>, m: BlockForest.BlockMap)
    requires t.AllTracked(first) && IsPayload(t, infos) && AreBlocksOf(infos, reports, rank, blocks)
    requires BlockForest.IsBlockMap(blocks, m)
    ensures G.Rising(m)
  {
    Metrics.TrackedIsLinked(t, first);
    hide TreeInfo.AllTracked, BlockForest.IsBlockMap, IsPayload, AreBlocksOf;
    forall b | b in m && BlockForest.Parent(m, b).Some?
      ensures m[b].height == m[BlockForest.Parent(m, b).value].height + 1
    {
      var p := BlockForest.Parent(m, b).value;
      ParentsAgree(t, infos, reports, rank, blocks, m, b);
      ParentsAgree(t, infos, reports, rank, blocks, m, p);
      assert t.Link(p, b);
    }
  }

  /** The whole way. Whatever tree the poll loop kept when the cache was refreshed, the page shows the graph of a
      forest: one whose blocks are the headers of that tree and whose parents are their parents. */
  method ShowTree(ghost t: TreeInfo, cached: seq<HeaderInfoJson>, reports: seq<NodeReport>, rank: BlockHash -> nat,
                  hasNetwork: bool, collapsed: bool, ghost first: nat)
    returns (f: ForestNumbering.Forest, g: G.Graph)
    requires t.AllTracked(first) && IsPayload(t, cached)
    ensures f.Valid() && G.Shows(f, g, hasNetwork) && G.IsGraphOf(f, g, collapsed) && G.IsDrawn(f, g)
    ensures forall b: nat :: b in f.blocks <==> b < |t.nodes|
    ensures forall b :: b in f.blocks ==>
              f.blocks[b].height == t.nodes[b].height && BlockForest.Parent(f.blocks, b) == Metrics.Parent(t, b)
    ensures forall b: nat :: b < |t.nodes| && IsTip(reports, t.nodes[b].Hash()) ==> !Folding.InFold(g.segments, b)
    ensures hasNetwork ==> forall b: nat :: b < |t.nodes| ==>
              (HasMine(g.mines, b) <==> CanMineOn(reports, t.nodes[b].Hash()))
  {
    hide *;
    PayloadIds(t, first, cached);
    var blocks := PreprocessData(cached, reports, rank);
    OneBlockPerId(cached, reports, rank, blocks);
    f, g := G.BuildReactFlowGraph(blocks, hasNetwork, collapsed);
    G.BlockIds(f, blocks);
    TrackedTreeRises(t, first, cached, reports, rank, blocks, f.blocks);
    forall b: nat
      ensures b in f.blocks <==> b < |t.nodes|
      ensures b in f.blocks ==>
                f.blocks[b].height == t.nodes[b].height && BlockForest.Parent(f.blocks, b) == Metrics.Parent(t, b)
    {
      if b in f.blocks {
        ParentsAgree(t, cached, reports, rank, blocks, f.blocks, b);
      } else if b < |t.nodes| {
        NodeIsShown(t, cached, reports, rank, blocks, f.blocks, b);
      }
    }
    forall b: nat | b < |t.nodes|
      ensures IsTip(reports, t.nodes[b].Hash()) ==> !Folding.InFold(g.segments, b)
      ensures hasNetwork ==> (HasMine(g.mines, b) <==> CanMineOn(reports, t.nodes[b].Hash()))
    {
      ParentsAgree(t, cached, reports, rank, blocks, f.blocks, b);
      if IsTip(reports, t.nodes[b].Hash()) {
        TipIsVisible(f, g, b);
      }
      if CanMineOn(reports, t.nodes[b].Hash()) {
        MinedOnIsTip(reports, t.nodes[b].Hash());
      }
      if hasNetwork {
        MineOfBlock(f, g, hasNetwork, b);
      }
    }
  }

  /** There is a mine node for the block. */
  ghost predicate HasMine(mines: seq<MineNodes.MineNode>, b: nat) {
    exists k :: 0 <= k < |mines| && mines[k].block == b
  }

  lemma MinedOnIsTip(reports: seq<NodeReport>, hash: BlockHash)
    requires CanMineOn(reports, hash)
    ensures IsTip(reports, hash)
  {}

  /** No segment hides a tip. */
  lemma TipIsVisible(f: ForestNumbering.Forest, g: G.Graph, b: nat)
    requires f.Valid() && G.IsDrawn(f, g) && b in f.blocks && f.blocks[b].hasTips
    ensures !Folding.InFold(g.segments, b)
  {
    Placement.ProtectedIsVisible(f, g.segments);
    assert Folding.Protected(f.blocks, b);
    hide *;
  }

  /** Exactly the visible blocks that can be mined on have a mine node. */
  lemma MineOfBlock(f: ForestNumbering.Forest, g: G.Graph, hasNetwork: bool, b: nat)
    requires G.Shows(f, g, hasNetwork) && hasNetwork && BlockForest.KeysAreIds(f.blocks)
    requires b in f.blocks && (f.blocks[b].mineable ==> !Folding.InFold(g.segments, b))
    ensures HasMine(g.mines, b) <==> f.blocks[b].mineable
  {
    hide Folding.InFold, FoldGraph.AreEdges, MineNodes.AreMineEdges, Placement.IsDepthLookup, MineNodes.MinesPlaced,
      MineNodes.MineableIds;
    DrawnEdges.MineableDistinct(g.visible, |g.visible|);
    var ids := MineNodes.MineableIds(g.visible, |g.visible|);
    MinesAreOfIds(g, b);
    if f.blocks[b].mineable {
      assert f.blocks[b] in g.visible;
      var j :| 0 <= j < |g.visible| && g.visible[j] == f.blocks[b];
    }
    if b in ids {
      var j :| 0 <= j < |g.visible| && g.visible[j].id == b && g.visible[j].mineable;
      assert g.visible[j] in g.visible;
    }
  }

  lemma MinesAreOfIds(g: G.Graph, b: nat)
    requires G.MinesFor(g.visible, g.mines)
    ensures HasMine(g.mines, b) <==> b in MineNodes.MineableIds(g.visible, |g.visible|)
  {
    hide MineNodes.MineableIds;
    var ids := MineNodes.MineableIds(g.visible, |g.visible|);
    if b in ids {
      var k :| 0 <= k < |ids| && ids[k] == b;
      assert g.mines[k].block == b;
    }
  }

  lemma PayloadIds(t: TreeInfo, first: nat, infos: seq<HeaderInfoJson>)
    requires t.AllTracked(first) && IsPayload(t, infos)
    ensures t.Valid() && DistinctEntryIds(infos)
  {}

  lemma OneBlockPerId(infos: seq<HeaderInfoJson>, reports: seq<NodeReport>, rank: BlockHash -> nat, blocks: seq<Block>)
    requires AreBlocksOf(infos, reports, rank, blocks)
    ensures BlockForest.UniqueIds(blocks)
  {
    hide InBlockOrder, Shown;
  }
}
