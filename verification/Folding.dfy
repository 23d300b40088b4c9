/** Folding long stretches of the graph in which nothing happens. */
module Folding {
  import opened Wrappers
  import opened Sorting
  import opened BlockForest
  import opened ForestNumbering
  import SlotCompaction

  /** A folded stretch; it is identified by its first and last block. */
  datatype FoldSegment = FoldSegment(id: (nat, nat), startHeight: nat, endHeight: nat, hiddenCount: nat,
                                     blockIds: seq<nat>, predecessor: Option<nat>, successor: Option<nat>)

  /** The children map lists blocks only. */
  ghost predicate ListsBlocks(f: Forest) {
    forall p {:trigger f.Kids(p)} {:trigger GetList(f.children, p)} :: GetList(f.children, p) == f.Kids(p)
  }

  // ----- Protected blocks

  /** More than one block has this height. */
  ghost predicate ForkHeight(m: BlockMap, h: int) {
    exists a, b :: a in m && b in m && a != b && m[a].height == h && m[b].height == h
  }

  /** Next to a fork height, or a tip of a node. */
  ghost predicate Protected(m: BlockMap, b: nat)
    requires b in m
  {
    var h := m[b].height;
    ForkHeight(m, h) || ForkHeight(m, h - 1) || ForkHeight(m, h + 1) || m[b].hasTips
  }

  lemma LongRowIsFork(m: BlockMap, row: seq<nat>, h: nat)
    requires SlotCompaction.IsRow(m, row, h)
    ensures |row| > 1 <==> ForkHeight(m, h)
  {
    if |row| > 1 {
      assert row[0] in row && row[1] in row && row[0] != row[1];
    }
    assert forall a :: a in m && m[a].height == h ==> a in row;
  }

  method ForkHeights(blocks: seq<Block>, m: BlockMap) returns (forks: set<int>)
    requires UniqueIds(blocks) && IsBlockMap(blocks, m)
    ensures forall h :: h in forks <==> ForkHeight(m, h)
  {
    var rows, heights := SlotCompaction.GroupByHeight(blocks, m);
    forks := {};
    for i := 0 to |heights|
      invariant forall h :: h in forks <==> h >= 0 && h in heights[..i] && ForkHeight(m, h)
    {
      hide ForkHeight, SlotCompaction.IsRow;
      var h := heights[i];
      assert h in ToSet(heights);
      LongRowIsFork(m, rows[h], h);
      assert heights[..i + 1] == heights[..i] + [h];
      if |rows[h]| > 1 {
        forks := forks + {h as int};
      }
    }
    assert heights[..|heights|] == heights;
  }

  method ProtectedIds(blocks: seq<Block>, m: BlockMap) returns (ids: set<nat>)
    requires UniqueIds(blocks) && IsBlockMap(blocks, m)
    ensures ids <= m.Keys && forall b :: b in m ==> (b in ids <==> Protected(m, b))
  {
    var forks := ForkHeights(blocks, m);
    ids := {};
    for i := 0 to |blocks|
      invariant forall b :: b in ids ==> b in m
      invariant forall b :: b in m ==> (b in ids <==> m[b] in blocks[..i] && Protected(m, b))
    {
      hide ForkHeight;
      var b := blocks[i];
      assert blocks[..i + 1] == blocks[..i] + [b];
      if b.height in forks || b.height - 1 in forks || b.height + 1 in forks {
        ids := ids + {b.id};
      }
      if b.hasTips {
        ids := ids + {b.id};
      }
    }
    assert blocks[..|blocks|] == blocks;
  }

  lemma SeveralKidsFork(f: Forest, p: nat)
    requires f.Valid() && p in f.blocks && |f.Kids(p)| > 1
    ensures ForkHeight(f.blocks, f.blocks[p].height + 1)
  {
    KidFacts(f, p, 0);
    KidFacts(f, p, 1);
    assert f.Kids(p)[0] != f.Kids(p)[1];
  }

  /** A block that is not protected is linked to its parent and to its child without a fork. */
  lemma UnprotectedLinks(f: Forest, b: nat)
    requires f.Valid() && b in f.blocks && !Protected(f.blocks, b)
    ensures |f.Kids(b)| <= 1
    ensures match Parent(f.blocks, b)
            case Some(p) => f.Kids(p) == [b]
            case None => true
  {
    ParentListsKid(f, b);
    hide Forest.Valid, Forest.Kids, ForkHeight;
    if |f.Kids(b)| > 1 {
      SeveralKidsFork(f, b);
    }
    if Parent(f.blocks, b).Some? && |f.Kids(Parent(f.blocks, b).value)| > 1 {
      SeveralKidsFork(f, Parent(f.blocks, b).value);
    }
  }

  // ----- Chains

  predicate IsStart(f: Forest, b: nat)
    requires b in f.blocks
  {
    match Parent(f.blocks, b)
    case None => true
    case Some(p) => |GetList(f.children, p)| > 1 || f.blocks[p].height != f.blocks[b].height - 1
  }

  /** The next block of a chain: the only child, one above. */
  function NextInChain(f: Forest, b: nat): (next: Option<nat>)
    requires b in f.blocks
    ensures next.Some? ==> next.value in f.blocks
  {
    var kids := GetList(f.children, b);
    if |kids| == 1 && kids[0] in f.blocks && f.blocks[kids[0]].height == f.blocks[b].height + 1 then Some(kids[0])
    else None
  }

  ghost predicate IsPath(f: Forest, c: seq<nat>) {
    && (forall i :: 0 <= i < |c| ==> c[i] in f.blocks)
    && (forall i :: 0 <= i < |c| - 1 ==> NextInChain(f, c[i]) == Some(c[i + 1]))
  }

  /** From a start to a block with no child or several. */
  ghost predicate IsChain(f: Forest, c: seq<nat>) {
    c != [] && IsPath(f, c) && Distinct(c) && IsStart(f, c[0]) && NextInChain(f, c[|c| - 1]) == None
  }

  /** `y` is the only child of `x`, and one above it. */
  ghost predicate OnlyChild(f: Forest, x: nat, y: nat) {
    && x in f.blocks && y in f.blocks
    && GetList(f.children, x) == [y] && f.blocks[y].height == f.blocks[x].height + 1
  }

  lemma NextIsOnlyChild(f: Forest, x: nat, y: nat)
    requires x in f.blocks
    ensures NextInChain(f, x) == Some(y) <==> OnlyChild(f, x, y)
  {}

  /** Duplicate-free lists of linked blocks that have nothing in common, and all that is in them. */
  ghost predicate Partition(f: Forest, chains: seq<seq<nat>>, visited: set<nat>) {
    && (forall i :: 0 <= i < |chains| ==> Distinct(chains[i]) && forall b :: b in chains[i] ==> b in f.blocks)
    && (forall i :: 0 <= i < |chains| ==> IsPath(f, chains[i]))
    && (forall b :: b in visited <==> exists i :: 0 <= i < |chains| && b in chains[i])
    && (forall i, j, b :: 0 <= i < j < |chains| && b in chains[i] ==> b !in chains[j])
  }

  ghost predicate AreChains(f: Forest, chains: seq<seq<nat>>, visited: set<nat>) {
    Partition(f, chains, visited) && forall i :: 0 <= i < |chains| ==> IsChain(f, chains[i])
  }

  lemma NextFacts(f: Forest, b: nat)
    requires f.Families() && ListsBlocks(f) && b in f.blocks && NextInChain(f, b).Some?
    ensures var k := NextInChain(f, b).value;
            && OnlyChild(f, b, k) && f.Kids(b) == [k] && Parent(f.blocks, k) == Some(b) && !IsStart(f, k)
  {
    assert GetList(f.children, b) == f.Kids(b);
    KidHasParent(f, b, 0);
  }

  /** A block that is not a start is the next of its parent. */
  lemma NextOfParent(f: Forest, b: nat)
    requires f.Families() && ListsBlocks(f) && b in f.blocks && !IsStart(f, b)
    ensures Parent(f.blocks, b).Some? && NextInChain(f, Parent(f.blocks, b).value) == Some(b)
  {
    ParentHasKid(f, b);
    assert GetList(f.children, Parent(f.blocks, b).value) == f.Kids(Parent(f.blocks, b).value);
  }

  lemma PreviousVisited(f: Forest, chains: seq<seq<nat>>, visited: set<nat>, b: nat)
    requires f.Families() && ListsBlocks(f) && AreChains(f, chains, visited) && b in visited
    ensures b in f.blocks && (!IsStart(f, b) ==> Parent(f.blocks, b).Some? && Parent(f.blocks, b).value in visited)
  {
    hide Forest.Families, ListsBlocks, IsStart, NextInChain;
    var i :| 0 <= i < |chains| && b in chains[i];
    var j :| 0 <= j < |chains[i]| && chains[i][j] == b;
    if j > 0 {
      NextFacts(f, chains[i][j - 1]);
      assert chains[i][j - 1] in chains[i];
    }
  }

  lemma PreviousInPath(f: Forest, c: seq<nat>, b: nat)
    requires f.Families() && ListsBlocks(f) && c != [] && IsPath(f, c) && IsStart(f, c[0]) && b in c && b in f.blocks
    requires !IsStart(f, b)
    ensures Parent(f.blocks, b).Some? && exists j :: 0 <= j < |c| - 1 && c[j] == Parent(f.blocks, b).value
  {
    hide Forest.Families, ListsBlocks, IsStart, NextInChain;
    var j :| 0 <= j < |c| && c[j] == b;
    NextFacts(f, c[j - 1]);
  }

  /** A path that starts at an unvisited start never runs into a visited block. */
  lemma MeetsNothing(f: Forest, chains: seq<seq<nat>>, visited: set<nat>, c: seq<nat>)
    requires f.Families() && ListsBlocks(f) && AreChains(f, chains, visited)
    requires c != [] && IsPath(f, c) && Distinct(c) && IsStart(f, c[0]) && ToSet(c) !! visited
    requires NextInChain(f, c[|c| - 1]).Some?
    ensures var k := NextInChain(f, c[|c| - 1]).value; k !in visited && k !in c
  {
    hide Forest.Families, ListsBlocks, IsStart, NextInChain, AreChains;
    var last, k := c[|c| - 1], NextInChain(f, c[|c| - 1]).value;
    NextFacts(f, last);
    assert last in ToSet(c);
    if k in c {
      PreviousInPath(f, c, k);
    }
    if k in visited {
      PreviousVisited(f, chains, visited, k);
    }
  }

  lemma MoreVisited(f: Forest, chains: seq<seq<nat>>, visited: set<nat>, c: seq<nat>)
    requires Partition(f, chains, visited) && Distinct(c) && ToSet(c) !! visited && forall b :: b in c ==> b in f.blocks
    requires IsPath(f, c)
    ensures Partition(f, chains + [c], visited + ToSet(c))
  {
    hide IsPath;
    var more := chains + [c];
    forall b | b in visited + ToSet(c)
      ensures exists i :: 0 <= i < |more| && b in more[i]
    {
      if b in visited {
        var i :| 0 <= i < |chains| && b in chains[i];
        assert more[i] == chains[i];
      } else {
        assert b in more[|chains|];
      }
    }
    forall i, b | 0 <= i < |more| && b in more[i]
      ensures b in (if i < |chains| then visited else ToSet(c)) && b in f.blocks
    {
      if i < |chains| {
        assert b in chains[i];
      }
    }
  }

  ghost predicate Walking(f: Forest, start: nat, visited: set<nat>, chain: seq<nat>, cur: Option<nat>) {
    && IsPath(f, chain) && Distinct(chain) && ToSet(chain) !! visited
    && (cur.Some? ==> cur.value in f.blocks)
    && (if chain == [] then cur == Some(start) else chain[0] == start && cur == NextInChain(f, chain[|chain| - 1]))
  }

  lemma WalkStep(f: Forest, start: nat, visited: set<nat>, chain: seq<nat>, b: nat)
    requires Walking(f, start, visited, chain, Some(b)) && b !in visited && b !in chain
    ensures Walking(f, start, visited, chain + [b], NextInChain(f, b))
  {
    hide NextInChain;
  }

  /** Where the walk ends, a chain ends. */
  lemma WalkEnds(f: Forest, chains: seq<seq<nat>>, visited: set<nat>, start: nat, chain: seq<nat>, cur: Option<nat>)
    requires f.Families() && ListsBlocks(f) && AreChains(f, chains, visited) && start in f.blocks && IsStart(f, start)
    requires chain != [] && Walking(f, start, visited, chain, cur)
    requires cur == None || cur.value in visited + ToSet(chain)
    ensures AreChains(f, chains + [chain], visited + ToSet(chain))
  {
    hide NextInChain, IsStart, Forest.Families, ListsBlocks;
    if cur.Some? {
      MeetsNothing(f, chains, visited, chain);
    }
    MoreVisited(f, chains, visited, chain);
  }

  /** From a block along only children, up to a block met before. */
  method WalkChain(f: Forest, start: nat, visited: set<nat>, ghost chains: seq<seq<nat>>)
    returns (chain: seq<nat>, visited': set<nat>)
    requires start in f.blocks && start !in visited && Partition(f, chains, visited)
    ensures visited' == visited + ToSet(chain) && start in visited' && Partition(f, chains + [chain], visited')
    ensures f.Families() && ListsBlocks(f) && AreChains(f, chains, visited) && IsStart(f, start)
        ==> AreChains(f, chains + [chain], visited')
  {
    chain, visited' := [], visited;
    var cur := Some(start);
    while cur.Some? && cur.value !in visited'
      invariant visited' == visited + ToSet(chain)
      invariant Walking(f, start, visited, chain, cur)
      decreases f.blocks.Keys - visited'
    {
      hide NextInChain;
      WalkStep(f, start, visited, chain, cur.value);
      visited' := visited' + {cur.value};
      chain := chain + [cur.value];
      cur := NextInChain(f, cur.value);
    }
    hide *;
    WalkNotEmpty(f, start, visited, chain, cur);
    MoreVisited(f, chains, visited, chain);
    if f.Families() && ListsBlocks(f) && AreChains(f, chains, visited) && IsStart(f, start) {
      WalkEnds(f, chains, visited, start, chain, cur);
    }
  }

  lemma WalkNotEmpty(f: Forest, start: nat, visited: set<nat>, chain: seq<nat>, cur: Option<nat>)
    requires Walking(f, start, visited, chain, cur) && start !in visited
    requires cur == None || cur.value in visited + ToSet(chain)
    ensures chain != [] && start in ToSet(chain) && Distinct(chain) && ToSet(chain) !! visited && IsPath(f, chain)
    ensures forall b :: b in chain ==> b in f.blocks
  {}

  /** When every start has been walked from, every block has been met. */
  lemma {:induction false} AllVisited(f: Forest, chains: seq<seq<nat>>, visited: set<nat>, b: nat)
    requires f.Families() && ListsBlocks(f) && AreChains(f, chains, visited) && b in f.blocks
    requires forall s :: s in f.blocks && IsStart(f, s) ==> s in visited
    ensures b in visited
    decreases f.blocks[b].height
  {
    if !IsStart(f, b) {
      NextOfParent(f, b);
      hide *;
      AllVisited(f, chains, visited, Parent(f.blocks, b).value);
      NextVisited(f, chains, visited, Parent(f.blocks, b).value, b);
    }
  }

  lemma NextVisited(f: Forest, chains: seq<seq<nat>>, visited: set<nat>, p: nat, b: nat)
    requires AreChains(f, chains, visited) && p in visited && p in f.blocks && NextInChain(f, p) == Some(b)
    ensures b in visited
  {
    hide Forest.Families, ListsBlocks, IsStart, NextInChain;
    var i :| 0 <= i < |chains| && p in chains[i];
    var j :| 0 <= j < |chains[i]| && chains[i][j] == p;
    assert b == chains[i][j + 1];
  }

  /** Every block in exactly one chain. */
  method FindChains(f: Forest, blocks: seq<Block>) returns (chains: seq<seq<nat>>)
    requires UniqueIds(blocks) && IsBlockMap(blocks, f.blocks)
    ensures Partition(f, chains, f.blocks.Keys)
    ensures f.Families() && ListsBlocks(f) ==> AreChains(f, chains, f.blocks.Keys)
  {
    hide *;
    chains := [];
    var visited: set<nat> := {};
    NothingVisited(f);
    BlocksListed(f, blocks);
    for i := 0 to |blocks|
      invariant Partition(f, chains, visited)
      invariant f.Families() && ListsBlocks(f) ==> AreChains(f, chains, visited)
      invariant forall j :: 0 <= j < i && IsStart(f, blocks[j].id) ==> blocks[j].id in visited
    {
      var b := blocks[i].id;
      if b !in visited && IsStart(f, b) {
        var chain, visited' := WalkChain(f, b, visited, chains);
        chains, visited := chains + [chain], visited';
      }
    }
    StartsVisited(f, blocks, chains, visited);
    chains, visited := PickUpRest(f, blocks, chains, visited);
    EverythingVisited(f, blocks, chains, visited);
  }

  lemma BlocksListed(f: Forest, blocks: seq<Block>)
    requires IsBlockMap(blocks, f.blocks)
    ensures forall j :: 0 <= j < |blocks| ==> blocks[j].id in f.blocks
  {}

  lemma NothingVisited(f: Forest)
    ensures AreChains(f, [], {})
  {}

  /** The blocks not yet visited, each as a chain of its own; on a forest there are none. */
  method PickUpRest(f: Forest, blocks: seq<Block>, some: seq<seq<nat>>, met: set<nat>)
    returns (chains: seq<seq<nat>>, visited: set<nat>)
    requires IsBlockMap(blocks, f.blocks) && Partition(f, some, met)
    ensures Partition(f, chains, visited) && forall j :: 0 <= j < |blocks| ==> blocks[j].id in visited
    ensures met == f.blocks.Keys ==> chains == some && visited == met
  {
    chains, visited := some, met;
    for i := 0 to |blocks|
      invariant Partition(f, chains, visited) && met <= visited
      invariant met == f.blocks.Keys ==> chains == some && visited == met
      invariant forall j :: 0 <= j < i ==> blocks[j].id in visited
    {
      hide Partition;
      var b := blocks[i].id;
      if b !in visited {
        MoreVisited(f, chains, visited, [b]);
        assert ToSet([b]) == {b};
        visited := visited + {b};
        chains := chains + [[b]];
      }
    }
  }

  lemma StartsVisited(f: Forest, blocks: seq<Block>, chains: seq<seq<nat>>, visited: set<nat>)
    requires UniqueIds(blocks) && IsBlockMap(blocks, f.blocks) && Partition(f, chains, visited)
    requires f.Families() && ListsBlocks(f) ==> AreChains(f, chains, visited)
    requires forall j :: 0 <= j < |blocks| && IsStart(f, blocks[j].id) ==> blocks[j].id in visited
    ensures f.Families() && ListsBlocks(f) ==> visited == f.blocks.Keys
  {
    hide IsStart, ListsBlocks, Forest.Families, IsChain;
    if f.Families() && ListsBlocks(f) {
      forall b | b in f.blocks
        ensures b in visited
      {
        forall s | s in f.blocks && IsStart(f, s)
          ensures s in visited
        {
          var j :| 0 <= j < |blocks| && blocks[j] == f.blocks[s];
        }
        AllVisited(f, chains, visited, b);
      }
    }
  }

  lemma EverythingVisited(f: Forest, blocks: seq<Block>, chains: seq<seq<nat>>, visited: set<nat>)
    requires UniqueIds(blocks) && IsBlockMap(blocks, f.blocks) && Partition(f, chains, visited)
    requires forall j :: 0 <= j < |blocks| ==> blocks[j].id in visited
    ensures visited == f.blocks.Keys
  {
    forall b | b in f.blocks
      ensures b in visited
    {
      var j :| 0 <= j < |blocks| && blocks[j] == f.blocks[b];
    }
  }

  // ----- Runs

  /** A longest stretch `chain[r..e]` without a protected block. */
  ghost predicate IsRun(prot: set<nat>, chain: seq<nat>, r: nat, e: nat) {
    && r < e <= |chain|
    && (forall k :: r <= k < e ==> chain[k] !in prot)
    && (r == 0 || chain[r - 1] in prot)
    && (e == |chain| || chain[e] in prot)
  }

  function Segment(m: BlockMap, chain: seq<nat>, r: nat, e: nat): FoldSegment
    requires r < e <= |chain| && forall b :: b in chain ==> b in m
  {
    FoldSegment((chain[r], chain[e - 1]), m[chain[r]].height, m[chain[e - 1]].height, e - r, chain[r..e],
                if r > 0 then Some(chain[r - 1]) else None, if e < |chain| then Some(chain[e]) else None)
  }

  ghost predicate IsFold(m: BlockMap, prot: set<nat>, chain: seq<nat>, s: FoldSegment)
    requires forall b :: b in chain ==> b in m
  {
    exists r, e :: IsRun(prot, chain, r, e) && r + 3 <= e && s == Segment(m, chain, r, e)
  }

  ghost predicate DisjointFolds(segs: seq<FoldSegment>) {
    forall i, j, b :: 0 <= i < j < |segs| && b in segs[i].blockIds ==> b !in segs[j].blockIds
  }

  ghost predicate InFold(segs: seq<FoldSegment>, b: nat) {
    exists i :: 0 <= i < |segs| && b in segs[i].blockIds
  }

  /** Three blocks in a row, none protected. */
  ghost predicate Triple(prot: set<nat>, chain: seq<nat>, k: nat) {
    k + 2 < |chain| && chain[k] !in prot && chain[k + 1] !in prot && chain[k + 2] !in prot
  }

  /** Three blocks in a row before the `n`-th, none protected, are folded. */
  ghost predicate Covered(prot: set<nat>, chain: seq<nat>, n: nat, segs: seq<FoldSegment>)
    requires n <= |chain|
  {
    forall k, j :: 0 <= k <= j <= k + 2 < n && Triple(prot, chain, k) ==> InFold(segs, chain[j])
  }

  ghost predicate FoldedSoFar(m: BlockMap, prot: set<nat>, chain: seq<nat>, n: nat, segs: seq<FoldSegment>)
    requires forall b :: b in chain ==> b in m
  {
    && FoldsBefore(m, prot, chain, n, segs)
    && DisjointFolds(segs)
    && Covered(prot, chain, n, segs)
  }

  ghost function WithRun(m: BlockMap, chain: seq<nat>, r: nat, e: nat, segs: seq<FoldSegment>): seq<FoldSegment>
    requires r < e <= |chain| && forall b :: b in chain ==> b in m
  {
    if e - r >= 3 then segs + [Segment(m, chain, r, e)] else segs
  }

  lemma InFoldMore(segs: seq<FoldSegment>, s: FoldSegment, b: nat)
    requires InFold(segs, b) || b in s.blockIds
    ensures InFold(segs + [s], b)
  {
    var more := segs + [s];
    if InFold(segs, b) {
      var i :| 0 <= i < |segs| && b in segs[i].blockIds;
      assert more[i] == segs[i];
    } else {
      assert more[|segs|] == s;
    }
  }

  lemma RunIsFolded(m: BlockMap, chain: seq<nat>, r: nat, e: nat, segs: seq<FoldSegment>, j: nat)
    requires r < e <= |chain| && (forall b :: b in chain ==> b in m) && j < |chain|
    requires InFold(segs, chain[j]) || (r + 3 <= e && r <= j < e)
    ensures InFold(WithRun(m, chain, r, e, segs), chain[j])
  {
    if e - r >= 3 {
      if r <= j < e {
        assert chain[r..e][j - r] == chain[j];
      }
      InFoldMore(segs, Segment(m, chain, r, e), chain[j]);
    }
  }

  lemma CoverMore(m: BlockMap, prot: set<nat>, chain: seq<nat>, r: nat, e: nat, n: nat, segs: seq<FoldSegment>)
    requires (forall b :: b in chain ==> b in m) && IsRun(prot, chain, r, e) && Covered(prot, chain, r, segs)
    requires n == e || n == e + 1 <= |chain|
    ensures Covered(prot, chain, n, WithRun(m, chain, r, e, segs))
  {
    hide InFold, WithRun;
    forall k, j | 0 <= k <= j <= k + 2 < n && Triple(prot, chain, k)
      ensures InFold(WithRun(m, chain, r, e, segs), chain[j])
    {
      RunIsFolded(m, chain, r, e, segs, j);
    }
  }

  /** The blocks of the segments are among the first `n` of the chain. */
  ghost predicate FoldsBefore(m: BlockMap, prot: set<nat>, chain: seq<nat>, n: nat, segs: seq<FoldSegment>)
    requires forall b :: b in chain ==> b in m
  {
    && n <= |chain|
    && forall i :: 0 <= i < |segs| ==>
         IsFold(m, prot, chain, segs[i]) && forall b :: b in segs[i].blockIds ==> b in chain[..n]
  }

  lemma FoldsMore(m: BlockMap, prot: set<nat>, chain: seq<nat>, r: nat, e: nat, n: nat, segs: seq<FoldSegment>)
    requires (forall b :: b in chain ==> b in m) && IsRun(prot, chain, r, e) && FoldsBefore(m, prot, chain, r, segs)
    requires e <= n <= |chain|
    ensures FoldsBefore(m, prot, chain, n, WithRun(m, chain, r, e, segs))
  {
    var more := WithRun(m, chain, r, e, segs);
    if e - r >= 3 {
      assert IsFold(m, prot, chain, Segment(m, chain, r, e));
    }
    hide IsFold, IsRun;
    forall i, b | 0 <= i < |more| && b in more[i].blockIds
      ensures b in chain[..n]
    {
      if i < |segs| {
        assert b in chain[..r];
      }
    }
  }

  /** A run ends before its `e`-th block. */
  lemma CloseRun(m: BlockMap, prot: set<nat>, chain: seq<nat>, r: nat, e: nat, n: nat, segs: seq<FoldSegment>)
    requires Distinct(chain) && forall b :: b in chain ==> b in m
    requires FoldedSoFar(m, prot, chain, r, segs) && IsRun(prot, chain, r, e) && (n == e || n == e + 1 <= |chain|)
    ensures FoldedSoFar(m, prot, chain, n, WithRun(m, chain, r, e, segs))
  {
    hide Covered, DisjointFolds, IsFold;
    CoverMore(m, prot, chain, r, e, n, segs);
    FoldsMore(m, prot, chain, r, e, n, segs);
    FoldIsFresh(m, prot, chain, r, e, segs);
  }

  lemma FoldIsFresh(m: BlockMap, prot: set<nat>, chain: seq<nat>, r: nat, e: nat, segs: seq<FoldSegment>)
    requires Distinct(chain) && (forall b :: b in chain ==> b in m) && r < e <= |chain|
    requires FoldedSoFar(m, prot, chain, r, segs)
    ensures DisjointFolds(segs + [Segment(m, chain, r, e)])
  {
    hide Covered, IsFold;
    forall i, b | 0 <= i < |segs| && b in segs[i].blockIds
      ensures b !in chain[r..e]
    {
      assert b in chain[..r];
    }
  }

  lemma SkipProtected(m: BlockMap, prot: set<nat>, chain: seq<nat>, n: nat, segs: seq<FoldSegment>)
    requires (forall b :: b in chain ==> b in m) && FoldedSoFar(m, prot, chain, n, segs) && n < |chain|
    requires chain[n] in prot
    ensures FoldedSoFar(m, prot, chain, n + 1, segs)
  {
    hide IsFold, InFold;
    assert Covered(prot, chain, n + 1, segs);
    forall i, b | 0 <= i < |segs| && b in segs[i].blockIds
      ensures b in chain[..n + 1]
    {
      assert b in chain[..n];
    }
  }

  /** What is known before the `i`-th block: no run is open, or one since `start`. */
  ghost predicate Scanning(m: BlockMap, prot: set<nat>, chain: seq<nat>, i: nat, start: Option<nat>,
                           segs: seq<FoldSegment>)
    requires forall b :: b in chain ==> b in m
  {
    && i <= |chain|
    && match start
       case None => FoldedSoFar(m, prot, chain, i, segs) && (i == 0 || chain[i - 1] in prot)
       case Some(r) => && FoldedSoFar(m, prot, chain, r, segs) && r < i && (r == 0 || chain[r - 1] in prot)
                       && (forall k :: r <= k < i ==> chain[k] !in prot)
  }

  /** The runs of at least three blocks, as segments with the blocks before and after them. */
  method FoldChain(m: BlockMap, prot: set<nat>, chain: seq<nat>) returns (segs: seq<FoldSegment>)
    requires Distinct(chain) && forall b :: b in chain ==> b in m
    ensures FoldedSoFar(m, prot, chain, |chain|, segs)
  {
    segs := [];
    var runStart: Option<nat> := None;
    for i := 0 to |chain|
      invariant Scanning(m, prot, chain, i, runStart, segs)
    {
      hide FoldedSoFar, Distinct;
      if chain[i] in prot {
        if runStart.Some? {
          CloseRun(m, prot, chain, runStart.value, i, i + 1, segs);
          if i - runStart.value >= 3 {
            segs := segs + [Segment(m, chain, runStart.value, i)];
          }
          runStart := None;
        } else {
          SkipProtected(m, prot, chain, i, segs);
        }
      } else if runStart.None? {
        runStart := Some(i);
      }
    }
    if runStart.Some? {
      CloseRun(m, prot, chain, runStart.value, |chain|, |chain|, segs);
      if |chain| - runStart.value >= 3 {
        segs := segs + [Segment(m, chain, runStart.value, |chain|)];
      }
    }
  }

  /** The segments of the first `n` chains. */
  ghost predicate FoldsOf(f: Forest, prot: set<nat>, chains: seq<seq<nat>>, n: nat, segs: seq<FoldSegment>)
    requires Partition(f, chains, f.blocks.Keys) && n <= |chains|
  {
    && (forall i :: 0 <= i < |segs| ==> FoldOfOne(f, prot, chains, n, segs[i]))
    && DisjointFolds(segs)
    && (forall j :: 0 <= j < n ==> Covered(prot, chains[j], |chains[j]|, segs))
  }

  ghost predicate FoldOfOne(f: Forest, prot: set<nat>, chains: seq<seq<nat>>, n: nat, s: FoldSegment)
    requires Partition(f, chains, f.blocks.Keys) && n <= |chains|
  {
    exists j :: 0 <= j < n && IsFold(f.blocks, prot, chains[j], s) && forall b :: b in s.blockIds ==> b in chains[j]
  }

  lemma InFoldConcat(segs: seq<FoldSegment>, more: seq<FoldSegment>, b: nat)
    requires InFold(segs, b) || InFold(more, b)
    ensures InFold(segs + more, b)
  {
    if InFold(segs, b) {
      var i :| 0 <= i < |segs| && b in segs[i].blockIds;
      assert (segs + more)[i] == segs[i];
    } else {
      var i :| 0 <= i < |more| && b in more[i].blockIds;
      assert (segs + more)[|segs| + i] == more[i];
    }
  }

  lemma CoveredConcat(prot: set<nat>, chain: seq<nat>, segs: seq<FoldSegment>, more: seq<FoldSegment>)
    requires Covered(prot, chain, |chain|, segs) || Covered(prot, chain, |chain|, more)
    ensures Covered(prot, chain, |chain|, segs + more)
  {
    hide InFold;
    forall k, j | 0 <= k <= j <= k + 2 < |chain| && Triple(prot, chain, k)
      ensures InFold(segs + more, chain[j])
    {
      InFoldConcat(segs, more, chain[j]);
    }
  }

  lemma DisjointConcat(f: Forest, prot: set<nat>, chains: seq<seq<nat>>, n: nat, segs: seq<FoldSegment>,
                       more: seq<FoldSegment>)
    requires Partition(f, chains, f.blocks.Keys) && n < |chains| && FoldsOf(f, prot, chains, n, segs)
    requires FoldedSoFar(f.blocks, prot, chains[n], |chains[n]|, more)
    ensures DisjointFolds(segs + more)
  {
    hide Covered, IsFold, FoldOfOne;
    forall i, b | 0 <= i < |segs| && b in segs[i].blockIds
      ensures b !in chains[n]
    {
      assert FoldOfOne(f, prot, chains, n, segs[i]);
      InEarlierChain(f, prot, chains, n, segs[i], b);
    }
    assert chains[n][..|chains[n]|] == chains[n];
  }

  lemma InEarlierChain(f: Forest, prot: set<nat>, chains: seq<seq<nat>>, n: nat, s: FoldSegment, b: nat)
    requires Partition(f, chains, f.blocks.Keys) && n < |chains| && FoldOfOne(f, prot, chains, n, s) && b in s.blockIds
    ensures b !in chains[n]
  {}

  lemma FoldOfLast(f: Forest, prot: set<nat>, chains: seq<seq<nat>>, n: nat, more: seq<FoldSegment>, i: nat)
    requires Partition(f, chains, f.blocks.Keys) && n < |chains|
    requires FoldedSoFar(f.blocks, prot, chains[n], |chains[n]|, more) && i < |more|
    ensures FoldOfOne(f, prot, chains, n + 1, more[i])
  {
    hide Covered, IsFold, DisjointFolds;
    assert IsFold(f.blocks, prot, chains[n], more[i]);
  }

  lemma FoldOfEarlier(f: Forest, prot: set<nat>, chains: seq<seq<nat>>, n: nat, s: FoldSegment)
    requires Partition(f, chains, f.blocks.Keys) && n < |chains| && FoldOfOne(f, prot, chains, n, s)
    ensures FoldOfOne(f, prot, chains, n + 1, s)
  {}

  lemma FoldsOfStep(f: Forest, prot: set<nat>, chains: seq<seq<nat>>, n: nat, segs: seq<FoldSegment>,
                    more: seq<FoldSegment>)
    requires Partition(f, chains, f.blocks.Keys) && n < |chains| && FoldsOf(f, prot, chains, n, segs)
    requires FoldedSoFar(f.blocks, prot, chains[n], |chains[n]|, more)
    ensures FoldsOf(f, prot, chains, n + 1, segs + more)
  {
    DisjointConcat(f, prot, chains, n, segs, more);
    hide Covered, IsFold, FoldOfOne, DisjointFolds, FoldsBefore, Partition;
    forall j | 0 <= j < n + 1
      ensures Covered(prot, chains[j], |chains[j]|, segs + more)
    {
      CoveredConcat(prot, chains[j], segs, more);
    }
    forall i | 0 <= i < |segs + more|
      ensures FoldOfOne(f, prot, chains, n + 1, (segs + more)[i])
    {
      if i < |segs| {
        FoldOfEarlier(f, prot, chains, n, segs[i]);
      } else {
        FoldOfLast(f, prot, chains, n, more, i - |segs|);
      }
    }
  }

  // ----- What a folding is

  /** A stretch of at least three linked unprotected blocks, with the blocks before and after it: the parent of
      the first and the only child of the last, both protected, or nothing when there is no such block. */
  ghost predicate IsSegment(f: Forest, s: FoldSegment) {
    && |s.blockIds| == s.hiddenCount >= 3
    && s.id == (s.blockIds[0], s.blockIds[|s.blockIds| - 1])
    && (forall i :: 0 <= i < |s.blockIds| ==> var b := s.blockIds[i];
          b in f.blocks && !Protected(f.blocks, b) && f.blocks[b].height == s.startHeight + i)
    && s.endHeight == s.startHeight + |s.blockIds| - 1
    && (forall i :: 0 <= i < |s.blockIds| - 1 ==> f.Kids(s.blockIds[i]) == [s.blockIds[i + 1]])
    && s.predecessor == Parent(f.blocks, s.blockIds[0])
    && (s.predecessor.Some? ==> s.predecessor.value in f.blocks && Protected(f.blocks, s.predecessor.value))
    && f.Kids(s.blockIds[|s.blockIds| - 1]) == (if s.successor.Some? then [s.successor.value] else [])
    && (s.successor.Some? ==> s.successor.value in f.blocks && Protected(f.blocks, s.successor.value))
  }

  ghost predicate AreSegments(f: Forest, segs: seq<FoldSegment>) {
    DisjointFolds(segs) && forall i :: 0 <= i < |segs| ==> IsSegment(f, segs[i])
  }

  /** Parent and child, neither protected. */
  ghost predicate QuietLink(f: Forest, x: nat, y: nat) {
    && x in f.blocks && y in f.blocks && Parent(f.blocks, y) == Some(x)
    && !Protected(f.blocks, x) && !Protected(f.blocks, y)
  }

  /** Part of three linked unprotected blocks. */
  ghost predicate InQuietTriple(f: Forest, b: nat) {
    exists x, y, z :: QuietLink(f, x, y) && QuietLink(f, y, z) && (b == x || b == y || b == z)
  }

  /** Segments as above, and exactly the blocks of three linked unprotected ones are in them. */
  ghost predicate IsFolding(f: Forest, segs: seq<FoldSegment>) {
    AreSegments(f, segs) && forall b :: InFold(segs, b) <==> InQuietTriple(f, b)
  }

  /** The only child, and neither is protected. */
  ghost predicate QuietStep(f: Forest, x: nat, y: nat) {
    OnlyChild(f, x, y) && !Protected(f.blocks, x) && !Protected(f.blocks, y)
  }

  ghost predicate InQuietSteps(f: Forest, b: nat) {
    exists x, y, z :: QuietStep(f, x, y) && QuietStep(f, y, z) && (b == x || b == y || b == z)
  }

  /** On a forest an only child is the next of a chain. */
  lemma OnlyKidIsNext(f: Forest, b: nat)
    requires f.Valid() && ListsBlocks(f) && b in f.blocks
    ensures NextInChain(f, b) == None ==> |f.Kids(b)| != 1
    ensures NextInChain(f, b).Some? ==> f.Kids(b) == [NextInChain(f, b).value]
  {
    assert GetList(f.children, b) == f.Kids(b);
    if |f.Kids(b)| > 0 {
      KidFacts(f, b, 0);
    }
  }

  /** Linked blocks, one above the other. */
  ghost predicate IsLine(f: Forest, c: seq<nat>) {
    && (forall i :: 0 <= i < |c| ==> c[i] in f.blocks)
    && (forall i :: 0 < i < |c| ==> f.blocks[c[i]].height == f.blocks[c[i - 1]].height + 1)
    && (forall i :: 0 < i < |c| ==> f.Kids(c[i - 1]) == [c[i]] && Parent(f.blocks, c[i]) == Some(c[i - 1]))
  }

  lemma PathIsLine(f: Forest, c: seq<nat>)
    requires f.Valid() && ListsBlocks(f) && IsPath(f, c)
    ensures IsLine(f, c)
  {
    hide Forest.Valid, Forest.Kids, ListsBlocks, NextInChain, IsStart;
    forall i | 0 < i < |c|
      ensures f.Kids(c[i - 1]) == [c[i]] && Parent(f.blocks, c[i]) == Some(c[i - 1])
      ensures f.blocks[c[i]].height == f.blocks[c[i - 1]].height + 1
    {
      ValidFamilies(f);
      NextFacts(f, c[i - 1]);
      ParentListsKid(f, c[i]);
    }
  }

  lemma {:induction false} HeightsInLine(f: Forest, c: seq<nat>, r: nat, e: nat)
    requires IsLine(f, c) && r <= e < |c|
    ensures f.blocks[c[e]].height == f.blocks[c[r]].height + e - r
    decreases e
  {
    hide Forest.Kids;
    if r < e {
      HeightsInLine(f, c, r, e - 1);
    }
  }

  lemma UnprotectedStart(f: Forest, b: nat)
    requires f.Valid() && ListsBlocks(f) && b in f.blocks && !Protected(f.blocks, b)
    ensures IsStart(f, b) ==> Parent(f.blocks, b) == None
  {
    hide Forest.Valid, Forest.Kids, Protected;
    UnprotectedLinks(f, b);
    ParentListsKid(f, b);
  }

  /** Nothing comes before the first run of a chain, or after the last, unless it is protected. */
  lemma RunEnds(f: Forest, prot: set<nat>, chain: seq<nat>, r: nat, e: nat)
    requires f.Valid() && ListsBlocks(f) && IsChain(f, chain) && IsRun(prot, chain, r, e)
    requires forall b :: b in f.blocks ==> (b in prot <==> Protected(f.blocks, b))
    ensures chain[r] in f.blocks && (r == 0 ==> Parent(f.blocks, chain[r]) == None)
    ensures e == |chain| ==> f.Kids(chain[e - 1]) == []
  {
    hide Forest.Valid, Forest.Kids, ListsBlocks, Protected, IsStart, NextInChain;
    UnprotectedStart(f, chain[r]);
    UnprotectedLinks(f, chain[e - 1]);
    OnlyKidIsNext(f, chain[e - 1]);
  }

  lemma RunIsSegment(f: Forest, prot: set<nat>, chain: seq<nat>, r: nat, e: nat)
    requires IsLine(f, chain) && IsRun(prot, chain, r, e) && r + 3 <= e
    requires forall b :: b in f.blocks ==> (b in prot <==> Protected(f.blocks, b))
    requires r == 0 ==> Parent(f.blocks, chain[r]) == None
    requires e == |chain| ==> f.Kids(chain[e - 1]) == []
    ensures (forall b :: b in chain ==> b in f.blocks) && IsSegment(f, Segment(f.blocks, chain, r, e))
  {
    hide Forest.Kids, Protected;
    var s := Segment(f.blocks, chain, r, e);
    forall i | 0 <= i < e - r
      ensures s.blockIds[i] == chain[r + i] && f.blocks[chain[r + i]].height == s.startHeight + i
    {
      HeightsInLine(f, chain, r, r + i);
    }
    forall i | 0 <= i < e - r - 1
      ensures f.Kids(s.blockIds[i]) == [s.blockIds[i + 1]]
    {
      assert s.blockIds[i] == chain[r + i] && s.blockIds[i + 1] == chain[r + i + 1];
    }
  }

  /** On a forest, what is folded out of a chain is a segment. */
  lemma FoldIsSegment(f: Forest, prot: set<nat>, chain: seq<nat>, s: FoldSegment)
    requires f.Valid() && ListsBlocks(f) && IsChain(f, chain) && (forall b :: b in chain ==> b in f.blocks)
    requires IsFold(f.blocks, prot, chain, s)
    requires forall b :: b in f.blocks ==> (b in prot <==> Protected(f.blocks, b))
    ensures IsSegment(f, s)
  {
    hide Segment, IsSegment, IsLine, Forest.Valid, ListsBlocks, Protected, IsStart, NextInChain;
    var r, e :| IsRun(prot, chain, r, e) && r + 3 <= e && s == Segment(f.blocks, chain, r, e);
    PathIsLine(f, chain);
    RunEnds(f, prot, chain, r, e);
    RunIsSegment(f, prot, chain, r, e);
  }

  /** On a forest linked unprotected blocks follow each other in a chain. */
  lemma QuietLinkIsStep(f: Forest, x: nat, y: nat)
    requires f.Valid() && ListsBlocks(f)
    ensures QuietLink(f, x, y) <==> QuietStep(f, x, y)
  {
    hide Forest.Valid, Forest.Kids, ListsBlocks, Protected, NextInChain, IsStart;
    if QuietLink(f, x, y) {
      UnprotectedLinks(f, y);
      OnlyKidIsNext(f, x);
      NextIsOnlyChild(f, x, y);
    }
    if QuietStep(f, x, y) {
      ValidFamilies(f);
      NextIsOnlyChild(f, x, y);
      NextFacts(f, x);
    }
  }

  lemma QuietTriplesAreSteps(f: Forest, b: nat)
    requires f.Valid() && ListsBlocks(f)
    ensures InQuietTriple(f, b) <==> InQuietSteps(f, b)
  {
    hide QuietLink, QuietStep, Forest.Valid, ListsBlocks;
    forall x, y
      ensures QuietLink(f, x, y) <==> QuietStep(f, x, y)
    {
      QuietLinkIsStep(f, x, y);
    }
  }

  lemma NextAt(f: Forest, c: seq<nat>, k: nat, y: nat)
    requires IsChain(f, c) && k < |c| && c[k] in f.blocks && NextInChain(f, c[k]) == Some(y)
    ensures k + 1 < |c| && c[k + 1] == y
  {
    hide NextInChain, IsStart;
  }

  /** Three unprotected blocks, each the only child of the one before it, are in a row in one chain. */
  lemma QuietStepsFolded(f: Forest, prot: set<nat>, chains: seq<seq<nat>>, segs: seq<FoldSegment>, x: nat, y: nat,
                          z: nat)
    requires AreChains(f, chains, f.blocks.Keys)
    requires FoldsOf(f, prot, chains, |chains|, segs)
    requires forall b :: b in f.blocks ==> (b in prot <==> Protected(f.blocks, b))
    requires QuietStep(f, x, y) && QuietStep(f, y, z)
    ensures InFold(segs, x) && InFold(segs, y) && InFold(segs, z)
  {
    hide *;
    QuietStepFacts(f, x, y);
    QuietStepFacts(f, y, z);
    var i, k := FindInChains(f, chains, x);
    NextAt(f, chains[i], k, y);
    NextAt(f, chains[i], k + 1, z);
    TripleFolded(f, prot, chains, segs, i, k);
  }

  lemma QuietStepFacts(f: Forest, x: nat, y: nat)
    requires QuietStep(f, x, y)
    ensures x in f.blocks && y in f.blocks && !Protected(f.blocks, x) && !Protected(f.blocks, y)
    ensures NextInChain(f, x) == Some(y)
  {
    NextIsOnlyChild(f, x, y);
  }

  lemma FindInChains(f: Forest, chains: seq<seq<nat>>, x: nat) returns (i: nat, k: nat)
    requires AreChains(f, chains, f.blocks.Keys) && x in f.blocks
    ensures i < |chains| && k < |chains[i]| && chains[i][k] == x && IsChain(f, chains[i])
    ensures Partition(f, chains, f.blocks.Keys)
  {
    hide IsChain;
    i :| 0 <= i < |chains| && x in chains[i];
    k :| 0 <= k < |chains[i]| && chains[i][k] == x;
  }

  lemma TripleFolded(f: Forest, prot: set<nat>, chains: seq<seq<nat>>, segs: seq<FoldSegment>, i: nat, k: nat)
    requires Partition(f, chains, f.blocks.Keys) && FoldsOf(f, prot, chains, |chains|, segs)
    requires i < |chains| && k + 2 < |chains[i]|
    requires chains[i][k] !in prot && chains[i][k + 1] !in prot && chains[i][k + 2] !in prot
    ensures InFold(segs, chains[i][k]) && InFold(segs, chains[i][k + 1]) && InFold(segs, chains[i][k + 2])
  {
    hide Partition, InFold, FoldOfOne, DisjointFolds;
    assert Triple(prot, chains[i], k) && Covered(prot, chains[i], |chains[i]|, segs);
  }

  lemma SegmentLink(f: Forest, s: FoldSegment, i: nat)
    requires f.Valid() && IsSegment(f, s) && i + 1 < |s.blockIds|
    ensures QuietLink(f, s.blockIds[i], s.blockIds[i + 1])
  {
    hide Forest.Valid, Forest.Kids, Protected;
    var x, y := s.blockIds[i], s.blockIds[i + 1];
    assert x in f.blocks && y in f.blocks && f.Kids(x) == [y];
    KidFacts(f, x, 0);
  }

  /** Folding the chains of a forest folds exactly the quiet triples. */
  lemma ChainsGiveFolding(f: Forest, prot: set<nat>, chains: seq<seq<nat>>, segs: seq<FoldSegment>)
    requires f.Valid() && ListsBlocks(f) && AreChains(f, chains, f.blocks.Keys) && DisjointFolds(segs)
    requires FoldsOf(f, prot, chains, |chains|, segs) && FoldsSteps(f, segs)
    requires forall b :: b in f.blocks ==> (b in prot <==> Protected(f.blocks, b))
    ensures IsFolding(f, segs)
  {
    hide Forest.Valid, ListsBlocks, Protected, IsSegment, Covered, DisjointFolds, IsFold, IsChain, InQuietTriple,
      InQuietSteps, InFold, EndsNamed;
    forall i | 0 <= i < |segs|
      ensures IsSegment(f, segs[i])
    {
      assert FoldOfOne(f, prot, chains, |chains|, segs[i]);
      var j :| 0 <= j < |chains| && IsFold(f.blocks, prot, chains[j], segs[i]);
      FoldIsSegment(f, prot, chains[j], segs[i]);
    }
    forall b
      ensures InFold(segs, b) <==> InQuietTriple(f, b)
    {
      QuietTriplesAreSteps(f, b);
    }
  }

  /** Even if the blocks are no forest: at least three unprotected blocks, each the only child of the one before it, and
      protected blocks before and after them. */
  ghost predicate Foldable(f: Forest, s: FoldSegment) {
    var n := |s.blockIds|;
    && n == s.hiddenCount >= 3 && s.id == (s.blockIds[0], s.blockIds[n - 1])
    && (forall b :: b in s.blockIds ==> b in f.blocks && !Protected(f.blocks, b))
    && s.blockIds[0] in f.blocks && s.blockIds[n - 1] in f.blocks
    && s.startHeight == f.blocks[s.blockIds[0]].height && s.endHeight == f.blocks[s.blockIds[n - 1]].height
    && (forall i :: 0 < i < n ==> OnlyChild(f, s.blockIds[i - 1], s.blockIds[i]))
    && (s.predecessor.Some? ==> var p := s.predecessor.value;
          OnlyChild(f, p, s.blockIds[0]) && p in f.blocks && Protected(f.blocks, p))
    && (s.successor.Some? ==> var p := s.successor.value;
          OnlyChild(f, s.blockIds[n - 1], p) && p in f.blocks && Protected(f.blocks, p))
  }

  ghost predicate NothingBefore(f: Forest, b: nat) {
    forall p :: !OnlyChild(f, p, b)
  }

  ghost predicate NothingAfter(f: Forest, b: nat) {
    forall q :: !OnlyChild(f, b, q)
  }

  /** Where the segment names nothing before or after it there is nothing. */
  ghost predicate EndsNamed(f: Forest, s: FoldSegment) {
    && s.blockIds != []
    && (s.predecessor.None? ==> NothingBefore(f, s.blockIds[0]))
    && (s.successor.None? ==> NothingAfter(f, s.blockIds[|s.blockIds| - 1]))
  }

  /** Whatever the heights are: the segments are as long as they can be, and exactly the blocks of three in a row, each
      the only child of the one before it and none protected, are in them. */
  ghost predicate FoldsSteps(f: Forest, segs: seq<FoldSegment>) {
    && (forall b :: InFold(segs, b) <==> InQuietSteps(f, b))
    && forall i :: 0 <= i < |segs| ==> EndsNamed(f, segs[i])
  }

  lemma StartIsFirst(f: Forest, b: nat)
    requires f.Families() && ListsBlocks(f) && b in f.blocks && IsStart(f, b)
    ensures NothingBefore(f, b)
  {
    if p: nat :| OnlyChild(f, p, b) {
      NextIsOnlyChild(f, p, b);
      NextFacts(f, p);
    }
  }

  lemma EndIsLast(f: Forest, b: nat)
    requires b in f.blocks && NextInChain(f, b) == None
    ensures NothingAfter(f, b)
  {
    if q: nat :| OnlyChild(f, b, q) {
      NextIsOnlyChild(f, b, q);
    }
  }

  lemma RunEndsNamed(f: Forest, prot: set<nat>, chain: seq<nat>, r: nat, e: nat)
    requires f.Families() && ListsBlocks(f) && IsChain(f, chain) && IsRun(prot, chain, r, e)
    requires forall b :: b in chain ==> b in f.blocks
    ensures EndsNamed(f, Segment(f.blocks, chain, r, e))
  {
    hide Forest.Families, ListsBlocks, IsStart, NextInChain, NothingBefore, NothingAfter;
    assert chain[r..e][e - r - 1] == chain[e - 1];
    if r == 0 {
      StartIsFirst(f, chain[r]);
    }
    if e == |chain| {
      EndIsLast(f, chain[e - 1]);
    }
  }

  lemma FoldedInSteps(f: Forest, s: FoldSegment, b: nat)
    requires Foldable(f, s) && b in s.blockIds
    ensures InQuietSteps(f, b)
  {
    hide Protected, OnlyChild;
    var i :| 0 <= i < |s.blockIds| && s.blockIds[i] == b;
    var t := if i <= |s.blockIds| - 3 then i else |s.blockIds| - 3;
    assert QuietStep(f, s.blockIds[t], s.blockIds[t + 1]) && QuietStep(f, s.blockIds[t + 1], s.blockIds[t + 2]);
  }

  /** With right lists of children, folding the chains folds exactly what can be folded. */
  lemma ChainsFoldSteps(f: Forest, prot: set<nat>, chains: seq<seq<nat>>, segs: seq<FoldSegment>)
    requires f.Families() && ListsBlocks(f) && AreChains(f, chains, f.blocks.Keys)
    requires FoldsOf(f, prot, chains, |chains|, segs)
    requires forall b :: b in f.blocks ==> (b in prot <==> Protected(f.blocks, b))
    ensures FoldsSteps(f, segs)
  {
    hide *;
    ChainsPartition(f, chains);
    FoldsAreFoldable(f, prot, chains, segs);
    FoldsEndNamed(f, prot, chains, segs);
    forall b
      ensures InFold(segs, b) <==> InQuietSteps(f, b)
    {
      AllFoldedInSteps(f, segs, b);
      if InQuietSteps(f, b) {
        var x, y, z := StepsAt(f, b);
        QuietStepsFolded(f, prot, chains, segs, x, y, z);
      }
    }
    FoldsStepsIs(f, segs);
  }

  lemma ChainsPartition(f: Forest, chains: seq<seq<nat>>)
    requires AreChains(f, chains, f.blocks.Keys)
    ensures Partition(f, chains, f.blocks.Keys)
  {}

  lemma FoldsStepsIs(f: Forest, segs: seq<FoldSegment>)
    requires forall b: nat :: InFold(segs, b) <==> InQuietSteps(f, b)
    requires forall i :: 0 <= i < |segs| ==> EndsNamed(f, segs[i])
    ensures FoldsSteps(f, segs)
  {}

  lemma StepsAt(f: Forest, b: nat) returns (x: nat, y: nat, z: nat)
    requires InQuietSteps(f, b)
    ensures QuietStep(f, x, y) && QuietStep(f, y, z) && (b == x || b == y || b == z)
  {
    x, y, z :| QuietStep(f, x, y) && QuietStep(f, y, z) && (b == x || b == y || b == z);
  }

  lemma AllFoldedInSteps(f: Forest, segs: seq<FoldSegment>, b: nat)
    requires forall i :: 0 <= i < |segs| ==> Foldable(f, segs[i])
    ensures InFold(segs, b) ==> InQuietSteps(f, b)
  {
    hide Foldable, InQuietSteps;
    if InFold(segs, b) {
      var i :| 0 <= i < |segs| && b in segs[i].blockIds;
      FoldedInSteps(f, segs[i], b);
    }
  }

  lemma FoldsEndNamed(f: Forest, prot: set<nat>, chains: seq<seq<nat>>, segs: seq<FoldSegment>)
    requires f.Families() && ListsBlocks(f) && AreChains(f, chains, f.blocks.Keys)
    requires FoldsOf(f, prot, chains, |chains|, segs)
    ensures forall i :: 0 <= i < |segs| ==> EndsNamed(f, segs[i])
  {
    hide Forest.Families, ListsBlocks, Covered, DisjointFolds, IsFold, IsChain, EndsNamed;
    forall i | 0 <= i < |segs|
      ensures EndsNamed(f, segs[i])
    {
      assert FoldOfOne(f, prot, chains, |chains|, segs[i]);
      var j :| 0 <= j < |chains| && IsFold(f.blocks, prot, chains[j], segs[i]);
      FoldEndsNamed(f, prot, chains[j], segs[i]);
    }
  }

  lemma FoldEndsNamed(f: Forest, prot: set<nat>, chain: seq<nat>, s: FoldSegment)
    requires f.Families() && ListsBlocks(f) && IsChain(f, chain) && (forall b :: b in chain ==> b in f.blocks)
    requires IsFold(f.blocks, prot, chain, s)
    ensures EndsNamed(f, s)
  {
    hide Forest.Families, ListsBlocks, IsChain, EndsNamed;
    var r: nat, e: nat :| IsRun(prot, chain, r, e) && r + 3 <= e && s == Segment(f.blocks, chain, r, e);
    RunEndsNamed(f, prot, chain, r, e);
  }

  lemma RunIsFoldable(f: Forest, prot: set<nat>, chain: seq<nat>, r: nat, e: nat)
    requires (forall b :: b in chain ==> b in f.blocks) && IsRun(prot, chain, r, e) && r + 3 <= e
    requires forall i :: 0 < i < |chain| ==> OnlyChild(f, chain[i - 1], chain[i])
    requires forall b :: b in f.blocks ==> (b in prot <==> Protected(f.blocks, b))
    ensures Foldable(f, Segment(f.blocks, chain, r, e))
  {
    hide Protected, OnlyChild;
    var run := chain[r..e];
    assert run[0] == chain[r] && run[e - r - 1] == chain[e - 1];
    forall i | 0 < i < e - r
      ensures OnlyChild(f, run[i - 1], run[i])
    {
      assert run[i - 1] == chain[r + i - 1] && run[i] == chain[r + i];
    }
  }

  lemma FoldIsFoldable(f: Forest, prot: set<nat>, chain: seq<nat>, s: FoldSegment)
    requires IsPath(f, chain) && (forall b :: b in chain ==> b in f.blocks) && IsFold(f.blocks, prot, chain, s)
    requires forall b :: b in f.blocks ==> (b in prot <==> Protected(f.blocks, b))
    ensures Foldable(f, s)
  {
    hide Protected, NextInChain, OnlyChild, Foldable;
    forall i | 0 < i < |chain|
      ensures OnlyChild(f, chain[i - 1], chain[i])
    {
      NextIsOnlyChild(f, chain[i - 1], chain[i]);
    }
    var r: nat, e: nat :| IsRun(prot, chain, r, e) && r + 3 <= e && s == Segment(f.blocks, chain, r, e);
    RunIsFoldable(f, prot, chain, r, e);
  }

  lemma FoldsAreFoldable(f: Forest, prot: set<nat>, chains: seq<seq<nat>>, segs: seq<FoldSegment>)
    requires Partition(f, chains, f.blocks.Keys) && FoldsOf(f, prot, chains, |chains|, segs)
    requires forall b :: b in f.blocks ==> (b in prot <==> Protected(f.blocks, b))
    ensures forall i :: 0 <= i < |segs| ==> Foldable(f, segs[i])
  {
    hide Protected, Covered, DisjointFolds, IsPath, IsFold, Foldable;
    forall i | 0 <= i < |segs|
      ensures Foldable(f, segs[i])
    {
      assert FoldOfOne(f, prot, chains, |chains|, segs[i]);
      var j :| 0 <= j < |chains| && IsFold(f.blocks, prot, chains[j], segs[i]);
      FoldIsFoldable(f, prot, chains[j], segs[i]);
    }
  }

  /** No block is in two segments, none of them is protected; on a forest they are exactly what should be folded. */
  method ComputeFoldSegments(f: Forest, blocks: seq<Block>) returns (segs: seq<FoldSegment>)
    requires UniqueIds(blocks) && IsBlockMap(blocks, f.blocks)
    ensures DisjointFolds(segs) && forall i :: 0 <= i < |segs| ==> Foldable(f, segs[i])
    ensures f.Families() && ListsBlocks(f) ==> FoldsSteps(f, segs)
    ensures f.Valid() && ListsBlocks(f) ==> IsFolding(f, segs)
  {
    hide *;
    var prot := ProtectedIds(blocks, f.blocks);
    var chains := FindChains(f, blocks);
    segs := [];
    NoFolds(f, prot, chains);
    for i := 0 to |chains|
      invariant FoldsOf(f, prot, chains, i, segs)
    {
      ChainBlocks(f, chains, i);
      var more := FoldChain(f.blocks, prot, chains[i]);
      FoldsOfStep(f, prot, chains, i, segs, more);
      segs := segs + more;
    }
    FoldsAreFoldable(f, prot, chains, segs);
    FoldsAreDisjoint(f, prot, chains, segs);
    if f.Families() && ListsBlocks(f) {
      ChainsFoldSteps(f, prot, chains, segs);
    }
    if f.Valid() && ListsBlocks(f) {
      ValidFamilies(f);
      ChainsGiveFolding(f, prot, chains, segs);
    }
  }

  lemma NoFolds(f: Forest, prot: set<nat>, chains: seq<seq<nat>>)
    requires Partition(f, chains, f.blocks.Keys)
    ensures FoldsOf(f, prot, chains, 0, [])
  {
    hide Partition;
  }

  lemma ChainBlocks(f: Forest, chains: seq<seq<nat>>, i: nat)
    requires Partition(f, chains, f.blocks.Keys) && i < |chains|
    ensures Distinct(chains[i]) && forall b :: b in chains[i] ==> b in f.blocks
  {}

  lemma FoldsAreDisjoint(f: Forest, prot: set<nat>, chains: seq<seq<nat>>, segs: seq<FoldSegment>)
    requires Partition(f, chains, f.blocks.Keys) && FoldsOf(f, prot, chains, |chains|, segs)
    ensures DisjointFolds(segs)
  {
    hide Partition, Covered, FoldOfOne;
  }
}
