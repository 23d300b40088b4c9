/** The shared header tree: a graph of headers, and an index from hash to node. */
module HeaderTree {
  import opened Chain
  import opened Sorting

  /** Nodes are numbered in insertion order; an edge runs from parent to child. */
  datatype TreeInfo = TreeInfo(nodes: seq<HeaderInfo>, edges: set<(nat, nat)>, index: map<BlockHash, nat>) {

    /** The index is a bijection between the hashes of the nodes and their numbers. */
    ghost predicate Indexed() {
      && (forall i :: 0 <= i < |nodes| ==> nodes[i].Hash() in index && index[nodes[i].Hash()] == i)
      && (forall h :: h in index ==> index[h] < |nodes| && nodes[index[h]].Hash() == h)
    }

    ghost predicate Link(p: nat, c: nat) {
      p < |nodes| && c < |nodes| && nodes[c].header.prev == nodes[p].Hash()
    }

    ghost predicate IsIn(i: nat, batch: seq<HeaderInfo>) {
      i < |nodes| && nodes[i].Hash() in HashesOf(batch)
    }

    /** There is an edge exactly where a header names the hash of another one as its predecessor. */
    ghost predicate Valid() {
      Indexed() && forall p: nat, c: nat :: (p, c) in edges <==> Link(p, c)
    }

    function Hashes(): set<BlockHash> {
      index.Keys
    }

    ghost function Known(): map<BlockHash, HeaderInfo>
      requires Indexed()
    {
      map h | h in index :: nodes[index[h]]
    }

    /** `add_node` together with its index entry. */
    function WithNode(h: HeaderInfo): (t: TreeInfo)
      requires Indexed() && h.Hash() !in index
      ensures t.Indexed()
      ensures t.Known() == Known()[h.Hash() := h]
    {
      this.(nodes := nodes + [h], index := index[h.Hash() := |nodes|])
    }

    ghost predicate AllTracked(first: nat) {
      Valid() && Chain.AllTracked(nodes, first)
    }

    /** The edges, read as pairs of hashes. */
    ghost function HashEdges(): set<(BlockHash, BlockHash)>
      requires Valid()
    {
      set e | e in edges :: assert Link(e.0, e.1); (nodes[e.0].Hash(), nodes[e.1].Hash())
    }
  }

  const EMPTY_TREE := TreeInfo([], {}, map[])

  /** The parent-child pairs that a set of hashes determines. */
  ghost function LinksOf(hashes: set<BlockHash>): set<(BlockHash, BlockHash)> {
    set h | h in hashes && h.Digest? && h.header.prev in hashes :: (h.header.prev, h)
  }

  /** What is recorded after inserting `batch`: the first entry for each hash wins. */
  ghost function Merge(known: map<BlockHash, HeaderInfo>, batch: seq<HeaderInfo>): map<BlockHash, HeaderInfo> {
    if batch == [] then
      known
    else
      var m, last := Merge(known, batch[..|batch| - 1]), batch[|batch| - 1];
      if last.Hash() in m then m else m[last.Hash() := last]
  }

  lemma MergeKeys(known: map<BlockHash, HeaderInfo>, batch: seq<HeaderInfo>)
    ensures Merge(known, batch).Keys == known.Keys + HashesOf(batch)
  {
    if batch != [] {
      var n := |batch| - 1;
      MergeKeys(known, batch[..n]);
      HashesOfSnoc(batch, n);
      assert batch[..n + 1] == batch;
    }
  }

  /** The tree behind its lock. */
  class SharedTree {
    var info: TreeInfo

    constructor (info: TreeInfo)
      ensures this.info == info
    {
      this.info := info;
    }

    /** Adds the headers not yet known, then every edge that has a header of the batch at one end. */
    method InsertHeaders(batch: seq<HeaderInfo>) returns (changed: bool)
      requires info.Valid()
      modifies this
      ensures info.Valid()
      ensures info.Known() == Merge(old(info.Known()), batch)
      ensures info.Hashes() == old(info.Hashes()) + HashesOf(batch)
      ensures old(info.nodes) <= info.nodes
      ensures forall i :: |old(info.nodes)| <= i < |info.nodes| ==> info.nodes[i] in batch
      ensures changed <==> |info.nodes| != |old(info.nodes)|
    {
      var added;
      added, changed := AddNodes(info, batch);
      MergeKeys(info.Known(), batch);
      var edges := LinkBatch(added, ChildrenByPrev(added.nodes), batch);
      LinkedTree(info, added, edges, batch);
      info := added.(edges := edges);
    }
  }

  /** The first loop: new headers become nodes, known ones are skipped. */
  method AddNodes(t: TreeInfo, batch: seq<HeaderInfo>) returns (r: TreeInfo, changed: bool)
    requires t.Indexed()
    ensures r.Indexed() && r.edges == t.edges && t.nodes <= r.nodes
    ensures r.Known() == Merge(t.Known(), batch)
    ensures forall i :: |t.nodes| <= i < |r.nodes| ==> r.nodes[i] in batch
    ensures changed <==> |r.nodes| != |t.nodes|
  {
    r, changed := t, false;
    for j := 0 to |batch|
      invariant r.Indexed() && r.edges == t.edges && t.nodes <= r.nodes
      invariant r.Known() == Merge(t.Known(), batch[..j])
      invariant forall i :: |t.nodes| <= i < |r.nodes| ==> r.nodes[i] in batch
      invariant changed <==> |r.nodes| != |t.nodes|
    {
      assert batch[..j + 1][..j] == batch[..j];
      if batch[j].Hash() !in r.index {
        r, changed := r.WithNode(batch[j]), true;
      }
    }
    assert batch[..|batch|] == batch;
  }

  /** The numbers of the nodes that name each hash as their predecessor. */
  function ChildrenByPrev(nodes: seq<HeaderInfo>): (children: map<BlockHash, seq<nat>>)
    ensures GroupsByPrev(nodes, children)
  {
    if nodes == [] then
      map[]
    else
      var n := |nodes| - 1;
      var acc, prev := ChildrenByPrev(nodes[..n]), nodes[n].header.prev;
      var siblings: seq<nat> := if prev in acc then acc[prev] else [];
      acc[prev := siblings + [n]]
  }

  /** An edge between two old nodes was there before; any other one has an end in the batch. */
  lemma LinkedTree(before: TreeInfo, added: TreeInfo, edges: set<(nat, nat)>, batch: seq<HeaderInfo>)
    requires before.Valid() && added.Indexed() && before.nodes <= added.nodes && added.edges == before.edges
    requires forall i :: |before.nodes| <= i < |added.nodes| ==> added.nodes[i] in batch
    requires forall p: nat, c: nat :: (p, c) in edges <==>
               (p, c) in added.edges || (added.Link(p, c) && (added.IsIn(p, batch) || added.IsIn(c, batch)))
    ensures added.(edges := edges).Valid()
  {
    forall p: nat, c: nat
      ensures (p, c) in edges <==> added.Link(p, c)
    {
      if p < |before.nodes| && c < |before.nodes| {
        assert before.Link(p, c) <==> added.Link(p, c);
      } else {
        assert (p, c) !in before.edges by { assert !before.Link(p, c); }
      }
    }
    forall p: nat, c: nat
      ensures added.(edges := edges).Link(p, c) <==> added.Link(p, c)
    {}
  }

  ghost predicate GroupsByPrev(nodes: seq<HeaderInfo>, children: map<BlockHash, seq<nat>>) {
    && (forall h, k :: h in children && 0 <= k < |children[h]| ==>
      children[h][k] < |nodes| && nodes[children[h][k]].header.prev == h)
    && (forall c: nat :: c < |nodes| ==> nodes[c].header.prev in children && c in children[nodes[c].header.prev])
  }

  /** The second loop: every edge with a header of the batch at one end. */
  method LinkBatch(t: TreeInfo, childrenByPrev: map<BlockHash, seq<nat>>, batch: seq<HeaderInfo>)
    returns (edges: set<(nat, nat)>)
    requires t.Indexed() && HashesOf(batch) <= t.Hashes() && GroupsByPrev(t.nodes, childrenByPrev)
    ensures forall p: nat, c: nat :: (p, c) in edges <==>
              (p, c) in t.edges || (t.Link(p, c) && (t.IsIn(p, batch) || t.IsIn(c, batch)))
  {
    edges := t.edges;
    for j := 0 to |batch|
      invariant forall p: nat, c: nat :: (p, c) in edges <==>
                  (p, c) in t.edges || (t.Link(p, c) && (t.IsIn(p, batch[..j]) || t.IsIn(c, batch[..j])))
    {
      assert batch[j].Hash() in HashesOf(batch);
      HashesOfSnoc(batch, j);
      edges := LinkHeader(t.(edges := edges), childrenByPrev, batch[j]);
    }
    assert batch[..|batch|] == batch;
  }

  /** One round of the second loop: the edges from and to the node of `h`. */
  method LinkHeader(t: TreeInfo, childrenByPrev: map<BlockHash, seq<nat>>, h: HeaderInfo)
    returns (edges: set<(nat, nat)>)
    requires t.Indexed() && h.Hash() in t.index && GroupsByPrev(t.nodes, childrenByPrev)
    ensures forall p: nat, c: nat :: (p, c) in edges <==>
              (p, c) in t.edges || (t.Link(p, c) && (p == t.index[h.Hash()] || c == t.index[h.Hash()]))
  {
    var idx := t.index[h.Hash()];
    edges := t.edges;
    if h.header.prev in t.index {
      edges := edges + {(t.index[h.header.prev], idx)};
    }
    if h.Hash() in childrenByPrev {
      var children := childrenByPrev[h.Hash()];
      ghost var linked := edges;
      for k := 0 to |children|
        invariant forall p: nat, c: nat :: (p, c) in edges <==> (p, c) in linked || (p == idx && c in children[..k])
      {
        edges := edges + {(idx, children[k])};
      }
      assert children[..|children|] == children;
    }
  }

  // ----- What a valid tree is, and what the order of insertion leaves open

  /** Read as hashes, the edges of a valid tree are a function of which hashes it holds. */
  lemma EdgesFollowFromHashes(t: TreeInfo)
    requires t.Valid()
    ensures t.HashEdges() == LinksOf(t.Hashes())
  {
    forall e | e in LinksOf(t.Hashes())
      ensures e in t.HashEdges()
    {
      var p, c := t.index[e.0], t.index[e.1];
      assert t.Link(p, c);
      assert (p, c) in t.edges;
    }
    forall e | e in t.HashEdges()
      ensures e in LinksOf(t.Hashes())
    {
      var i :| i in t.edges && e == (t.nodes[i.0].Hash(), t.nodes[i.1].Hash());
      assert t.Link(i.0, i.1);
    }
  }

  /** No node has two parents, and no parent is as large as its child: the graph is a forest. */
  lemma ValidIsForest(t: TreeInfo, p: nat, q: nat, c: nat)
    requires t.Valid() && (p, c) in t.edges
    ensures t.nodes[c].header.prev.header == t.nodes[p].header
    ensures Height(t.nodes[c].header) == Height(t.nodes[p].header) + 1
    ensures (q, c) in t.edges ==> q == p
  {
    assert t.Link(p, c);
    if (q, c) in t.edges {
      assert t.Link(q, c);
    }
  }

  /** Splitting a batch changes nothing. */
  lemma {:induction false} MergeConcat(known: map<BlockHash, HeaderInfo>, a: seq<HeaderInfo>, b: seq<HeaderInfo>)
    ensures Merge(known, a + b) == Merge(Merge(known, a), b)
  {
    if b == [] {
      assert a + b == a;
    } else {
      var n := |b| - 1;
      MergeConcat(known, a, b[..n]);
      assert (a + b)[..|a + b| - 1] == a + b[..n];
    }
  }

  /** A hash that was not known keeps the first entry the batch has for it. */
  lemma {:induction false} MergeLookup(known: map<BlockHash, HeaderInfo>, batch: seq<HeaderInfo>, h: BlockHash)
    requires h in Merge(known, batch)
    ensures h in known ==> Merge(known, batch)[h] == known[h]
    ensures h !in known ==> exists i :: 0 <= i < |batch| && batch[i].Hash() == h && Merge(known, batch)[h] == batch[i]
                                        && forall j :: 0 <= j < i ==> batch[j].Hash() != h
  {
    if batch != [] {
      var n := |batch| - 1;
      var before := Merge(known, batch[..n]);
      if h in before {
        MergeLookup(known, batch[..n], h);
      } else {
        MergeKeys(known, batch[..n]);
        assert forall j :: 0 <= j < n ==> batch[..n][j] == batch[j];
        assert batch[n].Hash() == h;
      }
    }
  }

  ghost predicate Agreeing(known: map<BlockHash, HeaderInfo>, batch: seq<HeaderInfo>) {
    forall i, j ::
      0 <= i < |batch| && 0 <= j < |batch| && batch[i].Hash() == batch[j].Hash() && batch[i].Hash() !in known
      ==> batch[i] == batch[j]
  }

  /** Which hashes end up in the tree, and hence its edges, never depends on the order of a batch. */
  lemma HashesIgnoreOrder(known: map<BlockHash, HeaderInfo>, a: seq<HeaderInfo>, b: seq<HeaderInfo>)
    requires multiset(a) == multiset(b)
    ensures Merge(known, a).Keys == Merge(known, b).Keys
  {
    MergeKeys(known, a);
    MergeKeys(known, b);
    forall h | h in a || h in b
      ensures h in a && h in b
    {
      assert h in multiset(a) && h in multiset(b);
    }
    assert HashesOf(a) == (set h | h in a :: h.Hash());
    assert HashesOf(b) == (set h | h in b :: h.Hash());
  }

  /** The recorded heights and miners are order-independent exactly when no two entries of the batch
      for one new hash differ. */
  lemma OrderIrrelevantIffAgreeing(known: map<BlockHash, HeaderInfo>, batch: seq<HeaderInfo>)
    ensures Agreeing(known, batch) <==>
            forall other :: multiset(other) == multiset(batch) ==> Merge(known, other) == Merge(known, batch)
  {
    if Agreeing(known, batch) {
      forall other | multiset(other) == multiset(batch)
        ensures Merge(known, other) == Merge(known, batch)
      {
        AgreeingIgnoresOrder(known, batch, other);
      }
    } else {
      var i, j :| 0 <= i < |batch| && 0 <= j < |batch| && batch[i].Hash() == batch[j].Hash()
                  && batch[i].Hash() !in known && batch[i] != batch[j];
      var first, second := ToFront(batch, i), ToFront(batch, j);
      FrontWins(known, first);
      FrontWins(known, second);
      assert Merge(known, first) != Merge(known, second);
    }
  }

  lemma AgreeingIgnoresOrder(known: map<BlockHash, HeaderInfo>, a: seq<HeaderInfo>, b: seq<HeaderInfo>)
    requires Agreeing(known, a) && multiset(a) == multiset(b)
    ensures Merge(known, a) == Merge(known, b)
  {
    HashesIgnoreOrder(known, a, b);
    forall h | h in Merge(known, a)
      ensures Merge(known, a)[h] == Merge(known, b)[h]
    {
      MergeLookup(known, a, h);
      MergeLookup(known, b, h);
      if h !in known {
        var i :| 0 <= i < |b| && b[i].Hash() == h && Merge(known, b)[h] == b[i];
        assert b[i] in multiset(a);
      }
    }
  }

  ghost function ToFront(batch: seq<HeaderInfo>, i: nat): (r: seq<HeaderInfo>)
    requires i < |batch|
    ensures multiset(r) == multiset(batch) && r[0] == batch[i]
  {
    assert batch == batch[..i] + [batch[i]] + batch[i + 1..];
    [batch[i]] + (batch[..i] + batch[i + 1..])
  }

  lemma FrontWins(known: map<BlockHash, HeaderInfo>, batch: seq<HeaderInfo>)
    requires batch != [] && batch[0].Hash() !in known
    ensures batch[0].Hash() in Merge(known, batch) && Merge(known, batch)[batch[0].Hash()] == batch[0]
  {
    MergeKeys(known, batch);
    assert batch[0].Hash() in HashesOf(batch);
    MergeLookup(known, batch, batch[0].Hash());
  }

  // ----- Disconnected subtrees

  /** A header above the lower bound whose predecessor is missing. */
  ghost predicate Unexpected(h: BlockHash, known: set<BlockHash>, first: nat) {
    h.Digest? && h.header.prev !in known && first < Height(h.header)
  }

  /** No gaps: the set is closed under predecessors down to the lower bound. */
  ghost predicate Closed(known: set<BlockHash>, first: nat) {
    forall h :: h in known ==> !Unexpected(h, known, first)
  }

  predicate IsRoot(t: TreeInfo, c: nat) {
    forall e | e in t.edges :: e.1 != c
  }

  function RootsAbove(t: TreeInfo, first: nat, n: nat): (r: seq<HeaderInfo>)
    requires n <= |t.nodes|
  {
    if n == 0 then
      []
    else
      RootsAbove(t, first, n - 1)
      + if IsRoot(t, n - 1) && first < t.nodes[n - 1].height then [t.nodes[n - 1]] else []
  }

  function UnexpectedRootCount(t: TreeInfo, first: nat): nat {
    |RootsAbove(t, first, |t.nodes|)|
  }

  function UnexpectedRoots(t: TreeInfo, first: nat): seq<HeaderInfo> {
    SortBy(RootsAbove(t, first, |t.nodes|), HeightKey)
  }

  lemma RootLacksParent(t: TreeInfo, c: nat)
    requires t.Valid() && c < |t.nodes|
    ensures IsRoot(t, c) <==> t.nodes[c].header.prev !in t.Hashes()
  {
    if t.nodes[c].header.prev in t.Hashes() {
      var e := (t.index[t.nodes[c].header.prev], c);
      assert t.Link(e.0, e.1) && e in t.edges;
    } else {
      forall e | e in t.edges
        ensures e.1 != c
      {
        assert t.Link(e.0, e.1);
      }
    }
  }

  lemma {:induction false} RootsAboveMeaning(t: TreeInfo, first: nat, n: nat)
    requires t.AllTracked(first) && n <= |t.nodes|
    ensures forall x :: x in RootsAbove(t, first, n) <==>
                        x in t.nodes[..n] && Unexpected(x.Hash(), t.Hashes(), first)
  {
    if n > 0 {
      RootsAboveMeaning(t, first, n - 1);
      RootLacksParent(t, n - 1);
      assert t.nodes[..n] == t.nodes[..n - 1] + [t.nodes[n - 1]];
      assert Tracked(t.nodes[n - 1], first);
    }
  }

  lemma {:induction false} RootsAboveDistinct(t: TreeInfo, first: nat, n: nat)
    requires t.AllTracked(first) && n <= |t.nodes|
    ensures Distinct(RootsAbove(t, first, n))
  {
    if n > 0 {
      RootsAboveDistinct(t, first, n - 1);
      RootsAboveMeaning(t, first, n - 1);
      hide Unexpected;
      assert t.nodes[n - 1] !in t.nodes[..n - 1];
    }
  }

  /** The roots handed to the repair pass are exactly the unexpected ones, each once, lowest first. */
  lemma UnexpectedRootsMeaning(t: TreeInfo, first: nat)
    requires t.AllTracked(first)
    ensures forall x :: x in UnexpectedRoots(t, first) <==> x in t.nodes && Unexpected(x.Hash(), t.Hashes(), first)
    ensures Distinct(UnexpectedRoots(t, first))
    ensures Sorted(UnexpectedRoots(t, first), HeightKey)
    ensures UnexpectedRootCount(t, first) == 0 <==> Closed(t.Hashes(), first)
  {
    var roots := RootsAbove(t, first, |t.nodes|);
    RootsAboveMeaning(t, first, |t.nodes|);
    RootsAboveDistinct(t, first, |t.nodes|);
    assert t.nodes[..|t.nodes|] == t.nodes;
    PermutationDistinct(roots, UnexpectedRoots(t, first));
    hide RootsAbove, TreeInfo.AllTracked, Unexpected, SortBy;
    NoRootsIffClosed(t, first, roots);
  }

  lemma NoRootsIffClosed(t: TreeInfo, first: nat, roots: seq<HeaderInfo>)
    requires t.AllTracked(first) && forall x :: x in roots <==> x in t.nodes && Unexpected(x.Hash(), t.Hashes(), first)
    ensures roots == [] <==> Closed(t.Hashes(), first)
  {
    hide Unexpected;
    if roots != [] {
      assert roots[0] in roots;
      assert roots[0].Hash() in t.Hashes();
    }
    forall h | h in t.Hashes() && Unexpected(h, t.Hashes(), first)
      ensures roots != []
    {
      assert t.nodes[t.index[h]] in t.nodes;
    }
  }

  /** In a gap-free set, whatever is in it has its whole ancestry in it, down to the lower bound. */
  lemma {:induction false} ClosedHoldsAncestry(known: set<BlockHash>, first: nat, h: Header, n: nat)
    requires Closed(known, first) && Digest(h) in known
    requires first <= n <= Height(h)
    ensures Digest(AncestorAt(h, n)) in known
  {
    if n < Height(h) {
      assert !Unexpected(Digest(h), known, first);
      ClosedHoldsAncestry(known, first, h.prev.header, n);
    }
  }
}
