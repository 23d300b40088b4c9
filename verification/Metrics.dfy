/** Stale-block metrics over the header tree. */
module Metrics {
  import opened Wrappers
  import opened Sorting
  import opened Chain
  import opened HeaderTree

  datatype Reason =
    | NoReachableActiveTip | NoReachableStaleTipSupport | TipNotInTree | InsufficientHistory | IncompleteObservedHistory

  datatype TipInfo = TipInfo(hash: BlockHash, active: bool)

  /** What the cache holds about one node. A text that is no block hash is a `NoPreimage`. */
  datatype NodeStatus = NodeStatus(reachable: bool, supportsStaleTips: bool, tips: seq<TipInfo>)

  // ----- Ancestors

  ghost function Parent(t: TreeInfo, i: nat): (p: Option<nat>)
    requires t.Valid() && i < |t.nodes|
    ensures p.Some? ==> p.value < |t.nodes| && t.nodes[i].header.prev == t.nodes[p.value].Hash()
  {
    var prev := t.nodes[i].header.prev;
    if prev in t.index then Some(t.index[prev]) else None
  }

  /** `a` is `d`, or an ancestor of the parent of `d`. */
  ghost predicate Ancestor(t: TreeInfo, a: nat, d: nat)
    requires t.Valid() && d < |t.nodes|
    decreases t.nodes[d].header
  {
    a == d || (Parent(t, d).Some? && Ancestor(t, a, Parent(t, d).value))
  }

  ghost predicate InGraph(t: TreeInfo, p: seq<nat>) {
    forall k :: 0 <= k < |p| ==> p[k] < |t.nodes|
  }

  /** The path from the root of `i` down to `i`. */
  ghost function Path(t: TreeInfo, i: nat): (p: seq<nat>)
    requires t.Valid() && i < |t.nodes|
    ensures p != [] && p[|p| - 1] == i && InGraph(t, p)
    decreases t.nodes[i].header
  {
    (if Parent(t, i).Some? then Path(t, Parent(t, i).value) else []) + [i]
  }

  /** Being an ancestor is being on the path, and is having a path that is a prefix. */
  lemma {:induction false} AncestorIsPathPrefix(t: TreeInfo, a: nat, d: nat)
    requires t.Valid() && a < |t.nodes| && d < |t.nodes|
    ensures Ancestor(t, a, d) <==> Path(t, a) <= Path(t, d)
    ensures Ancestor(t, a, d) <==> a in Path(t, d)
    decreases t.nodes[d].header
  {
    var p := Parent(t, d);
    if p.Some? {
      AncestorIsPathPrefix(t, a, p.value);
      assert Path(t, d)[..|Path(t, d)| - 1] == Path(t, p.value);
      if |Path(t, a)| == |Path(t, d)| && Path(t, a) <= Path(t, d) {
        assert Path(t, a)[|Path(t, a)| - 1] == d;
      }
    }
  }

  /** Every non-empty prefix of a path is the path of its last node. */
  lemma {:induction false} PathPrefix(t: TreeInfo, i: nat, n: nat)
    requires t.Valid() && i < |t.nodes| && 0 < n <= |Path(t, i)|
    ensures Path(t, i)[..n] == Path(t, Path(t, i)[n - 1])
    decreases t.nodes[i].header
  {
    if n < |Path(t, i)| {
      var p := Parent(t, i).value;
      PathPrefix(t, p, n);
      assert Path(t, i)[..n] == Path(t, p)[..n];
    } else {
      assert Path(t, i)[..n] == Path(t, i);
    }
  }

  /** The one node with an edge to `i`, if there is one. */
  method ParentIndex(t: TreeInfo, i: nat) returns (p: Option<nat>)
    requires t.Valid() && i < |t.nodes|
    ensures p == Parent(t, i)
  {
    ParentEdge(t, i);
    if e :| e in t.edges && e.1 == i {
      return Some(e.0);
    }
    return None;
  }

  lemma ParentEdge(t: TreeInfo, i: nat)
    requires t.Valid() && i < |t.nodes|
    ensures forall e :: e in t.edges && e.1 == i <==> Parent(t, i).Some? && e == (Parent(t, i).value, i)
    ensures (forall e :: e in t.edges ==> e.1 != i) ==> Parent(t, i).None?
  {
    if Parent(t, i).Some? {
      assert t.Link(Parent(t, i).value, i);
      assert (Parent(t, i).value, i) in t.edges;
    }
    forall e: (nat, nat)
      ensures e in t.edges && e.1 == i <==> Parent(t, i).Some? && e == (Parent(t, i).value, i)
    {
      assert e == (e.0, e.1);
      assert e in t.edges <==> t.Link(e.0, e.1);
    }
  }

  function Reversed<T>(s: seq<T>): (r: seq<T>)
    ensures |r| == |s|
  {
    if s == [] then [] else Reversed(s[1..]) + [s[0]]
  }

  lemma ReversedSnoc<T>(s: seq<T>, x: T)
    ensures Reversed(s + [x]) == [x] + Reversed(s)
  {
    if s != [] {
      assert (s + [x])[1..] == s[1..] + [x];
      ReversedSnoc(s[1..], x);
    }
  }

  /** The path above `i`. */
  ghost function Above(t: TreeInfo, i: nat): (p: seq<nat>)
    requires t.Valid() && i < |t.nodes|
    ensures Path(t, i) == p + [i]
  {
    if Parent(t, i).Some? then Path(t, Parent(t, i).value) else []
  }

  lemma MoveOver(above: seq<nat>, p: nat, path: seq<nat>)
    ensures (above + [p]) + Reversed(path) == above + Reversed(path + [p])
  {
    ReversedSnoc(path, p);
  }

  /** Collects the nodes from the tip upwards, then reverses. */
  method PathToRoot(t: TreeInfo, tip: nat) returns (path: seq<nat>)
    requires t.Valid() && tip < |t.nodes|
    ensures path == Path(t, tip)
  {
    path := [tip];
    var current: nat := tip;
    var parent := ParentIndex(t, current);
    hide Path, Ancestor;
    while parent.Some?
      invariant current < |t.nodes| && parent == Parent(t, current)
      invariant Path(t, tip) == Above(t, current) + Reversed(path)
      decreases t.nodes[current].header
    {
      MoveOver(Above(t, parent.value), parent.value, path);
      path := path + [parent.value];
      current := parent.value;
      parent := ParentIndex(t, current);
    }
    path := Reversed(path);
  }

  // ----- The resolved tip

  ghost predicate CommonAncestor(t: TreeInfo, tips: seq<nat>, x: nat)
    requires t.Valid() && InGraph(t, tips)
  {
    forall d :: d in tips ==> Ancestor(t, x, d)
  }

  /** `x` is the lowest common ancestor of `tips`. */
  ghost predicate IsResolved(t: TreeInfo, tips: seq<nat>, x: nat)
    requires t.Valid() && InGraph(t, tips)
  {
    && x < |t.nodes|
    && CommonAncestor(t, tips, x)
    && forall y: nat :: y < |t.nodes| && CommonAncestor(t, tips, y) ==> Ancestor(t, y, x)
  }

  /** There is at most one, whatever order the tips come in and however often each occurs. */
  lemma ResolvedIsUnique(t: TreeInfo, tips: seq<nat>, tips': seq<nat>, x: nat, y: nat)
    requires t.Valid() && InGraph(t, tips) && InGraph(t, tips') && forall d :: d in tips <==> d in tips'
    requires IsResolved(t, tips, x) && IsResolved(t, tips', y)
    ensures x == y
  {
    assert CommonAncestor(t, tips, y) && CommonAncestor(t, tips', x);
    AncestorIsPathPrefix(t, x, y);
    AncestorIsPathPrefix(t, y, x);
    assert Path(t, x) == Path(t, y);
  }

  /** The length of the longest common prefix. */
  function SharedLength(p: seq<nat>, q: seq<nat>): (n: nat)
    ensures n <= |p| && n <= |q| && p[..n] == q[..n]
    ensures n < |p| && n < |q| ==> p[n] != q[n]
  {
    if p == [] || q == [] || p[0] != q[0] then
      0
    else
      var n := SharedLength(p[1..], q[1..]);
      assert p[..n + 1] == [p[0]] + p[1..][..n] && q[..n + 1] == [q[0]] + q[1..][..n];
      n + 1
  }

  /** One more tip: what is left of the common path leads to exactly the ancestors both sides share. */
  lemma TruncatedPath(t: TreeInfo, c: nat, d: nat, n: nat, a: nat)
    requires t.Valid() && c < |t.nodes| && d < |t.nodes| && a < |t.nodes| && n == SharedLength(Path(t, c), Path(t, d))
    ensures n > 0 ==> Path(t, c)[..n] == Path(t, Path(t, c)[n - 1])
    ensures Ancestor(t, a, c) && Ancestor(t, a, d) <==> n > 0 && Ancestor(t, a, Path(t, c)[n - 1])
  {
    var p := Path(t, c);
    AncestorIsPathPrefix(t, a, c);
    AncestorIsPathPrefix(t, a, d);
    if n > 0 {
      PathPrefix(t, c, n);
      AncestorIsPathPrefix(t, a, p[n - 1]);
    }
  }

  /** Some reachable node has this active tip. */
  ghost predicate IsActiveTip(nodeData: seq<NodeStatus>, h: BlockHash) {
    exists n, k :: n in nodeData && n.reachable && 0 <= k < |n.tips| && n.tips[k].active && n.tips[k].hash == h
  }

  /** `tips` are the nodes of all these tips, in some order. */
  ghost predicate AreActiveTips(t: TreeInfo, nodeData: seq<NodeStatus>, tips: seq<nat>) {
    && InGraph(t, tips)
    && (forall h :: IsActiveTip(nodeData, h) ==> exists k :: 0 <= k < |tips| && t.nodes[tips[k]].Hash() == h)
    && (forall k :: 0 <= k < |tips| ==> IsActiveTip(nodeData, t.nodes[tips[k]].Hash()))
  }

  /** `tips` are the nodes of `hashes`, in some order. */
  ghost predicate AreNodesOf(t: TreeInfo, tips: seq<nat>, hashes: set<BlockHash>) {
    InGraph(t, tips) && hashes == set k | 0 <= k < |tips| :: t.nodes[tips[k]].Hash()
  }

  lemma OneMoreNode(t: TreeInfo, tips: seq<nat>, hashes: set<BlockHash>, h: BlockHash)
    requires t.Valid() && AreNodesOf(t, tips, hashes) && h in t.index
    ensures AreNodesOf(t, tips + [t.index[h]], hashes + {h})
  {
    var tips' := tips + [t.index[h]];
    forall x | x in hashes
      ensures exists k :: 0 <= k < |tips'| && t.nodes[tips'[k]].Hash() == x
    {
      var k :| 0 <= k < |tips| && t.nodes[tips[k]].Hash() == x;
      assert tips'[k] == tips[k];
    }
    assert t.nodes[tips'[|tips|]].Hash() == h;
  }

  /** The nodes of the active tips. */
  method ActiveTipIndices(t: TreeInfo, nodeData: seq<NodeStatus>) returns (r: Result<seq<nat>, Reason>)
    requires t.Valid()
    ensures r == Failure(NoReachableActiveTip) <==> forall h :: !IsActiveTip(nodeData, h)
    ensures r == Failure(TipNotInTree) <==> exists h :: IsActiveTip(nodeData, h) && h !in t.Hashes()
    ensures r.Failure? ==> r.error == NoReachableActiveTip || r.error == TipNotInTree
    ensures r.Success? ==> r.value != [] && AreActiveTips(t, nodeData, r.value)
  {
    var hashes := set n, k | n in nodeData && n.reachable && 0 <= k < |n.tips| && n.tips[k].active :: n.tips[k].hash;
    assert forall h :: h in hashes <==> IsActiveTip(nodeData, h);
    hide IsActiveTip, TreeInfo.Valid;
    if hashes == {} {
      return Failure(NoReachableActiveTip);
    }
    var indices: seq<nat>, left := [], hashes;
    while left != {}
      invariant left <= hashes && hashes - left <= t.Hashes()
      invariant AreNodesOf(t, indices, hashes - left)
    {
      var h :| h in left;
      if h !in t.index {
        return Failure(TipNotInTree);
      }
      OneMoreNode(t, indices, hashes - left, h);
      assert hashes - (left - {h}) == hashes - left + {h};
      left, indices := left - {h}, indices + [t.index[h]];
    }
    assert hashes - left == hashes;
    NodesAreTips(t, nodeData, indices, hashes);
    r := Success(indices);
  }

  lemma NodesAreTips(t: TreeInfo, nodeData: seq<NodeStatus>, tips: seq<nat>, hashes: set<BlockHash>)
    requires t.Valid() && hashes != {} && AreNodesOf(t, tips, hashes)
    requires forall h :: h in hashes <==> IsActiveTip(nodeData, h)
    ensures tips != [] && AreActiveTips(t, nodeData, tips) && hashes <= t.Hashes()
  {
    hide IsActiveTip;
    forall k | 0 <= k < |tips|
      ensures t.nodes[tips[k]].Hash() in hashes
    {}
    forall h | h in hashes
      ensures h in t.Hashes()
    {
      var k :| 0 <= k < |tips| && t.nodes[tips[k]].Hash() == h;
    }
  }

  /** The lowest common ancestor of the active tips of all reachable nodes. It fails exactly when there is
      no such tip, when one of them is not in the tree, or when they have no common ancestor. */
  method ResolvedTipIndex(t: TreeInfo, nodeData: seq<NodeStatus>) returns (r: Result<nat, Reason>, ghost tips: seq<nat>)
    requires t.Valid()
    ensures r == Failure(NoReachableActiveTip) <==> forall h :: !IsActiveTip(nodeData, h)
    ensures r == Failure(TipNotInTree) <==> exists h :: IsActiveTip(nodeData, h) && h !in t.Hashes()
    ensures r != Failure(NoReachableActiveTip) && r != Failure(TipNotInTree) ==>
              && AreActiveTips(t, nodeData, tips)
              && if exists x: nat :: x < |t.nodes| && CommonAncestor(t, tips, x)
                 then r.Success? && IsResolved(t, tips, r.value)
                 else r == Failure(InsufficientHistory)
    ensures r.Success? ==> r.value < |t.nodes| && forall h :: IsActiveTip(nodeData, h) ==>
              h in t.index && Ancestor(t, r.value, t.index[h])
  {
    hide IsActiveTip, CommonAncestor, Ancestor;
    tips := [];
    var indices := ActiveTipIndices(t, nodeData);
    if indices.Failure? {
      return Failure(indices.error), [];
    }
    r := FoldPaths(t, indices.value);
    tips := indices.value;
    if r.Success? {
      BelowResolved(t, nodeData, tips, r.value);
    }
  }

  lemma BelowResolved(t: TreeInfo, nodeData: seq<NodeStatus>, tips: seq<nat>, x: nat)
    requires t.Valid() && AreActiveTips(t, nodeData, tips) && IsResolved(t, tips, x)
    ensures x < |t.nodes|
    ensures forall h :: IsActiveTip(nodeData, h) ==> h in t.index && Ancestor(t, x, t.index[h])
  {
    hide IsActiveTip, Ancestor;
    forall h | IsActiveTip(nodeData, h)
      ensures h in t.index && Ancestor(t, x, t.index[h])
    {
      var k :| 0 <= k < |tips| && t.nodes[tips[k]].Hash() == h;
      assert tips[k] in tips && t.index[h] == tips[k];
    }
  }

  /** The ancestors of `c` are exactly the common ancestors of `tips`. */
  ghost predicate LeadsTo(t: TreeInfo, tips: seq<nat>, c: nat)
    requires t.Valid() && InGraph(t, tips)
  {
    && c < |t.nodes|
    && forall a: nat {:trigger Ancestor(t, a, c)} ::
         a < |t.nodes| ==> (Ancestor(t, a, c) <==> CommonAncestor(t, tips, a))
  }

  lemma SharedPath(t: TreeInfo, c: nat, d: nat, n: nat)
    requires t.Valid() && c < |t.nodes| && d < |t.nodes| && n == SharedLength(Path(t, c), Path(t, d)) && n > 0
    ensures Path(t, c)[n - 1] < |t.nodes| && Path(t, c)[..n] == Path(t, Path(t, c)[n - 1])
  {
    TruncatedPath(t, c, d, n, c);
  }

  lemma CommonSnoc(t: TreeInfo, tips: seq<nat>, d: nat, a: nat)
    requires t.Valid() && InGraph(t, tips) && d < |t.nodes|
    ensures CommonAncestor(t, tips + [d], a) <==> CommonAncestor(t, tips, a) && Ancestor(t, a, d)
  {
    hide Ancestor, TreeInfo.Valid;
  }

  lemma FoldStep(t: TreeInfo, tips: seq<nat>, c: nat, d: nat, n: nat)
    requires t.Valid() && InGraph(t, tips) && LeadsTo(t, tips, c) && d < |t.nodes|
    requires n == SharedLength(Path(t, c), Path(t, d))
    ensures n > 0 ==> Path(t, c)[..n] == Path(t, Path(t, c)[n - 1]) && LeadsTo(t, tips + [d], Path(t, c)[n - 1])
    ensures n == 0 ==> forall a: nat :: a < |t.nodes| ==> !CommonAncestor(t, tips + [d], a)
  {
    hide Path, Ancestor, CommonAncestor, TreeInfo.Valid;
    if n > 0 {
      SharedPath(t, c, d, n);
    }
    forall a: nat | a < |t.nodes|
      ensures CommonAncestor(t, tips + [d], a) <==> n > 0 && Ancestor(t, a, Path(t, c)[n - 1])
    {
      TruncatedPath(t, c, d, n, a);
      CommonSnoc(t, tips, d, a);
      assert Ancestor(t, a, c) <==> CommonAncestor(t, tips, a);
    }
  }

  method FoldPaths(t: TreeInfo, indices: seq<nat>) returns (r: Result<nat, Reason>)
    requires t.Valid() && indices != [] && InGraph(t, indices)
    ensures r.Success? ==> IsResolved(t, indices, r.value)
    ensures r.Failure? ==>
              r.error == InsufficientHistory && forall x: nat :: x < |t.nodes| ==> !CommonAncestor(t, indices, x)
  {
    var commonPath := PathToRoot(t, indices[0]);
    ghost var c: nat := indices[0];
    assert LeadsTo(t, indices[..1], c);
    hide Path, Ancestor;
    for k := 1 to |indices|
      invariant c < |t.nodes| && commonPath == Path(t, c) && LeadsTo(t, indices[..k], c)
    {
      var path := PathToRoot(t, indices[k]);
      var sharedLen := SharedLength(commonPath, path);
      assert indices[..k + 1] == indices[..k] + [indices[k]];
      FoldStep(t, indices[..k], c, indices[k], sharedLen);
      commonPath := commonPath[..sharedLen];
      if commonPath == [] {
        NoCommonAncestor(t, indices, k + 1);
        return Failure(InsufficientHistory);
      }
      c := commonPath[sharedLen - 1];
    }
    assert indices[..|indices|] == indices;
    ResolvedByLeadsTo(t, indices, c);
    r := Success(commonPath[|commonPath| - 1]);
  }

  lemma ResolvedByLeadsTo(t: TreeInfo, tips: seq<nat>, c: nat)
    requires t.Valid() && InGraph(t, tips) && LeadsTo(t, tips, c)
    ensures IsResolved(t, tips, c) && Path(t, c)[|Path(t, c)| - 1] == c
  {
    assert Ancestor(t, c, c);
  }

  lemma NoCommonAncestor(t: TreeInfo, tips: seq<nat>, k: nat)
    requires t.Valid() && InGraph(t, tips) && k <= |tips|
    requires forall a: nat :: a < |t.nodes| ==> !CommonAncestor(t, tips[..k], a)
    ensures forall a: nat :: a < |t.nodes| ==> !CommonAncestor(t, tips, a)
  {
    assert forall d :: d in tips[..k] ==> d in tips;
    forall a: nat | a < |t.nodes|
      ensures !CommonAncestor(t, tips, a)
    {
      assert !CommonAncestor(t, tips[..k], a);
    }
  }

  // ----- Windows

  /** A child is one above its parent. */
  ghost predicate HeightsLinked(t: TreeInfo) {
    forall p: nat, c: nat :: t.Link(p, c) ==> t.nodes[c].height == t.nodes[p].height + 1
  }

  /** It is so in every tree the poll loop keeps. */
  lemma TrackedIsLinked(t: TreeInfo, first: nat)
    requires t.AllTracked(first)
    ensures HeightsLinked(t)
  {
    forall p: nat, c: nat | t.Link(p, c)
      ensures t.nodes[c].height == t.nodes[p].height + 1
    {
      assert Tracked(t.nodes[p], first) && Tracked(t.nodes[c], first);
    }
  }

  /** `remaining` steps towards the root, each exactly one height down. */
  ghost function WalkBack(t: TreeInfo, current: nat, remaining: nat): (r: Option<nat>)
    requires t.Valid() && current < |t.nodes|
    ensures r.Some? ==> r.value < |t.nodes|
    decreases remaining
  {
    if remaining == 0 then
      Some(current)
    else
      var p := Parent(t, current);
      if p.None? || t.nodes[p.value].height + 1 != t.nodes[current].height then None
      else WalkBack(t, p.value, remaining - 1)
  }

  function SaturatingSub(a: nat, b: nat): nat {
    if a <= b then 0 else a - b
  }

  method WalkBackWindowStart(t: TreeInfo, resolvedTip: nat, windowSize: nat) returns (r: Option<nat>)
    requires t.Valid() && resolvedTip < |t.nodes|
    ensures r == WalkBack(t, resolvedTip, SaturatingSub(windowSize, 1))
  {
    var current: nat := resolvedTip;
    var remaining := SaturatingSub(windowSize, 1);
    while remaining > 0
      invariant current < |t.nodes|
      invariant WalkBack(t, current, remaining) == WalkBack(t, resolvedTip, SaturatingSub(windowSize, 1))
      decreases remaining
    {
      var parent := ParentIndex(t, current);
      if parent.None? || t.nodes[parent.value].height + 1 != t.nodes[current].height {
        return None;
      }
      current := parent.value;
      remaining := remaining - 1;
    }
    r := Some(current);
  }

  function InRange(t: TreeInfo, low: nat, high: nat): set<nat> {
    set i | 0 <= i < |t.nodes| && low <= t.nodes[i].height <= high
  }

  function CountHeadersInHeightRange(t: TreeInfo, low: nat, high: nat): nat {
    |InRange(t, low, high)|
  }

  /** A root above the start of the window and not above its end. */
  predicate HasHistoryGap(t: TreeInfo, low: nat, high: nat) {
    exists i | 0 <= i < |t.nodes| :: IsRoot(t, i) && low < t.nodes[i].height <= high
  }

  datatype Window = Available(stale: nat, active: nat) | Unavailable(reason: Reason)

  function BuildWindow(t: TreeInfo, start: nat, end: nat, activeBlocks: nat): Window
    requires start < |t.nodes| && end < |t.nodes|
  {
    var low, high := t.nodes[start].height, t.nodes[end].height;
    if HasHistoryGap(t, low, high) then
      Unavailable(IncompleteObservedHistory)
    else
      Available(SaturatingSub(CountHeadersInHeightRange(t, low, high), activeBlocks), activeBlocks)
  }

  ghost function RollingWindow(t: TreeInfo, tip: nat, blocks: nat): Window
    requires t.Valid() && tip < |t.nodes|
  {
    var start := WalkBack(t, tip, SaturatingSub(blocks, 1));
    if start.None? then Unavailable(InsufficientHistory) else BuildWindow(t, start.value, tip, blocks)
  }

  ghost function AllTimeWindow(t: TreeInfo, tip: nat): Window
    requires t.Valid() && tip < |t.nodes|
  {
    BuildWindow(t, Path(t, tip)[0], tip, |Path(t, tip)|)
  }

  method CalculateRollingWindow(t: TreeInfo, tip: nat, blocks: nat) returns (w: Window)
    requires t.Valid() && tip < |t.nodes|
    ensures w == RollingWindow(t, tip, blocks)
  {
    var start := WalkBackWindowStart(t, tip, blocks);
    if start.None? {
      return Unavailable(InsufficientHistory);
    }
    w := BuildWindow(t, start.value, tip, blocks);
  }

  method CalculateAllTimeWindow(t: TreeInfo, tip: nat) returns (w: Window)
    requires t.Valid() && tip < |t.nodes|
    ensures w == AllTimeWindow(t, tip)
  {
    var resolvedPath := PathToRoot(t, tip);
    w := BuildWindow(t, resolvedPath[0], tip, |resolvedPath|);
  }

  // ----- What the windows count

  /** The blocks of the height range that are not on the path to `tip`. */
  ghost function StaleBlocks(t: TreeInfo, tip: nat, low: nat): set<nat>
    requires t.Valid() && tip < |t.nodes|
  {
    set i | 0 <= i < |t.nodes| && low <= t.nodes[i].height <= t.nodes[tip].height && !Ancestor(t, i, tip)
  }

  lemma {:induction false} PathHeights(t: TreeInfo, tip: nat, k: nat)
    requires t.Valid() && HeightsLinked(t) && tip < |t.nodes| && k < |Path(t, tip)|
    ensures t.nodes[Path(t, tip)[k]].height + (|Path(t, tip)| - 1 - k) == t.nodes[tip].height
    decreases t.nodes[tip].header
  {
    if k < |Path(t, tip)| - 1 {
      var p := Parent(t, tip).value;
      assert t.Link(p, tip);
      PathHeights(t, p, k);
    }
  }

  /** With linked heights the walk reaches the node `remaining` steps up the path, if there is one. */
  lemma {:induction false} WalkBackIsPath(t: TreeInfo, tip: nat, remaining: nat)
    requires t.Valid() && HeightsLinked(t) && tip < |t.nodes|
    ensures WalkBack(t, tip, remaining)
            == if remaining < |Path(t, tip)| then Some(Path(t, tip)[|Path(t, tip)| - 1 - remaining]) else None
    decreases remaining
  {
    if remaining > 0 && Parent(t, tip).Some? {
      var p := Parent(t, tip).value;
      assert t.Link(p, tip);
      WalkBackIsPath(t, p, remaining - 1);
      assert Path(t, tip) == Path(t, p) + [tip];
      assert WalkBack(t, tip, remaining) == WalkBack(t, p, remaining - 1);
      hide *;
    }
  }

  /** The path lists the ancestors of the tip, each once, at consecutive heights. */
  lemma PathFacts(t: TreeInfo, tip: nat)
    requires t.Valid() && HeightsLinked(t) && tip < |t.nodes|
    ensures Distinct(Path(t, tip)) && InGraph(t, Path(t, tip))
    ensures forall k :: 0 <= k < |Path(t, tip)| ==>
            t.nodes[Path(t, tip)[k]].height + (|Path(t, tip)| - 1 - k) == t.nodes[tip].height
    ensures forall i: nat :: i < |t.nodes| ==> (Ancestor(t, i, tip) <==> i in Path(t, tip))
  {
    forall k | 0 <= k < |Path(t, tip)|
      ensures t.nodes[Path(t, tip)[k]].height + (|Path(t, tip)| - 1 - k) == t.nodes[tip].height
    {
      PathHeights(t, tip, k);
    }
    forall i: nat | i < |t.nodes|
      ensures Ancestor(t, i, tip) <==> i in Path(t, tip)
    {
      AncestorIsPathPrefix(t, i, tip);
    }
    hide *;
  }

  /** A rolling window with linked heights, spelled out. */
  lemma RollingWindowIs(t: TreeInfo, tip: nat, n: nat)
    requires t.Valid() && HeightsLinked(t) && tip < |t.nodes| && 0 < n
    ensures RollingWindow(t, tip, n)
            == if |Path(t, tip)| < n then Unavailable(InsufficientHistory)
               else var high := t.nodes[tip].height;
                    assert n <= high + 1 by { PathHeights(t, tip, |Path(t, tip)| - n); }
                    if HasHistoryGap(t, high + 1 - n, high) then Unavailable(IncompleteObservedHistory)
                    else Available(SaturatingSub(CountHeadersInHeightRange(t, high + 1 - n, high), n), n)
  {
    hide Path, Ancestor, WalkBack, HeightsLinked, HasHistoryGap, CountHeadersInHeightRange;
    WalkBackIsPath(t, tip, n - 1);
    if n <= |Path(t, tip)| {
      PathHeights(t, tip, |Path(t, tip)| - n);
    }
  }

  /** The part of the path inside a window of `n` blocks has exactly `n` nodes, those at or above its start. */
  lemma PathInWindow(t: TreeInfo, tip: nat, n: nat)
    requires t.Valid() && HeightsLinked(t) && tip < |t.nodes| && 0 < n <= |Path(t, tip)|
    ensures n <= t.nodes[tip].height + 1
    ensures var high := t.nodes[tip].height;
            |InRange(t, high + 1 - n, high) - StaleBlocks(t, tip, high + 1 - n)| == n
  {
    hide *;
    var m := |Path(t, tip)| - n;
    PathHeights(t, tip, m);
    var tail := PathTail(t, tip, m);
    DistinctCardinality(tail);
    forall i: nat | i < |t.nodes|
      ensures i in tail <==>
              Ancestor(t, i, tip) && t.nodes[tip].height + 1 - n <= t.nodes[i].height <= t.nodes[tip].height
    {
      TailIsWindow(t, tip, m, i);
    }
    OnPathInRange(t, tip, t.nodes[tip].height + 1 - n, tail);
  }

  lemma PathTail(t: TreeInfo, tip: nat, m: nat) returns (tail: seq<nat>)
    requires t.Valid() && HeightsLinked(t) && tip < |t.nodes| && m < |Path(t, tip)|
    ensures tail == Path(t, tip)[m..] && |tail| == |Path(t, tip)| - m && Distinct(tail) && InGraph(t, tail)
    ensures Path(t, tip)[m] < |t.nodes|
  {
    hide Path;
    PathFacts(t, tip);
    tail := Path(t, tip)[m..];
  }

  lemma OnPathInRange(t: TreeInfo, tip: nat, low: nat, part: seq<nat>)
    requires t.Valid() && tip < |t.nodes| && InGraph(t, part)
    requires forall i: nat :: i < |t.nodes| ==>
            (i in part <==> Ancestor(t, i, tip) && low <= t.nodes[i].height <= t.nodes[tip].height)
    ensures InRange(t, low, t.nodes[tip].height) - StaleBlocks(t, tip, low) == ToSet(part)
  {
    hide TreeInfo.Valid, Ancestor;
    forall i | i in ToSet(part)
      ensures i < |t.nodes|
    {
      var k :| 0 <= k < |part| && part[k] == i;
    }
  }

  lemma TailIsWindow(t: TreeInfo, tip: nat, m: nat, i: nat)
    requires t.Valid() && HeightsLinked(t) && tip < |t.nodes| && m < |Path(t, tip)| && i < |t.nodes|
    ensures var path, high := Path(t, tip), t.nodes[tip].height;
            i in path[m..] <==>
            Ancestor(t, i, tip) && high + 1 + m <= t.nodes[i].height + |path| && t.nodes[i].height <= high
  {
    hide Path, Ancestor, HeightsLinked, TreeInfo.Valid;
    PathFacts(t, tip);
    var path := Path(t, tip);
    if i in path {
      var k :| 0 <= k < |path| && path[k] == i;
      OnlyInTail(path, m, k);
    }
  }

  lemma OnlyInTail(path: seq<nat>, m: nat, k: nat)
    requires Distinct(path) && m <= |path| && k < |path|
    ensures path[k] in path[m..] <==> m <= k
  {
    if m <= k {
      assert path[m..][k - m] == path[k];
    }
  }

  /** The stale count is exact: an available window of `n` blocks counts the blocks of its height range
      that are not ancestors of the resolved tip, and the subtraction never saturates. */
  lemma StaleCountExact(t: TreeInfo, tip: nat, n: nat)
    requires t.Valid() && HeightsLinked(t) && tip < |t.nodes| && 0 < n
    ensures RollingWindow(t, tip, n).Available? ==>
              && n <= |Path(t, tip)| && n <= t.nodes[tip].height + 1
              && RollingWindow(t, tip, n) == Available(|StaleBlocks(t, tip, t.nodes[tip].height + 1 - n)|, n)
              && n <= CountHeadersInHeightRange(t, t.nodes[tip].height + 1 - n, t.nodes[tip].height)
  {
    RollingWindowIs(t, tip, n);
    hide Path, Ancestor, WalkBack, RollingWindow, HasHistoryGap, InRange, StaleBlocks;
    if RollingWindow(t, tip, n).Available? {
      PathInWindow(t, tip, n);
      StaleInRange(t, tip, t.nodes[tip].height + 1 - n);
      var low, high := t.nodes[tip].height + 1 - n, t.nodes[tip].height;
      var all, stale := InRange(t, low, high), StaleBlocks(t, tip, low);
      assert all == (all - stale) + stale;
    }
  }

  /** Every block from height `low` up to the tip's has an ancestor-or-self at height `low`. */
  ghost predicate Observed(t: TreeInfo, tip: nat, low: nat)
    requires t.Valid() && tip < |t.nodes|
  {
    forall i: nat ::
      (i < |t.nodes| && low <= t.nodes[i].height <= t.nodes[tip].height) ==> ReachesDownTo(t, i, low)
  }

  /** A rolling window in terms of the tree alone: long enough a path, every block of the range observed down to its
      start, and the blocks of the range that are no ancestors of the tip. */
  lemma RollingWindowExact(t: TreeInfo, tip: nat, n: nat)
    requires t.Valid() && HeightsLinked(t) && tip < |t.nodes| && 0 < n
    ensures n <= |Path(t, tip)| ==> n <= t.nodes[tip].height + 1
    ensures RollingWindow(t, tip, n)
            == if |Path(t, tip)| < n then Unavailable(InsufficientHistory)
               else if Observed(t, tip, t.nodes[tip].height + 1 - n)
               then Available(|StaleBlocks(t, tip, t.nodes[tip].height + 1 - n)|, n)
               else Unavailable(IncompleteObservedHistory)
  {
    hide Path, Ancestor, WalkBack, RollingWindow, HasHistoryGap, StaleBlocks, ReachesDownTo, HeightsLinked,
      TreeInfo.Valid, CountHeadersInHeightRange, SaturatingSub;
    RollingWindowIs(t, tip, n);
    StaleCountExact(t, tip, n);
    if n <= |Path(t, tip)| {
      PathInWindow(t, tip, n);
      GapFreeIffObserved(t, t.nodes[tip].height + 1 - n, t.nodes[tip].height);
    }
  }

  lemma StaleInRange(t: TreeInfo, tip: nat, low: nat)
    requires t.Valid() && tip < |t.nodes|
    ensures StaleBlocks(t, tip, low) <= InRange(t, low, t.nodes[tip].height)
  {}

  /** The all-time window is the rolling window that is as long as the path. */
  lemma AllTimeIsRolling(t: TreeInfo, tip: nat)
    requires t.Valid() && HeightsLinked(t) && tip < |t.nodes|
    ensures AllTimeWindow(t, tip) == RollingWindow(t, tip, |Path(t, tip)|)
  {
    WalkBackIsPath(t, tip, |Path(t, tip)| - 1);
  }

  /** Smaller windows are available whenever larger ones are, and count no more stale blocks. */
  lemma WindowsAreMonotone(t: TreeInfo, tip: nat, small: nat, large: nat)
    requires t.Valid() && HeightsLinked(t) && tip < |t.nodes| && 0 < small <= large
    requires RollingWindow(t, tip, large).Available?
    ensures RollingWindow(t, tip, small).Available?
    ensures RollingWindow(t, tip, small).stale <= RollingWindow(t, tip, large).stale
  {
    hide Path, Ancestor, WalkBack, HeightsLinked, RollingWindow, IsRoot, TreeInfo.Valid;
    StaleCountExact(t, tip, large);
    var high := t.nodes[tip].height;
    var low, low' := high + 1 - large, high + 1 - small;
    assert HasHistoryGap(t, low', high) ==> HasHistoryGap(t, low, high);
    assert StaleBlocks(t, tip, low') <= StaleBlocks(t, tip, low);
    RollingWindowIs(t, tip, small);
    RollingWindowIs(t, tip, large);
    StaleCountExact(t, tip, small);
    SubsetCardinality(StaleBlocks(t, tip, low'), StaleBlocks(t, tip, low));
  }

  lemma SubsetCardinality(a: set<nat>, b: set<nat>)
    requires a <= b
    ensures |a| <= |b|
  {
    assert b == a + (b - a);
  }

  /** The ancestor-or-self of `i` at height `low`, by walking up. */
  ghost predicate ReachesDownTo(t: TreeInfo, i: nat, low: nat)
    requires t.Valid() && i < |t.nodes|
  {
    exists a: nat :: a < |t.nodes| && Ancestor(t, a, i) && t.nodes[a].height == low
  }

  /** The gap test is exact: a height range has no root above its start iff every block in it has an
      ancestor-or-self at exactly the start height. */
  lemma GapFreeIffObserved(t: TreeInfo, low: nat, high: nat)
    requires t.Valid() && HeightsLinked(t)
    ensures !HasHistoryGap(t, low, high) <==> forall i :: i in InRange(t, low, high) ==> ReachesDownTo(t, i, low)
  {
    if HasHistoryGap(t, low, high) {
      var i :| 0 <= i < |t.nodes| && IsRoot(t, i) && low < t.nodes[i].height <= high;
      RootLacksParent(t, i);
      assert i in InRange(t, low, high) && !ReachesDownTo(t, i, low);
    } else {
      forall i | i in InRange(t, low, high)
        ensures ReachesDownTo(t, i, low)
      {
        GapFreeReaches(t, i, low, high);
      }
    }
  }

  lemma {:induction false} GapFreeReaches(t: TreeInfo, i: nat, low: nat, high: nat)
    requires t.Valid() && HeightsLinked(t) && !HasHistoryGap(t, low, high) && i in InRange(t, low, high)
    ensures ReachesDownTo(t, i, low)
    decreases t.nodes[i].header
  {
    if t.nodes[i].height == low {
      assert Ancestor(t, i, i);
    } else {
      RootLacksParent(t, i);
      var p := Parent(t, i).value;
      assert t.Link(p, i);
      GapFreeReaches(t, p, low, high);
      var a: nat :| a < |t.nodes| && Ancestor(t, a, p) && t.nodes[a].height == low;
      assert Ancestor(t, a, i);
    }
  }

  // ----- All windows of a network

  datatype Range = Rolling(blocks: nat) | AllTime

  /** There is a reachable node that reports stale tips and has an active one. */
  ghost predicate HasObserver(nodeData: seq<NodeStatus>) {
    exists n, k :: n in nodeData && n.reachable && n.supportsStaleTips && 0 <= k < |n.tips| && n.tips[k].active
  }

  method HasReachableStaleTipObserver(nodeData: seq<NodeStatus>) returns (b: bool)
    ensures b <==> HasObserver(nodeData)
  {
    b := exists n | n in nodeData ::
      n.reachable && n.supportsStaleTips && exists k | 0 <= k < |n.tips| :: n.tips[k].active;
  }

  ghost function WindowOf(t: TreeInfo, tip: nat, range: Range): Window
    requires t.Valid() && tip < |t.nodes|
  {
    match range
    case Rolling(blocks) => RollingWindow(t, tip, blocks)
    case AllTime => AllTimeWindow(t, tip)
  }

  /** Why no window of a network is available, if so; no two reasons hold at once. */
  ghost predicate NotCalculated(t: TreeInfo, nodeData: seq<NodeStatus>, tips: seq<nat>, reason: Reason)
    requires t.Valid()
  {
    match reason
    case NoReachableActiveTip => forall h :: !IsActiveTip(nodeData, h)
    case TipNotInTree => exists h :: IsActiveTip(nodeData, h) && h !in t.Hashes()
    case InsufficientHistory =>
      && (exists h :: IsActiveTip(nodeData, h)) && AreActiveTips(t, nodeData, tips)
      && forall x: nat :: x < |t.nodes| ==> !CommonAncestor(t, tips, x)
    case NoReachableStaleTipSupport =>
      && (exists h :: IsActiveTip(nodeData, h)) && AreActiveTips(t, nodeData, tips) && !HasObserver(nodeData)
      && exists x: nat :: x < |t.nodes| && CommonAncestor(t, tips, x)
    case IncompleteObservedHistory => false
  }

  /** One window per range, all at the resolved tip; or one common reason why there is none. */
  method CalculateNetworkMetrics(t: TreeInfo, nodeData: seq<NodeStatus>, ranges: seq<Range>)
    returns (asOfHeight: Option<nat>, windows: seq<Window>, ghost tips: seq<nat>, ghost tip: nat)
    requires t.Valid()
    ensures |windows| == |ranges|
    ensures asOfHeight.Some? ==>
              && AreActiveTips(t, nodeData, tips) && IsResolved(t, tips, tip) && HasObserver(nodeData)
              && (forall h :: IsActiveTip(nodeData, h) ==> h in t.index && Ancestor(t, tip, t.index[h]))
              && asOfHeight.value == t.nodes[tip].height
              && forall i :: 0 <= i < |ranges| ==> windows[i] == WindowOf(t, tip, ranges[i])
    ensures asOfHeight.None? ==>
              exists reason :: NotCalculated(t, nodeData, tips, reason)
                && forall i :: 0 <= i < |ranges| ==> windows[i] == Unavailable(reason)
  {
    hide *;
    tip := 0;
    windows := [];
    var resolved;
    resolved, tips := ResolvedTipIndex(t, nodeData);
    ResolvedOutcome(t, nodeData, tips, resolved);
    var reason := NoReachableStaleTipSupport;
    if resolved.Failure? {
      reason := resolved.error;
    }
    var observed := HasReachableStaleTipObserver(nodeData);
    if resolved.Failure? || !observed {
      asOfHeight := None;
      if resolved.Success? {
        NoObserver(t, nodeData, tips, resolved.value);
      }
      windows := seq(|ranges|, _ => Unavailable(reason));
      assert NotCalculated(t, nodeData, tips, reason);
      return;
    }
    tip := resolved.value;
    asOfHeight := Some(t.nodes[resolved.value].height);
    for i := 0 to |ranges|
      invariant |windows| == i && forall j :: 0 <= j < i ==> windows[j] == WindowOf(t, tip, ranges[j])
    {
      var w := CalculateWindow(t, resolved.value, ranges[i]);
      windows := windows + [w];
    }
  }

  method CalculateWindow(t: TreeInfo, tip: nat, range: Range) returns (w: Window)
    requires t.Valid() && tip < |t.nodes|
    ensures w == WindowOf(t, tip, range)
  {
    match range
    case Rolling(blocks) => w := CalculateRollingWindow(t, tip, blocks);
    case AllTime => w := CalculateAllTimeWindow(t, tip);
  }

  lemma NoObserver(t: TreeInfo, nodeData: seq<NodeStatus>, tips: seq<nat>, x: nat)
    requires t.Valid() && AreActiveTips(t, nodeData, tips) && IsResolved(t, tips, x) && !HasObserver(nodeData)
    requires exists h :: IsActiveTip(nodeData, h)
    ensures NotCalculated(t, nodeData, tips, NoReachableStaleTipSupport)
  {
    hide TreeInfo.Valid, HasObserver, IsActiveTip, AreActiveTips, CommonAncestor;
  }

  /** What the resolution of the tips can have ended in. */
  lemma ResolvedOutcome(t: TreeInfo, nodeData: seq<NodeStatus>, tips: seq<nat>, r: Result<nat, Reason>)
    requires t.Valid()
    requires r == Failure(NoReachableActiveTip) <==> forall h :: !IsActiveTip(nodeData, h)
    requires r == Failure(TipNotInTree) <==> exists h :: IsActiveTip(nodeData, h) && h !in t.Hashes()
    requires r != Failure(NoReachableActiveTip) && r != Failure(TipNotInTree) ==>
               && AreActiveTips(t, nodeData, tips)
               && if exists x: nat :: x < |t.nodes| && CommonAncestor(t, tips, x)
                  then r.Success? && IsResolved(t, tips, r.value)
                  else r == Failure(InsufficientHistory)
    ensures r.Failure? ==> NotCalculated(t, nodeData, tips, r.error)
    ensures r.Success? ==>
            AreActiveTips(t, nodeData, tips) && IsResolved(t, tips, r.value) && r.value < |t.nodes|
    ensures r.Success? ==> exists h :: IsActiveTip(nodeData, h)
  {
    hide TreeInfo.Valid, IsActiveTip, AreActiveTips, CommonAncestor;
  }

  /** No two reasons hold at once. */
  lemma OneReason(t: TreeInfo, nodeData: seq<NodeStatus>, tips: seq<nat>, x: Reason, y: Reason)
    requires t.Valid() && NotCalculated(t, nodeData, tips, x) && NotCalculated(t, nodeData, tips, y)
    ensures x == y
  {
    hide TreeInfo.Valid, IsActiveTip, CommonAncestor, HasObserver;
    TipsAreInTree(t, nodeData, tips);
  }

  lemma TipsAreInTree(t: TreeInfo, nodeData: seq<NodeStatus>, tips: seq<nat>)
    requires t.Valid()
    ensures AreActiveTips(t, nodeData, tips) ==> forall h :: IsActiveTip(nodeData, h) ==> h in t.Hashes()
  {
    hide IsActiveTip;
  }
}
