/** The blocks of the graph view, their parents and children, and how a forest numbers its leaves. */
module BlockForest {
  import opened Wrappers
  import opened Sorting

  /** `prev` is `None` for a block without a parent; `hash` is the rank of its hash in text order;
      `hasTips` and `mineable` tell what node tips say about it. */
  datatype Block = Block(id: nat, prev: Option<nat>, height: nat, hash: nat, hasTips: bool, mineable: bool)

  type BlockMap = map<nat, Block>
  type ChildrenMap = map<nat, seq<nat>>

  /** By height, then hash, then id. */
  predicate CompareBlocks(a: Block, b: Block) {
    if a.height != b.height then a.height < b.height
    else if a.hash != b.hash then a.hash < b.hash
    else a.id <= b.id
  }

  /** The order of the blocks, spelled out: lower blocks first, then by hash, then by id. */
  ghost predicate NotAfter(a: Block, b: Block) {
    || a.height < b.height
    || (a.height == b.height && (a.hash < b.hash || (a.hash == b.hash && a.id <= b.id)))
  }

  /** Ids of blocks, in that order. */
  ghost predicate InOrder(m: BlockMap, ids: seq<nat>) {
    && (forall i :: 0 <= i < |ids| ==> ids[i] in m)
    && forall i, j :: 0 <= i < j < |ids| ==> NotAfter(m[ids[i]], m[ids[j]])
  }

  ghost predicate UniqueIds(blocks: seq<Block>) {
    forall i, j :: 0 <= i < j < |blocks| ==> blocks[i].id != blocks[j].id
  }

  /** The map that `blocks` gives rise to. */
  ghost predicate IsBlockMap(blocks: seq<Block>, m: BlockMap) {
    && (forall i :: 0 <= i < |blocks| ==> blocks[i].id in m && m[blocks[i].id] == blocks[i])
    && (forall id :: id in m ==> m[id] in blocks && m[id].id == id)
  }

  method BuildBlockMap(blocks: seq<Block>) returns (m: BlockMap)
    requires UniqueIds(blocks)
    ensures IsBlockMap(blocks, m)
  {
    m := map[];
    for i := 0 to |blocks|
      invariant forall j :: 0 <= j < i ==> blocks[j].id in m && m[blocks[j].id] == blocks[j]
      invariant forall id :: id in m ==> m[id] in blocks[..i] && m[id].id == id
    {
      m := m[blocks[i].id := blocks[i]];
    }
  }

  /** The parent of a block, if it is one of the blocks. */
  function Parent(m: BlockMap, b: nat): Option<nat>
    requires b in m
  {
    if m[b].prev.Some? && m[b].prev.value in m then m[b].prev else None
  }

  /** The children of a block that are blocks themselves. */
  function Kids(m: BlockMap, children: ChildrenMap, b: nat): seq<nat> {
    if b in children then KnownIds(m, children[b]) else []
  }

  function KnownIds(m: BlockMap, ids: seq<nat>): (r: seq<nat>)
    ensures forall i :: 0 <= i < |r| ==> r[i] in m
    ensures (forall i :: 0 <= i < |ids| ==> ids[i] in m) ==> r == ids
  {
    if ids == [] then [] else (if ids[0] in m then [ids[0]] else []) + KnownIds(m, ids[1..])
  }

  ghost predicate KeysAreIds(m: BlockMap) {
    forall b :: b in m ==> m[b].id == b
  }

  /** `kids` lists the blocks whose parent is `p`, each once, in order. */
  ghost predicate IsFamily(m: BlockMap, p: Option<nat>, kids: seq<nat>) {
    && Distinct(kids)
    && (forall b {:trigger b in kids} {:trigger Parent(m, b)} :: b in kids <==> b in m && Parent(m, b) == p)
    && Ordered(kids, IdOrder(m))
  }

  lemma FamilyInOrder(m: BlockMap, p: Option<nat>, kids: seq<nat>)
    requires IsFamily(m, p, kids)
    ensures InOrder(m, kids)
  {
    hide Parent;
    forall i | 0 <= i < |kids|
      ensures kids[i] in m
    {
      assert kids[i] in kids;
    }
    forall i, j | 0 <= i < j < |kids|
      ensures NotAfter(m[kids[i]], m[kids[j]])
    {
      assert IdOrder(m)(kids[i], kids[j]);
    }
  }

  /** The order of the blocks, as an order of their ids. */
  predicate IdLe(m: BlockMap, a: nat, b: nat) {
    a !in m || (b in m && CompareBlocks(m[a], m[b]))
  }

  function IdOrder(m: BlockMap): (nat, nat) -> bool {
    (a: nat, b: nat) => IdLe(m, a, b)
  }

  /** Sorts ids by their blocks. */
  function SortIds(m: BlockMap, ids: seq<nat>): (r: seq<nat>)
    ensures multiset(r) == multiset(ids) && Ordered(r, IdOrder(m))
  {
    assert forall a: nat, b: nat :: IdOrder(m)(a, b) <==> IdLe(m, a, b);
    Sort(ids, IdOrder(m))
  }

  /** The ids of the first `n` blocks whose `prev` is `p`. */
  ghost function ChildIds(blocks: seq<Block>, n: nat, p: nat): seq<nat>
    requires n <= |blocks|
  {
    if n == 0 then []
    else if blocks[n - 1].prev == Some(p) then ChildIds(blocks, n - 1, p) + [blocks[n - 1].id]
    else ChildIds(blocks, n - 1, p)
  }

  lemma {:induction false} ChildIdsMeaning(blocks: seq<Block>, n: nat, p: nat)
    requires UniqueIds(blocks) && n <= |blocks|
    ensures Distinct(ChildIds(blocks, n, p))
    ensures forall b :: b in ChildIds(blocks, n, p) <==>
              exists j :: 0 <= j < n && blocks[j].id == b && blocks[j].prev == Some(p)
  {
    if n > 0 {
      ChildIdsMeaning(blocks, n - 1, p);
      assert blocks[n - 1].id !in ChildIds(blocks, n - 1, p);
    }
  }

  function GetList(children: ChildrenMap, p: nat): seq<nat> {
    if p in children then children[p] else []
  }

  /** The first loop: append each block to the list of its parent. */
  method GroupByParent(blocks: seq<Block>, m: BlockMap) returns (children: ChildrenMap)
    ensures forall p :: p in m ==> GetList(children, p) == ChildIds(blocks, |blocks|, p)
    ensures children.Keys <= m.Keys
  {
    children := map[];
    for i := 0 to |blocks|
      invariant children.Keys <= m.Keys
      invariant forall p :: p in m ==> GetList(children, p) == ChildIds(blocks, i, p)
    {
      if blocks[i].prev.Some? && blocks[i].prev.value in m {
        var p := blocks[i].prev.value;
        children := children[p := GetList(children, p) + [blocks[i].id]];
      }
    }
  }

  lemma SortedChildIdsAreFamily(m: BlockMap, blocks: seq<Block>, p: nat)
    requires UniqueIds(blocks) && IsBlockMap(blocks, m) && p in m
    ensures IsFamily(m, Some(p), SortIds(m, ChildIds(blocks, |blocks|, p)))
  {
    var ids := ChildIds(blocks, |blocks|, p);
    ChildIdsMeaning(blocks, |blocks|, p);
    PermutationDistinct(ids, SortIds(m, ids));
    forall b
      ensures b in ids <==> b in m && Parent(m, b) == Some(p)
    {
      if b in m && Parent(m, b) == Some(p) {
        var j :| 0 <= j < |blocks| && blocks[j] == m[b];
      }
    }
  }

  /** Groups the blocks by parent and sorts every list. */
  method BuildChildrenMap(blocks: seq<Block>, m: BlockMap) returns (children: ChildrenMap)
    requires UniqueIds(blocks) && IsBlockMap(blocks, m)
    ensures forall p :: p in m ==> IsFamily(m, Some(p), Kids(m, children, p)) && InOrder(m, Kids(m, children, p))
    ensures forall p :: GetList(children, p) == Kids(m, children, p)
  {
    hide *;
    children := GroupByParent(blocks, m);
    ghost var grouped := children;
    var left := children.Keys;
    while left != {}
      invariant left <= children.Keys == grouped.Keys <= m.Keys
      invariant forall p :: p in grouped ==> children[p] == if p in left then grouped[p] else SortIds(m, grouped[p])
    {
      var p :| p in left;
      left := left - {p};
      children := children[p := SortIds(m, children[p])];
    }
    SortedFamilies(m, blocks, children, grouped);
    forall p | p in m
      ensures InOrder(m, Kids(m, children, p))
    {
      FamilyInOrder(m, Some(p), Kids(m, children, p));
    }
  }

  lemma SortedFamilies(m: BlockMap, blocks: seq<Block>, children: ChildrenMap, grouped: ChildrenMap)
    requires UniqueIds(blocks) && IsBlockMap(blocks, m) && children.Keys == grouped.Keys <= m.Keys
    requires forall p :: p in m ==> GetList(grouped, p) == ChildIds(blocks, |blocks|, p)
    requires forall p :: p in grouped ==> children[p] == SortIds(m, grouped[p])
    ensures forall p :: p in m ==> IsFamily(m, Some(p), Kids(m, children, p))
    ensures forall p :: GetList(children, p) == Kids(m, children, p)
  {
    hide *;
    forall p
      ensures p in m ==> IsFamily(m, Some(p), Kids(m, children, p))
      ensures GetList(children, p) == Kids(m, children, p)
    {
      if p in m {
        SortedChildIdsAreFamily(m, blocks, p);
        KidsAreSorted(m, children, grouped, p);
        FamilyIsKnown(m, Some(p), GetList(children, p));
      } else {
        NoList(m, children, p);
      }
    }
  }

  lemma NoList(m: BlockMap, children: ChildrenMap, p: nat)
    requires p !in children
    ensures GetList(children, p) == Kids(m, children, p) == []
  {}

  lemma KidsAreSorted(m: BlockMap, children: ChildrenMap, grouped: ChildrenMap, p: nat)
    requires p in children <==> p in grouped
    requires p in grouped ==> children[p] == SortIds(m, grouped[p])
    ensures GetList(children, p) == SortIds(m, GetList(grouped, p))
    ensures Kids(m, children, p) == KnownIds(m, GetList(children, p))
  {}

  lemma FamilyIsKnown(m: BlockMap, p: Option<nat>, kids: seq<nat>)
    requires IsFamily(m, p, kids)
    ensures KnownIds(m, kids) == kids
  {
    assert forall i :: 0 <= i < |kids| ==> kids[i] in kids;
  }

  // ----- Small families

  lemma FamilyOfNone(m: BlockMap, p: Option<nat>, kids: seq<nat>)
    requires IsFamily(m, p, kids) && forall b :: b in m ==> Parent(m, b) != p
    ensures kids == []
  {
    DistinctCardinality(kids);
    assert ToSet(kids) == {};
  }

  lemma FamilyOfOne(m: BlockMap, p: Option<nat>, kids: seq<nat>, x: nat)
    requires IsFamily(m, p, kids) && forall b {:trigger Parent(m, b)} :: b in m ==> (Parent(m, b) == p <==> b == x)
    requires x in m
    ensures kids == [x]
  {
    hide IdOrder, Parent;
    assert x in kids;
    DistinctCardinality(kids);
    assert ToSet(kids) == {x};
  }

  lemma ThreeMembers(m: BlockMap, p: Option<nat>, kids: seq<nat>, x: nat, y: nat, z: nat)
    requires IsFamily(m, p, kids) && x in m && y in m && z in m && x != y && y != z && x != z
    requires forall b {:trigger Parent(m, b)} :: b in m ==> (Parent(m, b) == p <==> b == x || b == y || b == z)
    ensures |kids| == 3 && x in kids && y in kids && z in kids
  {
    hide IdOrder, Parent;
    DistinctCardinality(kids);
    assert ToSet(kids) == {x, y, z};
  }

  /** The blocks without a parent, in order. */
  method GetRootBlocks(blocks: seq<Block>, m: BlockMap) returns (roots: seq<nat>)
    requires UniqueIds(blocks) && IsBlockMap(blocks, m)
    ensures IsFamily(m, None, roots) && InOrder(m, roots)
  {
    roots := [];
    for i := 0 to |blocks|
      invariant Distinct(roots)
      invariant forall b :: b in roots <==> b in m && m[b] in blocks[..i] && Parent(m, b) == None
    {
      if blocks[i].prev.None? || blocks[i].prev.value !in m {
        roots := roots + [blocks[i].id];
      }
    }
    var sorted := SortIds(m, roots);
    PermutationDistinct(roots, sorted);
    roots := sorted;
    FamilyInOrder(m, None, roots);
  }
}
