/** Ancestors in a forest of blocks, and the numbering of its leaves from left to right. */
module ForestNumbering {
  import opened Wrappers
  import opened Sorting
  import opened BlockForest

  /** The blocks with their lists of children and the list of roots. */
  datatype Forest = Forest(blocks: BlockMap, children: ChildrenMap, roots: seq<nat>) {

    function Kids(b: nat): seq<nat> {
      BlockForest.Kids(blocks, children, b)
    }

    /** The lists are right, whatever the heights are. */
    ghost predicate Families() {
      && (forall p {:trigger Kids(p)} :: p in blocks ==> IsFamily(blocks, Some(p), Kids(p)))
      && IsFamily(blocks, None, roots)
    }

    /** The lists are right, and every child is one above its parent. */
    ghost predicate Valid() {
      && (forall p {:trigger Kids(p)} :: p in blocks ==> IsFamily(blocks, Some(p), Kids(p)))
      && IsFamily(blocks, None, roots)
      && (forall b {:trigger Parent(blocks, b)} :: b in blocks && Parent(blocks, b).Some? ==>
        blocks[b].height == blocks[Parent(blocks, b).value].height + 1)
    }
  }

  lemma KidFacts(f: Forest, p: nat, i: nat)
    requires f.Valid() && p in f.blocks && i < |f.Kids(p)|
    ensures var k := f.Kids(p)[i];
            k in f.blocks && Parent(f.blocks, k) == Some(p) && f.blocks[k].height == f.blocks[p].height + 1
  {
    assert f.Kids(p)[i] in f.Kids(p);
  }

  lemma ParentListsKid(f: Forest, b: nat)
    requires f.Valid() && b in f.blocks
    ensures match Parent(f.blocks, b)
            case Some(p) => p in f.blocks && b in f.Kids(p) && f.blocks[b].height == f.blocks[p].height + 1
            case None => b in f.roots
  {}

  lemma ValidFamilies(f: Forest)
    requires f.Valid()
    ensures f.Families()
  {}

  lemma KidHasParent(f: Forest, p: nat, i: nat)
    requires f.Families() && p in f.blocks && i < |f.Kids(p)|
    ensures f.Kids(p)[i] in f.blocks && Parent(f.blocks, f.Kids(p)[i]) == Some(p)
  {
    assert f.Kids(p)[i] in f.Kids(p);
  }

  lemma ParentHasKid(f: Forest, b: nat)
    requires f.Families() && b in f.blocks
    ensures Parent(f.blocks, b).Some? ==> b in f.Kids(Parent(f.blocks, b).value)
  {}

  function IndexOf(s: seq<nat>, x: nat): (i: nat)
    requires x in s
    ensures i < |s| && s[i] == x
  {
    if s[0] == x then 0 else 1 + IndexOf(s[1..], x)
  }

  lemma FamiliesOf(f: Forest)
    requires f.Valid()
    ensures IsFamily(f.blocks, None, f.roots)
    ensures forall p :: p in f.blocks ==> IsFamily(f.blocks, Some(p), f.Kids(p))
  {}

  lemma FamilyOfThree(m: BlockMap, p: Option<nat>, kids: seq<nat>, x: nat, y: nat, z: nat)
    requires IsFamily(m, p, kids) && x in m && y in m && z in m && x != y && y != z && x != z
    requires forall b {:trigger Parent(m, b)} :: b in m ==> (Parent(m, b) == p <==> b == x || b == y || b == z)
    requires !IdLe(m, y, x) && !IdLe(m, z, y) && !IdLe(m, z, x)
    ensures kids == [x, y, z]
  {
    ThreeMembers(m, p, kids, x, y, z);
    var i, j, k := IndexOf(kids, x), IndexOf(kids, y), IndexOf(kids, z);
    assert IdOrder(m)(kids[j], kids[i]) <==> IdLe(m, y, x);
    assert IdOrder(m)(kids[k], kids[j]) <==> IdLe(m, z, y);
    assert i < j < k;
    hide *;
    assert kids == [kids[0], kids[1], kids[2]];
  }

  /** `a` is `d`, or an ancestor of the parent of `d`. */
  ghost predicate Ancestor(f: Forest, a: nat, d: nat)
    requires f.Valid() && d in f.blocks
    decreases f.blocks[d].height
  {
    a == d || (Parent(f.blocks, d).Some? && Ancestor(f, a, Parent(f.blocks, d).value))
  }

  ghost function Root(f: Forest, d: nat): (r: nat)
    requires f.Valid() && d in f.blocks
    ensures r in f.roots && r in f.blocks && Ancestor(f, r, d)
    decreases f.blocks[d].height
  {
    ParentListsKid(f, d);
    if Parent(f.blocks, d).None? then d else Root(f, Parent(f.blocks, d).value)
  }

  /** The child of `a` on the way down to `d`. */
  lemma {:induction false} ChildToward(f: Forest, a: nat, d: nat) returns (k: nat)
    requires f.Valid() && a in f.blocks && d in f.blocks && Ancestor(f, a, d) && a != d
    ensures k in f.Kids(a) && k in f.blocks && Parent(f.blocks, k) == Some(a) && Ancestor(f, k, d)
    decreases f.blocks[d].height
  {
    ParentListsKid(f, d);
    var p := Parent(f.blocks, d).value;
    if p == a {
      k := d;
    } else {
      k := ChildToward(f, a, p);
    }
  }

  // ----- Counting leaves

  ghost function Higher(f: Forest, b: nat): set<nat>
    requires b in f.blocks
  {
    set x | x in f.blocks && f.blocks[b].height < f.blocks[x].height
  }

  lemma KidHigher(f: Forest, p: nat, i: nat)
    requires f.Valid() && p in f.blocks && i < |f.Kids(p)|
    ensures f.Kids(p)[i] in f.blocks && Higher(f, f.Kids(p)[i]) < Higher(f, p)
  {
    KidFacts(f, p, i);
    assert f.Kids(p)[i] in Higher(f, p) - Higher(f, f.Kids(p)[i]);
  }

  /** The number of leaves below `b`, itself included. */
  ghost function LeafCount(f: Forest, b: nat): (n: nat)
    requires f.Valid() && b in f.blocks
    ensures 0 < n
    decreases Higher(f, b), |f.Kids(b)| + 1
  {
    if f.Kids(b) == [] then 1 else LeafSum(f, b, |f.Kids(b)|)
  }

  /** The number of leaves below the first `n` children of `b`. */
  ghost function LeafSum(f: Forest, b: nat, n: nat): (s: nat)
    requires f.Valid() && b in f.blocks && n <= |f.Kids(b)|
    ensures n <= s
    decreases Higher(f, b), n
  {
    if n == 0 then
      0
    else
      KidHigher(f, b, n - 1);
      LeafSum(f, b, n - 1) + LeafCount(f, f.Kids(b)[n - 1])
  }

  /** The number of leaves below the first `n` roots. */
  ghost function RootSum(f: Forest, n: nat): (s: nat)
    requires f.Valid() && n <= |f.roots|
    ensures n <= s
  {
    if n == 0 then
      0
    else
      assert f.roots[n - 1] in f.roots;
      RootSum(f, n - 1) + LeafCount(f, f.roots[n - 1])
  }

  /** The number of leaves to the left of everything below `b`. */
  ghost function First(f: Forest, b: nat): nat
    requires f.Valid() && b in f.blocks
    decreases f.blocks[b].height
  {
    ParentListsKid(f, b);
    match Parent(f.blocks, b)
    case Some(p) => First(f, p) + LeafSum(f, p, IndexOf(f.Kids(p), b))
    case None => RootSum(f, IndexOf(f.roots, b))
  }

  /** Everything below `a` is to the left of everything below `b`. */
  ghost predicate Before(f: Forest, a: nat, b: nat)
    requires f.Valid() && a in f.blocks && b in f.blocks
  {
    First(f, a) + LeafCount(f, a) <= First(f, b)
  }

  lemma LeafSumMonotone(f: Forest, b: nat, i: nat, j: nat)
    requires f.Valid() && b in f.blocks && i <= j <= |f.Kids(b)|
    ensures LeafSum(f, b, i) <= LeafSum(f, b, j)
  {
    if i < j {
      LeafSumMonotone(f, b, i, j - 1);
    }
  }

  lemma RootSumMonotone(f: Forest, i: nat, j: nat)
    requires f.Valid() && i <= j <= |f.roots|
    ensures RootSum(f, i) <= RootSum(f, j)
  {
    if i < j {
      RootSumMonotone(f, i, j - 1);
    }
  }

  lemma KidIndex(f: Forest, p: nat, i: nat)
    requires f.Valid() && p in f.blocks && i < |f.Kids(p)|
    ensures f.Kids(p)[i] in f.blocks && First(f, f.Kids(p)[i]) == First(f, p) + LeafSum(f, p, i)
    ensures LeafSum(f, p, i + 1) == LeafSum(f, p, i) + LeafCount(f, f.Kids(p)[i])
  {
    KidFacts(f, p, i);
    assert IndexOf(f.Kids(p), f.Kids(p)[i]) == i by {
      assert Distinct(f.Kids(p));
    }
  }

  lemma RootIndex(f: Forest, i: nat)
    requires f.Valid() && i < |f.roots|
    ensures f.roots[i] in f.blocks && First(f, f.roots[i]) == RootSum(f, i)
    ensures RootSum(f, i + 1) == RootSum(f, i) + LeafCount(f, f.roots[i])
  {
    assert f.roots[i] in f.roots;
    assert IndexOf(f.roots, f.roots[i]) == i by {
      assert Distinct(f.roots);
    }
  }

  lemma LeafCountIsSum(f: Forest, b: nat)
    requires f.Valid() && b in f.blocks && f.Kids(b) != []
    ensures LeafCount(f, b) == LeafSum(f, b, |f.Kids(b)|)
  {}

  /** The leaves below a block are among those below each of its ancestors. */
  lemma {:induction false} NestedBelowAncestor(f: Forest, a: nat, d: nat)
    requires f.Valid() && a in f.blocks && d in f.blocks && Ancestor(f, a, d)
    ensures First(f, a) <= First(f, d) && First(f, d) + LeafCount(f, d) <= First(f, a) + LeafCount(f, a)
    decreases f.blocks[d].height
  {
    if a != d {
      ParentListsKid(f, d);
      var p := Parent(f.blocks, d).value;
      assert Ancestor(f, a, p);
      hide *;
      NestedBelowAncestor(f, a, p);
      NestedBelowParent(f, p, d);
    }
  }

  lemma NestedBelowParent(f: Forest, p: nat, d: nat)
    requires f.Valid() && p in f.blocks && d in f.Kids(p)
    ensures d in f.blocks && First(f, p) <= First(f, d)
    ensures First(f, d) + LeafCount(f, d) <= First(f, p) + LeafCount(f, p)
  {
    hide First, LeafSum, LeafCount, IndexOf, Forest.Kids, Forest.Valid;
    LeafCountIsSum(f, p);
    var i := IndexOf(f.Kids(p), d);
    KidIndex(f, p, i);
    LeafSumMonotone(f, p, i + 1, |f.Kids(p)|);
  }

  lemma SiblingsApart(f: Forest, p: nat, a: nat, b: nat)
    requires f.Valid() && p in f.blocks && a in f.Kids(p) && b in f.Kids(p) && a != b
    ensures a in f.blocks && b in f.blocks && (Before(f, a, b) || Before(f, b, a))
  {
    hide First, LeafSum, LeafCount, IndexOf, Forest.Kids, Forest.Valid;
    var i, j := IndexOf(f.Kids(p), a), IndexOf(f.Kids(p), b);
    KidIndex(f, p, i);
    KidIndex(f, p, j);
    if i < j {
      LeafSumMonotone(f, p, i + 1, j);
    } else {
      LeafSumMonotone(f, p, j + 1, i);
    }
  }

  lemma RootsApart(f: Forest, a: nat, b: nat)
    requires f.Valid() && a in f.roots && b in f.roots && a != b
    ensures a in f.blocks && b in f.blocks && (Before(f, a, b) || Before(f, b, a))
  {
    hide First, LeafSum, LeafCount, RootSum;
    var i, j := IndexOf(f.roots, a), IndexOf(f.roots, b);
    RootIndex(f, i);
    RootIndex(f, j);
    if i < j {
      RootSumMonotone(f, i + 1, j);
    } else {
      RootSumMonotone(f, j + 1, i);
    }
  }

  /** Two blocks neither of which is below the other have all their leaves apart. */
  lemma {:induction false} UnrelatedApart(f: Forest, a: nat, b: nat)
    requires f.Valid() && a in f.blocks && b in f.blocks && !Ancestor(f, a, b) && !Ancestor(f, b, a)
    ensures Before(f, a, b) || Before(f, b, a)
    decreases f.blocks[a].height
  {
    ParentListsKid(f, a);
    match Parent(f.blocks, a)
    case None =>
      var r := Root(f, b);
      RootsApart(f, a, r);
      NestedBelowAncestor(f, r, b);
    case Some(p) =>
      if Ancestor(f, p, b) {
        var k := ChildToward(f, p, b);
        SiblingsApart(f, p, a, k);
        NestedBelowAncestor(f, k, b);
      } else {
        UnrelatedApart(f, p, b);
        NestedBelowAncestor(f, p, a);
      }
  }

  lemma {:induction false} AncestorIsLower(f: Forest, a: nat, d: nat)
    requires f.Valid() && a in f.blocks && d in f.blocks && Ancestor(f, a, d)
    ensures f.blocks[a].height <= f.blocks[d].height
    ensures a != d ==> f.blocks[a].height < f.blocks[d].height
    decreases f.blocks[d].height
  {
    if a != d {
      AncestorIsLower(f, a, Parent(f.blocks, d).value);
    }
  }

  /** Blocks at one height are linearly ordered from left to right. */
  lemma SameHeightApart(f: Forest, a: nat, b: nat)
    requires f.Valid() && a in f.blocks && b in f.blocks && a != b && f.blocks[a].height == f.blocks[b].height
    ensures Before(f, a, b) != Before(f, b, a)
    ensures Before(f, a, b) <==> First(f, a) < First(f, b)
  {
    if Ancestor(f, a, b) {
      AncestorIsLower(f, a, b);
    } else if Ancestor(f, b, a) {
      AncestorIsLower(f, b, a);
    } else {
      UnrelatedApart(f, a, b);
    }
  }

  /** Children keep the order of their parents. */
  lemma ParentsInOrder(f: Forest, a: nat, b: nat)
    requires f.Valid() && a in f.blocks && b in f.blocks && f.blocks[a].height == f.blocks[b].height && Before(f, a, b)
    requires Parent(f.blocks, a).Some? && Parent(f.blocks, b).Some?
    ensures var pa, pb := Parent(f.blocks, a).value, Parent(f.blocks, b).value;
            pa == pb || Before(f, pa, pb)
  {
    var pa, pb := Parent(f.blocks, a).value, Parent(f.blocks, b).value;
    if pa != pb {
      SameHeightApart(f, pa, pb);
      assert Ancestor(f, pa, a) && Ancestor(f, pb, b);
      NestedBelowAncestor(f, pa, a);
      NestedBelowAncestor(f, pb, b);
    }
  }

  /** No leaf is to the right of the last one. */
  lemma WithinTotal(f: Forest, b: nat)
    requires f.Valid() && b in f.blocks
    ensures First(f, b) + LeafCount(f, b) <= RootSum(f, |f.roots|)
  {
    hide First, LeafSum, LeafCount, RootSum, Root;
    var r := Root(f, b);
    NestedBelowAncestor(f, r, b);
    RootIndex(f, IndexOf(f.roots, r));
    RootSumMonotone(f, IndexOf(f.roots, r) + 1, |f.roots|);
  }

  /** The position of the root of `b` among the roots. */
  ghost function RootRank(f: Forest, b: nat): (i: nat)
    requires f.Valid() && b in f.blocks
    ensures i < |f.roots|
  {
    IndexOf(f.roots, Root(f, b))
  }

  lemma RootRankMonotone(f: Forest, a: nat, b: nat)
    requires f.Valid() && a in f.blocks && b in f.blocks && Before(f, a, b)
    ensures RootRank(f, a) <= RootRank(f, b)
  {
    NestedBelowAncestor(f, Root(f, a), a);
    NestedBelowAncestor(f, Root(f, b), b);
    RootIndex(f, RootRank(f, a));
    RootIndex(f, RootRank(f, b));
    if RootRank(f, b) < RootRank(f, a) {
      RootSumMonotone(f, RootRank(f, b) + 1, RootRank(f, a));
    }
  }
}
