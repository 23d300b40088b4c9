/** The slot layout of a whole forest: numbered leaves, centred parents, one gap between two trees. */
module ForestLayout {
  import opened Sorting
  import opened BlockForest
  import opened ForestNumbering
  import opened SlotLayout

  /** Everything below the first `n` roots. */
  ghost function BelowRoots(f: Forest, n: nat): (ds: set<nat>)
    requires f.Valid() && n <= |f.roots|
    ensures ds <= f.blocks.Keys
  {
    set d | d in f.blocks && RootRank(f, d) < n
  }

  lemma {:induction false} RootUnique(f: Forest, r: nat, d: nat)
    requires f.Valid() && r in f.roots && d in f.blocks && Ancestor(f, r, d)
    ensures Root(f, d) == r
    decreases f.blocks[d].height
  {
    if d != r {
      RootUnique(f, r, Parent(f.blocks, d).value);
    }
  }

  lemma BelowRootIsRank(f: Forest, i: nat, d: nat)
    requires f.Valid() && i < |f.roots| && d in f.blocks
    ensures f.roots[i] in f.blocks && (d in Below(f, f.roots[i]) <==> RootRank(f, d) == i)
  {
    hide Forest.Kids;
    assert f.roots[i] in f.roots;
    if Ancestor(f, f.roots[i], d) {
      RootUnique(f, f.roots[i], d);
      assert Distinct(f.roots);
    }
  }

  lemma BelowRootsStep(f: Forest, n: nat)
    requires f.Valid() && n < |f.roots|
    ensures f.roots[n] in f.blocks
    ensures BelowRoots(f, n + 1) == BelowRoots(f, n) + Below(f, f.roots[n])
    ensures BelowRoots(f, n) !! Below(f, f.roots[n])
    ensures BelowRoots(f, 0) == {} && BelowRoots(f, |f.roots|) == f.blocks.Keys
  {
    hide Forest.Valid, RootRank, Below;
    assert f.roots[n] in f.blocks by {
      RootIndex(f, n);
    }
    forall d | d in f.blocks
      ensures d in Below(f, f.roots[n]) <==> RootRank(f, d) == n
    {
      BelowRootIsRank(f, n, d);
    }
  }

  lemma KidHasRank(f: Forest, d: nat, k: nat)
    requires f.Valid() && d in f.blocks && k in f.Kids(d)
    ensures k in f.blocks && RootRank(f, k) == RootRank(f, d)
  {
    hide Forest.Kids;
    KidFacts(f, d, IndexOf(f.Kids(d), k));
  }

  /** The blocks below the first `n` roots are placed, each moved by one slot per earlier root; nothing else is. */
  ghost predicate RootsPlaced(f: Forest, n: nat, s: Layout)
    requires f.Valid() && n <= |f.roots|
  {
    && s.visiting == {}
    && s.slots.Keys == BelowRoots(f, n)
    && s.next == RootSum(f, n) + (if n == 0 then 0 else n - 1)
    && PlacedByRank(f, s.slots, BelowRoots(f, n))
  }

  ghost predicate PlacedByRank(f: Forest, slots: map<nat, real>, ds: set<nat>)
    requires f.Valid() && ds <= f.blocks.Keys
  {
    forall d {:trigger Placed(f, slots, d, RootRank(f, d))} :: d in ds ==> Placed(f, slots, d, RootRank(f, d))
  }

  lemma RankFrame(f: Forest, n: nat, slots: map<nat, real>, slots': map<nat, real>)
    requires f.Valid() && n < |f.roots| && f.roots[n] in f.blocks
    requires slots.Keys == BelowRoots(f, n) && PlacedByRank(f, slots, BelowRoots(f, n))
    requires slots.Keys <= slots'.Keys && forall x :: x in slots ==> slots'[x] == slots[x]
    requires AllPlaced(f, slots', Below(f, f.roots[n]), n)
    ensures PlacedByRank(f, slots', BelowRoots(f, n) + Below(f, f.roots[n]))
  {
    hide Forest.Valid, Forest.Kids, Placed, RootRank, Below;
    forall d | d in BelowRoots(f, n)
      ensures Placed(f, slots', d, RootRank(f, d))
    {
      forall k | k in f.Kids(d)
        ensures k in slots
      {
        KidHasRank(f, d, k);
      }
      PlacedFrame(f, slots, slots', d, RootRank(f, d));
    }
    forall d | d in Below(f, f.roots[n])
      ensures Placed(f, slots', d, RootRank(f, d))
    {
      BelowRootIsRank(f, n, d);
      assert Placed(f, slots', d, n);
    }
  }

  ghost function WithGap(s: Layout, n: nat): Layout {
    if n == 0 then s else s.(next := s.next + 1)
  }

  lemma AssignRootsStep(f: Forest, n: nat)
    requires n < |f.roots|
    ensures AssignRoots(f, n + 1) == Assign(f, f.roots[n], WithGap(AssignRoots(f, n), n))
  {}

  lemma RootsPlacedStep(f: Forest, n: nat, s: Layout, r: Layout)
    requires f.Valid() && n < |f.roots| && f.roots[n] in f.blocks && RootsPlaced(f, n, s)
    requires BelowRoots(f, n + 1) == BelowRoots(f, n) + Below(f, f.roots[n]) && BelowRoots(f, n) !! Below(f, f.roots[n])
    requires Extends(f, WithGap(s, n), r, Below(f, f.roots[n]), LeafCount(f, f.roots[n]), n)
    ensures RootsPlaced(f, n + 1, r)
  {
    hide Forest.Valid, Below, BelowRoots, AllPlaced, PlacedByRank, LeafCount, RootSum, First;
    RootIndex(f, n);
    RankFrame(f, n, s.slots, r.slots);
  }

  lemma WithGapFacts(f: Forest, n: nat, s: Layout)
    requires f.Valid() && n < |f.roots| && RootsPlaced(f, n, s)
    ensures var g := WithGap(s, n); g.slots.Keys == BelowRoots(f, n) && g.visiting == {} && g.next == RootSum(f, n) + n
  {
    hide Forest.Valid, BelowRoots, PlacedByRank;
  }

  lemma RootsPlacedNone(f: Forest)
    requires f.Valid()
    ensures RootsPlaced(f, 0, AssignRoots(f, 0))
  {
    hide Forest.Valid;
  }

  lemma {:induction false} AssignRootsPlaces(f: Forest, n: nat)
    requires f.Valid() && n <= |f.roots|
    ensures RootsPlaced(f, n, AssignRoots(f, n))
  {
    hide *;
    if n == 0 {
      RootsPlacedNone(f);
    } else {
      var s, r := AssignRoots(f, n - 1), f.roots[n - 1];
      AssignRootsPlaces(f, n - 1);
      AssignRootsStep(f, n - 1);
      BelowRootsStep(f, n - 1);
      WithGapFacts(f, n - 1, s);
      RootIndex(f, n - 1);
      AssignTree(f, r, WithGap(s, n - 1));
      RootsPlacedStep(f, n - 1, s, AssignRoots(f, n));
    }
  }

  lemma {:induction false} NothingLeft(f: Forest, ids: seq<nat>, s: Layout)
    requires forall b :: b in ids ==> b in s.slots
    ensures AssignRest(f, ids, s) == s
    decreases |ids|
  {
    if ids != [] {
      assert ids[0] in ids;
      NothingLeft(f, ids[1..], s);
    }
  }

  /** The slots of a layout of a whole forest. */
  ghost predicate IsLayout(f: Forest, slots: map<nat, real>)
    requires f.Valid()
  {
    slots.Keys == f.blocks.Keys && PlacedByRank(f, slots, f.blocks.Keys)
  }

  /** On a forest the roots reach everything, and every leaf and every inner block is where it should be. */
  lemma LayoutOfForest(f: Forest, ids: seq<nat>)
    requires f.Valid() && forall b :: b in ids <==> b in f.blocks
    ensures IsLayout(f, AssignRest(f, ids, AssignRoots(f, |f.roots|)).slots)
  {
    AssignRootsPlaces(f, |f.roots|);
    AllBelowRoots(f);
    hide Forest.Valid, PlacedByRank, BelowRoots;
    NothingLeft(f, ids, AssignRoots(f, |f.roots|));
  }

  lemma AllBelowRoots(f: Forest)
    requires f.Valid()
    ensures BelowRoots(f, |f.roots|) == f.blocks.Keys
  {
    hide RootRank;
  }

  /** Blocks to the left are at least one slot away. */
  lemma LayoutSeparates(f: Forest, slots: map<nat, real>, a: nat, b: nat)
    requires f.Valid() && IsLayout(f, slots) && a in f.blocks && b in f.blocks && Before(f, a, b)
    ensures a in slots && b in slots && slots[a] + 1.0 <= slots[b]
  {
    hide Forest.Valid, Forest.Kids, First, LeafCount, IsMidpoint, RootRank;
    RootRankMonotone(f, a, b);
    assert Placed(f, slots, a, RootRank(f, a)) && Placed(f, slots, b, RootRank(f, b));
  }

  /** All of the subtree of `a` is at least one slot above all of the subtree of `b`. */
  ghost predicate SubtreeAbove(f: Forest, slots: map<nat, real>, a: nat, b: nat)
    requires f.Valid() && f.blocks.Keys <= slots.Keys
  {
    forall d, e {:trigger Ancestor(f, a, d), Ancestor(f, b, e)} ::
      d in f.blocks && e in f.blocks && Ancestor(f, a, d) && Ancestor(f, b, e) ==> slots[d] + 1.0 <= slots[e]
  }

  /** The subtrees of two blocks neither of which is below the other occupy disjoint slot intervals. */
  lemma SubtreesApart(f: Forest, slots: map<nat, real>, a: nat, b: nat)
    requires f.Valid() && IsLayout(f, slots) && a in f.blocks && b in f.blocks && !Ancestor(f, a, b)
    requires !Ancestor(f, b, a)
    ensures slots.Keys == f.blocks.Keys && (SubtreeAbove(f, slots, a, b) || SubtreeAbove(f, slots, b, a))
  {
    hide *;
    AllInLayout(f, slots);
    UnrelatedApart(f, a, b);
    if Before(f, a, b) {
      SubtreeBefore(f, slots, a, b);
    } else {
      SubtreeBefore(f, slots, b, a);
    }
  }

  lemma SubtreeBefore(f: Forest, slots: map<nat, real>, a: nat, b: nat)
    requires f.Valid() && IsLayout(f, slots) && a in f.blocks && b in f.blocks && Before(f, a, b)
    ensures slots.Keys == f.blocks.Keys && SubtreeAbove(f, slots, a, b)
  {
    hide Forest.Valid, IsLayout, Ancestor, First, LeafCount;
    AllInLayout(f, slots);
    forall d, e | d in f.blocks && e in f.blocks && Ancestor(f, a, d) && Ancestor(f, b, e)
      ensures slots[d] + 1.0 <= slots[e]
    {
      NestedBelowAncestor(f, a, d);
      NestedBelowAncestor(f, b, e);
      LayoutSeparates(f, slots, d, e);
    }
  }

  /** At one height, the slots are in the order of the leaves. */
  lemma LayoutOrdersHeights(f: Forest, slots: map<nat, real>, a: nat, b: nat)
    requires f.Valid() && IsLayout(f, slots) && a in f.blocks && b in f.blocks
    requires f.blocks[a].height == f.blocks[b].height
    ensures a in slots && b in slots && (slots[a] < slots[b] <==> a != b && Before(f, a, b))
  {
    hide *;
    AllInLayout(f, slots);
    if a != b {
      SameHeightApart(f, a, b);
      if Before(f, a, b) {
        LayoutSeparates(f, slots, a, b);
      } else {
        LayoutSeparates(f, slots, b, a);
      }
    }
  }

  lemma AllInLayout(f: Forest, slots: map<nat, real>)
    requires f.Valid() && IsLayout(f, slots)
    ensures slots.Keys == f.blocks.Keys
  {
    hide Forest.Valid, PlacedByRank;
  }

  /** The rightmost leaf of a tree. */
  lemma {:induction false} LastLeaf(f: Forest, b: nat) returns (d: nat)
    requires f.Valid() && b in f.blocks
    ensures d in f.blocks && f.Kids(d) == [] && Ancestor(f, b, d) && First(f, d) + 1 == First(f, b) + LeafCount(f, b)
    decreases Higher(f, b)
  {
    if f.Kids(b) == [] {
      d := b;
    } else {
      hide Forest.Valid, Forest.Kids, LeafSum, First;
      var last := |f.Kids(b)| - 1;
      KidFacts(f, b, last);
      KidHigher(f, b, last);
      d := LastLeaf(f, f.Kids(b)[last]);
      KidIndex(f, b, last);
      LeafCountIsSum(f, b);
      AncestorThroughKid(f, b, f.Kids(b)[last], d);
    }
  }

  /** At or past the slot of the last leaf in a layout without gaps. */
  ghost predicate ReachesLast(f: Forest, x: real)
    requires f.Valid()
  {
    (RootSum(f, |f.roots|) - 1) as real <= x
  }

  /** A layout reaches at least as far as the number of its leaves. */
  lemma LayoutReaches(f: Forest, slots: map<nat, real>) returns (d: nat)
    requires f.Valid() && IsLayout(f, slots) && f.roots != []
    ensures d in slots && ReachesLast(f, slots[d])
  {
    var last := |f.roots| - 1;
    RootIndex(f, last);
    d := LastLeaf(f, f.roots[last]);
    hide Forest.Valid, Forest.Kids, First, LeafCount, RootSum, IsMidpoint, RootRank;
    assert Placed(f, slots, d, RootRank(f, d));
  }
}
