/** Where a newly mined block would be drawn: one slot past everything below its parent. */
module MineSlots {
  import opened ForestNumbering
  import opened SlotLayout
  import opened SlotCompaction

  datatype Bounds = Bounds(min: real, max: real)

  /** The bounds found so far, and the blocks whose subtrees are being visited. */
  datatype Cache = Cache(bounds: map<nat, Bounds>, resolving: set<nat>)

  function OwnBounds(slots: Slots, b: nat): Bounds {
    Bounds(SlotKey(slots)(b), SlotKey(slots)(b))
  }

  function Widen(x: Bounds, y: Bounds): Bounds {
    Bounds(if y.min < x.min then y.min else x.min, if y.max > x.max then y.max else x.max)
  }

  /** `acc` widened by the bounds of the first `n` children. */
  ghost function MergeBounds(kids: seq<nat>, n: nat, bounds: map<nat, Bounds>, acc: Bounds): Bounds
    requires n <= |kids|
  {
    if n == 0 then acc
    else
      var b := MergeBounds(kids, n - 1, bounds, acc);
      if kids[n - 1] in bounds then Widen(b, bounds[kids[n - 1]]) else b
  }

  ghost function CacheOwn(slots: Slots, b: nat, s: Cache): Cache {
    s.(bounds := s.bounds[b := OwnBounds(slots, b)])
  }

  ghost function Leave(slots: Slots, b: nat, kids: seq<nat>, s: Cache): Cache {
    Cache(s.bounds[b := MergeBounds(kids, |kids|, s.bounds, OwnBounds(slots, b))], s.resolving - {b})
  }

  ghost function Unresolved(f: Forest, s: Cache): set<nat> {
    f.children.Keys - s.resolving - s.bounds.Keys
  }

  /** The recursion, on any children map. */
  ghost function Resolve(f: Forest, slots: Slots, b: nat, s: Cache): (r: Cache)
    ensures Unresolved(f, r) <= Unresolved(f, s) && s.bounds.Keys <= r.bounds.Keys && b in r.bounds
    ensures r.resolving == s.resolving
    decreases Unresolved(f, s), 0
  {
    if b in s.bounds then
      s
    else if b in s.resolving || f.Kids(b) == [] then
      CacheOwn(slots, b, s)
    else
      var entered := s.(resolving := s.resolving + {b});
      assert b in Unresolved(f, s) - Unresolved(f, entered);
      Leave(slots, b, f.Kids(b), ResolveAll(f, slots, f.Kids(b), entered))
  }

  ghost function ResolveAll(f: Forest, slots: Slots, kids: seq<nat>, s: Cache): (r: Cache)
    ensures Unresolved(f, r) <= Unresolved(f, s) && s.bounds.Keys <= r.bounds.Keys && r.resolving == s.resolving
    ensures forall k :: k in kids ==> k in r.bounds
    decreases Unresolved(f, s), 1 + |kids|
  {
    if kids == [] then s else ResolveAll(f, slots, kids[1..], Resolve(f, slots, kids[0], s))
  }

  /** What is left to do when a stack of frames is popped one by one. */
  ghost function RunResolve(f: Forest, slots: Slots, stack: seq<Frame>, s: Cache): Cache
    decreases |stack|
  {
    if stack == [] then
      s
    else
      var rest := stack[..|stack| - 1];
      match stack[|stack| - 1]
      case Enter(b) => RunResolve(f, slots, rest, Resolve(f, slots, b, s))
      case Exit(b, kids) => RunResolve(f, slots, rest, Leave(slots, b, kids, s))
  }

  lemma {:induction false} RunResolveAll(f: Forest, slots: Slots, stack: seq<Frame>, kids: seq<nat>, s: Cache)
    ensures RunResolve(f, slots, stack + EnterFrames(kids), s)
         == RunResolve(f, slots, stack, ResolveAll(f, slots, kids, s))
    decreases |kids|
  {
    if kids == [] {
      assert stack + [] == stack;
    } else {
      var frames := stack + EnterFrames(kids);
      assert frames[..|frames| - 1] == stack + EnterFrames(kids[1..]);
      RunResolveAll(f, slots, stack, kids[1..], Resolve(f, slots, kids[0], s));
    }
  }

  // ----- On a forest

  /** The tightest bounds of the slots of `b` and of everything below it. */
  ghost predicate AreBounds(f: Forest, slots: Slots, b: nat, x: Bounds)
    requires f.Valid()
  {
    && (forall d :: d in Below(f, b) ==> x.min <= SlotKey(slots)(d) <= x.max)
    && (exists d :: d in Below(f, b) && SlotKey(slots)(d) == x.min)
    && (exists d :: d in Below(f, b) && SlotKey(slots)(d) == x.max)
  }

  ghost predicate CacheOk(f: Forest, slots: Slots, s: Cache)
    requires f.Valid()
  {
    forall b :: b in s.bounds ==> AreBounds(f, slots, b, s.bounds[b])
  }

  lemma {:induction false} MergedBounds(kids: seq<nat>, n: nat, bounds: map<nat, Bounds>, acc: Bounds)
    requires n <= |kids| && forall k :: k in kids ==> k in bounds
    ensures var x := MergeBounds(kids, n, bounds, acc);
            && x.min <= acc.min && acc.max <= x.max
            && (forall i :: 0 <= i < n ==> x.min <= bounds[kids[i]].min && bounds[kids[i]].max <= x.max)
            && (x.min == acc.min || exists i :: 0 <= i < n && x.min == bounds[kids[i]].min)
            && (x.max == acc.max || exists i :: 0 <= i < n && x.max == bounds[kids[i]].max)
  {
    if n > 0 {
      MergedBounds(kids, n - 1, bounds, acc);
    }
  }

  lemma InBelowKids(f: Forest, b: nat, d: nat)
    requires f.Valid() && b in f.blocks
    ensures b in Below(f, b)
    ensures d in Below(f, b) <==> d == b || exists i :: 0 <= i < |f.Kids(b)| && d in Below(f, f.Kids(b)[i])
  {
    hide Forest.Valid, Forest.Kids, Below, BelowKids;
    BelowIsKids(f, b);
    BelowKidsMeaning(f, b, 0);
  }

  /** The bounds of a block with children. */
  lemma LeaveBounds(f: Forest, slots: Slots, b: nat, s: Cache)
    requires f.Valid() && b in f.blocks && CacheOk(f, slots, s) && forall k :: k in f.Kids(b) ==> k in s.bounds
    ensures CacheOk(f, slots, Leave(slots, b, f.Kids(b), s))
  {
    hide Forest.Valid, Forest.Kids, Below, SlotKey, AreBounds, MergeBounds;
    var kids, own := f.Kids(b), OwnBounds(slots, b);
    MergedBounds(kids, |kids|, s.bounds, own);
    MergedIsBounds(f, slots, b, s, MergeBounds(kids, |kids|, s.bounds, own));
  }

  lemma MergedIsBounds(f: Forest, slots: Slots, b: nat, s: Cache, x: Bounds)
    requires f.Valid() && b in f.blocks && CacheOk(f, slots, s) && forall k :: k in f.Kids(b) ==> k in s.bounds
    requires var kids, own := f.Kids(b), SlotKey(slots)(b);
             && x.min <= own <= x.max
             && (forall i :: 0 <= i < |kids| ==> x.min <= s.bounds[kids[i]].min && s.bounds[kids[i]].max <= x.max)
             && (x.min == own || exists i :: 0 <= i < |kids| && x.min == s.bounds[kids[i]].min)
             && (x.max == own || exists i :: 0 <= i < |kids| && x.max == s.bounds[kids[i]].max)
    ensures AreBounds(f, slots, b, x)
  {
    hide Forest.Valid, Forest.Kids, Below, SlotKey;
    var kids := f.Kids(b);
    forall i | 0 <= i < |kids|
      ensures AreBounds(f, slots, kids[i], s.bounds[kids[i]])
    {
      assert kids[i] in kids;
    }
    forall d | d in Below(f, b)
      ensures x.min <= SlotKey(slots)(d) <= x.max
    {
      InBelowKids(f, b, d);
    }
    BoundReached(f, slots, b, s, x.min, true);
    BoundReached(f, slots, b, s, x.max, false);
  }

  lemma BoundReached(f: Forest, slots: Slots, b: nat, s: Cache, v: real, low: bool)
    requires f.Valid() && b in f.blocks
    requires forall i :: 0 <= i < |f.Kids(b)| ==>
            f.Kids(b)[i] in s.bounds && AreBounds(f, slots, f.Kids(b)[i], s.bounds[f.Kids(b)[i]])
    requires v == SlotKey(slots)(b)
          || exists i :: 0 <= i < |f.Kids(b)|
               && v == if low then s.bounds[f.Kids(b)[i]].min else s.bounds[f.Kids(b)[i]].max
    ensures exists d :: d in Below(f, b) && SlotKey(slots)(d) == v
  {
    hide Forest.Valid, Forest.Kids, Below, SlotKey;
    InBelowKids(f, b, b);
    if v != SlotKey(slots)(b) {
      var i :| 0 <= i < |f.Kids(b)| && v == if low then s.bounds[f.Kids(b)[i]].min else s.bounds[f.Kids(b)[i]].max;
      var d :| d in Below(f, f.Kids(b)[i]) && SlotKey(slots)(d) == v;
      InBelowKids(f, b, d);
    }
  }

  lemma OwnIsBounds(f: Forest, slots: Slots, b: nat, s: Cache)
    requires f.Valid() && b in f.blocks && CacheOk(f, slots, s) && f.Kids(b) == []
    ensures CacheOk(f, slots, CacheOwn(slots, b, s))
  {
    hide Forest.Valid, Forest.Kids, Below, SlotKey;
    forall d
      ensures d in Below(f, b) <==> d == b
    {
      InBelowKids(f, b, d);
    }
  }

  lemma ResolveUnfold(f: Forest, slots: Slots, b: nat, s: Cache)
    requires b !in s.resolving
    ensures b in Resolve(f, slots, b, s).bounds
    ensures Resolve(f, slots, b, s) ==
            if b in s.bounds then s
            else if f.Kids(b) == [] then CacheOwn(slots, b, s)
            else Leave(slots, b, f.Kids(b), ResolveAll(f, slots, f.Kids(b)[0..], s.(resolving := s.resolving + {b})))
  {
    hide CacheOwn, Leave, Forest.Kids;
    assert f.Kids(b)[0..] == f.Kids(b);
  }

  /** With a right cache and no block below being visited, the recursion keeps the cache right. */
  lemma {:induction false} ResolveOk(f: Forest, slots: Slots, b: nat, s: Cache)
    requires f.Valid() && b in f.blocks && CacheOk(f, slots, s) && Below(f, b) !! s.resolving
    ensures CacheOk(f, slots, Resolve(f, slots, b, s)) && b in Resolve(f, slots, b, s).bounds
    decreases Higher(f, b), |f.Kids(b)| + 1
  {
    hide *;
    InBelowKids(f, b, b);
    ResolveUnfold(f, slots, b, s);
    if b !in s.bounds {
      if f.Kids(b) == [] {
        OwnIsBounds(f, slots, b, s);
      } else {
        var entered := s.(resolving := s.resolving + {b});
        EnteredOk(f, slots, b, s, entered);
        BelowIsKids(f, b);
        ResolveKidsOk(f, slots, b, 0, entered);
        assert f.Kids(b)[0..] == f.Kids(b);
        LeaveBounds(f, slots, b, ResolveAll(f, slots, f.Kids(b)[0..], entered));
      }
    }
  }

  lemma EnteredOk(f: Forest, slots: Slots, b: nat, s: Cache, entered: Cache)
    requires f.Valid() && CacheOk(f, slots, s) && entered.bounds == s.bounds
    ensures CacheOk(f, slots, entered)
  {
    hide Forest.Valid, AreBounds;
  }

  lemma {:induction false} ResolveKidsOk(f: Forest, slots: Slots, b: nat, n: nat, s: Cache)
    requires f.Valid() && b in f.blocks && n <= |f.Kids(b)| && CacheOk(f, slots, s) && BelowKids(f, b, n) !! s.resolving
    ensures CacheOk(f, slots, ResolveAll(f, slots, f.Kids(b)[n..], s))
    decreases Higher(f, b), |f.Kids(b)| - n
  {
    hide *;
    ResolveAllUnfold(f, slots, f.Kids(b), n, s);
    if n < |f.Kids(b)| {
      var k := f.Kids(b)[n];
      KidHigher(f, b, n);
      BelowKidsStep(f, b, n);
      ResolveOk(f, slots, k, s);
      ResolveKidsOk(f, slots, b, n + 1, Resolve(f, slots, k, s));
    }
  }

  lemma ResolveAllUnfold(f: Forest, slots: Slots, kids: seq<nat>, n: nat, s: Cache)
    requires n <= |kids|
    ensures n == |kids| ==> ResolveAll(f, slots, kids[n..], s) == s
    ensures n < |kids| ==>
            ResolveAll(f, slots, kids[n..], s) == ResolveAll(f, slots, kids[n + 1..], Resolve(f, slots, kids[n], s))
  {
    if n < |kids| {
      assert kids[n..][1..] == kids[n + 1..];
    }
  }

  // ----- The resolver

  /** The slot for a block mined on `b`: that of `b` if nothing is below it, else one past the lowest thing below it. */
  ghost predicate IsNextSlot(f: Forest, slots: Slots, b: nat, v: real)
    requires f.Valid()
  {
    if f.Kids(b) == [] then
      v == SlotKey(slots)(b)
    else
      && (forall d :: d in Below(f, b) && d != b ==> SlotKey(slots)(d) + 1.0 <= v)
      && (exists d :: d in Below(f, b) && d != b && SlotKey(slots)(d) + 1.0 == v)
  }

  /** The largest slot at or below the first `n` children. */
  ghost predicate IsMaxBelow(f: Forest, slots: Slots, b: nat, n: nat, v: real)
    requires f.Valid() && n <= |f.Kids(b)|
  {
    && (forall i, d :: 0 <= i < n && d in Below(f, f.Kids(b)[i]) ==> SlotKey(slots)(d) <= v)
    && (exists i, d :: 0 <= i < n && d in Below(f, f.Kids(b)[i]) && SlotKey(slots)(d) == v)
  }

  lemma MaxBelowFirst(f: Forest, slots: Slots, b: nat, x: Bounds)
    requires f.Valid() && f.Kids(b) != [] && AreBounds(f, slots, f.Kids(b)[0], x)
    ensures IsMaxBelow(f, slots, b, 1, x.max)
  {
    hide Forest.Valid, Forest.Kids, Below, SlotKey;
  }

  lemma MaxBelowStep(f: Forest, slots: Slots, b: nat, n: nat, v: real, x: Bounds)
    requires f.Valid() && n < |f.Kids(b)| && IsMaxBelow(f, slots, b, n, v) && AreBounds(f, slots, f.Kids(b)[n], x)
    ensures IsMaxBelow(f, slots, b, n + 1, Max(v, x.max))
  {
    hide Forest.Valid, Forest.Kids, Below, SlotKey;
    if v <= x.max {
      var d :| d in Below(f, f.Kids(b)[n]) && SlotKey(slots)(d) == x.max;
    } else {
      var i, d :| 0 <= i < n && d in Below(f, f.Kids(b)[i]) && SlotKey(slots)(d) == v;
    }
  }

  lemma MaxIsNextSlot(f: Forest, slots: Slots, b: nat, v: real)
    requires f.Valid() && b in f.blocks && f.Kids(b) != [] && IsMaxBelow(f, slots, b, |f.Kids(b)|, v)
    ensures IsNextSlot(f, slots, b, v + 1.0)
  {
    hide Forest.Valid, Forest.Kids, Below, SlotKey;
    forall d | d in Below(f, b) && d != b
      ensures SlotKey(slots)(d) <= v
    {
      InBelowKids(f, b, d);
    }
    var i, d :| 0 <= i < |f.Kids(b)| && d in Below(f, f.Kids(b)[i]) && SlotKey(slots)(d) == v;
    InBelowKids(f, b, d);
    BelowKidIsNotSelf(f, b, i, d);
  }

  lemma BelowKidIsNotSelf(f: Forest, b: nat, i: nat, d: nat)
    requires f.Valid() && b in f.blocks && i < |f.Kids(b)| && d in Below(f, f.Kids(b)[i])
    ensures d != b
  {
    BelowIsKids(f, b);
    BelowKidsMeaning(f, b, 0);
    hide *;
  }

  /** Keeps the bounds it has found between calls. */
  class NextMineSlotResolver {
    const f: Forest
    const slots: Slots
    var bounds: map<nat, Bounds>
    var resolving: set<nat>

    ghost function State(): Cache
      reads this
    {
      Cache(bounds, resolving)
    }

    /** Between calls nothing is being visited, and the bounds are right. */
    ghost predicate Valid()
      requires f.Valid()
      reads this
    {
      resolving == {} && CacheOk(f, slots, State())
    }

    constructor (forest: Forest, layout: Slots)
      ensures f == forest && slots == layout && State() == Cache(map[], {})
      ensures forest.Valid() ==> Valid()
    {
      f, slots, bounds, resolving := forest, layout, map[], {};
    }

    /** The loop over the explicit stack does what the recursion does, and always ends. */
    method GetSubtreeBounds(start: nat) returns (result: Bounds)
      modifies this
      ensures State() == Resolve(f, slots, start, old(State()))
      ensures start in bounds && result == bounds[start]
      ensures f.Valid() && old(Valid()) && start in f.blocks ==> Valid() && AreBounds(f, slots, start, result)
    {
      var stack := [Enter(start)];
      assert stack[..0] == [];
      while stack != []
        invariant RunResolve(f, slots, stack, State()) == Resolve(f, slots, start, old(State()))
        decreases Unresolved(f, State()), |stack|
      {
        var frame := stack[|stack| - 1];
        stack := stack[..|stack| - 1];
        match frame
        case Enter(b) =>
          if b in bounds {
          } else if b in resolving || f.Kids(b) == [] {
            bounds := bounds[b := OwnBounds(slots, b)];
          } else {
            var kids := f.Kids(b);
            assert b in Unresolved(f, State());
            var base := stack + [Exit(b, kids)];
            assert base[..|base| - 1] == stack;
            RunResolveAll(f, slots, base, kids, Cache(bounds, resolving + {b}));
            resolving := resolving + {b};
            stack := PushKids(base, kids);
          }
        case Exit(b, kids) =>
          var merged := OwnBounds(slots, b);
          for i := 0 to |kids|
            invariant merged == MergeBounds(kids, i, bounds, OwnBounds(slots, b))
          {
            if kids[i] in bounds {
              merged := Widen(merged, bounds[kids[i]]);
            }
          }
          resolving := resolving - {b};
          bounds := bounds[b := merged];
      }
      result := bounds[start];
      if f.Valid() && old(Valid()) && start in f.blocks {
        hide *;
        ResolvedBounds(f, slots, start, old(State()));
      }
    }

    /** The slot for a block mined on `b`. */
    method NextSlot(b: nat) returns (v: real)
      modifies this
      ensures f.Valid() && old(Valid()) && b in f.blocks ==> Valid() && IsNextSlot(f, slots, b, v)
    {
      hide *;
      var kids := f.Kids(b);
      if kids == [] {
        v := SlotKey(slots)(b);
        LeafNextSlot(f, slots, b);
        return;
      }
      var first := GetSubtreeBounds(kids[0]);
      v := first.max;
      ghost var right := f.Valid() && old(Valid()) && b in f.blocks;
      if right {
        KidFacts(f, b, 0);
        MaxBelowFirst(f, slots, b, first);
      }
      for i := 1 to |kids|
        invariant right ==> Valid() && IsMaxBelow(f, slots, b, i, v)
      {
        var next := GetSubtreeBounds(kids[i]);
        if right {
          KidFacts(f, b, i);
          MaxBelowStep(f, slots, b, i, v, next);
        }
        v := Max(v, next.max);
      }
      if right {
        MaxIsNextSlot(f, slots, b, v);
      }
      v := v + 1.0;
    }
  }

  lemma LeafNextSlot(f: Forest, slots: Slots, b: nat)
    requires f.Kids(b) == []
    ensures f.Valid() ==> IsNextSlot(f, slots, b, SlotKey(slots)(b))
  {
    hide Forest.Valid;
  }

  lemma ResolvedBounds(f: Forest, slots: Slots, b: nat, s: Cache)
    requires f.Valid() && b in f.blocks && s.resolving == {} && CacheOk(f, slots, s)
    ensures var r := Resolve(f, slots, b, s);
            b in r.bounds && CacheOk(f, slots, r) && AreBounds(f, slots, b, r.bounds[b]) && r.resolving == {}
  {
    ResolveOk(f, slots, b, s);
    hide Forest.Valid, AreBounds;
  }
}
