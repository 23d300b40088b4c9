/** The depth-first slot layout: an explicit stack, and the recursion it stands for. */
module SlotLayout {
  import opened Wrappers
  import opened Sorting
  import opened BlockForest
  import opened ForestNumbering

  /** The slots assigned so far, the blocks being visited, and the next free leaf slot. */
  datatype Layout = Layout(slots: map<nat, real>, visiting: set<nat>, next: nat)

  const EMPTY := Layout(map[], {}, 0)

  /** A leaf, an unknown block or a block met while it is being visited gets the next free slot. */
  function TakeSlot(s: Layout, b: nat): Layout {
    s.(slots := s.slots[b := s.next as real], next := s.next + 1)
  }

  function KnownSlots(kids: seq<nat>, slots: map<nat, real>): (r: seq<real>)
    ensures (exists i :: 0 <= i < |kids| && kids[i] in slots) ==> r != []
  {
    if kids == [] then [] else (if kids[0] in slots then [slots[kids[0]]] else []) + KnownSlots(kids[1..], slots)
  }

  /** These are the slots of the children that have one. */
  lemma {:induction false} KnownSlotsMeaning(kids: seq<nat>, slots: map<nat, real>, x: real)
    ensures x in KnownSlots(kids, slots) <==> exists i :: 0 <= i < |kids| && kids[i] in slots && slots[kids[i]] == x
  {
    if kids != [] {
      KnownSlotsMeaning(kids[1..], slots, x);
      if i :| 0 <= i < |kids| && kids[i] in slots && slots[kids[i]] == x {
        assert i > 0 ==> kids[1..][i - 1] == kids[i];
      }
    }
  }

  function MinOf(s: seq<real>): (m: real)
    requires s != []
    ensures m in s && forall x :: x in s ==> m <= x
  {
    assert s == [s[0]] + s[1..];
    if |s| == 1 then s[0] else var m := MinOf(s[1..]); if s[0] <= m then s[0] else m
  }

  function MaxOf(s: seq<real>): (m: real)
    requires s != []
    ensures m in s && forall x :: x in s ==> x <= m
  {
    assert s == [s[0]] + s[1..];
    if |s| == 1 then s[0] else var m := MaxOf(s[1..]); if m <= s[0] then s[0] else m
  }

  /** Leaving a block: halfway between its lowest and its highest child. */
  function Finish(s: Layout, b: nat, kids: seq<nat>): Layout {
    var t := s.(visiting := s.visiting - {b});
    var childSlots := KnownSlots(kids, s.slots);
    if childSlots == [] then TakeSlot(t, b)
    else t.(slots := t.slots[b := (MinOf(childSlots) + MaxOf(childSlots)) / 2.0])
  }

  /** The blocks that were not yet entered. */
  ghost function Fresh(f: Forest, s: Layout): set<nat> {
    f.blocks.Keys - s.visiting - s.slots.Keys
  }

  /** The recursion: on any lists of children, cyclic ones included. */
  ghost function Assign(f: Forest, b: nat, s: Layout): (r: Layout)
    ensures Fresh(f, r) <= Fresh(f, s) && s.slots.Keys <= r.slots.Keys && b in r.slots && r.visiting == s.visiting
    decreases Fresh(f, s), 0
  {
    if b in s.slots then
      s
    else if b in s.visiting || b !in f.blocks || f.Kids(b) == [] then
      TakeSlot(s, b)
    else
      var entered := s.(visiting := s.visiting + {b});
      assert b in Fresh(f, s) - Fresh(f, entered);
      Finish(AssignAll(f, f.Kids(b), entered), b, f.Kids(b))
  }

  /** One child after the other. */
  ghost function AssignAll(f: Forest, kids: seq<nat>, s: Layout): (r: Layout)
    ensures Fresh(f, r) <= Fresh(f, s) && s.slots.Keys <= r.slots.Keys && r.visiting == s.visiting
    ensures forall k :: k in kids ==> k in r.slots
    decreases Fresh(f, s), 1 + |kids|
  {
    if kids == [] then s else AssignAll(f, kids[1..], Assign(f, kids[0], s))
  }

  datatype Frame = Enter(id: nat) | Exit(id: nat, kids: seq<nat>)

  /** What is left to do when a stack of frames is popped one by one. */
  ghost function Run(f: Forest, stack: seq<Frame>, s: Layout): Layout
    decreases |stack|
  {
    if stack == [] then
      s
    else
      var rest := stack[..|stack| - 1];
      match stack[|stack| - 1]
      case Enter(b) => Run(f, rest, Assign(f, b, s))
      case Exit(b, kids) => Run(f, rest, Finish(s, b, kids))
  }

  /** The frames that enter the children, the first child on top. */
  ghost function EnterFrames(kids: seq<nat>): seq<Frame> {
    if kids == [] then [] else EnterFrames(kids[1..]) + [Enter(kids[0])]
  }

  lemma {:induction false} RunEnterFrames(f: Forest, stack: seq<Frame>, kids: seq<nat>, s: Layout)
    ensures Run(f, stack + EnterFrames(kids), s) == Run(f, stack, AssignAll(f, kids, s))
    decreases |kids|
  {
    if kids == [] {
      assert stack + [] == stack;
    } else {
      var frames := stack + EnterFrames(kids);
      assert frames[..|frames| - 1] == stack + EnterFrames(kids[1..]);
      RunEnterFrames(f, stack, kids[1..], Assign(f, kids[0], s));
    }
  }

  /** The loop over the explicit stack does what the recursion does, and always ends. */
  method AssignSlot(f: Forest, start: nat, s: Layout) returns (r: Layout)
    ensures r == Assign(f, start, s)
  {
    r := s;
    var stack := [Enter(start)];
    assert stack[..0] == [];
    while stack != []
      invariant Run(f, stack, r) == Assign(f, start, s)
      decreases Fresh(f, r), |stack|
    {
      var frame := stack[|stack| - 1];
      stack := stack[..|stack| - 1];
      match frame
      case Enter(b) =>
        if b in r.slots {
        } else if b in r.visiting || b !in f.blocks || f.Kids(b) == [] {
          r := TakeSlot(r, b);
        } else {
          var kids := f.Kids(b);
          assert b in Fresh(f, r);
          var base := stack + [Exit(b, kids)];
          assert base[..|base| - 1] == stack;
          RunEnterFrames(f, base, kids, r.(visiting := r.visiting + {b}));
          r := r.(visiting := r.visiting + {b});
          stack := PushKids(base, kids);
        }
      case Exit(b, kids) =>
        r := Finish(r, b, kids);
    }
  }

  method PushKids(base: seq<Frame>, kids: seq<nat>) returns (stack: seq<Frame>)
    ensures stack == base + EnterFrames(kids)
  {
    stack := base;
    assert kids[|kids|..] == [];
    for index := |kids| downto 0
      invariant stack == base + EnterFrames(kids[index..])
    {
      assert kids[index..][1..] == kids[index + 1..];
      stack := stack + [Enter(kids[index])];
    }
  }

  /** The first `n` roots, with a free slot between two of them. */
  ghost function AssignRoots(f: Forest, n: nat): Layout
    requires n <= |f.roots|
  {
    if n == 0 then EMPTY
    else if n == 1 then Assign(f, f.roots[0], EMPTY)
    else var s := AssignRoots(f, n - 1); Assign(f, f.roots[n - 1], s.(next := s.next + 1))
  }

  /** Then every block that no root leads to. */
  ghost function AssignRest(f: Forest, ids: seq<nat>, s: Layout): (r: Layout)
    ensures s.slots.Keys <= r.slots.Keys && forall b :: b in ids ==> b in r.slots
    decreases |ids|
  {
    if ids == [] then s
    else if ids[0] in s.slots then AssignRest(f, ids[1..], s)
    else AssignRest(f, ids[1..], Assign(f, ids[0], s.(next := s.next + 1)))
  }

  /** The whole layout: on any lists of roots and children it terminates and gives every block a slot. */
  method CreateSlotLayout(f: Forest, ids: seq<nat>) returns (slots: map<nat, real>)
    requires forall b :: b in ids <==> b in f.blocks
    ensures slots == AssignRest(f, ids, AssignRoots(f, |f.roots|)).slots
    ensures f.blocks.Keys <= slots.Keys
  {
    var s := EMPTY;
    for i := 0 to |f.roots|
      invariant s == AssignRoots(f, i)
    {
      if i > 0 {
        s := s.(next := s.next + 1);
      }
      s := AssignSlot(f, f.roots[i], s);
    }
    ghost var afterRoots := s;
    for i := 0 to |ids|
      invariant AssignRest(f, ids[i..], s) == AssignRest(f, ids, afterRoots)
    {
      assert ids[i..][1..] == ids[i + 1..];
      if ids[i] !in s.slots {
        s := AssignSlot(f, ids[i], s.(next := s.next + 1));
      }
    }
    slots := s.slots;
  }

  // ----- On a forest

  /** Everything at or below `b`. */
  ghost function Below(f: Forest, b: nat): (ds: set<nat>)
    requires f.Valid()
    ensures ds <= f.blocks.Keys
  {
    set d | d in f.blocks && Ancestor(f, b, d)
  }

  /** Everything at or below the children of `b` from the `n`-th on. */
  ghost function BelowKids(f: Forest, b: nat, n: nat): (ds: set<nat>)
    requires f.Valid() && b in f.blocks && n <= |f.Kids(b)|
    ensures ds <= f.blocks.Keys
    decreases |f.Kids(b)| - n
  {
    if n == |f.Kids(b)| then {} else Below(f, f.Kids(b)[n]) + BelowKids(f, b, n + 1)
  }

  ghost predicate IsMidpoint(x: real, s: seq<real>) {
    s != [] && x == (MinOf(s) + MaxOf(s)) / 2.0
  }

  /** With `off` free slots to the left: a leaf has the slot of its number, an inner block is halfway
      between its lowest and highest child, and both are within the leaves below the block. */
  ghost predicate Placed(f: Forest, slots: map<nat, real>, d: nat, off: int)
    requires f.Valid() && d in f.blocks
  {
    && d in slots
    && (f.Kids(d) == [] ==> slots[d] == (First(f, d) + off) as real)
    && (f.Kids(d) != [] ==> IsMidpoint(slots[d], KnownSlots(f.Kids(d), slots)))
    && (First(f, d) + off) as real <= slots[d] <= (First(f, d) + LeafCount(f, d) - 1 + off) as real
  }

  ghost predicate AllPlaced(f: Forest, slots: map<nat, real>, ds: set<nat>, off: int)
    requires f.Valid() && ds <= f.blocks.Keys
  {
    forall d {:trigger Placed(f, slots, d, off)} :: d in ds ==> Placed(f, slots, d, off)
  }

  /** What laying out the blocks `ds` does to a layout. */
  ghost predicate Extends(f: Forest, s: Layout, r: Layout, ds: set<nat>, leaves: nat, off: int)
    requires f.Valid() && ds <= f.blocks.Keys
  {
    && r.next == s.next + leaves && r.visiting == s.visiting
    && r.slots.Keys == s.slots.Keys + ds
    && (forall x :: x in s.slots && x !in ds ==> r.slots[x] == s.slots[x])
    && AllPlaced(f, r.slots, ds, off)
  }

  lemma {:induction false} BelowKidsMeaning(f: Forest, b: nat, n: nat)
    requires f.Valid() && b in f.blocks && n <= |f.Kids(b)|
    ensures forall d :: d in BelowKids(f, b, n) <==> exists i :: n <= i < |f.Kids(b)| && d in Below(f, f.Kids(b)[i])
    decreases |f.Kids(b)| - n
  {
    hide Below, Ancestor, Forest.Kids, Forest.Valid;
    if n < |f.Kids(b)| {
      BelowKidsMeaning(f, b, n + 1);
    }
  }

  /** What is below a block: itself, and what is below its children. */
  lemma BelowIsKids(f: Forest, b: nat)
    requires f.Valid() && b in f.blocks
    ensures Below(f, b) == {b} + BelowKids(f, b, 0)
    ensures b !in BelowKids(f, b, 0)
  {
    BelowKidsMeaning(f, b, 0);
    forall d | d in Below(f, b) && d != b
      ensures d in BelowKids(f, b, 0)
    {
      var k := ChildToward(f, b, d);
      assert f.Kids(b)[IndexOf(f.Kids(b), k)] == k;
    }
    forall i, d | 0 <= i < |f.Kids(b)| && d in Below(f, f.Kids(b)[i])
      ensures d in Below(f, b) && d != b
    {
      KidFacts(f, b, i);
      AncestorThroughKid(f, b, f.Kids(b)[i], d);
      AncestorIsLower(f, f.Kids(b)[i], d);
    }
  }

  lemma {:induction false} AncestorThroughKid(f: Forest, b: nat, k: nat, d: nat)
    requires f.Valid() && b in f.blocks && k in f.blocks && d in f.blocks && Parent(f.blocks, k) == Some(b)
    requires Ancestor(f, k, d)
    ensures Ancestor(f, b, d)
    decreases f.blocks[d].height
  {
    if k != d {
      ParentListsKid(f, d);
      AncestorThroughKid(f, b, k, Parent(f.blocks, d).value);
    } else {
      assert Ancestor(f, b, b);
    }
  }

  /** Different children have nothing below them in common. */
  lemma KidsDisjoint(f: Forest, b: nat, n: nat)
    requires f.Valid() && b in f.blocks && n < |f.Kids(b)|
    ensures Below(f, f.Kids(b)[n]) !! BelowKids(f, b, n + 1)
  {
    hide *;
    BelowKidsMeaning(f, b, n + 1);
    forall d | d in Below(f, f.Kids(b)[n]) && d in BelowKids(f, b, n + 1)
      ensures false
    {
      var i :| n + 1 <= i < |f.Kids(b)| && d in Below(f, f.Kids(b)[i]);
      OneKidAbove(f, b, n, i, d);
    }
  }

  lemma OneKidAbove(f: Forest, b: nat, i: nat, j: nat, d: nat)
    requires f.Valid() && b in f.blocks && i < j < |f.Kids(b)|
    ensures !(d in Below(f, f.Kids(b)[i]) && d in Below(f, f.Kids(b)[j]))
  {
    hide Forest.Kids;
    KidFacts(f, b, i);
    KidFacts(f, b, j);
    assert Distinct(f.Kids(b));
    if d in Below(f, f.Kids(b)[i]) && d in Below(f, f.Kids(b)[j]) {
      SameHeightAncestor(f, f.Kids(b)[i], f.Kids(b)[j], d);
    }
  }

  lemma {:induction false} SameHeightAncestor(f: Forest, x: nat, y: nat, d: nat)
    requires f.Valid() && x in f.blocks && y in f.blocks && d in f.blocks && Ancestor(f, x, d) && Ancestor(f, y, d)
    requires f.blocks[x].height == f.blocks[y].height
    ensures x == y
    decreases f.blocks[d].height
  {
    if x == d {
      AncestorIsLower(f, y, d);
    } else if y == d {
      AncestorIsLower(f, x, d);
    } else {
      SameHeightAncestor(f, x, y, Parent(f.blocks, d).value);
    }
  }

  lemma KnownSlotsFrame(kids: seq<nat>, slots: map<nat, real>, slots': map<nat, real>)
    requires forall k :: k in kids ==> (k in slots <==> k in slots') && (k in slots ==> slots[k] == slots'[k])
    ensures KnownSlots(kids, slots) == KnownSlots(kids, slots')
  {}

  /** Where a block is placed depends only on its slot and those of its children. */
  lemma PlacedFrame(f: Forest, slots: map<nat, real>, slots': map<nat, real>, d: nat, off: int)
    requires f.Valid() && d in f.blocks && Placed(f, slots, d, off)
    requires d in slots' && slots'[d] == slots[d]
    requires forall k :: k in f.Kids(d) ==> k in slots && k in slots' && slots[k] == slots'[k]
    ensures Placed(f, slots', d, off)
  {
    KnownSlotsFrame(f.Kids(d), slots, slots');
  }

  ghost predicate ClosedDown(f: Forest, ds: set<nat>) {
    forall d, k :: d in ds && k in f.Kids(d) ==> k in ds
  }

  lemma BelowIsClosed(f: Forest, b: nat)
    requires f.Valid() && b in f.blocks
    ensures ClosedDown(f, Below(f, b)) && ClosedDown(f, BelowKids(f, b, 0))
  {
    hide Forest.Valid, Forest.Kids, IndexOf, BelowKids;
    forall d, k | d in Below(f, b) && k in f.Kids(d)
      ensures k in Below(f, b) && k != b
    {
      KidFacts(f, d, IndexOf(f.Kids(d), k));
      AncestorIsLower(f, b, d);
    }
    BelowIsKids(f, b);
  }

  lemma ExtendsThen(f: Forest, s: Layout, r: Layout, t: Layout, a: set<nat>, b: set<nat>, m: nat, n: nat, off: int)
    requires f.Valid() && a <= f.blocks.Keys && b <= f.blocks.Keys && a !! b && ClosedDown(f, a)
    requires Extends(f, s, r, a, m, off) && Extends(f, r, t, b, n, off)
    ensures Extends(f, s, t, a + b, m + n, off)
  {
    hide Forest.Valid, Forest.Kids, Placed, First, LeafCount;
    forall d | d in a
      ensures Placed(f, t.slots, d, off)
    {
      assert Placed(f, r.slots, d, off);
      PlacedFrame(f, r.slots, t.slots, d, off);
    }
  }

  lemma AssignAllStep(f: Forest, kids: seq<nat>, n: nat, s: Layout)
    requires n < |kids|
    ensures AssignAll(f, kids[n..], s) == AssignAll(f, kids[n + 1..], Assign(f, kids[n], s))
  {
    assert kids[n..][1..] == kids[n + 1..];
  }

  lemma AssignNone(f: Forest, b: nat, s: Layout, off: int)
    requires f.Valid() && b in f.blocks
    ensures AssignAll(f, f.Kids(b)[|f.Kids(b)|..], s) == s && BelowKids(f, b, |f.Kids(b)|) == {}
    ensures Extends(f, s, s, {}, 0, off)
  {
    assert f.Kids(b)[|f.Kids(b)|..] == [];
  }

  lemma BelowKidsStep(f: Forest, b: nat, n: nat)
    requires f.Valid() && b in f.blocks && n < |f.Kids(b)|
    ensures BelowKids(f, b, n) == Below(f, f.Kids(b)[n]) + BelowKids(f, b, n + 1)
  {}

  lemma AssignLeaf(f: Forest, b: nat, s: Layout)
    requires f.Valid() && b in f.blocks && f.Kids(b) == [] && Below(f, b) !! s.slots.Keys + s.visiting
    ensures Extends(f, s, Assign(f, b, s), Below(f, b), LeafCount(f, b), s.next - First(f, b))
  {
    BelowIsKids(f, b);
    assert b in Below(f, b);
  }

  lemma AssignInner(f: Forest, b: nat, s: Layout)
    requires f.Valid() && b in f.blocks && f.Kids(b) != [] && Below(f, b) !! s.slots.Keys + s.visiting
    ensures b !in s.slots && b !in s.visiting
    ensures BelowKids(f, b, 0) !! s.slots.Keys + (s.visiting + {b})
    ensures Assign(f, b, s) == Finish(AssignAll(f, f.Kids(b)[0..], s.(visiting := s.visiting + {b})), b, f.Kids(b))
    ensures LeafSum(f, b, 0) == 0
  {
    BelowIsKids(f, b);
    hide Forest.Valid, LeafCount, First;
    assert f.Kids(b)[0..] == f.Kids(b);
  }

  /** Laying out a tree whose blocks are all fresh. */
  lemma {:induction false} AssignTree(f: Forest, b: nat, s: Layout)
    requires f.Valid() && b in f.blocks && Below(f, b) !! s.slots.Keys + s.visiting
    ensures Extends(f, s, Assign(f, b, s), Below(f, b), LeafCount(f, b), s.next - First(f, b))
    decreases Higher(f, b), |f.Kids(b)| + 1
  {
    hide *;
    if f.Kids(b) == [] {
      AssignLeaf(f, b, s);
    } else {
      var entered := s.(visiting := s.visiting + {b});
      AssignInner(f, b, s);
      AssignKids(f, b, 0, entered);
      LeafCountIsSum(f, b);
      FinishTree(f, b, s, entered, AssignAll(f, f.Kids(b)[0..], entered));
    }
  }

  /** Laying out the children from the `n`-th on. */
  lemma {:induction false} AssignKids(f: Forest, b: nat, n: nat, s: Layout)
    requires f.Valid() && b in f.blocks && n <= |f.Kids(b)| && BelowKids(f, b, n) !! s.slots.Keys + s.visiting
    ensures LeafSum(f, b, n) <= LeafSum(f, b, |f.Kids(b)|)
    ensures Extends(f, s, AssignAll(f, f.Kids(b)[n..], s), BelowKids(f, b, n),
                    LeafSum(f, b, |f.Kids(b)|) - LeafSum(f, b, n), s.next - First(f, b) - LeafSum(f, b, n))
    decreases Higher(f, b), |f.Kids(b)| - n
  {
    hide *;
    LeafSumMonotone(f, b, n, |f.Kids(b)|);
    if n == |f.Kids(b)| {
      AssignNone(f, b, s, s.next - First(f, b) - LeafSum(f, b, n));
    } else {
      var k := f.Kids(b)[n];
      KidHigher(f, b, n);
      KidIndex(f, b, n);
      KidsDisjoint(f, b, n);
      BelowKidsStep(f, b, n);
      AssignAllStep(f, f.Kids(b), n, s);
      var r := Assign(f, k, s);
      AssignTree(f, k, s);
      StillFresh(f, s, r, Below(f, k), BelowKids(f, b, n + 1), LeafCount(f, k), s.next - First(f, k));
      AssignKids(f, b, n + 1, r);
      BelowIsClosed(f, k);
      ExtendsThen(f, s, r, AssignAll(f, f.Kids(b)[n + 1..], r), Below(f, k), BelowKids(f, b, n + 1), LeafCount(f, k),
                  LeafSum(f, b, |f.Kids(b)|) - LeafSum(f, b, n + 1), s.next - First(f, k));
    }
  }

  lemma StillFresh(f: Forest, s: Layout, r: Layout, a: set<nat>, rest: set<nat>, leaves: nat, off: int)
    requires f.Valid() && a <= f.blocks.Keys && a !! rest && rest !! s.slots.Keys + s.visiting
    requires Extends(f, s, r, a, leaves, off)
    ensures rest !! r.slots.Keys + r.visiting && r.next == s.next + leaves && a <= f.blocks.Keys
  {}

  lemma ExtendsFacts(f: Forest, s: Layout, r: Layout, ds: set<nat>, leaves: nat, off: int)
    requires f.Valid() && ds <= f.blocks.Keys && Extends(f, s, r, ds, leaves, off)
    ensures AllPlaced(f, r.slots, ds, off) && ds <= r.slots.Keys && r.next == s.next + leaves
  {}

  /** Leaving a block after its children. */
  lemma FinishTree(f: Forest, b: nat, s: Layout, entered: Layout, t: Layout)
    requires f.Valid() && b in f.blocks && f.Kids(b) != [] && b !in s.slots && b !in s.visiting
    requires entered == s.(visiting := s.visiting + {b})
    requires Extends(f, entered, t, BelowKids(f, b, 0), LeafCount(f, b), s.next - First(f, b))
    ensures Extends(f, s, Finish(t, b, f.Kids(b)), Below(f, b), LeafCount(f, b), s.next - First(f, b))
  {
    hide *;
    BelowIsKids(f, b);
    BelowIsClosed(f, b);
    var rest, off := BelowKids(f, b, 0), s.next - First(f, b);
    ExtendsFacts(f, entered, t, rest, LeafCount(f, b), off);
    FinishedRoot(f, b, t, off);
    FinishFrame(f, b, t, rest, off);
    FinishExtends(f, b, s, entered, t, rest, LeafCount(f, b), off);
  }

  lemma FinishExtends(f: Forest, b: nat, s: Layout, entered: Layout, t: Layout, rest: set<nat>, leaves: nat, off: int)
    requires f.Valid() && b in f.blocks && b !in s.slots && b !in s.visiting && b !in rest && rest <= f.blocks.Keys
    requires entered == s.(visiting := s.visiting + {b}) && KnownSlots(f.Kids(b), t.slots) != []
    requires Extends(f, entered, t, rest, leaves, off)
    requires var r := Finish(t, b, f.Kids(b)); AllPlaced(f, r.slots, rest, off) && Placed(f, r.slots, b, off)
    ensures Extends(f, s, Finish(t, b, f.Kids(b)), {b} + rest, leaves, off)
  {
    hide Forest.Valid, Forest.Kids, Placed, KnownSlots, MinOf, MaxOf;
  }

  lemma FinishFrame(f: Forest, b: nat, t: Layout, ds: set<nat>, off: int)
    requires f.Valid() && b in f.blocks && KnownSlots(f.Kids(b), t.slots) != []
    requires ds <= f.blocks.Keys && ds <= t.slots.Keys && b !in ds && ClosedDown(f, ds)
    requires AllPlaced(f, t.slots, ds, off)
    ensures AllPlaced(f, Finish(t, b, f.Kids(b)).slots, ds, off)
  {
    hide Forest.Valid, Forest.Kids, Placed, First, LeafCount;
    forall d | d in ds
      ensures Placed(f, Finish(t, b, f.Kids(b)).slots, d, off)
    {
      assert Placed(f, t.slots, d, off);
      PlacedFrame(f, t.slots, Finish(t, b, f.Kids(b)).slots, d, off);
    }
  }

  lemma FinishedRoot(f: Forest, b: nat, t: Layout, off: int)
    requires f.Valid() && b in f.blocks && f.Kids(b) != []
    requires AllPlaced(f, t.slots, BelowKids(f, b, 0), off)
    ensures KnownSlots(f.Kids(b), t.slots) != []
    ensures Placed(f, Finish(t, b, f.Kids(b)).slots, b, off)
  {
    hide Forest.Valid, Forest.Kids, First, LeafCount, BelowKids, IndexOf;
    BelowIsKids(f, b);
    var low, high := (First(f, b) + off) as real, (First(f, b) + LeafCount(f, b) - 1 + off) as real;
    forall k | k in f.Kids(b)
      ensures k in t.slots && k != b && low <= t.slots[k] <= high
    {
      var i := IndexOf(f.Kids(b), k);
      KidFacts(f, b, i);
      BelowKidsMeaning(f, b, 0);
      assert Ancestor(f, k, k) && k in Below(f, f.Kids(b)[i]);
      assert Placed(f, t.slots, k, off);
      NestedBelowParent(f, b, k);
    }
    KnownSlotsBounds(f.Kids(b), t.slots, low, high);
    KnownSlotsFrame(f.Kids(b), t.slots, Finish(t, b, f.Kids(b)).slots);
  }

  lemma KnownSlotsBounds(kids: seq<nat>, slots: map<nat, real>, low: real, high: real)
    requires kids != [] && forall k :: k in kids ==> k in slots && low <= slots[k] <= high
    ensures var s := KnownSlots(kids, slots); s != [] && low <= MinOf(s) && MaxOf(s) <= high
  {
    var s := KnownSlots(kids, slots);
    assert kids[0] in kids;
    KnownSlotsWithin(kids, slots, low, high);
    assert MinOf(s) in s && MaxOf(s) in s;
  }

  lemma KnownSlotsWithin(kids: seq<nat>, slots: map<nat, real>, low: real, high: real)
    requires forall k :: k in kids ==> k in slots && low <= slots[k] <= high
    ensures forall x :: x in KnownSlots(kids, slots) ==> low <= x <= high
  {}
}
