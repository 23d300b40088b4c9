/** What compaction keeps and what it reaches, on every forest. */
module CompactionLaws {
  import opened Wrappers
  import opened Sorting
  import opened BlockForest
  import opened ForestNumbering
  import opened SlotLayout
  import opened ForestLayout
  import opened SlotCompaction

  /** Two different blocks of one height, the first to the left. */
  ghost predicate LeftOf(f: Forest, a: nat, b: nat)
    requires f.Valid()
  {
    a in f.blocks && b in f.blocks && f.blocks[a].height == f.blocks[b].height && Before(f, a, b)
  }

  lemma LeftOfIsOrder(f: Forest, a: nat, b: nat)
    requires f.Valid() && a in f.blocks && b in f.blocks && f.blocks[a].height == f.blocks[b].height
    ensures a != b ==> LeftOf(f, a, b) != LeftOf(f, b, a)
    ensures !LeftOf(f, a, a)
    ensures LeftOf(f, a, b) ==> First(f, a) + 1 <= First(f, b)
  {
    if a != b {
      SameHeightApart(f, a, b);
    }
  }

  /** A row from left to right. */
  ghost predicate RowInOrder(f: Forest, row: seq<nat>, h: nat)
    requires f.Valid()
  {
    && (forall b :: b in row <==> b in f.blocks && f.blocks[b].height == h)
    && (forall i, j :: 0 <= i < j < |row| ==> LeftOf(f, row[i], row[j]))
  }

  /** At every height of the blocks `ds`, at least one slot from each block to the next. */
  ghost predicate Spaced(f: Forest, slots: Slots, ds: set<nat>)
    requires f.Valid() && ds <= slots.Keys
  {
    forall a, b {:trigger LeftOf(f, a, b)} :: a in ds && b in ds && LeftOf(f, a, b) ==> slots[a] + 1.0 <= slots[b]
  }

  /** Sorting a row by slots that are spaced puts it in order. */
  lemma SortedRowInOrder(f: Forest, row: seq<nat>, h: nat, slots: Slots)
    requires f.Valid() && IsRow(f.blocks, row, h) && ToSet(row) <= slots.Keys && Spaced(f, slots, ToSet(row))
    ensures RowInOrder(f, SortBy(row, SlotKey(slots)), h)
  {
    hide Forest.Valid, LeftOf;
    var r := SortBy(row, SlotKey(slots));
    hide SortBy;
    PermutationDistinct(row, r);
    forall i, j | 0 <= i < j < |r|
      ensures LeftOf(f, r[i], r[j])
    {
      assert r[i] in row && r[j] in row && SlotKey(slots)(r[i]) <= SlotKey(slots)(r[j]);
      LeftOfIsOrder(f, r[i], r[j]);
    }
  }

  // ----- The first pass

  ghost function ParentSlot(f: Forest, slots: Slots, b: nat): real
    requires b in f.blocks
  {
    match Parent(f.blocks, b)
    case Some(p) => if p in slots then slots[p] else 0.0
    case None => 0.0
  }

  /** A block is at the slot of its parent, or else exactly one slot below its left neighbour. */
  ghost predicate PushedTo(f: Forest, slots: Slots, b: nat)
    requires f.Valid() && b in f.blocks && b in slots
  {
    var aim := ParentSlot(f, slots, b);
    slots[b] == aim || (aim < slots[b] && exists a :: a in slots && LeftOf(f, a, b) && slots[a] + 1.0 == slots[b])
  }

  /** The blocks `ds` after the first pass. */
  ghost predicate ForwardOk(f: Forest, slots: Slots, ds: set<nat>)
    requires f.Valid() && ds <= f.blocks.Keys
  {
    && slots.Keys == ds
    && Spaced(f, slots, ds)
    && (forall b {:trigger slots[b]} :: b in ds ==> 0.0 <= slots[b] <= First(f, b) as real)
    && (forall b {:trigger PushedTo(f, slots, b)} :: b in ds ==> PushedTo(f, slots, b))
  }

  /** All parents of a set are in it. */
  ghost predicate ClosedUp(f: Forest, ds: set<nat>)
    requires ds <= f.blocks.Keys
  {
    forall b :: b in ds && Parent(f.blocks, b).Some? ==> Parent(f.blocks, b).value in ds
  }

  /** `ds` is what lies below height `h` and the first `n` blocks at `h`. */
  ghost predicate UpTo(f: Forest, row: seq<nat>, n: nat, h: nat, ds: set<nat>) {
    && n <= |row|
    && ds <= f.blocks.Keys
    && (forall b :: b in f.blocks && f.blocks[b].height < h ==> b in ds)
    && (forall b :: b in ds ==> f.blocks[b].height < h || (f.blocks[b].height == h && b in row[..n]))
    && (forall b :: b in row[..n] ==> b in ds)
  }

  lemma UpToNext(f: Forest, row: seq<nat>, n: nat, h: nat, ds: set<nat>)
    requires f.Valid() && RowInOrder(f, row, h) && n < |row| && UpTo(f, row, n, h, ds)
    ensures row[n] in f.blocks && row[n] !in ds && UpTo(f, row, n + 1, h, ds + {row[n]})
    ensures n > 0 ==> row[n - 1] in ds && row[n - 1] in f.blocks && LeftOf(f, row[n - 1], row[n])
    ensures n > 0 ==> First(f, row[n - 1]) + 1 <= First(f, row[n])
    ensures forall a :: a in ds && LeftOf(f, a, row[n]) ==> n > 0 && (a == row[n - 1] || LeftOf(f, a, row[n - 1]))
    ensures forall a :: a in ds ==> !LeftOf(f, row[n], a)
    ensures match Parent(f.blocks, row[n])
            case Some(p) => p in ds && p in f.blocks && First(f, p) <= First(f, row[n])
            case None => f.blocks[row[n]].prev.Some? ==> f.blocks[row[n]].prev.value !in ds
  {
    hide Forest.Valid, Forest.Kids, First, LeafCount;
    assert row[..n + 1] == row[..n] + [row[n]];
    assert row[n] in row && row[..n + 1][n] == row[n];
    forall a | a in row[..n]
      ensures LeftOf(f, a, row[n]) && a != row[n] && !LeftOf(f, row[n], a)
      ensures n > 0 && (a == row[n - 1] || LeftOf(f, a, row[n - 1]))
    {
      var i :| 0 <= i < n && row[i] == a;
      LeftOfIsOrder(f, a, row[n]);
    }
    if n > 0 {
      assert row[..n][n - 1] == row[n - 1];
      LeftOfIsOrder(f, row[n - 1], row[n]);
    }
    ParentListsKid(f, row[n]);
    if Parent(f.blocks, row[n]).Some? {
      NestedBelowParent(f, Parent(f.blocks, row[n]).value, row[n]);
    }
  }

  /** A block to the right of the others of its height. */
  lemma AddBlock(f: Forest, slots: Slots, ds: set<nat>, b: nat, v: real)
    requires f.Valid() && b in f.blocks && b !in ds && ds <= f.blocks.Keys && ForwardOk(f, slots, ds) && ClosedUp(f, ds)
    requires forall a :: a in ds && LeftOf(f, a, b) ==> slots[a] + 1.0 <= v
    requires forall a :: a in ds ==> !LeftOf(f, b, a)
    requires 0.0 <= v <= First(f, b) as real && PushedTo(f, slots[b := v], b)
    ensures ForwardOk(f, slots[b := v], ds + {b})
  {
    hide Forest.Valid, Forest.Kids, First, LeafCount, LeftOf;
    LeftOfIsOrder(f, b, b);
    forall x | x in ds
      ensures PushedTo(f, slots[b := v], x)
    {
      hide Spaced;
      assert PushedTo(f, slots, x) && ParentSlot(f, slots[b := v], x) == ParentSlot(f, slots, x);
    }
  }

  /** The slot a block is pushed to keeps away from the left neighbour and within the number of the first leaf. */
  lemma PushValue(f: Forest, row: seq<nat>, n: nat, slots: Slots, ds: set<nat>) returns (v: real)
    requires f.Valid() && n < |row| && row[n] in f.blocks && row[n] !in ds && ds <= f.blocks.Keys
    requires ForwardOk(f, slots, ds)
    requires n > 0 ==> row[n - 1] in ds && row[n - 1] in f.blocks && LeftOf(f, row[n - 1], row[n])
    requires n > 0 ==> First(f, row[n - 1]) + 1 <= First(f, row[n])
    requires forall a :: a in ds && LeftOf(f, a, row[n]) ==> n > 0 && (a == row[n - 1] || LeftOf(f, a, row[n - 1]))
    requires match Parent(f.blocks, row[n])
             case Some(p) => p in ds && p in f.blocks && First(f, p) <= First(f, row[n])
             case None => f.blocks[row[n]].prev.Some? ==> f.blocks[row[n]].prev.value !in ds
    ensures PushBlock(f.blocks, row, n, slots) == slots[row[n] := v]
    ensures forall a :: a in ds && LeftOf(f, a, row[n]) ==> slots[a] + 1.0 <= v
    ensures 0.0 <= v <= First(f, row[n]) as real && PushedTo(f, slots[row[n] := v], row[n])
  {
    hide *;
    var b, aim := row[n], Target(f.blocks, slots, row[n]);
    OkKeys(f, slots, ds);
    v := PushedSlot(f.blocks, row, n, slots);
    AimFacts(f, slots, ds, b, v);
    if n > 0 {
      OkFacts(f, slots, ds, row[n - 1]);
    }
    forall a | a in ds && LeftOf(f, a, b)
      ensures slots[a] + 1.0 <= v
    {
      if a != row[n - 1] {
        SpacedFacts(f, slots, ds, a, row[n - 1]);
      }
    }
    PushedAt(f, slots, b, v, aim, if n > 0 then row[n - 1] else b);
  }

  lemma PushedSlot(m: BlockMap, row: seq<nat>, n: nat, slots: Slots) returns (v: real)
    requires n < |row| && row[n] in m && (n > 0 ==> row[n - 1] in slots)
    ensures PushBlock(m, row, n, slots) == slots[row[n] := v]
    ensures var aim := Target(m, slots, row[n]);
            && aim <= v && (n > 0 ==> slots[row[n - 1]] + 1.0 <= v)
            && (v == aim || (n > 0 && v == slots[row[n - 1]] + 1.0))
  {
    hide Target;
    v := PushBlock(m, row, n, slots)[row[n]];
  }

  lemma PushedAt(f: Forest, slots: Slots, b: nat, v: real, aim: real, a: nat)
    requires f.Valid() && b in f.blocks && ParentSlot(f, slots[b := v], b) == aim && aim <= v
    requires v == aim || (a != b && a in slots && LeftOf(f, a, b) && v == slots[a] + 1.0)
    ensures PushedTo(f, slots[b := v], b)
  {
    hide Forest.Valid, LeftOf, ParentSlot;
    var r := slots[b := v];
    if v != aim {
      assert a in r && LeftOf(f, a, b) && r[a] + 1.0 == r[b];
    }
  }

  lemma OkFacts(f: Forest, slots: Slots, ds: set<nat>, b: nat)
    requires f.Valid() && ds <= f.blocks.Keys && ForwardOk(f, slots, ds) && b in ds
    ensures b in slots && 0.0 <= slots[b] <= First(f, b) as real && PushedTo(f, slots, b)
  {
    hide PushedTo, Spaced, Forest.Valid;
  }

  lemma SpacedFacts(f: Forest, slots: Slots, ds: set<nat>, a: nat, b: nat)
    requires f.Valid() && ds <= f.blocks.Keys && ForwardOk(f, slots, ds) && a in ds && b in ds && LeftOf(f, a, b)
    ensures a in slots && b in slots && slots[a] + 1.0 <= slots[b]
  {
    hide PushedTo, LeftOf, Forest.Valid;
  }

  lemma AimFacts(f: Forest, slots: Slots, ds: set<nat>, b: nat, v: real)
    requires f.Valid() && b in f.blocks && b !in ds && ds <= f.blocks.Keys && ForwardOk(f, slots, ds)
    requires match Parent(f.blocks, b)
             case Some(p) => p in ds && p in f.blocks && First(f, p) <= First(f, b)
             case None => f.blocks[b].prev.Some? ==> f.blocks[b].prev.value !in ds
    ensures var aim := Target(f.blocks, slots, b);
            0.0 <= aim <= First(f, b) as real && ParentSlot(f, slots[b := v], b) == aim
  {
    hide PushedTo, Spaced, Forest.Valid;
  }

  /** Pushing one more block of the row. */
  lemma PushKeepsOk(f: Forest, row: seq<nat>, n: nat, h: nat, slots: Slots, ds: set<nat>)
    requires f.Valid() && RowInOrder(f, row, h) && n < |row| && UpTo(f, row, n, h, ds) && ForwardOk(f, slots, ds)
    requires ClosedUp(f, ds)
    ensures row[n] in f.blocks && row[n] !in ds && UpTo(f, row, n + 1, h, ds + {row[n]})
    ensures (n > 0 ==> row[n - 1] in slots) && ClosedUp(f, ds + {row[n]})
    ensures ForwardOk(f, PushBlock(f.blocks, row, n, slots), ds + {row[n]})
  {
    UpToNext(f, row, n, h, ds);
    hide *;
    OkKeys(f, slots, ds);
    var v := PushValue(f, row, n, slots, ds);
    AddBlock(f, slots, ds, row[n], v);
    CloseUp(f, ds, row[n]);
  }

  lemma OkKeys(f: Forest, slots: Slots, ds: set<nat>)
    requires f.Valid() && ds <= f.blocks.Keys && ForwardOk(f, slots, ds)
    ensures slots.Keys == ds
  {
    hide PushedTo, Spaced;
  }

  lemma CloseUp(f: Forest, ds: set<nat>, b: nat)
    requires b in f.blocks && ds <= f.blocks.Keys && ClosedUp(f, ds)
    requires Parent(f.blocks, b).Some? ==> Parent(f.blocks, b).value in ds
    ensures ClosedUp(f, ds + {b})
  {}

  lemma {:induction false} PushRowOk(f: Forest, row: seq<nat>, n: nat, h: nat, slots: Slots, start: set<nat>)
    returns (ds: set<nat>)
    requires f.Valid() && RowInOrder(f, row, h) && n <= |row| && forall b :: b in row ==> b in f.blocks
    requires UpTo(f, row, 0, h, start) && ForwardOk(f, slots, start) && ClosedUp(f, start)
    ensures UpTo(f, row, n, h, ds) && ClosedUp(f, ds) && ForwardOk(f, PushRow(f.blocks, row, n, slots), ds)
    decreases n
  {
    hide *;
    PushRowStep(f.blocks, row, n, slots);
    if n == 0 {
      ds := start;
    } else {
      var before := PushRowOk(f, row, n - 1, h, slots, start);
      PushKeepsOk(f, row, n - 1, h, PushRow(f.blocks, row, n - 1, slots), before);
      ds := before + {row[n - 1]};
    }
  }

  lemma PushRowStep(m: BlockMap, row: seq<nat>, n: nat, slots: Slots)
    requires n <= |row| && forall b :: b in row ==> b in m
    ensures PushRow(m, row, 0, slots) == slots
    ensures n > 0 ==> PushRow(m, row, n, slots) == PushBlock(m, row, n - 1, PushRow(m, row, n - 1, slots))
  {}

  /** The blocks of the first `n` heights. */
  ghost function Levels(f: Forest, heights: seq<nat>, n: nat): (ds: set<nat>)
    requires n <= |heights|
    ensures ds <= f.blocks.Keys
  {
    set b | b in f.blocks && f.blocks[b].height in heights[..n]
  }

  lemma LevelsStart(f: Forest, rows: map<nat, seq<nat>>, heights: seq<nat>, n: nat, row: seq<nat>)
    requires AreRows(f.blocks, rows, heights) && n < |heights|
    ensures UpTo(f, row, 0, heights[n], Levels(f, heights, n))
  {
    hide IsRow;
    forall b | b in f.blocks && f.blocks[b].height < heights[n]
      ensures f.blocks[b].height in heights[..n]
    {
      assert f.blocks[b].height in ToSet(heights);
      var i :| 0 <= i < |heights| && heights[i] == f.blocks[b].height;
      assert i < n && heights[..n][i] == heights[i];
    }
  }

  lemma LevelsEnd(f: Forest, rows: map<nat, seq<nat>>, heights: seq<nat>, n: nat, row: seq<nat>, ds: set<nat>)
    requires f.Valid() && AreRows(f.blocks, rows, heights) && n < |heights| && RowInOrder(f, row, heights[n])
    requires UpTo(f, row, |row|, heights[n], ds)
    ensures ds == Levels(f, heights, n + 1)
  {
    hide Forest.Valid, LeftOf;
    LevelsStart(f, rows, heights, n, row);
    assert heights[..n + 1] == heights[..n] + [heights[n]];
    assert row[..|row|] == row;
  }

  lemma LayoutSpaced(f: Forest, original: Slots, ds: set<nat>)
    requires f.Valid() && IsLayout(f, original) && ds <= f.blocks.Keys
    ensures ds <= original.Keys && Spaced(f, original, ds)
  {
    hide Forest.Valid, First, LeafCount, PlacedByRank;
    forall a, b | a in ds && b in ds && LeftOf(f, a, b)
      ensures original[a] + 1.0 <= original[b]
    {
      LayoutSeparates(f, original, a, b);
    }
  }

  /** Every row, sorted by the slots of a layout. */
  lemma LayoutRow(f: Forest, original: Slots, rows: map<nat, seq<nat>>, heights: seq<nat>, n: nat)
    requires f.Valid() && IsLayout(f, original) && AreRows(f.blocks, rows, heights) && n < |heights|
    ensures heights[n] in rows && RowInOrder(f, SortBy(rows[heights[n]], SlotKey(original)), heights[n])
  {
    hide Forest.Valid, SortBy, RowInOrder, IsLayout;
    assert heights[n] in ToSet(heights);
    var row := rows[heights[n]];
    LayoutSpaced(f, original, ToSet(row));
    SortedRowInOrder(f, row, heights[n], original);
  }

  /** The first pass, height by height. */
  lemma {:induction false} ForwardPassOk(f: Forest, original: Slots, rows: map<nat, seq<nat>>, heights: seq<nat>,
                                         n: nat)
    requires f.Valid() && IsLayout(f, original) && AreRows(f.blocks, rows, heights) && n <= |heights|
    ensures var ds := Levels(f, heights, n);
            ForwardOk(f, Forward(f.blocks, original, rows, heights, n), ds) && ClosedUp(f, ds)
  {
    hide *;
    if n == 0 {
      NothingPushed(f, original, rows, heights);
    } else {
      var h, s := heights[n - 1], Forward(f.blocks, original, rows, heights, n - 1);
      ForwardPassOk(f, original, rows, heights, n - 1);
      LayoutRow(f, original, rows, heights, n - 1);
      var row := SortBy(rows[h], SlotKey(original));
      LevelsStart(f, rows, heights, n - 1, row);
      ForwardStep(f.blocks, original, rows, heights, n - 1);
      var ds := PushRowOk(f, row, |row|, h, s, Levels(f, heights, n - 1));
      LevelsEnd(f, rows, heights, n - 1, row, ds);
    }
  }

  lemma NothingPushed(f: Forest, original: Slots, rows: map<nat, seq<nat>>, heights: seq<nat>)
    requires f.Valid() && AreRows(f.blocks, rows, heights)
    ensures var ds := Levels(f, heights, 0);
            ForwardOk(f, Forward(f.blocks, original, rows, heights, 0), ds) && ClosedUp(f, ds)
  {
    hide Forest.Valid, AreRows;
  }

  lemma AllLevels(f: Forest, rows: map<nat, seq<nat>>, heights: seq<nat>)
    requires AreRows(f.blocks, rows, heights)
    ensures Levels(f, heights, |heights|) == f.blocks.Keys
  {
    hide IsRow;
    assert heights[..|heights|] == heights;
    assert forall b :: b in f.blocks ==> f.blocks[b].height in ToSet(heights);
  }

  /** After the first pass every row is spaced, no block is below its first leaf, and none is lower than it must be. */
  lemma PushedIsForward(f: Forest, original: Slots, rows: map<nat, seq<nat>>, heights: seq<nat>)
    requires f.Valid() && IsLayout(f, original) && AreRows(f.blocks, rows, heights)
    ensures ForwardOk(f, Pushed(f.blocks, original, rows, heights), f.blocks.Keys)
  {
    ForwardPassOk(f, original, rows, heights, |heights|);
    AllLevels(f, rows, heights);
    hide Forest.Valid, AreRows, ForwardOk, Forward, IsLayout;
  }

  // ----- The second pass

  /** A block without children stays; another one is at the centre of its children, or as close as its
      neighbours let it: directly below the left one, or directly above where the right one was pushed. */
  ghost predicate Centred(f: Forest, pushed: Slots, slots: Slots, b: nat)
    requires b in slots && pushed.Keys == slots.Keys && f.Valid()
  {
    var childSlots := KnownSlots(f.Kids(b), slots);
    if childSlots == [] then
      slots[b] == pushed[b]
    else
      var centre := (MinOf(childSlots) + MaxOf(childSlots)) / 2.0;
      || slots[b] == centre
      || (centre < slots[b] && exists a :: a in slots && LeftOf(f, a, b) && slots[a] + 1.0 == slots[b])
      || (slots[b] < centre && exists a :: a in slots && LeftOf(f, b, a) && slots[b] + 1.0 == pushed[a])
  }

  /** Spaced, and no block further than the last leaf of an uncompacted layout without gaps. */
  ghost predicate Compact(f: Forest, slots: Slots)
    requires f.Valid()
  {
    && slots.Keys == f.blocks.Keys
    && Spaced(f, slots, f.blocks.Keys)
    && (forall b :: b in slots ==> 0.0 <= slots[b] <= (RootSum(f, |f.roots|) - 1) as real)
  }

  /** The blocks `ds` are centred, the others still where they were pushed. */
  ghost predicate BackwardOk(f: Forest, pushed: Slots, slots: Slots, ds: set<nat>)
    requires f.Valid() && ds <= f.blocks.Keys
  {
    && Compact(f, slots) && pushed.Keys == slots.Keys
    && (forall b :: b in slots && b !in ds ==> slots[b] == pushed[b])
    && (forall b :: b in ds ==> Centred(f, pushed, slots, b))
  }

  lemma CentredFrame(f: Forest, pushed: Slots, slots: Slots, x: nat, b: nat, v: real)
    requires f.Valid() && pushed.Keys == slots.Keys && x in slots && b in slots && x != b
    requires Centred(f, pushed, slots, x)
    requires !LeftOf(f, b, x) && b !in f.Kids(x)
    ensures pushed.Keys == slots[b := v].Keys && Centred(f, pushed, slots[b := v], x)
  {
    hide Forest.Valid, Forest.Kids, LeftOf, MinOf, MaxOf, KnownSlots;
    KnownSlotsFrame(f.Kids(x), slots, slots[b := v]);
  }

  /** One more block centred. */
  lemma CentreOne(f: Forest, pushed: Slots, slots: Slots, ds: set<nat>, b: nat, v: real)
    requires f.Valid() && b in f.blocks && b !in ds && ds <= f.blocks.Keys && BackwardOk(f, pushed, slots, ds)
    requires forall x :: x in ds ==> !LeftOf(f, b, x) && b !in f.Kids(x)
    requires forall a :: a in f.blocks && LeftOf(f, a, b) ==> slots[a] + 1.0 <= v
    requires forall a :: a in f.blocks && LeftOf(f, b, a) ==> v + 1.0 <= slots[a]
    requires 0.0 <= v <= (RootSum(f, |f.roots|) - 1) as real
    requires pushed.Keys == slots[b := v].Keys && Centred(f, pushed, slots[b := v], b)
    ensures BackwardOk(f, pushed, slots[b := v], ds + {b})
  {
    hide Forest.Valid, Forest.Kids, LeftOf, Centred, RootSum;
    LeftOfIsOrder(f, b, b);
    forall x | x in ds
      ensures Centred(f, pushed, slots[b := v], x)
    {
      CentredFrame(f, pushed, slots, x, b, v);
    }
  }

  /** `ds` is what lies above height `h` and the first `n` blocks at `h`. */
  ghost predicate DownTo(f: Forest, row: seq<nat>, n: nat, h: nat, ds: set<nat>) {
    && n <= |row|
    && ds <= f.blocks.Keys
    && (forall b :: b in f.blocks && f.blocks[b].height > h ==> b in ds)
    && (forall b :: b in ds ==> f.blocks[b].height > h || (f.blocks[b].height == h && b in row[..n]))
    && (forall b :: b in row[..n] ==> b in ds)
  }

  /** The neighbours of a block in its row are those next to it. */
  ghost predicate Neighbours(f: Forest, row: seq<nat>, n: nat)
    requires f.Valid() && n < |row|
  {
    && (forall b :: b in row ==> b in f.blocks)
    && (n > 0 ==> LeftOf(f, row[n - 1], row[n]))
    && (n < |row| - 1 ==> LeftOf(f, row[n], row[n + 1]))
    && (forall a :: LeftOf(f, a, row[n]) ==> n > 0 && (a == row[n - 1] || LeftOf(f, a, row[n - 1])))
    && (forall a :: LeftOf(f, row[n], a) ==> n < |row| - 1 && (a == row[n + 1] || LeftOf(f, row[n + 1], a)))
  }

  lemma RowNeighbours(f: Forest, row: seq<nat>, n: nat, h: nat)
    requires f.Valid() && RowInOrder(f, row, h) && n < |row|
    ensures Neighbours(f, row, n)
  {
    hide Forest.Valid, First, LeafCount;
    forall a | a in row
      ensures LeftOf(f, a, row[n]) ==> n > 0 && (a == row[n - 1] || LeftOf(f, a, row[n - 1]))
      ensures LeftOf(f, row[n], a) ==> n < |row| - 1 && (a == row[n + 1] || LeftOf(f, row[n + 1], a))
    {
      var i :| 0 <= i < |row| && row[i] == a;
      assert row[n] in row;
      LeftOfIsOrder(f, a, row[n]);
    }
    assert row[n] in row;
  }

  lemma DownToNext(f: Forest, row: seq<nat>, n: nat, h: nat, ds: set<nat>)
    requires f.Valid() && RowInOrder(f, row, h) && n < |row| && DownTo(f, row, n, h, ds)
    ensures row[n] in f.blocks && row[n] !in ds && DownTo(f, row, n + 1, h, ds + {row[n]})
    ensures ds <= f.blocks.Keys && (n < |row| - 1 ==> row[n + 1] !in ds)
    ensures forall x :: x in ds ==> !LeftOf(f, row[n], x) && row[n] !in f.Kids(x)
    ensures row[n] !in f.Kids(row[n])
  {
    hide Forest.Valid, Forest.Kids, First, LeafCount;
    assert row[..n + 1] == row[..n] + [row[n]];
    assert row[n] in row && row[..n + 1][n] == row[n];
    forall a, k | a in row[..n] && n <= k < |row|
      ensures !LeftOf(f, row[n], a) && a != row[k]
    {
      var i :| 0 <= i < n && row[i] == a;
      LeftOfIsOrder(f, a, row[n]);
      LeftOfIsOrder(f, a, row[k]);
    }
    forall x | x in f.blocks && row[n] in f.Kids(x)
      ensures f.blocks[x].height < h
    {
      KidFacts(f, x, IndexOf(f.Kids(x), row[n]));
    }
  }

  lemma KnownSlotsAreSlots(kids: seq<nat>, slots: Slots, top: real)
    requires forall b :: b in slots ==> 0.0 <= slots[b] <= top
    ensures forall x :: x in KnownSlots(kids, slots) ==> 0.0 <= x <= top
  {}

  lemma KnownSlotsOfKnown(m: BlockMap, ids: seq<nat>, slots: Slots)
    requires slots.Keys == m.Keys
    ensures KnownSlots(KnownIds(m, ids), slots) == KnownSlots(ids, slots)
  {
    if ids != [] {
      KnownSlotsOfKnown(m, ids[1..], slots);
      if ids[0] in m {
        assert KnownIds(m, ids)[1..] == KnownIds(m, ids[1..]);
      } else {
        assert KnownIds(m, ids) == KnownIds(m, ids[1..]);
      }
    }
  }

  lemma CentreOfKids(f: Forest, slots: Slots, b: nat, top: real)
    requires slots.Keys == f.blocks.Keys && forall x :: x in slots ==> 0.0 <= slots[x] <= top
    ensures var s := KnownSlots(f.Kids(b), slots);
            && Centre(f.children, slots, b) == (if s == [] then None else Some((MinOf(s) + MaxOf(s)) / 2.0))
            && (s != [] ==> 0.0 <= (MinOf(s) + MaxOf(s)) / 2.0 <= top)
  {
    KnownSlotsOfKnown(f.blocks, GetList(f.children, b), slots);
    KnownSlotsAreSlots(f.Kids(b), slots, top);
  }

  /** What `CentreBlock` does in a spaced row: the interval between the neighbours is never empty. */
  lemma CentredSlot(children: ChildrenMap, row: seq<nat>, n: nat, slots: Slots, top: real) returns (v: real)
    requires n < |row| && forall b :: b in row ==> b in slots && 0.0 <= slots[b] <= top
    requires n > 0 ==> slots[row[n - 1]] + 1.0 <= slots[row[n]]
    requires n < |row| - 1 ==> slots[row[n]] + 1.0 <= slots[row[n + 1]]
    requires var c := Centre(children, slots, row[n]); c.Some? ==> 0.0 <= c.value <= top
    ensures CentreBlock(children, row, n, slots) == slots[row[n] := v] && 0.0 <= v <= top
    ensures n > 0 ==> slots[row[n - 1]] + 1.0 <= v
    ensures n < |row| - 1 ==> v + 1.0 <= slots[row[n + 1]]
    ensures match Centre(children, slots, row[n])
            case None => v == slots[row[n]]
            case Some(c) => v == c || (c < v && n > 0 && slots[row[n - 1]] + 1.0 == v)
                                   || (v < c && n < |row| - 1 && v + 1.0 == slots[row[n + 1]])
  {
    hide Centre;
    assert row[n] in row;
    v := CentreBlock(children, row, n, slots)[row[n]];
  }

  lemma CentredAt(f: Forest, pushed: Slots, slots: Slots, row: seq<nat>, n: nat, v: real)
    requires f.Valid() && n < |row| && pushed.Keys == slots.Keys && Neighbours(f, row, n) && f.blocks.Keys == slots.Keys
    requires row[n] in slots && row[n] !in f.Kids(row[n]) && slots[row[n]] == pushed[row[n]]
    requires n < |row| - 1 ==> row[n + 1] in slots && slots[row[n + 1]] == pushed[row[n + 1]]
    requires n > 0 ==> row[n - 1] in slots && slots[row[n - 1]] + 1.0 <= slots[row[n]]
    requires match Centre(f.children, slots, row[n])
             case None => v == slots[row[n]]
             case Some(c) => v == c || (c < v && n > 0 && slots[row[n - 1]] + 1.0 == v)
                                    || (v < c && n < |row| - 1 && v + 1.0 == slots[row[n + 1]])
    requires var s := KnownSlots(f.Kids(row[n]), slots);
             Centre(f.children, slots, row[n]) == if s == [] then None else Some((MinOf(s) + MaxOf(s)) / 2.0)
    ensures pushed.Keys == slots[row[n] := v].Keys && Centred(f, pushed, slots[row[n] := v], row[n])
  {
    hide Forest.Valid, Forest.Kids, LeftOf, MinOf, MaxOf, KnownSlots, Centre;
    var r := slots[row[n] := v];
    KnownSlotsFrame(f.Kids(row[n]), slots, r);
    if n > 0 {
      assert row[n - 1] in r && LeftOf(f, row[n - 1], row[n]) && r[row[n - 1]] == slots[row[n - 1]];
    }
    if n < |row| - 1 {
      assert row[n + 1] in r && LeftOf(f, row[n], row[n + 1]);
    }
  }

  lemma BackwardFacts(f: Forest, pushed: Slots, slots: Slots, ds: set<nat>, row: seq<nat>, n: nat)
    requires f.Valid() && n < |row| && Neighbours(f, row, n) && ds <= f.blocks.Keys && BackwardOk(f, pushed, slots, ds)
    requires row[n] !in ds && (n < |row| - 1 ==> row[n + 1] !in ds)
    ensures slots.Keys == f.blocks.Keys == pushed.Keys && forall b :: b in row ==> b in slots
    ensures forall b :: b in slots ==> 0.0 <= slots[b] <= (RootSum(f, |f.roots|) - 1) as real
    ensures n > 0 ==> slots[row[n - 1]] + 1.0 <= slots[row[n]]
    ensures n < |row| - 1 ==> slots[row[n]] + 1.0 <= slots[row[n + 1]] && slots[row[n + 1]] == pushed[row[n + 1]]
    ensures slots[row[n]] == pushed[row[n]]
  {
    hide Forest.Valid, LeftOf, Centred, RootSum;
  }

  lemma SpacedFromNeighbours(f: Forest, slots: Slots, row: seq<nat>, n: nat, v: real)
    requires f.Valid() && n < |row| && Neighbours(f, row, n) && slots.Keys == f.blocks.Keys
    requires Spaced(f, slots, f.blocks.Keys)
    requires n > 0 ==> slots[row[n - 1]] + 1.0 <= v
    requires n < |row| - 1 ==> v + 1.0 <= slots[row[n + 1]]
    ensures forall a :: a in f.blocks && LeftOf(f, a, row[n]) ==> slots[a] + 1.0 <= v
    ensures forall a :: a in f.blocks && LeftOf(f, row[n], a) ==> v + 1.0 <= slots[a]
  {
    hide Forest.Valid, LeftOf;
  }

  lemma CompactIsSpaced(f: Forest, pushed: Slots, slots: Slots, ds: set<nat>)
    requires f.Valid() && ds <= f.blocks.Keys && BackwardOk(f, pushed, slots, ds)
    ensures slots.Keys == f.blocks.Keys && Spaced(f, slots, f.blocks.Keys)
  {
    hide Forest.Valid, LeftOf, Centred, Spaced;
  }

  /** Centring one more block of the row. */
  lemma CentreKeepsOk(f: Forest, pushed: Slots, row: seq<nat>, n: nat, h: nat, slots: Slots, ds: set<nat>)
    requires f.Valid() && RowInOrder(f, row, h) && n < |row| && DownTo(f, row, n, h, ds)
    requires BackwardOk(f, pushed, slots, ds)
    ensures (forall b :: b in row ==> b in slots) && row[n] in f.blocks && DownTo(f, row, n + 1, h, ds + {row[n]})
    ensures BackwardOk(f, pushed, CentreBlock(f.children, row, n, slots), ds + {row[n]})
  {
    hide *;
    RowNeighbours(f, row, n, h);
    DownToNext(f, row, n, h, ds);
    BackwardFacts(f, pushed, slots, ds, row, n);
    var top := (RootSum(f, |f.roots|) - 1) as real;
    CentreOfKids(f, slots, row[n], top);
    var v := CentredSlot(f.children, row, n, slots, top);
    CompactIsSpaced(f, pushed, slots, ds);
    SpacedFromNeighbours(f, slots, row, n, v);
    CentredAt(f, pushed, slots, row, n, v);
    CentreOne(f, pushed, slots, ds, row[n], v);
  }

  lemma {:induction false} CentreRowOk(f: Forest, pushed: Slots, row: seq<nat>, n: nat, h: nat, slots: Slots,
                                       start: set<nat>)
    returns (ds: set<nat>)
    requires f.Valid() && RowInOrder(f, row, h) && n <= |row| && forall b :: b in row ==> b in slots
    requires DownTo(f, row, 0, h, start) && BackwardOk(f, pushed, slots, start)
    ensures DownTo(f, row, n, h, ds) && BackwardOk(f, pushed, CentreRow(f.children, row, n, slots), ds)
    decreases n
  {
    hide *;
    CentreRowNone(f.children, row, slots);
    if n == 0 {
      ds := start;
    } else {
      var before := CentreRowOk(f, pushed, row, n - 1, h, slots, start);
      CentreRowStep(f.children, row, n - 1, slots);
      CentreKeepsOk(f, pushed, row, n - 1, h, CentreRow(f.children, row, n - 1, slots), before);
      ds := before + {row[n - 1]};
    }
  }

  lemma CentreRowNone(children: ChildrenMap, row: seq<nat>, slots: Slots)
    requires forall b :: b in row ==> b in slots
    ensures CentreRow(children, row, 0, slots) == slots
  {}

  /** The blocks of the heights from the `n`-th on. */
  ghost function Above(f: Forest, heights: seq<nat>, n: nat): (ds: set<nat>)
    requires n <= |heights|
    ensures ds <= f.blocks.Keys
  {
    set b | b in f.blocks && f.blocks[b].height in heights[n..]
  }

  lemma AboveStart(f: Forest, rows: map<nat, seq<nat>>, heights: seq<nat>, n: nat, row: seq<nat>)
    requires AreRows(f.blocks, rows, heights) && n < |heights|
    ensures DownTo(f, row, 0, heights[n], Above(f, heights, n + 1))
  {
    hide IsRow;
    forall b | b in f.blocks && f.blocks[b].height > heights[n]
      ensures f.blocks[b].height in heights[n + 1..]
    {
      assert f.blocks[b].height in ToSet(heights);
      var i :| 0 <= i < |heights| && heights[i] == f.blocks[b].height;
      assert i > n && heights[n + 1..][i - n - 1] == heights[i];
    }
  }

  lemma AboveEnd(f: Forest, rows: map<nat, seq<nat>>, heights: seq<nat>, n: nat, row: seq<nat>, ds: set<nat>)
    requires f.Valid() && AreRows(f.blocks, rows, heights) && n < |heights| && RowInOrder(f, row, heights[n])
    requires DownTo(f, row, |row|, heights[n], ds)
    ensures ds == Above(f, heights, n)
  {
    hide Forest.Valid, LeftOf;
    AboveStart(f, rows, heights, n, row);
    assert heights[n..] == [heights[n]] + heights[n + 1..];
    assert row[..|row|] == row;
  }

  /** The rows of the first pass list the blocks of their heights. */
  lemma SortedRowsAreRows(m: BlockMap, rows: map<nat, seq<nat>>, heights: seq<nat>, original: Slots)
    requires AreRows(m, rows, heights)
    ensures AreRows(m, SortedRows(rows, original), heights)
  {
    hide SortBy;
    forall h | h in rows
      ensures IsRow(m, SortBy(rows[h], SlotKey(original)), h)
    {
      PermutationDistinct(rows[h], SortBy(rows[h], SlotKey(original)));
    }
  }

  lemma SpacedSubset(f: Forest, slots: Slots, ds: set<nat>)
    requires f.Valid() && ds <= f.blocks.Keys <= slots.Keys && Spaced(f, slots, f.blocks.Keys)
    ensures Spaced(f, slots, ds)
  {
    hide Forest.Valid, LeftOf;
  }

  /** Sorting a row again by the new slots leaves it in order. */
  lemma CompactRow(f: Forest, slots: Slots, rows: map<nat, seq<nat>>, heights: seq<nat>, n: nat)
    requires f.Valid() && slots.Keys == f.blocks.Keys && Spaced(f, slots, f.blocks.Keys)
    requires AreRows(f.blocks, rows, heights) && n < |heights|
    ensures heights[n] in rows && RowInOrder(f, SortBy(rows[heights[n]], SlotKey(slots)), heights[n])
    ensures forall b :: b in SortBy(rows[heights[n]], SlotKey(slots)) ==> b in slots
  {
    hide Forest.Valid, SortBy, RowInOrder, Spaced;
    assert heights[n] in ToSet(heights);
    var row := rows[heights[n]];
    SpacedSubset(f, slots, ToSet(row));
    SortedRowInOrder(f, row, heights[n], slots);
  }

  lemma BackwardUnfold(children: ChildrenMap, rows: map<nat, seq<nat>>, heights: seq<nat>, n: nat, slots: Slots)
    requires rows.Keys == ToSet(heights) && n <= |heights|
    requires forall h, b :: h in rows && b in rows[h] ==> b in slots
    ensures n == |heights| ==> Backward(children, rows, heights, n, slots) == slots
    ensures n < |heights| ==>
      var s := Backward(children, rows, heights, n + 1, slots);
      && heights[n] in rows
      && var row := SortBy(rows[heights[n]], SlotKey(s));
      && (forall b :: b in row ==> b in s)
      && Backward(children, rows, heights, n, slots) == CentreRow(children, row, |row|, s)
  {
    hide SortBy, CentreRow;
  }

  /** The second pass, height by height. */
  lemma {:induction false} BackwardPassOk(f: Forest, pushed: Slots, rows: map<nat, seq<nat>>, heights: seq<nat>, n: nat)
    requires f.Valid() && AreRows(f.blocks, rows, heights) && n <= |heights| && BackwardOk(f, pushed, pushed, {})
    ensures rows.Keys == ToSet(heights) && forall h, b :: h in rows && b in rows[h] ==> b in pushed
    ensures BackwardOk(f, pushed, Backward(f.children, rows, heights, n, pushed), Above(f, heights, n))
    decreases |heights| - n
  {
    hide *;
    RowsArePushed(f, pushed, rows, heights);
    BackwardUnfold(f.children, rows, heights, n, pushed);
    if n < |heights| {
      var s := Backward(f.children, rows, heights, n + 1, pushed);
      BackwardPassOk(f, pushed, rows, heights, n + 1);
      CompactIsSpaced(f, pushed, s, Above(f, heights, n + 1));
      CompactRow(f, s, rows, heights, n);
      var row := SortBy(rows[heights[n]], SlotKey(s));
      AboveStart(f, rows, heights, n, row);
      var ds := CentreRowOk(f, pushed, row, |row|, heights[n], s, Above(f, heights, n + 1));
      AboveEnd(f, rows, heights, n, row, ds);
    }
  }

  lemma RowsArePushed(f: Forest, pushed: Slots, rows: map<nat, seq<nat>>, heights: seq<nat>)
    requires f.Valid() && AreRows(f.blocks, rows, heights) && BackwardOk(f, pushed, pushed, {})
    ensures rows.Keys == ToSet(heights) && forall h, b :: h in rows && b in rows[h] ==> b in pushed
    ensures Above(f, heights, |heights|) == {}
  {
    hide Forest.Valid, LeftOf, Centred, RootSum;
    assert heights[|heights|..] == [];
  }

  lemma ForwardIsCompact(f: Forest, pushed: Slots)
    requires f.Valid() && ForwardOk(f, pushed, f.blocks.Keys)
    ensures BackwardOk(f, pushed, pushed, {})
  {
    hide Forest.Valid, First, LeafCount, RootSum, LeftOf, Centred, PushedTo;
    forall b | b in pushed
      ensures pushed[b] <= (RootSum(f, |f.roots|) - 1) as real
    {
      WithinTotal(f, b);
    }
  }

  /** Both passes, on every forest: rows are spaced, the result is no taller than the number of leaves, and
      every block is where the two passes want it, unless a neighbour at exactly one slot stands in the way. */
  lemma CompactionOfForest(f: Forest, original: Slots, rows: map<nat, seq<nat>>, heights: seq<nat>)
    requires f.Valid() && IsLayout(f, original) && AreRows(f.blocks, rows, heights)
    ensures var pushed := Pushed(f.blocks, original, rows, heights);
            var slots := Compacted(f.blocks, f.children, original, rows, heights);
            && ForwardOk(f, pushed, f.blocks.Keys)
            && Compact(f, slots) && pushed.Keys == slots.Keys
            && forall b :: b in slots ==> Centred(f, pushed, slots, b)
  {
    hide *;
    var pushed := Pushed(f.blocks, original, rows, heights);
    PushedIsForward(f, original, rows, heights);
    ForwardIsCompact(f, pushed);
    SortedRowsAreRows(f.blocks, rows, heights, original);
    BackwardPassOk(f, pushed, SortedRows(rows, original), heights, 0);
    BackwardIsCompacted(f, original, rows, heights);
    AllAbove(f, rows, heights);
    BackwardDone(f, pushed, Compacted(f.blocks, f.children, original, rows, heights));
  }

  lemma BackwardIsCompacted(f: Forest, original: Slots, rows: map<nat, seq<nat>>, heights: seq<nat>)
    requires AreRows(f.blocks, rows, heights)
    requires var sorted, pushed := SortedRows(rows, original), Pushed(f.blocks, original, rows, heights);
             sorted.Keys == ToSet(heights) && forall h, b :: h in sorted && b in sorted[h] ==> b in pushed
    ensures Compacted(f.blocks, f.children, original, rows, heights)
         == Backward(f.children, SortedRows(rows, original), heights, 0, Pushed(f.blocks, original, rows, heights))
  {
    hide AreRows, Backward, Pushed, SortedRows;
  }

  lemma AllAbove(f: Forest, rows: map<nat, seq<nat>>, heights: seq<nat>)
    requires AreRows(f.blocks, rows, heights)
    ensures Above(f, heights, 0) == f.blocks.Keys
  {
    hide IsRow;
    assert forall b :: b in f.blocks ==> f.blocks[b].height in ToSet(heights);
  }

  lemma BackwardDone(f: Forest, pushed: Slots, slots: Slots)
    requires f.Valid() && BackwardOk(f, pushed, slots, f.blocks.Keys)
    ensures Compact(f, slots) && pushed.Keys == slots.Keys && forall b :: b in slots ==> Centred(f, pushed, slots, b)
  {
    hide Forest.Valid, Spaced, Centred, RootSum;
  }

  // ----- What it means for the picture

  /** Two blocks at one height end at least one slot apart. */
  lemma CompactionSeparates(f: Forest, slots: Slots, a: nat, b: nat)
    requires f.Valid() && Compact(f, slots) && a in f.blocks && b in f.blocks && a != b
    requires f.blocks[a].height == f.blocks[b].height
    ensures a in slots && b in slots && (slots[a] + 1.0 <= slots[b] || slots[b] + 1.0 <= slots[a])
    ensures slots[a] < slots[b] <==> Before(f, a, b)
  {
    LeftOfIsOrder(f, a, b);
    hide Forest.Valid, First, LeafCount, RootSum;
  }

  /** Compaction keeps the order of every height. */
  lemma CompactionKeepsOrder(f: Forest, original: Slots, slots: Slots, a: nat, b: nat)
    requires f.Valid() && IsLayout(f, original) && Compact(f, slots) && a in f.blocks && b in f.blocks
    requires f.blocks[a].height == f.blocks[b].height
    ensures a in slots && b in slots && a in original && b in original
    ensures (slots[a] < slots[b] <==> original[a] < original[b])
  {
    hide *;
    LayoutOrdersHeights(f, original, a, b);
    CompactKeys(f, slots);
    if a != b {
      CompactionSeparates(f, slots, a, b);
    }
  }

  lemma CompactKeys(f: Forest, slots: Slots)
    requires f.Valid() && Compact(f, slots)
    ensures slots.Keys == f.blocks.Keys
  {
    hide Forest.Valid, Spaced, RootSum;
  }

  /** No two edges between the same heights cross. */
  lemma NoCrossings(f: Forest, slots: Slots, a: nat, b: nat)
    requires f.Valid() && Compact(f, slots) && a in f.blocks && b in f.blocks
    requires f.blocks[a].height == f.blocks[b].height
    requires Parent(f.blocks, a).Some? && Parent(f.blocks, b).Some?
    requires a in slots && b in slots && slots[a] < slots[b]
    ensures var pa, pb := Parent(f.blocks, a).value, Parent(f.blocks, b).value;
            pa in slots && pb in slots && slots[pa] <= slots[pb] && f.blocks[pa].height == f.blocks[pb].height
  {
    ParentListsKid(f, a);
    ParentListsKid(f, b);
    hide *;
    CompactKeys(f, slots);
    var pa, pb := Parent(f.blocks, a).value, Parent(f.blocks, b).value;
    CompactionSeparates(f, slots, a, b);
    ParentsInOrder(f, a, b);
    if pa != pb {
      CompactionSeparates(f, slots, pa, pb);
    }
  }

  /** The compacted picture is never taller than the layout it started from. */
  lemma NeverTaller(f: Forest, original: Slots, slots: Slots, b: nat) returns (d: nat)
    requires f.Valid() && IsLayout(f, original) && Compact(f, slots) && b in f.blocks
    ensures b in slots && d in original && slots[b] <= original[d]
  {
    hide Forest.Valid, Forest.Kids, Spaced, RootSum, IsLayout;
    var r := Root(f, b);
    d := LayoutReaches(f, original);
  }
}
