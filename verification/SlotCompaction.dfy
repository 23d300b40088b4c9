/** The two-pass compaction of slots: push every row apart, then centre the parents. */
module SlotCompaction {
  import opened Wrappers
  import opened Sorting
  import opened BlockForest
  import opened SlotLayout

  type Slots = map<nat, real>

  function SlotKey(slots: Slots): nat -> real {
    (b: nat) => if b in slots then slots[b] else 0.0
  }

  function Max(x: real, y: real): real {
    if x <= y then y else x
  }

  function Min(x: real, y: real): real {
    if x <= y then x else y
  }

  // ----- Rows

  /** The blocks of one height, each once. */
  ghost predicate IsRow(m: BlockMap, row: seq<nat>, h: nat) {
    Distinct(row) && forall b {:trigger b in row} {:trigger m[b]} :: b in row <==> b in m && m[b].height == h
  }

  ghost predicate Ascending(heights: seq<nat>) {
    forall i, j :: 0 <= i < j < |heights| ==> heights[i] < heights[j]
  }

  /** All rows, and their heights from the lowest to the highest. */
  ghost predicate AreRows(m: BlockMap, rows: map<nat, seq<nat>>, heights: seq<nat>) {
    && Ascending(heights)
    && rows.Keys == ToSet(heights)
    && (forall h {:trigger rows[h]} :: h in rows ==> IsRow(m, rows[h], h))
    && (forall b {:trigger m[b]} :: b in m ==> m[b].height in rows)
  }

  /** The rows of the first `n` blocks. */
  ghost predicate GroupedUpTo(blocks: seq<Block>, m: BlockMap, n: nat, rows: map<nat, seq<nat>>)
    requires n <= |blocks|
  {
    && (forall h :: h in rows ==> Distinct(rows[h]))
    && (forall h, b :: h in rows && b in rows[h] ==> b in m && m[b].height == h && m[b] in blocks[..n])
    && (forall i :: 0 <= i < n ==> blocks[i].height in rows && blocks[i].id in rows[blocks[i].height])
  }

  lemma GroupStep(blocks: seq<Block>, m: BlockMap, n: nat, rows: map<nat, seq<nat>>)
    requires UniqueIds(blocks) && IsBlockMap(blocks, m) && n < |blocks| && GroupedUpTo(blocks, m, n, rows)
    ensures var h := blocks[n].height;
            GroupedUpTo(blocks, m, n + 1, rows[h := GetList(rows, h) + [blocks[n].id]])
  {
    var b := blocks[n];
    assert b.id !in GetList(rows, b.height);
  }

  function SortHeights(keys: seq<nat>): (heights: seq<nat>)
    requires Distinct(keys)
    ensures Ascending(heights) && forall h :: h in heights <==> h in keys
  {
    var key := (h: nat) => h as real;
    var r := SortBy(keys, key);
    PermutationDistinct(keys, r);
    assert forall i, j :: 0 <= i < j < |r| ==> key(r[i]) <= key(r[j]);
    r
  }

  method GroupByHeight(blocks: seq<Block>, m: BlockMap) returns (rows: map<nat, seq<nat>>, heights: seq<nat>)
    requires UniqueIds(blocks) && IsBlockMap(blocks, m)
    ensures AreRows(m, rows, heights)
  {
    hide *;
    rows := map[];
    var keys: seq<nat> := [];
    NothingGrouped(blocks, m);
    for i := 0 to |blocks|
      invariant Distinct(keys) && rows.Keys == ToSet(keys)
      invariant GroupedUpTo(blocks, m, i, rows)
    {
      var h := blocks[i].height;
      GroupStep(blocks, m, i, rows);
      NewKey(keys, rows, h);
      if h !in rows {
        keys := keys + [h];
      }
      rows := rows[h := GetList(rows, h) + [blocks[i].id]];
    }
    heights := SortHeights(keys);
    GroupedAll(blocks, m, keys, rows);
  }

  lemma NothingGrouped(blocks: seq<Block>, m: BlockMap)
    ensures GroupedUpTo(blocks, m, 0, map[]) && ToSet<nat>([]) == {} && Distinct<nat>([])
  {}

  lemma NewKey(keys: seq<nat>, rows: map<nat, seq<nat>>, h: nat)
    requires Distinct(keys) && rows.Keys == ToSet(keys)
    ensures h in rows ==> rows.Keys + {h} == ToSet(keys)
    ensures h !in rows ==> Distinct(keys + [h]) && rows.Keys + {h} == ToSet(keys + [h])
  {}

  lemma GroupedAll(blocks: seq<Block>, m: BlockMap, keys: seq<nat>, rows: map<nat, seq<nat>>)
    requires IsBlockMap(blocks, m) && GroupedUpTo(blocks, m, |blocks|, rows)
    requires Distinct(keys) && rows.Keys == ToSet(keys)
    ensures AreRows(m, rows, SortHeights(keys))
  {
    hide SortHeights;
    forall b | b in m
      ensures m[b].height in rows && b in rows[m[b].height]
    {
      var i :| 0 <= i < |blocks| && blocks[i] == m[b];
    }
  }

  // ----- The two passes

  /** The slot a block aims at: that of its parent. */
  function Target(m: BlockMap, slots: Slots, b: nat): real
    requires b in m
  {
    if m[b].prev.Some? && m[b].prev.value in slots then slots[m[b].prev.value] else 0.0
  }

  ghost function PushBlock(m: BlockMap, row: seq<nat>, i: nat, slots: Slots): Slots
    requires i < |row| && row[i] in m && (i > 0 ==> row[i - 1] in slots)
  {
    var target := Target(m, slots, row[i]);
    slots[row[i] := if i > 0 then Max(target, slots[row[i - 1]] + 1.0) else target]
  }

  /** The first `n` blocks of a row pushed below their left neighbours. */
  ghost function PushRow(m: BlockMap, row: seq<nat>, n: nat, slots: Slots): (r: Slots)
    requires n <= |row| && forall b :: b in row ==> b in m
    ensures n > 0 ==> row[n - 1] in r
    ensures slots.Keys <= r.Keys
    ensures forall i :: 0 <= i < n ==> row[i] in r
  {
    if n == 0 then slots else PushBlock(m, row, n - 1, PushRow(m, row, n - 1, slots))
  }

  function Centre(children: ChildrenMap, slots: Slots, b: nat): Option<real> {
    var childSlots := KnownSlots(GetList(children, b), slots);
    if childSlots == [] then None else Some((MinOf(childSlots) + MaxOf(childSlots)) / 2.0)
  }

  /** The centre, but not over the right neighbour, and above all not over the left one. */
  function CentreBlock(children: ChildrenMap, row: seq<nat>, i: nat, slots: Slots): (r: Slots)
    requires i < |row| && forall b :: b in row ==> b in slots
    ensures r.Keys == slots.Keys
  {
    match Centre(children, slots, row[i])
    case None => slots
    case Some(centre) =>
      var low := if i < |row| - 1 then Min(slots[row[i + 1]] - 1.0, centre) else centre;
      slots[row[i] := if i > 0 then Max(slots[row[i - 1]] + 1.0, low) else low]
  }

  ghost function CentreRow(children: ChildrenMap, row: seq<nat>, n: nat, slots: Slots): (r: Slots)
    requires n <= |row| && forall b :: b in row ==> b in slots
    ensures r.Keys == slots.Keys
  {
    if n == 0 then slots else CentreBlock(children, row, n - 1, CentreRow(children, row, n - 1, slots))
  }

  /** The first `n` heights, from the lowest, pushed apart. */
  ghost function Forward(m: BlockMap, original: Slots, rows: map<nat, seq<nat>>, heights: seq<nat>, n: nat): (r: Slots)
    requires AreRows(m, rows, heights) && n <= |heights|
    ensures forall b :: b in m && m[b].height in heights[..n] ==> b in r
  {
    if n == 0 then map[]
    else
      var row := SortBy(rows[heights[n - 1]], SlotKey(original));
      var s := Forward(m, original, rows, heights, n - 1);
      ForwardDomain(m, heights, row, n, PushRow(m, row, |row|, s));
      PushRow(m, row, |row|, s)
  }

  lemma ForwardDomain(m: BlockMap, heights: seq<nat>, row: seq<nat>, n: nat, slots: Slots)
    requires 0 < n <= |heights| && forall i :: 0 <= i < |row| ==> row[i] in slots
    requires forall b :: b in m && m[b].height == heights[n - 1] ==> b in row
    requires forall b :: b in m && m[b].height in heights[..n - 1] ==> b in slots
    ensures forall b :: b in m && m[b].height in heights[..n] ==> b in slots
  {
    assert heights[..n] == heights[..n - 1] + [heights[n - 1]];
  }

  /** The rows as the first pass leaves them, sorted by the slots of the layout. */
  ghost function SortedRows(rows: map<nat, seq<nat>>, original: Slots): (r: map<nat, seq<nat>>)
    ensures r.Keys == rows.Keys && forall h :: h in rows ==> forall b :: b in r[h] <==> b in rows[h]
  {
    map h | h in rows :: SortBy(rows[h], SlotKey(original))
  }

  /** The heights from the `n`-th on, from the highest, centred. */
  ghost function Backward(children: ChildrenMap, rows: map<nat, seq<nat>>, heights: seq<nat>, n: nat, slots: Slots)
    : (r: Slots)
    requires rows.Keys == ToSet(heights) && n <= |heights|
    requires forall h, b :: h in rows && b in rows[h] ==> b in slots
    ensures r.Keys == slots.Keys
    decreases |heights| - n
  {
    if n == |heights| then slots
    else
      var s := Backward(children, rows, heights, n + 1, slots);
      var row := SortBy(rows[heights[n]], SlotKey(s));
      CentreRow(children, row, |row|, s)
  }

  /** Both passes. */
  ghost function Compacted(m: BlockMap, children: ChildrenMap, original: Slots, rows: map<nat, seq<nat>>,
                           heights: seq<nat>): (r: Slots)
    requires AreRows(m, rows, heights)
    ensures m.Keys <= r.Keys
  {
    Backward(children, SortedRows(rows, original), heights, 0, Pushed(m, original, rows, heights))
  }

  /** What the first pass leaves. */
  ghost function Pushed(m: BlockMap, original: Slots, rows: map<nat, seq<nat>>, heights: seq<nat>): (r: Slots)
    requires AreRows(m, rows, heights)
    ensures m.Keys <= r.Keys
  {
    assert heights[..|heights|] == heights;
    Forward(m, original, rows, heights, |heights|)
  }

  method PushAll(m: BlockMap, row: seq<nat>, slots: Slots) returns (r: Slots)
    requires forall b :: b in row ==> b in m
    ensures r == PushRow(m, row, |row|, slots)
  {
    r := slots;
    for i := 0 to |row|
      invariant r == PushRow(m, row, i, slots)
    {
      var target := Target(m, r, row[i]);
      r := r[row[i] := if i > 0 then Max(target, r[row[i - 1]] + 1.0) else target];
    }
  }

  method CentreAll(children: ChildrenMap, row: seq<nat>, slots: Slots) returns (r: Slots)
    requires forall b :: b in row ==> b in slots
    ensures r == CentreRow(children, row, |row|, slots)
  {
    r := slots;
    for i := 0 to |row|
      invariant r == CentreRow(children, row, i, slots)
    {
      hide *;
      CentreRowStep(children, row, i, slots);
      r := CentreBlock(children, row, i, r);
    }
  }

  lemma CentreRowStep(children: ChildrenMap, row: seq<nat>, i: nat, slots: Slots)
    requires i < |row| && forall b :: b in row ==> b in slots
    ensures forall b :: b in row ==> b in CentreRow(children, row, i, slots)
    ensures CentreRow(children, row, i + 1, slots) == CentreBlock(children, row, i, CentreRow(children, row, i, slots))
  {
    hide CentreBlock;
  }

  /** Rows of which the first `n` are sorted. */
  ghost predicate SortedSoFar(rows: map<nat, seq<nat>>, original: Slots, heights: seq<nat>, n: nat,
                              rs: map<nat, seq<nat>>)
    requires n <= |heights|
  {
    && rs.Keys == rows.Keys
    && forall h :: h in rows ==> rs[h] == if h in heights[..n] then SortBy(rows[h], SlotKey(original)) else rows[h]
  }

  lemma SortedStep(m: BlockMap, rows: map<nat, seq<nat>>, original: Slots, heights: seq<nat>, n: nat,
                   rs: map<nat, seq<nat>>)
    requires AreRows(m, rows, heights) && n < |heights| && SortedSoFar(rows, original, heights, n, rs)
    ensures heights[n] in rs && rs[heights[n]] == rows[heights[n]]
    ensures SortedSoFar(rows, original, heights, n + 1, rs[heights[n] := SortBy(rows[heights[n]], SlotKey(original))])
  {
    hide SortBy;
    assert heights[..n + 1] == heights[..n] + [heights[n]];
    assert heights[n] in ToSet(heights) && heights[n] !in heights[..n];
  }

  lemma SortedAll(m: BlockMap, rows: map<nat, seq<nat>>, original: Slots, heights: seq<nat>, rs: map<nat, seq<nat>>)
    requires AreRows(m, rows, heights) && SortedSoFar(rows, original, heights, |heights|, rs)
    ensures rs == SortedRows(rows, original)
  {
    hide SortBy;
    assert heights[..|heights|] == heights;
    assert forall h :: h in rows ==> h in heights;
  }

  lemma RowBlocks(m: BlockMap, rows: map<nat, seq<nat>>, heights: seq<nat>, n: nat)
    requires AreRows(m, rows, heights) && n < |heights|
    ensures heights[n] in rows && forall b :: b in rows[heights[n]] ==> b in m
  {
    assert heights[n] in ToSet(heights);
  }

  lemma ForwardStep(m: BlockMap, original: Slots, rows: map<nat, seq<nat>>, heights: seq<nat>, n: nat)
    requires AreRows(m, rows, heights) && n < |heights|
    ensures heights[n] in rows && forall b :: b in SortBy(rows[heights[n]], SlotKey(original)) ==> b in m
    ensures Forward(m, original, rows, heights, 0) == map[]
    ensures var row := SortBy(rows[heights[n]], SlotKey(original));
            Forward(m, original, rows, heights, n + 1) == PushRow(m, row, |row|, Forward(m, original, rows, heights, n))
  {
    hide SortBy, PushRow;
    RowBlocks(m, rows, heights, n);
  }

  method ForwardPass(m: BlockMap, original: Slots, rows: map<nat, seq<nat>>, heights: seq<nat>)
    returns (slots: Slots, rs: map<nat, seq<nat>>)
    requires AreRows(m, rows, heights)
    ensures slots == Pushed(m, original, rows, heights) && rs == SortedRows(rows, original)
  {
    slots, rs := map[], rows;
    for n := 0 to |heights|
      invariant slots == Forward(m, original, rows, heights, n)
      invariant SortedSoFar(rows, original, heights, n, rs)
    {
      hide *;
      ForwardStep(m, original, rows, heights, n);
      SortedStep(m, rows, original, heights, n, rs);
      var row := SortBy(rs[heights[n]], SlotKey(original));
      rs := rs[heights[n] := row];
      slots := PushAll(m, row, slots);
    }
    SortedAll(m, rows, original, heights, rs);
  }

  /** Only the first `n` rows are still to be sorted. */
  ghost predicate Unsorted(rows: map<nat, seq<nat>>, heights: seq<nat>, n: nat, rs: map<nat, seq<nat>>)
    requires n <= |heights|
  {
    && rs.Keys == rows.Keys == ToSet(heights)
    && forall i :: 0 <= i < n ==> heights[i] in rs && rs[heights[i]] == rows[heights[i]]
  }

  lemma BackwardStep(children: ChildrenMap, rows: map<nat, seq<nat>>, heights: seq<nat>, n: nat, slots: Slots,
                     rs: map<nat, seq<nat>>, row: seq<nat>)
    requires Ascending(heights) && n < |heights| && rows.Keys == ToSet(heights) && Unsorted(rows, heights, n + 1, rs)
    requires forall h, b :: h in rows && b in rows[h] ==> b in slots
    ensures var r, h := Backward(children, rows, heights, n + 1, slots), heights[n];
            && h in rs
            && (forall b :: b in SortBy(rs[h], SlotKey(r)) ==> b in r)
            && (row == SortBy(rs[h], SlotKey(r)) ==>
              Backward(children, rows, heights, n, slots) == CentreRow(children, row, |row|, r))
            && Unsorted(rows, heights, n, rs[h := row])
  {
    hide SortBy, CentreRow;
    assert heights[n] in ToSet(heights);
  }

  lemma BackwardEnds(children: ChildrenMap, rows: map<nat, seq<nat>>, heights: seq<nat>, slots: Slots)
    requires rows.Keys == ToSet(heights) && forall h, b :: h in rows && b in rows[h] ==> b in slots
    ensures Backward(children, rows, heights, |heights|, slots) == slots && Unsorted(rows, heights, |heights|, rows)
  {
    assert forall i :: 0 <= i < |heights| ==> heights[i] in ToSet(heights);
  }

  lemma KeyInRows(rows: map<nat, seq<nat>>, heights: seq<nat>, n: nat, rs: map<nat, seq<nat>>)
    requires n < |heights| && Unsorted(rows, heights, n + 1, rs)
    ensures heights[n] in rs
  {}

  method BackwardPass(children: ChildrenMap, rows: map<nat, seq<nat>>, heights: seq<nat>, slots: Slots)
    returns (r: Slots)
    requires Ascending(heights) && rows.Keys == ToSet(heights)
    requires forall h, b :: h in rows && b in rows[h] ==> b in slots
    ensures r == Backward(children, rows, heights, 0, slots)
  {
    hide *;
    BackwardEnds(children, rows, heights, slots);
    r := slots;
    var rs := rows;
    for n := |heights| downto 0
      invariant r == Backward(children, rows, heights, n, slots)
      invariant Unsorted(rows, heights, n, rs)
    {
      KeyInRows(rows, heights, n, rs);
      ghost var sorted := SortBy(rs[heights[n]], SlotKey(r));
      BackwardStep(children, rows, heights, n, slots, rs, sorted);
      var row := SortBy(rs[heights[n]], SlotKey(r));
      rs := rs[heights[n] := row];
      r := CentreAll(children, row, r);
    }
  }

  /** The result of the two passes over the rows of the blocks. */
  ghost predicate IsCompactionOf(m: BlockMap, children: ChildrenMap, original: Slots, slots: Slots) {
    exists rows, heights :: AreRows(m, rows, heights) && slots == Compacted(m, children, original, rows, heights)
  }

  method CompactSlots(original: Slots, blocks: seq<Block>, m: BlockMap, children: ChildrenMap) returns (slots: Slots)
    requires UniqueIds(blocks) && IsBlockMap(blocks, m)
    ensures IsCompactionOf(m, children, original, slots) && m.Keys <= slots.Keys
  {
    var rows, heights := GroupByHeight(blocks, m);
    var pushed, sorted := ForwardPass(m, original, rows, heights);
    SortedBlocks(m, original, rows, heights, pushed);
    slots := BackwardPass(children, sorted, heights, pushed);
    assert slots == Compacted(m, children, original, rows, heights);
  }

  lemma SortedBlocks(m: BlockMap, original: Slots, rows: map<nat, seq<nat>>, heights: seq<nat>, slots: Slots)
    requires AreRows(m, rows, heights) && m.Keys <= slots.Keys
    ensures forall h, b :: h in SortedRows(rows, original) && b in SortedRows(rows, original)[h] ==> b in slots
  {
    hide SortBy;
  }
}
