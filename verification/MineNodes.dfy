/** The nodes that offer to mine on a tip, and why no two rectangles of the picture overlap. */
module MineNodes {
  import opened BlockForest
  import opened ForestNumbering
  import opened SlotLayout
  import opened SlotCompaction
  import opened MineSlots
  import opened FoldGraph

  datatype MineNode = MineNode(block: nat, depth: nat, slot: real)

  function DepthOf(heightToDepth: map<nat, nat>, h: nat): nat {
    if h in heightToDepth then heightToDepth[h] else 0
  }

  /** At least one slot apart. */
  ghost predicate Apart(x: real, y: real) {
    x + 1.0 <= y || y + 1.0 <= x
  }

  /** What the mine nodes are placed among. */
  datatype Scene = Scene(visible: seq<Block>, heightToDepth: map<nat, nat>, slots: Slots) {

    function Depth(b: Block): nat {
      DepthOf(heightToDepth, b.height)
    }

    /** A block or one of the mine nodes is in column `d` at slot `x`. */
    ghost predicate Occupied(mines: seq<MineNode>, d: nat, x: real) {
      || (exists b :: b in visible && Depth(b) == d && SlotKey(slots)(b.id) == x)
      || (exists k :: 0 <= k < |mines| && mines[k].depth == d && mines[k].slot == x)
    }

    /** The lists of slots by column. */
    ghost predicate Lists(mines: seq<MineNode>, occupied: map<nat, seq<real>>) {
      forall d, x :: x in SlotsAt(occupied, d) <==> Occupied(mines, d, x)
    }
  }

  function SlotsAt(occupied: map<nat, seq<real>>, d: nat): seq<real> {
    if d in occupied then occupied[d] else []
  }

  function AddSlot(occupied: map<nat, seq<real>>, d: nat, x: real): map<nat, seq<real>> {
    occupied[d := SlotsAt(occupied, d) + [x]]
  }

  /** The slot `v`, unless something in the list is less than one slot away: then one past the last. */
  ghost predicate IsChosen(slots: seq<real>, v: real, s: real) {
    && (forall x :: x in slots ==> Apart(x, s))
    && ((forall x :: x in slots ==> Apart(x, v)) ==> s == v)
    && ((exists x :: x in slots && !Apart(x, v)) ==>
          v < s && s - 1.0 in slots && forall x :: x in slots ==> x + 1.0 <= s)
  }

  method ChooseSlot(slots: seq<real>, v: real) returns (s: real)
    ensures IsChosen(slots, v, s)
  {
    s := v;
    var near := false;
    for i := 0 to |slots|
      invariant near <==> exists x :: x in slots[..i] && !Apart(x, v)
    {
      assert slots[..i + 1] == slots[..i] + [slots[i]];
      assert !Apart(slots[i], v) <==> slots[i] - v < 1.0 && v - slots[i] < 1.0;
      near := near || (slots[i] - v < 1.0 && v - slots[i] < 1.0);
    }
    assert slots[..|slots|] == slots;
    if near {
      s := MaxOf(slots) + 1.0;
    }
  }

  method OccupiedByBlocks(scene: Scene) returns (occupied: map<nat, seq<real>>)
    ensures scene.Lists([], occupied)
  {
    occupied := map[];
    var visible := scene.visible;
    for i := 0 to |visible|
      invariant scene.(visible := visible[..i]).Lists([], occupied)
    {
      hide *;
      var b := visible[i];
      BlockOccupies(scene, i, occupied);
      occupied := AddSlot(occupied, scene.Depth(b), SlotKey(scene.slots)(b.id));
    }
    assert visible[..|visible|] == visible;
  }

  lemma BlockOccupies(scene: Scene, i: nat, occupied: map<nat, seq<real>>)
    requires i < |scene.visible| && scene.(visible := scene.visible[..i]).Lists([], occupied)
    ensures var b := scene.visible[i];
            var added := AddSlot(occupied, scene.Depth(b), SlotKey(scene.slots)(b.id));
            scene.(visible := scene.visible[..i + 1]).Lists([], added)
  {
    hide SlotKey;
    var b := scene.visible[i];
    var less, more := scene.(visible := scene.visible[..i]), scene.(visible := scene.visible[..i + 1]);
    var d, y := scene.Depth(b), SlotKey(scene.slots)(b.id);
    assert more.visible == less.visible + [b];
    forall e, x
      ensures more.Occupied([], e, x) <==> less.Occupied([], e, x) || (e == d && x == y)
    {
      if less.Occupied([], e, x) {
        var c :| c in less.visible && less.Depth(c) == e && SlotKey(less.slots)(c.id) == x;
        assert c in more.visible && more.Depth(c) == e;
      }
      assert b in more.visible && more.Depth(b) == d;
    }
    var after := AddSlot(occupied, d, y);
    forall e, x
      ensures x in SlotsAt(after, e) <==> x in SlotsAt(occupied, e) || (e == d && x == y)
    {}
    hide Scene.Occupied, SlotsAt, AddSlot;
  }

  /** The ids of the visible blocks that can be mined on. */
  ghost function MineableIds(visible: seq<Block>, n: nat): seq<nat>
    requires n <= |visible|
  {
    if n == 0 then [] else MineableIds(visible, n - 1) + (if visible[n - 1].mineable then [visible[n - 1].id] else [])
  }

  /** The `k`-th mine node is one column right of its block and a slot away from everything placed before it. It is
      at the slot `v` if that is free, else one past everything in its column. */
  ghost predicate PlacedAt(scene: Scene, mines: seq<MineNode>, k: nat, v: real)
    requires k < |mines|
  {
    var (d, s) := (mines[k].depth, mines[k].slot);
    && (forall x :: scene.Occupied(mines[..k], d, x) ==> Apart(x, s))
    && ((forall x :: scene.Occupied(mines[..k], d, x) ==> Apart(x, v)) ==> s == v)
    && ((exists x :: scene.Occupied(mines[..k], d, x) && !Apart(x, v)) ==>
          && v < s && scene.Occupied(mines[..k], d, s - 1.0)
          && forall x :: scene.Occupied(mines[..k], d, x) ==> x + 1.0 <= s)
    && (exists b :: b in scene.visible && b.mineable && b.id == mines[k].block && d == scene.Depth(b) + 1)
  }

  /** Each mine node is placed for the slot that the resolver gives for its block. */
  ghost predicate MinesPlaced(f: Forest, scene: Scene, mines: seq<MineNode>) {
    forall k :: 0 <= k < |mines| ==> MinePlaced(f, scene, mines, k)
  }

  ghost predicate MinePlaced(f: Forest, scene: Scene, mines: seq<MineNode>, k: nat)
    requires k < |mines|
  {
    exists v ::
      && PlacedAt(scene, mines, k, v)
      && (f.Valid() && mines[k].block in f.blocks ==> IsNextSlot(f, scene.slots, mines[k].block, v))
  }

  lemma PlacedNew(scene: Scene, mines: seq<MineNode>, occupied: map<nat, seq<real>>, b: Block, v: real, s: real)
    requires scene.Lists(mines, occupied) && b in scene.visible && b.mineable
    requires IsChosen(SlotsAt(occupied, scene.Depth(b) + 1), v, s)
    ensures PlacedAt(scene, mines + [MineNode(b.id, scene.Depth(b) + 1, s)], |mines|, v)
  {
    var more := mines + [MineNode(b.id, scene.Depth(b) + 1, s)];
    assert more[..|mines|] == mines;
    hide Scene.Occupied, SlotsAt, Scene.Depth;
  }

  lemma PlacedOld(scene: Scene, mines: seq<MineNode>, mine: MineNode, k: nat, v: real)
    requires k < |mines| && PlacedAt(scene, mines, k, v)
    ensures PlacedAt(scene, mines + [mine], k, v)
  {
    assert (mines + [mine])[..k] == mines[..k];
    hide Scene.Occupied, Scene.Depth;
  }

  lemma PlacedStep(f: Forest, scene: Scene, mines: seq<MineNode>, occupied: map<nat, seq<real>>, b: Block, v: real,
                   s: real)
    requires scene.Lists(mines, occupied) && MinesPlaced(f, scene, mines) && b in scene.visible && b.mineable
    requires f.Valid() && b.id in f.blocks ==> IsNextSlot(f, scene.slots, b.id, v)
    requires IsChosen(SlotsAt(occupied, scene.Depth(b) + 1), v, s)
    ensures MinesPlaced(f, scene, mines + [MineNode(b.id, scene.Depth(b) + 1, s)])
  {
    PlacedNew(scene, mines, occupied, b, v, s);
    hide Forest.Valid, IsNextSlot, PlacedAt, Scene.Depth, Scene.Lists, IsChosen;
    var mine := MineNode(b.id, scene.Depth(b) + 1, s);
    var more := mines + [mine];
    forall k | 0 <= k < |more|
      ensures MinePlaced(f, scene, more, k)
    {
      if k < |mines| {
        assert MinePlaced(f, scene, mines, k);
        var w :| PlacedAt(scene, mines, k, w)
                 && (f.Valid() && mines[k].block in f.blocks ==> IsNextSlot(f, scene.slots, mines[k].block, w));
        PlacedOld(scene, mines, mine, k, w);
        assert more[k] == mines[k];
      } else {
        assert more[k] == mine && PlacedAt(scene, more, k, v);
      }
    }
  }

  lemma ListsMore(scene: Scene, mines: seq<MineNode>, occupied: map<nat, seq<real>>, mine: MineNode)
    requires scene.Lists(mines, occupied)
    ensures scene.Lists(mines + [mine], AddSlot(occupied, mine.depth, mine.slot))
  {
    var more := mines + [mine];
    forall d, x
      ensures scene.Occupied(more, d, x) <==> scene.Occupied(mines, d, x) || (d == mine.depth && x == mine.slot)
    {
      if scene.Occupied(mines, d, x)
         && !(exists b :: b in scene.visible && scene.Depth(b) == d && SlotKey(scene.slots)(b.id) == x) {
        var k :| 0 <= k < |mines| && mines[k].depth == d && mines[k].slot == x;
        assert more[k] == mines[k];
      }
      assert more[|mines|] == mine;
    }
    hide Scene.Occupied;
  }

  /** From the block to its mine node. */
  function MineEdge(m: MineNode): Edge {
    Edge(BlockNode(m.block), MineTreeNode(m.block))
  }

  /** One edge for each mine node. */
  ghost predicate AreMineEdges(mines: seq<MineNode>, edges: seq<Edge>) {
    |edges| == |mines| && forall k :: 0 <= k < |mines| ==> edges[k] == MineEdge(mines[k])
  }

  /** One mine node, and the edge to it, for each visible block that can be mined on. */
  method BuildMineGraphElements(scene: Scene, hasNetwork: bool, resolver: NextMineSlotResolver)
    returns (mines: seq<MineNode>, edges: seq<Edge>)
    requires resolver.slots == scene.slots && (resolver.f.Valid() ==> resolver.Valid())
    requires forall b :: b in scene.visible ==> b.id in resolver.f.blocks
    modifies resolver
    ensures resolver.f.Valid() ==> resolver.Valid()
    ensures !hasNetwork ==> mines == []
    ensures hasNetwork ==> |mines| == |MineableIds(scene.visible, |scene.visible|)|
    ensures hasNetwork ==> forall k :: 0 <= k < |mines| ==>
            mines[k].block == MineableIds(scene.visible, |scene.visible|)[k]
    ensures MinesPlaced(resolver.f, scene, mines) && AreMineEdges(mines, edges)
  {
    hide *;
    mines, edges := [], [];
    NoMines(resolver.f, scene);
    if !hasNetwork {
      return;
    }
    var occupied := OccupiedByBlocks(scene);
    for i := 0 to |scene.visible|
      invariant resolver.f.Valid() ==> resolver.Valid()
      invariant scene.Lists(mines, occupied) && MinesPlaced(resolver.f, scene, mines)
      invariant |mines| == |MineableIds(scene.visible, i)| && AreMineEdges(mines, edges)
      invariant forall k :: 0 <= k < |mines| ==> mines[k].block == MineableIds(scene.visible, i)[k]
    {
      var b := scene.visible[i];
      MineableStep(scene.visible, i);
      if b.mineable {
        var targetDepth := scene.Depth(b) + 1;
        var next := resolver.NextSlot(b.id);
        var slot := ChooseSlot(SlotsAt(occupied, targetDepth), next);
        PlacedStep(resolver.f, scene, mines, occupied, b, next, slot);
        ListsMore(scene, mines, occupied, MineNode(b.id, targetDepth, slot));
        occupied := AddSlot(occupied, targetDepth, slot);
        var mine := MineNode(b.id, targetDepth, slot);
        OneMoreEdge(mines, edges, mine);
        mines, edges := mines + [mine], edges + [Edge(BlockNode(b.id), MineTreeNode(b.id))];
      }
    }
  }

  lemma MineableStep(visible: seq<Block>, i: nat)
    requires i < |visible|
    ensures MineableIds(visible, i + 1)
         == MineableIds(visible, i) + (if visible[i].mineable then [visible[i].id] else [])
  {}

  lemma NoMines(f: Forest, scene: Scene)
    ensures MinesPlaced(f, scene, []) && MineableIds(scene.visible, 0) == [] && AreMineEdges([], [])
  {}

  lemma OneMoreEdge(mines: seq<MineNode>, edges: seq<Edge>, mine: MineNode)
    requires AreMineEdges(mines, edges)
    ensures AreMineEdges(mines + [mine], edges + [Edge(BlockNode(mine.block), MineTreeNode(mine.block))])
  {}

  /** A mine node is never above the slot that the resolver gives. */
  lemma MineNotAbove(scene: Scene, mines: seq<MineNode>, k: nat, v: real)
    requires k < |mines| && PlacedAt(scene, mines, k, v)
    ensures v <= mines[k].slot
  {
    hide Scene.Occupied;
  }

  // ----- Rectangles

  const H_GAP := 188
  const V_GAP := 172.0
  const NODE_HEIGHT := 64.0

  datatype Rect = Rect(x: int, y: real, width: int)

  function BlockRect(depth: nat, slot: real): Rect {
    Rect(depth * H_GAP, slot * V_GAP, 128)
  }

  function FoldRect(depth: nat, slot: real): Rect {
    Rect(depth * H_GAP, slot * V_GAP, 96)
  }

  function MineRect(m: MineNode): Rect {
    Rect(m.depth * H_GAP, m.slot * V_GAP, 100)
  }

  ghost predicate Overlap(r: Rect, s: Rect) {
    && r.x < s.x + s.width && s.x < r.x + r.width
    && r.y < s.y + NODE_HEIGHT && s.y < r.y + NODE_HEIGHT
  }

  lemma ApartRects(r: Rect, s: Rect, d: nat, e: nat, x: real, y: real)
    requires r.x == d * H_GAP && s.x == e * H_GAP && r.y == x * V_GAP && s.y == y * V_GAP
    requires r.width <= 128 && s.width <= 128 && (d == e ==> Apart(x, y))
    ensures !Overlap(r, s)
  {}

  /** No mine node overlaps a block. */
  lemma MineAndBlockApart(scene: Scene, mines: seq<MineNode>, k: nat, v: real, b: Block)
    requires k < |mines| && PlacedAt(scene, mines, k, v) && b in scene.visible
    ensures !Overlap(MineRect(mines[k]), BlockRect(scene.Depth(b), SlotKey(scene.slots)(b.id)))
  {
    var x := SlotKey(scene.slots)(b.id);
    if scene.Depth(b) == mines[k].depth {
      assert scene.Occupied(mines[..k], mines[k].depth, x);
    }
    ApartRects(MineRect(mines[k]), BlockRect(scene.Depth(b), x), mines[k].depth, scene.Depth(b), mines[k].slot, x);
  }

  /** No two mine nodes overlap. */
  lemma MinesApart(scene: Scene, mines: seq<MineNode>, j: nat, k: nat, v: real)
    requires j < k < |mines| && PlacedAt(scene, mines, k, v)
    ensures !Overlap(MineRect(mines[j]), MineRect(mines[k]))
  {
    assert mines[..k][j] == mines[j];
    if mines[j].depth == mines[k].depth {
      assert scene.Occupied(mines[..k], mines[k].depth, mines[j].slot);
    }
    ApartRects(MineRect(mines[j]), MineRect(mines[k]), mines[j].depth, mines[k].depth, mines[j].slot, mines[k].slot);
  }
}
