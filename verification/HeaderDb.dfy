/** The header table, shared by all networks, and the tree rebuilt from it at start-up. */
module HeaderDb {
  import opened Wrappers
  import opened Sorting
  import opened Chain
  import opened HeaderTree

  datatype DbError = DbError

  /** The primary key of the table; a row adds the other columns. */
  datatype Key = Key(network: nat, hash: BlockHash, header: Header)
  datatype Row = Row(height: nat, miner: string)

  function KeyOf(info: HeaderInfo, network: nat): Key {
    Key(network, info.Hash(), info.header)
  }

  ghost predicate ValidRows(rows: map<Key, Row>) {
    forall k :: k in rows ==> k.hash == Digest(k.header)
  }

  /** What the table holds for one network. */
  ghost function Stored(rows: map<Key, Row>, network: nat): map<BlockHash, HeaderInfo>
    requires ValidRows(rows)
  {
    map k | k in rows && k.network == network :: k.hash := HeaderInfo(k.header, rows[k].height, rows[k].miner)
  }

  /** `INSERT OR IGNORE`, row by row. */
  function InsertRows(rows: map<Key, Row>, batch: seq<HeaderInfo>, network: nat): (r: map<Key, Row>)
    ensures ValidRows(rows) ==> ValidRows(r)
  {
    if batch == [] then
      rows
    else
      InsertRow(InsertRows(rows, batch[..|batch| - 1], network), batch[|batch| - 1], network)
  }

  function InsertRow(rows: map<Key, Row>, info: HeaderInfo, network: nat): (r: map<Key, Row>)
    ensures ValidRows(rows) ==> ValidRows(r)
  {
    var key := KeyOf(info, network);
    if key in rows then rows else rows[key := Row(info.height, info.miner)]
  }

  /** `UPDATE`: the miner in every row with this hash. */
  function WithMiner(rows: map<Key, Row>, hash: BlockHash, miner: string): (r: map<Key, Row>)
    ensures ValidRows(rows) ==> ValidRows(r)
  {
    map k | k in rows :: if k.hash == hash then rows[k].(miner := miner) else rows[k]
  }

  /** The miner of one header. */
  ghost function SetMiner(known: map<BlockHash, HeaderInfo>, hash: BlockHash, miner: string)
    : map<BlockHash, HeaderInfo>
  {
    if hash in known then known[hash := known[hash].(miner := miner)] else known
  }

  /** A header is stored under the one key that its hash determines. */
  lemma StoredLookup(rows: map<Key, Row>, n: nat, h: BlockHash)
    requires ValidRows(rows)
    ensures h in Stored(rows, n) <==> h.Digest? && Key(n, h, h.header) in rows
    ensures h in Stored(rows, n) ==>
              var row := rows[Key(n, h, h.header)]; Stored(rows, n)[h] == HeaderInfo(h.header, row.height, row.miner)
  {
    if h in Stored(rows, n) {
      var k :| k in rows && k.network == n && k.hash == h;
    }
    if h.Digest? && Key(n, h, h.header) in rows {
      var k := Key(n, h, h.header);
      assert k in rows && k.network == n && k.hash == h;
    }
  }

  /** For every network the update sets the miner of that header, if it is stored there, and changes nothing else. */
  lemma WithMinerStored(rows: map<Key, Row>, hash: BlockHash, miner: string, n: nat)
    requires ValidRows(rows)
    ensures Stored(WithMiner(rows, hash, miner), n) == SetMiner(Stored(rows, n), hash, miner)
  {
    hide Stored, ValidRows;
    var before, after := Stored(rows, n), Stored(WithMiner(rows, hash, miner), n);
    forall h
      ensures h in after <==> h in before
      ensures h in before ==> after[h] == SetMiner(before, hash, miner)[h]
    {
      StoredLookup(rows, n, h);
      StoredLookup(WithMiner(rows, hash, miner), n, h);
    }
  }

  ghost function AtOrAbove(known: map<BlockHash, HeaderInfo>, first: nat): map<BlockHash, HeaderInfo> {
    map h | h in known && first <= known[h].height :: known[h]
  }

  class Database {
    /** Whether every call succeeds. */
    const reliable: bool
    var rows: map<Key, Row>

    ghost predicate Valid()
      reads this
    {
      ValidRows(rows)
    }

    constructor (reliable: bool)
      ensures Valid() && rows == map[] && this.reliable == reliable
    {
      this.reliable := reliable;
      rows := map[];
    }

    /** Whether the next statement fails. */
    method Fails() returns (failed: bool)
      ensures reliable ==> !failed
    {
      var fault: bool := *;
      failed := fault && !reliable;
    }

    /** One transaction: all rows are inserted or, on any failure, none. */
    method WriteToDb(batch: seq<HeaderInfo>, network: nat) returns (r: Result<(), DbError>)
      requires Valid()
      modifies this
      ensures Valid()
      ensures rows == if r.Success? then InsertRows(old(rows), batch, network) else old(rows)
      ensures reliable ==> r.Success?
    {
      var tx := rows;
      for j := 0 to |batch|
        invariant tx == InsertRows(rows, batch[..j], network)
        invariant rows == old(rows)
      {
        var failed := Fails();
        if failed {
          return Failure(DbError);
        }
        assert batch[..j + 1][..j] == batch[..j];
        var key := KeyOf(batch[j], network);
        if key !in tx {
          tx := tx[key := Row(batch[j].height, batch[j].miner)];
        }
      }
      assert batch[..|batch|] == batch;
      var failed := Fails();
      if failed {
        return Failure(DbError);
      }
      rows := tx;
      r := Success(());
    }

    /** Sets the miner of one block, in every network that stores it, or fails and changes nothing. */
    method UpdateMiner(hash: BlockHash, miner: string) returns (r: Result<(), DbError>)
      requires Valid()
      modifies this
      ensures Valid()
      ensures r.Failure? ==> rows == old(rows)
      ensures reliable ==> r.Success?
      ensures r.Success? ==> rows == WithMiner(old(rows), hash, miner)
      ensures r.Success? ==> forall n :: Stored(rows, n) == SetMiner(old(Stored(rows, n)), hash, miner)
    {
      var failed := Fails();
      if failed {
        return Failure(DbError);
      }
      forall n
        ensures Stored(WithMiner(rows, hash, miner), n) == SetMiner(Stored(rows, n), hash, miner)
      {
        WithMinerStored(rows, hash, miner, n);
      }
      rows := map k | k in rows :: if k.hash == hash then rows[k].(miner := miner) else rows[k];
      r := Success(());
    }

    /** The rows of one network from the lower bound upwards, by height; reading or decoding any of them may fail. */
    method LoadHeaderInfos(network: nat, first: nat) returns (r: Result<seq<HeaderInfo>, DbError>)
      requires Valid()
      ensures r.Success? ==> Distinct(r.value) && Sorted(r.value, HeightKey)
      ensures r.Success? ==> forall x :: x in r.value <==>
                x.Hash() in Stored(rows, network) && Stored(rows, network)[x.Hash()] == x && first <= x.height
      ensures reliable ==> r.Success?
    {
      var infos: seq<HeaderInfo> := [];
      var left := rows.Keys;
      while left != {}
        invariant left <= rows.Keys
        invariant Distinct(infos)
        invariant forall x :: x in infos <==>
                    && KeyOf(x, network) in rows.Keys - left && first <= x.height
                    && rows[KeyOf(x, network)] == Row(x.height, x.miner)
      {
        var failed := Fails();
        if failed {
          return Failure(DbError);
        }
        var k :| k in left;
        left := left - {k};
        if k.network == network && first <= rows[k].height {
          infos := infos + [HeaderInfo(k.header, rows[k].height, rows[k].miner)];
        }
      }
      PermutationDistinct(infos, SortBy(infos, HeightKey));
      r := Success(SortBy(infos, HeightKey));
    }

    /** Rebuilds the tree of one network: all of it, or none if a row cannot be loaded. */
    method LoadTreeInfos(network: nat, first: nat) returns (r: Result<TreeInfo, DbError>)
      requires Valid()
      ensures r.Success? ==> r.value.Valid() && r.value.Known() == AtOrAbove(Stored(rows, network), first)
      ensures reliable ==> r.Success?
    {
      var loaded := LoadHeaderInfos(network, first);
      if loaded.Failure? {
        return Failure(loaded.error);
      }
      var infos := loaded.value;
      forall i, j | 0 <= i < j < |infos|
        ensures infos[i].Hash() != infos[j].Hash()
      {
        assert infos[i] in infos && infos[j] in infos;
      }
      var t := BuildTree(infos);
      BuiltKnown(t, AtOrAbove(Stored(rows, network), first));
      r := Success(t);
    }
  }

  /** Adds all nodes, then the edge to every header from its predecessor. */
  method BuildTree(infos: seq<HeaderInfo>) returns (t: TreeInfo)
    requires forall i, j :: 0 <= i < j < |infos| ==> infos[i].Hash() != infos[j].Hash()
    ensures t.Valid() && t.nodes == infos
  {
    t := EMPTY_TREE;
    for i := 0 to |infos|
      invariant t.Indexed() && t.edges == {} && t.nodes == infos[..i]
    {
      assert infos[..i + 1] == infos[..i] + [infos[i]];
      t := t.(nodes := t.nodes + [infos[i]], index := t.index[infos[i].Hash() := |t.nodes|]);
    }
    assert infos[..|infos|] == infos;
    ghost var added := t;
    for i := 0 to |infos|
      invariant t == added.(edges := t.edges)
      invariant forall p: nat, c: nat :: (p, c) in t.edges <==> t.Link(p, c) && c < i
    {
      var prev := infos[i].header.prev;
      if prev in t.index {
        t := t.(edges := t.edges + {(t.index[prev], t.index[infos[i].Hash()])});
      }
    }
  }

  lemma BuiltKnown(t: TreeInfo, known: map<BlockHash, HeaderInfo>)
    requires t.Valid() && forall x :: x in t.nodes <==> x.Hash() in known && known[x.Hash()] == x
    requires forall h :: h in known ==> known[h].Hash() == h
    ensures t.Known() == known
  {
    forall h | h in t.index
      ensures h in known && known[h] == t.nodes[t.index[h]]
    {
      assert t.nodes[t.index[h]] in t.nodes;
    }
    forall h | h in known
      ensures h in t.index
    {
      assert known[h] in t.nodes;
    }
  }

  // ----- Restarts

  lemma InsertRowStored(rows: map<Key, Row>, info: HeaderInfo, network: nat, n: nat)
    requires ValidRows(rows)
    ensures var before := Stored(rows, n);
            Stored(InsertRow(rows, info, network), n)
            == if n != network || info.Hash() in before then before else before[info.Hash() := info]
  {
    hide Stored, ValidRows;
    var before, after := Stored(rows, n), Stored(InsertRow(rows, info, network), n);
    var expected := if n != network || info.Hash() in before then before else before[info.Hash() := info];
    forall h
      ensures h in after <==> h in expected
      ensures h in expected ==> after[h] == expected[h]
    {
      StoredLookup(rows, n, h);
      StoredLookup(InsertRow(rows, info, network), n, h);
      StoredLookup(rows, n, info.Hash());
    }
  }

  /** Insert-or-ignore in the table and insert-if-absent in the tree are the same operation, and it
      leaves the other networks alone. */
  lemma {:induction false} InsertRowsIsMerge(rows: map<Key, Row>, batch: seq<HeaderInfo>, network: nat, n: nat)
    requires ValidRows(rows)
    ensures Stored(InsertRows(rows, batch, network), n)
            == if n == network then Merge(Stored(rows, n), batch) else Stored(rows, n)
  {
    if batch != [] {
      var i := |batch| - 1;
      InsertRowsIsMerge(rows, batch[..i], network, n);
      InsertRowStored(InsertRows(rows, batch[..i], network), batch[i], network, n);
    }
  }

  /** What happens to the live headers of one network and to the table while the program runs. */
  datatype StoreEvent =
    | Persist(batch: seq<HeaderInfo>, written: bool)
    | MinerInTree(hash: BlockHash, miner: string)
    | MinerInTable(hash: BlockHash, miner: string, written: bool)

  datatype Store = Store(live: map<BlockHash, HeaderInfo>, rows: map<Key, Row>)

  ghost function Apply(s: Store, e: StoreEvent, network: nat): Store {
    match e
    case Persist(batch, written) =>
      Store(Merge(s.live, batch), if written then InsertRows(s.rows, batch, network) else s.rows)
    case MinerInTree(h, miner) =>
      s.(live := SetMiner(s.live, h, miner))
    case MinerInTable(h, miner, written) =>
      if written then s.(rows := WithMiner(s.rows, h, miner)) else s
  }

  ghost function ApplyAll(s: Store, events: seq<StoreEvent>, network: nat): Store {
    if events == [] then s else Apply(ApplyAll(s, events[..|events| - 1], network), events[|events| - 1], network)
  }

  ghost predicate ValidStore(s: Store) {
    ValidRows(s.rows) && forall h :: h in s.live ==> s.live[h].Hash() == h
  }

  /** What a restart with lower bound `first` would load. */
  ghost function Loadable(rows: map<Key, Row>, network: nat, first: nat): map<BlockHash, HeaderInfo>
    requires ValidRows(rows)
  {
    AtOrAbove(Stored(rows, network), first)
  }

  /** Rows left from a run with a smaller lower bound. */
  ghost function Hidden(rows: map<Key, Row>, network: nat, first: nat): set<BlockHash>
    requires ValidRows(rows)
  {
    set h | h in Stored(rows, network) && Stored(rows, network)[h].height < first
  }

  /** The same headers at the same heights; miners may differ. */
  ghost predicate SameHeaders(a: map<BlockHash, HeaderInfo>, b: map<BlockHash, HeaderInfo>) {
    a.Keys == b.Keys && forall h :: h in a ==> a[h].header == b[h].header && a[h].height == b[h].height
  }

  /** Batches stay at or above the lower bound and do not repeat a hidden row. */
  ghost predicate InRange(e: StoreEvent, first: nat, hidden: set<BlockHash>) {
    e.Persist? ==> forall i :: 0 <= i < |e.batch| ==> first <= e.batch[i].height && e.batch[i].Hash() !in hidden
  }

  lemma {:induction false} MergeAtOrAbove(known: map<BlockHash, HeaderInfo>, batch: seq<HeaderInfo>, first: nat)
    requires forall i :: 0 <= i < |batch| ==>
               && first <= batch[i].height
               && (batch[i].Hash() in known ==> first <= known[batch[i].Hash()].height)
    ensures AtOrAbove(Merge(known, batch), first) == Merge(AtOrAbove(known, first), batch)
  {
    if batch != [] {
      var n := |batch| - 1;
      MergeAtOrAbove(known, batch[..n], first);
      if batch[n].Hash() in Merge(known, batch[..n]) {
        MergeLookup(known, batch[..n], batch[n].Hash());
      }
    }
  }

  lemma {:induction false} MergeSameHeaders(a: map<BlockHash, HeaderInfo>, b: map<BlockHash, HeaderInfo>,
                                            batch: seq<HeaderInfo>)
    requires a.Keys <= b.Keys
    ensures Merge(a, batch).Keys <= Merge(b, batch).Keys
    ensures SameHeaders(a, b) ==> SameHeaders(Merge(a, batch), Merge(b, batch))
  {
    if batch != [] {
      MergeSameHeaders(a, b, batch[..|batch| - 1]);
    }
  }

  lemma {:induction false} MergeHidden(known: map<BlockHash, HeaderInfo>, batch: seq<HeaderInfo>, first: nat)
    requires forall i :: 0 <= i < |batch| ==> first <= batch[i].height
    ensures forall h :: h in Merge(known, batch) && Merge(known, batch)[h].height < first
                        <==> h in known && known[h].height < first
  {
    if batch != [] {
      MergeHidden(known, batch[..|batch| - 1], first);
    }
  }

  lemma LiveHashes(live: map<BlockHash, HeaderInfo>, batch: seq<HeaderInfo>)
    requires forall h :: h in live ==> live[h].Hash() == h
    ensures forall h :: h in Merge(live, batch) ==> Merge(live, batch)[h].Hash() == h
  {
    forall h | h in Merge(live, batch)
      ensures Merge(live, batch)[h].Hash() == h
    {
      MergeLookup(live, batch, h);
    }
  }

  ghost predicate Mirrors(s: Store, r: Store, network: nat, first: nat, exact: bool)
    requires ValidStore(s)
  {
    && ValidStore(r) && Hidden(r.rows, network, first) == Hidden(s.rows, network, first)
    && Loadable(r.rows, network, first).Keys <= r.live.Keys
    && (exact ==> SameHeaders(Loadable(r.rows, network, first), r.live))
  }

  lemma PersistKeepsMirror(s: Store, batch: seq<HeaderInfo>, network: nat, first: nat, exact: bool)
    requires ValidStore(s) && InRange(Persist(batch, true), first, Hidden(s.rows, network, first))
    requires Mirrors(s, s, network, first, exact)
    ensures Mirrors(s, Apply(s, Persist(batch, true), network), network, first, exact)
  {
    var stored := Stored(s.rows, network);
    LiveHashes(s.live, batch);
    InsertRowsIsMerge(s.rows, batch, network, network);
    MergeAtOrAbove(stored, batch, first);
    MergeSameHeaders(Loadable(s.rows, network, first), s.live, batch);
    MergeHidden(stored, batch, first);
  }

  lemma LostWriteKeepsMirror(s: Store, batch: seq<HeaderInfo>, network: nat, first: nat)
    requires ValidStore(s) && Mirrors(s, s, network, first, false)
    ensures Mirrors(s, Apply(s, Persist(batch, false), network), network, first, false)
  {
    hide Stored, InsertRows;
    LiveHashes(s.live, batch);
    MergeKeys(s.live, batch);
  }

  lemma MinerKeepsMirror(s: Store, e: StoreEvent, network: nat, first: nat, exact: bool)
    requires ValidStore(s) && Mirrors(s, s, network, first, exact) && !e.Persist?
    ensures Mirrors(s, Apply(s, e, network), network, first, exact)
  {
    hide Stored, WithMiner;
    if e.MinerInTable? && e.written {
      WithMinerStored(s.rows, e.hash, e.miner, network);
    }
  }

  lemma StepKeepsMirror(s: Store, e: StoreEvent, network: nat, first: nat, exact: bool)
    requires ValidStore(s) && InRange(e, first, Hidden(s.rows, network, first))
    requires Mirrors(s, s, network, first, exact) && (exact && e.Persist? ==> e.written)
    ensures Mirrors(s, Apply(s, e, network), network, first, exact)
  {
    if !e.Persist? {
      MinerKeepsMirror(s, e, network, first, exact);
    } else if e.written {
      PersistKeepsMirror(s, e.batch, network, first, exact);
    } else {
      LostWriteKeepsMirror(s, e.batch, network, first);
    }
  }

  /** A restart is transparent. Whatever was persisted, in whatever batches, and whichever miners were
      identified meanwhile, the tree loaded from the table has the hashes, heights and edges of the live
      one if every write succeeded, and never a header the live tree lacks. */
  lemma {:induction false} RestartTransparent(s: Store, events: seq<StoreEvent>, network: nat, first: nat)
    requires ValidStore(s) && SameHeaders(Loadable(s.rows, network, first), s.live)
    requires forall i :: 0 <= i < |events| ==> InRange(events[i], first, Hidden(s.rows, network, first))
    ensures Mirrors(s, ApplyAll(s, events, network), network, first,
                    forall i :: 0 <= i < |events| && events[i].Persist? ==> events[i].written)
  {
    if events != [] {
      var n := |events| - 1;
      RestartTransparent(s, events[..n], network, first);
      StepKeepsMirror(ApplyAll(s, events[..n], network), events[n], network, first,
                      forall i :: 0 <= i < |events| && events[i].Persist? ==> events[i].written);
    }
  }

  /** Hence the reloaded tree has the live tree's edges as well. */
  lemma SameHeadersSameEdges(loaded: TreeInfo, live: TreeInfo)
    requires loaded.Valid() && live.Valid() && SameHeaders(loaded.Known(), live.Known())
    ensures loaded.HashEdges() == live.HashEdges()
  {
    assert loaded.Hashes() == loaded.Known().Keys == live.Known().Keys == live.Hashes();
    EdgesFollowFromHashes(loaded);
    EdgesFollowFromHashes(live);
  }
}
