/** The poll loop of one node, and what holds over every run of all the loops of a network. */
module PollLoop {
  import opened Wrappers
  import opened Chain
  import opened HeaderTree
  import opened HeaderDb
  import opened NodeOracle
  import opened SharedFetch

  /** Every header a restart would load is in the live tree, and everything is stored at its true height. */
  ghost predicate Backed(t: TreeInfo, rows: map<Key, Row>, network: nat, first: nat) {
    && t.AllTracked(first) && ValidRows(rows) && Loadable(rows, network, first).Keys <= t.Hashes()
    && AllTrackedIn(Stored(rows, network), 0)
  }

  /** The headers that a restart would load. */
  ghost function LoadKeys(rows: map<Key, Row>, network: nat, first: nat): set<BlockHash>
    requires ValidRows(rows)
  {
    Loadable(rows, network, first).Keys
  }

  /** And a restart would load every header of the live tree. */
  ghost predicate Mirrored(t: TreeInfo, rows: map<Key, Row>, network: nat, first: nat) {
    Backed(t, rows, network, first) && t.Hashes() <= LoadKeys(rows, network, first)
  }

  lemma MirroredMeans(t: TreeInfo, rows: map<Key, Row>, network: nat, first: nat)
    requires Backed(t, rows, network, first)
    ensures ValidRows(rows)
    ensures Mirrored(t, rows, network, first) <==> t.Hashes() <= LoadKeys(rows, network, first)
  {
    hide LoadKeys, Loadable, AllTrackedIn;
  }

  /** That is the mirror of `RestartTransparent`: the same headers at the same heights. */
  lemma MirroredIsSame(t: TreeInfo, rows: map<Key, Row>, network: nat, first: nat)
    requires Backed(t, rows, network, first)
    ensures Mirrored(t, rows, network, first) <==> SameHeaders(Loadable(rows, network, first), t.Known())
  {
    hide Stored;
    var a, b := Loadable(rows, network, first), t.Known();
    assert b.Keys == t.Hashes();
    forall h | h in a && h in b
      ensures a[h].header == b[h].header && a[h].height == b[h].height
    {
      assert Tracked(t.nodes[t.index[h]], first) && a[h].Hash() == h == b[h].Hash();
    }
  }

  ghost predicate AllTrackedIn(known: map<BlockHash, HeaderInfo>, first: nat) {
    forall h :: h in known ==> known[h].Hash() == h && Tracked(known[h], first)
  }

  /** A merged entry is the old one, or a fetched one. */
  lemma MergedEntry(known: map<BlockHash, HeaderInfo>, headers: seq<HeaderInfo>, first: nat, h: BlockHash)
    requires AllFetched(headers, first) && h in Merge(known, headers)
    ensures if h in known then Merge(known, headers)[h] == known[h]
            else h in HashesOf(headers) && Merge(known, headers)[h].Hash() == h
                 && Tracked(Merge(known, headers)[h], first)
  {
    MergeKeys(known, headers);
    MergeLookup(known, headers, h);
  }

  lemma MergedTracked(known: map<BlockHash, HeaderInfo>, headers: seq<HeaderInfo>, first: nat)
    requires AllFetched(headers, first) && AllTrackedIn(known, 0)
    ensures AtOrAbove(Merge(known, headers), first).Keys == AtOrAbove(known, first).Keys + HashesOf(headers)
    ensures AllTrackedIn(Merge(known, headers), 0)
  {
    hide HashesOf, Merge, AllTrackedIn;
    MergeKeys(known, headers);
    forall h | h in Merge(known, headers)
      ensures Merge(known, headers)[h].Hash() == h && Tracked(Merge(known, headers)[h], 0)
      ensures h in known ==> Merge(known, headers)[h] == known[h]
      ensures h in HashesOf(headers) ==> first <= Merge(known, headers)[h].height
      ensures h !in known ==> h in HashesOf(headers)
    {
      MergedEntry(known, headers, first, h);
      TrackedEntry(known, h);
      TrueHeight(headers, first, h);
    }
    AllEntriesTracked(Merge(known, headers));
  }

  lemma TrackedEntry(known: map<BlockHash, HeaderInfo>, h: BlockHash)
    requires AllTrackedIn(known, 0)
    ensures h in known ==> known[h].Hash() == h && Tracked(known[h], 0)
  {
    hide Tracked;
  }

  lemma AllEntriesTracked(known: map<BlockHash, HeaderInfo>)
    requires forall h :: h in known ==> known[h].Hash() == h && Tracked(known[h], 0)
    ensures AllTrackedIn(known, 0)
  {
    hide Tracked;
  }

  lemma TrueHeight(headers: seq<HeaderInfo>, first: nat, h: BlockHash)
    requires AllFetched(headers, first)
    ensures h in HashesOf(headers) ==> h.Digest? && first <= Height(h.header)
  {}

  /** Rows that are written reach the next restart, and no other header does. */
  lemma LoadableAfterInsert(rows: map<Key, Row>, headers: seq<HeaderInfo>, network: nat, first: nat)
    requires ValidRows(rows) && AllFetched(headers, first) && AllTrackedIn(Stored(rows, network), 0)
    ensures Loadable(InsertRows(rows, headers, network), network, first).Keys
         == Loadable(rows, network, first).Keys + HashesOf(headers)
    ensures AllTrackedIn(Stored(InsertRows(rows, headers, network), network), 0)
  {
    hide Stored, InsertRows, ValidRows, AllFetched, AllTrackedIn, AtOrAbove, Merge;
    InsertRowsIsMerge(rows, headers, network, network);
    MergedTracked(Stored(rows, network), headers, first);
  }

  lemma InsertKeepsTracked(t: TreeInfo, t': TreeInfo, headers: seq<HeaderInfo>, first: nat)
    requires t.AllTracked(first) && AllFetched(headers, first) && t'.Valid() && t.nodes <= t'.nodes
    requires forall i :: |t.nodes| <= i < |t'.nodes| ==> t'.nodes[i] in headers
    ensures t'.AllTracked(first)
  {
    forall i | 0 <= i < |t'.nodes|
      ensures Tracked(t'.nodes[i], first)
    {
      if i < |t.nodes| {
        assert t.nodes[i] == t'.nodes[i];
      }
    }
  }

  /** Rows of headers that are in the tree, or of another network, keep the table backed. */
  lemma WriteKeepsBacked(t: TreeInfo, rows: map<Key, Row>, batch: seq<HeaderInfo>, other: nat, network: nat, first: nat)
    requires Backed(t, rows, network, first)
    requires (other == network ==> AllFetched(batch, first) && HashesOf(batch) <= t.Hashes())
    ensures Backed(t, InsertRows(rows, batch, other), network, first)
    ensures LoadKeys(rows, network, first) <= LoadKeys(InsertRows(rows, batch, other), network, first)
    ensures other == network ==> HashesOf(batch) <= LoadKeys(InsertRows(rows, batch, other), network, first)
  {
    hide TreeInfo.AllTracked, InsertRows;
    if other == network {
      LoadableAfterInsert(rows, batch, network, first);
    } else {
      InsertRowsIsMerge(rows, batch, other, network);
    }
  }

  lemma MinerKeepsBacked(t: TreeInfo, rows: map<Key, Row>, hash: BlockHash, miner: string, network: nat, first: nat)
    requires Backed(t, rows, network, first)
    ensures Backed(t, WithMiner(rows, hash, miner), network, first)
    ensures LoadKeys(WithMiner(rows, hash, miner), network, first) == LoadKeys(rows, network, first)
  {
    hide TreeInfo.AllTracked, WithMiner, Stored;
    WithMinerStored(rows, hash, miner, network);
    var before, after := Loadable(rows, network, first), Loadable(WithMiner(rows, hash, miner), network, first);
    forall h | h in after
      ensures h in before && after[h].header == before[h].header && after[h].height == before[h].height
    {}
    assert forall h :: h in after ==> h in before.Keys;
  }

  /** Whatever `a` holds, `b` holds unchanged. */
  ghost predicate Extends(a: map<BlockHash, HeaderInfo>, b: map<BlockHash, HeaderInfo>) {
    forall h :: h in a ==> h in b && b[h] == a[h]
  }

  /** No row is lost, and none changes but for its miner. */
  ghost predicate RowsKept(a: map<Key, Row>, b: map<Key, Row>) {
    forall k :: k in a ==> k in b && b[k].height == a[k].height
  }

  lemma {:induction false} InsertKeepsRows(rows: map<Key, Row>, batch: seq<HeaderInfo>, network: nat)
    ensures RowsKept(rows, InsertRows(rows, batch, network))
  {
    if batch != [] {
      InsertKeepsRows(rows, batch[..|batch| - 1], network);
    }
  }

  lemma MinerKeepsRows(rows: map<Key, Row>, hash: BlockHash, miner: string)
    ensures RowsKept(rows, WithMiner(rows, hash, miner))
  {}

  lemma RowsKeptSteps(a: map<Key, Row>, b: map<Key, Row>, c: map<Key, Row>)
    requires RowsKept(a, b) && RowsKept(b, c)
    ensures RowsKept(a, c)
  {}

  lemma RowsKeptSame(a: map<Key, Row>)
    ensures RowsKept(a, a)
  {}

  lemma PrefixExtends(t: TreeInfo, t': TreeInfo)
    requires t.Valid() && t'.Valid() && t.nodes <= t'.nodes
    ensures Extends(t.Known(), t'.Known())
    ensures t.Hashes() == t'.Hashes() ==> t.Known() == t'.Known()
  {
    forall h | h in t.Known()
      ensures h in t'.Known() && t'.Known()[h] == t.Known()[h]
    {
      var i := t.index[h];
      assert t'.nodes[i] == t.nodes[i] && t'.nodes[i].Hash() == h;
    }
  }

  /** The tasks of the other nodes and networks, and the identification of miners, between two steps of an
      iteration: they change the tree, the table, or both. */
  method OthersRun(tree: SharedTree, db: Database, sent: seq<HeaderInfo>, network: nat, first: nat, solo: bool)
    requires Backed(tree.info, db.rows, network, first) && AllFetched(sent, first)
    modifies tree, db
    ensures Backed(tree.info, db.rows, network, first) && old(tree.info.Hashes()) <= tree.info.Hashes()
    ensures solo ==> tree.info.Hashes() <= old(tree.info.Hashes()) + HashesOf(sent)
    ensures Extends(old(tree.info.Known()), tree.info.Known()) && RowsKept(old(db.rows), db.rows)
    ensures ValidRows(db.rows) && old(LoadKeys(db.rows, network, first)) <= LoadKeys(db.rows, network, first)
    ensures tree.info.Hashes() == old(tree.info.Hashes()) ==> tree.info.Known() == old(tree.info.Known())
  {
    hide *;
    ghost var t, rows := tree.info, db.rows;
    BackedFacts(t, db.rows, network, first);
    OtherTasks(tree, sent, first, solo);
    BackedGrown(t, tree.info, db.rows, sent, network, first, solo);
    BackedFacts(tree.info, db.rows, network, first);
    PrefixExtends(t, tree.info);
    RowsKeptSame(rows);
    if * {
      var batch: seq<HeaderInfo>, other: nat := *, *;
      if other == network ==> AllFetched(batch, first) && HashesOf(batch) <= tree.info.Hashes() {
        WriteKeepsBacked(tree.info, db.rows, batch, other, network, first);
        InsertKeepsRows(db.rows, batch, other);
        var _ := db.WriteToDb(batch, other);
      }
    }
    BackedFacts(tree.info, db.rows, network, first);
    if * {
      var hash: BlockHash, miner: string := *, *;
      MinerKeepsBacked(tree.info, db.rows, hash, miner, network, first);
      MinerKeepsRows(db.rows, hash, miner);
      RowsKeptSteps(rows, db.rows, WithMiner(db.rows, hash, miner));
      var _ := db.UpdateMiner(hash, miner);
    }
  }

  lemma InsertBacked(t: TreeInfo, t': TreeInfo, rows: map<Key, Row>, headers: seq<HeaderInfo>, network: nat, first: nat)
    requires Backed(t, rows, network, first) && AllFetched(headers, first)
    requires t'.Valid() && t.nodes <= t'.nodes && t'.Hashes() == t.Hashes() + HashesOf(headers)
    requires forall i :: |t.nodes| <= i < |t'.nodes| ==> t'.nodes[i] in headers
    ensures Backed(t', rows, network, first)
  {
    InsertKeepsTracked(t, t', headers, first);
    hide TreeInfo.AllTracked, AllFetched, TreeInfo.Valid, Loadable;
  }

  /** Writes headers to the tree, and then to the table if that succeeds. Other tasks run in between; `atWrite` is
      what the table holds when the write begins. */
  method PersistHeaders(headers: seq<HeaderInfo>, tree: SharedTree, db: Database, network: nat, first: nat, solo: bool)
    returns (written: bool, ghost atWrite: map<Key, Row>)
    requires Backed(tree.info, db.rows, network, first) && AllFetched(headers, first)
    modifies tree, db
    ensures Backed(tree.info, db.rows, network, first)
    ensures old(tree.info.Hashes()) + HashesOf(headers) <= tree.info.Hashes()
    ensures Extends(Merge(old(tree.info.Known()), headers), tree.info.Known())
    ensures solo ==> tree.info.Hashes() == old(tree.info.Hashes()) + HashesOf(headers)
    ensures solo ==> tree.info.Known() == Merge(old(tree.info.Known()), headers)
    ensures RowsKept(old(db.rows), atWrite)
    ensures db.rows == if written then InsertRows(atWrite, headers, network) else atWrite
    ensures db.reliable && headers != [] ==> written
    ensures ValidRows(db.rows) && old(LoadKeys(db.rows, network, first)) <= LoadKeys(db.rows, network, first)
    ensures written || db.reliable ==> HashesOf(headers) <= LoadKeys(db.rows, network, first)
    ensures solo && db.reliable && old(Mirrored(tree.info, db.rows, network, first)) ==>
            Mirrored(tree.info, db.rows, network, first)
  {
    hide *;
    MirroredMeans(tree.info, db.rows, network, first);
    BackedFacts(tree.info, db.rows, network, first);
    atWrite := db.rows;
    ghost var t := tree.info;
    if headers == [] {
      NothingPersisted(t, db.rows, first);
      return false, atWrite;
    }
    var _ := tree.InsertHeaders(headers);
    InsertBacked(t, tree.info, db.rows, headers, network, first);
    NoHashes(first);
    ghost var inserted := tree.info.Hashes();
    OthersRun(tree, db, [], network, first, solo);
    BackedFacts(tree.info, db.rows, network, first);
    atWrite := db.rows;
    WriteKeepsBacked(tree.info, db.rows, headers, network, network, first);
    var r := db.WriteToDb(headers, network);
    written := r.Success?;
    MirroredMeans(tree.info, db.rows, network, first);
  }

  lemma NothingPersisted(t: TreeInfo, rows: map<Key, Row>, first: nat)
    requires t.AllTracked(first)
    ensures HashesOf([]) == {} && Merge(t.Known(), []) == t.Known() && Extends(t.Known(), t.Known())
    ensures RowsKept(rows, rows)
  {}

  lemma BackedFacts(t: TreeInfo, rows: map<Key, Row>, network: nat, first: nat)
    requires Backed(t, rows, network, first)
    ensures t.Valid() && t.AllTracked(first) && ValidRows(rows)
  {}

  /** Start-up: the tree is rebuilt from the table. It holds nothing that a live tree backing the same
      table did not hold, so a restart only ever loses headers. */
  method Reload(db: Database, network: nat, first: nat, ghost live: TreeInfo) returns (r: Result<SharedTree, DbError>)
    requires Backed(live, db.rows, network, first)
    ensures r.Success? ==> fresh(r.value) && Backed(r.value.info, db.rows, network, first)
    ensures r.Success? ==> r.value.info.Hashes() <= live.Hashes()
    ensures r.Success? && Mirrored(live, db.rows, network, first) ==>
            && SameHeaders(r.value.info.Known(), live.Known())
            && r.value.info.HashEdges() == live.HashEdges()
    ensures db.reliable ==> r.Success?
  {
    BackedFacts(live, db.rows, network, first);
    var info := db.LoadTreeInfos(network, first);
    if info.Failure? {
      return Failure(info.error);
    }
    ReloadedTracked(info.value, Loadable(db.rows, network, first), first);
    var tree := new SharedTree(info.value);
    if Mirrored(live, db.rows, network, first) {
      MirroredIsSame(live, db.rows, network, first);
      SameHeadersSameEdges(info.value, live);
    }
    r := Success(tree);
  }

  lemma ReloadedTracked(t: TreeInfo, loaded: map<BlockHash, HeaderInfo>, first: nat)
    requires t.Valid() && t.Known() == loaded && AllTrackedIn(loaded, first)
    ensures t.AllTracked(first) && t.Hashes() == loaded.Keys
  {
    forall i | 0 <= i < |t.nodes|
      ensures Tracked(t.nodes[i], first)
    {
      assert t.Known()[t.nodes[i].Hash()] == t.nodes[i];
    }
    assert t.Hashes() == t.Known().Keys;
  }

  // ----- Fetching

  /** An eligible tip is in `known`. */
  ghost predicate Covered(tip: ChainTip, known: set<BlockHash>, first: nat) {
    if tip.status.Active? then
      first <= tip.height && tip.hash.Some? ==> tip.hash.value in known
    else
      TipCovered(tip, known, first)
  }

  ghost predicate AllCovered(tips: seq<ChainTip>, known: set<BlockHash>, first: nat) {
    forall tip | tip in tips :: Covered(tip, known, first)
  }

  lemma {:induction false} FlattenConcat(a: seq<seq<HeaderInfo>>, b: seq<seq<HeaderInfo>>)
    ensures Flatten(a + b) == Flatten(a) + Flatten(b)
  {
    if b == [] {
      assert a + b == a;
    } else {
      var n := |b| - 1;
      FlattenConcat(a, b[..n]);
      assert (a + b)[..|a| + n] == a + b[..n] && (a + b)[|a| + n] == b[n];
    }
  }

  /** The two fetches together cover every eligible tip. */
  lemma TipsCovered(view: NodeView, tips: seq<ChainTip>, before: set<BlockHash>, mid: set<BlockHash>,
                    after: set<BlockHash>, active: seq<HeaderInfo>, nonactive: seq<HeaderInfo>, sent: seq<HeaderInfo>,
                    first: nat, solo: bool)
    requires view.ConsistentTips(tips) && mid <= after
    requires ActiveFetched(view, before, mid, active, sent, first, solo)
    requires NonactiveFetched(view, tips, after, nonactive, first)
    ensures AllCovered(tips, after + (HashesOf(active) + HashesOf(nonactive)), first)
  {
    forall tip | tip in tips
      ensures Covered(tip, after + (HashesOf(active) + HashesOf(nonactive)), first)
    {
      assert view.ConsistentTip(tip);
      if !tip.status.Active? {
        assert TipCovered(tip, after + HashesOf(nonactive), first);
      }
    }
  }

  lemma ClosedIsUnbroken(view: NodeView, known: set<BlockHash>, first: nat)
    requires view.Consistent() && Closed(known, first)
    ensures UnbrokenActive(view, known, first)
  {
    forall i, j | first <= i <= j < |view.active| && Digest(view.active[j]) in known
      ensures Digest(view.active[i]) in known
    {
      ClosedHoldsAncestry(known, first, view.active[j], i);
      ActiveAncestor(view, j, i);
    }
  }

  /** On a gap-free tree, the two fetches together leave no gap. */
  lemma FetchKeepsClosed(view: NodeView, tips: seq<ChainTip>, before: set<BlockHash>, mid: set<BlockHash>,
                         after: set<BlockHash>, active: seq<HeaderInfo>, nonactive: seq<HeaderInfo>,
                         sent: seq<HeaderInfo>, first: nat)
    requires view.ConsistentTips(tips) && Closed(before, first)
    requires before <= mid <= after <= before + (HashesOf(active) + HashesOf(nonactive))
    requires ActiveFetched(view, before, mid, active, sent, first, true)
    requires NonactiveFetched(view, tips, after, nonactive, first)
    ensures Closed(after + (HashesOf(active) + HashesOf(nonactive)), first)
  {
    var known := after + (HashesOf(active) + HashesOf(nonactive));
    ClosedIsUnbroken(view, before, first);
    assert ActiveHashesAbove(view, -1, first) <= before + HashesOf(active);
    forall h | h in known
      ensures !Unexpected(h, known, first)
    {
      if h in HashesOf(nonactive) {
        assert !Unexpected(h, after + ActiveHashesAbove(view, -1, first) + HashesOf(nonactive), first);
      } else if h in before {
        assert !Unexpected(h, before, first);
      } else {
        var i :| first <= i < |view.active| && h == Digest(view.active[i]);
        if first < i {
          assert Digest(view.active[i - 1]) in ActiveHashesAbove(view, -1, first);
        }
      }
    }
  }

  /** The node has an answer to whatever a fetch asks for. */
  ghost predicate Fetchable(view: NodeView, tips: seq<ChainTip>, known: set<BlockHash>, first: nat) {
    HasActiveTip(tips) && AllLoadable(view, tips, known, first)
  }

  lemma LoadableLater(view: NodeView, tips: seq<ChainTip>, known: set<BlockHash>, known': set<BlockHash>, first: nat)
    requires AllLoadable(view, tips, known, first) && known <= known'
    ensures AllLoadable(view, tips, known', first)
  {
    forall tip | tip in tips
      ensures TipLoadable(view, tip, known', first)
    {
      assert TipLoadable(view, tip, known, first);
    }
  }

  /** Only headers of the tracked active chain, and of the branches of eligible tips above what the tree held. */
  ghost predicate Wanted(view: NodeView, tips: seq<ChainTip>, before: set<BlockHash>, added: set<BlockHash>,
                         first: nat) {
    forall x :: x in added ==> x in ActiveHashesAbove(view, -1, first) || FromBranches(tips, before, {x}, first)
  }

  lemma BothWanted(view: NodeView, tips: seq<ChainTip>, before: set<BlockHash>, mid: set<BlockHash>,
                   active: set<BlockHash>, nonactive: set<BlockHash>, first: nat)
    requires active <= ActiveHashesAbove(view, -1, first) && FromBranches(tips, mid, nonactive, first) && before <= mid
    ensures Wanted(view, tips, before, active + nonactive, first) && Wanted(view, tips, before, active, first)
  {
    hide ActiveHashesAbove;
    forall x | x in nonactive
      ensures FromBranches(tips, before, {x}, first)
    {
      var tip :| tip in tips && FromBranch(tip, mid, x.header, first);
      NewInBranch(tip, before, mid, {x}, first);
    }
  }

  lemma NoneWanted(view: NodeView, tips: seq<ChainTip>, before: set<BlockHash>, first: nat)
    ensures Wanted(view, tips, before, before - before, first)
  {}

  lemma WantedPart(view: NodeView, tips: seq<ChainTip>, before: set<BlockHash>, added: set<BlockHash>,
                   part: set<BlockHash>, first: nat)
    requires Wanted(view, tips, before, added, first) && part <= added
    ensures Wanted(view, tips, before, part, first)
  {
    hide ActiveHashesAbove, FromBranches;
  }

  /** The active chain, then the other branches. */
  method GetNewHeaders(view: NodeView, tips: seq<ChainTip>, useRest: bool, tree: SharedTree, first: nat, solo: bool)
    returns (r: Result<seq<HeaderInfo>, FetchError>, progress: seq<seq<HeaderInfo>>)
    requires view.ConsistentTips(tips) && tree.info.AllTracked(first)
    modifies tree
    ensures AllFetched(Flatten(progress), first)
    ensures Grown(old(tree.info.Hashes()), tree.info, Flatten(progress), first, solo)
    ensures r.Success? ==> multiset(Flatten(progress)) == multiset(r.value)
    ensures r.Success? ==> AllCovered(tips, tree.info.Hashes() + HashesOf(r.value), first)
    ensures r.Success? && solo && Closed(old(tree.info.Hashes()), first) ==>
            Closed(tree.info.Hashes() + HashesOf(r.value), first)
    ensures r.Success? ==> HasActiveTip(tips) && HashesOf(r.value) !! old(tree.info.Hashes())
    ensures Wanted(view, tips, old(tree.info.Hashes()), HashesOf(Flatten(progress)), first)
    ensures view.reliable && Fetchable(view, tips, old(tree.info.Hashes()), first) ==> r.Success?
  {
    ghost var before := tree.info.Hashes();
    var active;
    if useRest {
      active, progress := GetNewActiveHeadersAsBatch(view, tips, tree, first, solo);
    } else {
      active, progress := GetNewActiveHeadersByHeight(view, tips, tree, first, solo);
    }
    BothWanted(view, tips, before, tree.info.Hashes(), HashesOf(Flatten(progress)), {}, first);
    if active.Failure? {
      return active, progress;
    }
    ghost var mid := tree.info;
    if AllLoadable(view, tips, before, first) {
      LoadableLater(view, tips, before, mid.Hashes(), first);
    }
    ghost var activeSent := Flatten(progress);
    var nonactive, more := GetNewNonactiveHeadersByHash(view, tips, tree, Flatten(progress), first, solo);
    FlattenConcat(progress, more);
    progress := progress + more;
    BothWanted(view, tips, before, mid.Hashes(), HashesOf(activeSent), HashesOf(Flatten(more)), first);
    GrownOn(before, mid, tree.info, activeSent, Flatten(more), first, solo);
    if nonactive.Failure? {
      return nonactive, progress;
    }
    r := Success(active.value + nonactive.value);
    HashesOfConcat(active.value, nonactive.value);
    SameElementsSameHashes(active.value, activeSent);
    TipsCovered(view, tips, before, mid.Hashes(), tree.info.Hashes(), active.value, nonactive.value, activeSent, first,
                solo);
    if solo && Closed(before, first) {
      FetchKeepsClosed(view, tips, before, mid.Hashes(), tree.info.Hashes(), active.value, nonactive.value, activeSent,
                       first);
    }
  }

  lemma GrownOn(before: set<BlockHash>, t: TreeInfo, t': TreeInfo, sent: seq<HeaderInfo>, more: seq<HeaderInfo>,
                first: nat, solo: bool)
    requires Grown(before, t, sent, first, solo) && Grown(t.Hashes(), t', sent + more, first, solo)
    requires AllFetched(sent, first) && AllFetched(more, first)
    ensures Grown(before, t', sent + more, first, solo) && AllFetched(sent + more, first)
    ensures HashesOf(sent + more) == HashesOf(sent) + HashesOf(more)
  {
    HashesOfConcat(sent, more);
  }

  lemma FlattenSnoc(batches: seq<seq<HeaderInfo>>, j: nat)
    requires j < |batches|
    ensures Flatten(batches[..j + 1]) == Flatten(batches[..j]) + batches[j]
    ensures HashesOf(Flatten(batches[..j + 1])) == HashesOf(Flatten(batches[..j])) + HashesOf(batches[j])
  {
    assert batches[..j + 1][..j] == batches[..j];
    HashesOfConcat(Flatten(batches[..j]), batches[j]);
  }

  lemma FlattenAt(batches: seq<seq<HeaderInfo>>, j: nat, first: nat)
    requires j < |batches| && AllFetched(Flatten(batches), first)
    ensures AllFetched(batches[j], first)
  {
    hide Flatten, AllFetched;
    assert batches == batches[..j + 1] + batches[j + 1..];
    FlattenConcat(batches[..j + 1], batches[j + 1..]);
    FlattenSnoc(batches, j);
    PartIsFetched(Flatten(batches[..j]), batches[j], Flatten(batches[j + 1..]), first);
  }

  lemma PartIsFetched(a: seq<HeaderInfo>, b: seq<HeaderInfo>, c: seq<HeaderInfo>, first: nat)
    requires AllFetched((a + b) + c, first)
    ensures AllFetched(b, first)
  {
    hide Fetched;
    forall k | 0 <= k < |b|
      ensures Fetched(b[k], first)
    {
      assert ((a + b) + c)[|a| + k] == b[k];
    }
  }

  /** Fetches, and returns once every progress batch has been consumed. */
  method FetchIncrementalHeaders(view: NodeView, tips: seq<ChainTip>, useRest: bool, tree: SharedTree, db: Database,
                                 network: nat, first: nat, solo: bool)
    returns (ok: bool)
    requires view.ConsistentTips(tips) && Backed(tree.info, db.rows, network, first)
    modifies tree, db
    ensures Backed(tree.info, db.rows, network, first) && old(tree.info.Hashes()) <= tree.info.Hashes()
    ensures ok ==> AllCovered(tips, tree.info.Hashes(), first)
    ensures ok && solo && Closed(old(tree.info.Hashes()), first) ==> Closed(tree.info.Hashes(), first)
    ensures ok ==> HasActiveTip(tips)
    ensures solo ==> Wanted(view, tips, old(tree.info.Hashes()), tree.info.Hashes() - old(tree.info.Hashes()), first)
    ensures view.reliable && Fetchable(view, tips, old(tree.info.Hashes()), first) ==> ok
    ensures solo && db.reliable && old(Mirrored(tree.info, db.rows, network, first)) ==>
            Mirrored(tree.info, db.rows, network, first)
  {
    hide *;
    ghost var t := tree.info;
    BackedFacts(t, db.rows, network, first);
    MirroredMeans(t, db.rows, network, first);
    ghost var stored := LoadKeys(db.rows, network, first);
    var fetched, progress := GetNewHeaders(view, tips, useRest, tree, first, solo);
    var sent := Flatten(progress);
    BackedGrown(t, tree.info, db.rows, sent, network, first, solo);
    BackedFacts(tree.info, db.rows, network, first);
    ghost var after := tree.info.Hashes();
    NothingSent(tree.info, first, solo);
    assert progress[..0] == [];
    for j := 0 to |progress|
      invariant Backed(tree.info, db.rows, network, first)
      invariant after + HashesOf(Flatten(progress[..j])) <= tree.info.Hashes()
      invariant solo ==> tree.info.Hashes() <= after + HashesOf(sent)
      invariant ValidRows(db.rows) && stored <= LoadKeys(db.rows, network, first)
      invariant db.reliable ==> HashesOf(Flatten(progress[..j])) <= LoadKeys(db.rows, network, first)
    {
      FlattenAt(progress, j, first);
      FlattenSnoc(progress, j);
      FlattenPrefix(progress, j + 1);
      OthersRun(tree, db, sent, network, first, solo);
      var _, _ := PersistHeaders(progress[j], tree, db, network, first, solo);
    }
    assert progress[..|progress|] == progress;
    MirroredMeans(tree.info, db.rows, network, first);
    if solo {
      assert tree.info.Hashes() == after + HashesOf(sent);
      WantedPart(view, tips, t.Hashes(), HashesOf(sent), tree.info.Hashes() - t.Hashes(), first);
    }
    ok := fetched.Success?;
    if ok {
      SameElementsSameHashes(fetched.value, sent);
      AllCoveredMonotone(tips, after + HashesOf(sent), tree.info.Hashes(), first);
    }
  }

  lemma BackedGrown(t: TreeInfo, t': TreeInfo, rows: map<Key, Row>, sent: seq<HeaderInfo>, network: nat, first: nat,
                    solo: bool)
    requires Backed(t, rows, network, first) && Grown(t.Hashes(), t', sent, first, solo)
    ensures Backed(t', rows, network, first) && t.Hashes() <= t'.Hashes()
    ensures solo ==> t'.Hashes() <= t.Hashes() + HashesOf(sent)
  {}

  lemma FlattenPrefix(batches: seq<seq<HeaderInfo>>, j: nat)
    requires j <= |batches|
    ensures HashesOf(Flatten(batches[..j])) <= HashesOf(Flatten(batches))
  {
    assert batches == batches[..j] + batches[j..];
    FlattenConcat(batches[..j], batches[j..]);
    HashesOfConcat(Flatten(batches[..j]), Flatten(batches[j..]));
  }

  lemma AllCoveredMonotone(tips: seq<ChainTip>, known: set<BlockHash>, known': set<BlockHash>, first: nat)
    requires AllCovered(tips, known, first) && known <= known'
    ensures AllCovered(tips, known', first)
  {
    forall tip | tip in tips
      ensures Covered(tip, known', first)
    {
      assert Covered(tip, known, first);
    }
  }

  // ----- Repairing

  /** The headers in the tree when a repair pass began, those it loaded, and those that other pollers inserted
      while it ran. */
  datatype Pass = Pass(before: set<BlockHash>, loaded: set<BlockHash>, others: set<BlockHash>)

  /** The three parts make up the tree at the end, and none overlaps another. */
  ghost predicate PassAdds(p: Pass, known: set<BlockHash>) {
    && known == p.before + p.loaded + p.others
    && p.loaded !! p.before && p.others !! p.before && p.others !! p.loaded
  }

  /** Every root left above the bound was inserted by another poller during the pass, or is out of the node's
      reach. */
  ghost predicate Healed(view: NodeView, p: Pass, known: set<BlockHash>, first: nat) {
    forall h :: h in known && Unexpected(h, known, first) ==> h in p.others || Unreachable(view, h.header)
  }

  /** What an Ok pass did, when its headers have been inserted. */
  lemma RepairedHeals(view: NodeView, before: set<BlockHash>, after: set<BlockHash>, final: set<BlockHash>,
                      headers: seq<HeaderInfo>, first: nat)
    requires Repaired(view, before, after, headers, first) && before <= final && after + HashesOf(headers) <= final
    ensures var p := Pass(before, HashesOf(headers), final - before - HashesOf(headers));
            PassAdds(p, final) && Healed(view, p, final, first)
  {
    forall h | h in before + HashesOf(headers) && Unexpected(h, final, first)
      ensures Unreachable(view, h.header)
    {
      assert Unexpected(h, after + HashesOf(headers), first);
    }
  }

  /** Without a gap there is nothing to repair. */
  lemma NothingToRepair(view: NodeView, t: TreeInfo, first: nat)
    requires t.AllTracked(first) && UnexpectedRootCount(t, first) == 0
    ensures Healed(view, Pass(t.Hashes(), {}, {}), t.Hashes(), first)
    ensures LeavesExactly(view, t.Hashes(), t.Hashes(), first) && Answerable(view, t.Hashes(), first)
  {
    UnexpectedRootsMeaning(t, first);
    hide UnexpectedRootCount;
  }

  lemma LeavesExactlyAfter(view: NodeView, before: set<BlockHash>, added: set<BlockHash>, after: set<BlockHash>,
                           first: nat)
    requires LeavesExactly(view, before, added, first) && after == before + added
    ensures LeavesExactly(view, before, after, first)
  {
    assert before + after == before + added;
  }

  /** Only headers that the node has served. */
  ghost predicate Served(view: NodeView, loaded: set<BlockHash>) {
    forall x :: x in loaded ==> x.Digest? && x.header in view.known
  }

  lemma ServedHashes(view: NodeView, headers: seq<HeaderInfo>)
    requires AllServed(view, headers)
    ensures Served(view, HashesOf(headers))
  {}

  lemma NothingLoaded(view: NodeView, known: set<BlockHash>, known': set<BlockHash>, first: nat)
    requires known <= known'
    ensures PassAdds(Pass(known, {}, known' - known), known') && Served(view, {}) && OnlyMissing(known, {}, first)
    ensures known == known' ==> Pass(known, {}, known' - known) == Pass(known, {}, {})
  {}

  /** One repair pass. Without other pollers, a node that serves no headers by hash leaves exactly the roots that its
      active chain does not reach, and a reliable node fails exactly if it has no answer for one of the roots. */
  method RepairMissingHeaders(view: NodeView, tree: SharedTree, db: Database, network: nat, first: nat, solo: bool)
    returns (ok: bool, ghost p: Pass)
    requires view.Consistent() && Backed(tree.info, db.rows, network, first)
    modifies tree, db
    ensures Backed(tree.info, db.rows, network, first)
    ensures old(tree.info.Hashes()) <= p.before && PassAdds(p, tree.info.Hashes()) && Served(view, p.loaded)
    ensures solo ==> p.before == old(tree.info.Hashes()) && p.others == {}
    ensures OnlyMissing(p.before, p.loaded, first)
    ensures ok ==> Healed(view, p, tree.info.Hashes(), first)
    ensures ok && solo && !view.hashLookup ==> LeavesExactly(view, old(tree.info.Hashes()), tree.info.Hashes(), first)
    ensures ok && solo ==> Answerable(view, old(tree.info.Hashes()), first)
    ensures view.reliable && Answerable(view, p.before, first) ==> ok
    ensures solo && db.reliable && old(Mirrored(tree.info, db.rows, network, first)) ==>
            Mirrored(tree.info, db.rows, network, first)
  {
    hide *;
    MirroredMeans(tree.info, db.rows, network, first);
    BackedFacts(tree.info, db.rows, network, first);
    if UnexpectedRootCount(tree.info, first) == 0 {
      NothingToRepair(view, tree.info, first);
      NothingLoaded(view, tree.info.Hashes(), tree.info.Hashes(), first);
      return true, Pass(tree.info.Hashes(), {}, {});
    }
    NoHashes(first);
    OthersRun(tree, db, [], network, first, solo);
    BackedFacts(tree.info, db.rows, network, first);
    ghost var t := tree.info;
    var missing := FetchMissingHeadersForUnexpectedRoots(view, tree, first, solo);
    BackedGrown(t, tree.info, db.rows, [], network, first, solo);
    if missing.Failure? {
      NothingLoaded(view, t.Hashes(), tree.info.Hashes(), first);
      MirroredMeans(tree.info, db.rows, network, first);
      return false, Pass(t.Hashes(), {}, tree.info.Hashes() - t.Hashes());
    }
    ghost var after := tree.info.Hashes();
    RepairedFetched(view, t.Hashes(), after, missing.value, first);
    OthersRun(tree, db, [], network, first, solo);
    var _, _ := PersistHeaders(missing.value, tree, db, network, first, solo);
    ghost var final := tree.info.Hashes();
    MirroredMeans(tree.info, db.rows, network, first);
    RepairedHeals(view, t.Hashes(), after, final, missing.value, first);
    ServedHashes(view, missing.value);
    p := Pass(t.Hashes(), HashesOf(missing.value), final - t.Hashes() - HashesOf(missing.value));
    if solo {
      assert p.others == {} && t.Hashes() == old(tree.info.Hashes());
      if !view.hashLookup {
        LeavesExactlyAfter(view, t.Hashes(), HashesOf(missing.value), final, first);
      }
    }
    ok := true;
  }

  lemma NoHashes(first: nat)
    ensures HashesOf([]) == {} && AllFetched([], first)
  {}

  lemma RepairedFetched(view: NodeView, before: set<BlockHash>, after: set<BlockHash>, headers: seq<HeaderInfo>,
                        first: nat)
    requires Repaired(view, before, after, headers, first)
    ensures AllFetched(headers, first)
  {
    hide Unexpected;
  }

  // ----- One iteration

  /** How an iteration ended; `repaired` tells whether the repair pass returned Ok. */
  datatype Outcome = TipsUnavailable | FetchFailed | Completed(repaired: bool)

  /** What one iteration does to the tree and to the tips its poller remembers: `tree` and `last` are those it begins
      with, and `p` is its repair pass. With a reliable node that has all the answers neither fetch nor pass fails. */
  ghost predicate PollStep(tree: set<BlockHash>, last: seq<ChainTip>, tree': set<BlockHash>, last': seq<ChainTip>,
                           view: NodeView, tips: seq<ChainTip>, outcome: Outcome, p: Pass, first: nat)
  {
    && tree <= tree'
    && last' == (if outcome.Completed? then tips else last)
    && (outcome.Completed? ==>
          && tree <= p.before && PassAdds(p, tree') && Served(view, p.loaded) && OnlyMissing(p.before, p.loaded, first)
          && (tips != last ==> AllCovered(tips, p.before, first)))
    && (outcome == Completed(true) ==> Healed(view, p, tree', first))
    && (outcome.FetchFailed? ==> tips != last && !(view.reliable && Fetchable(view, tips, tree, first)))
    && (outcome == Completed(false) ==> !(view.reliable && Answerable(view, p.before, first)))
  }

  class Poller {
    var lastTips: seq<ChainTip>

    constructor ()
      ensures lastTips == []
    {
      lastTips := [];
    }

    /** The body of the poll loop: fetch if the tips changed, then repair. */
    method Iterate(view: NodeView, reported: Result<seq<ChainTip>, FetchError>, useRest: bool, tree: SharedTree,
                   db: Database, network: nat, first: nat, solo: bool)
      returns (outcome: Outcome, ghost p: Pass)
      requires view.Consistent() && (reported.Success? ==> view.ConsistentTips(reported.value))
      requires Backed(tree.info, db.rows, network, first)
      modifies this, tree, db
      ensures Backed(tree.info, db.rows, network, first)
      ensures PollStep(old(tree.info.Hashes()), old(lastTips), tree.info.Hashes(), lastTips, view,
                       if reported.Success? then reported.value else [], outcome, p, first)
      ensures outcome.TipsUnavailable? <==> reported.Failure?
      ensures outcome.TipsUnavailable? ==> tree.info == old(tree.info) && db.rows == old(db.rows)
      ensures solo && reported.Success? ==>
              Wanted(view, reported.value, old(tree.info.Hashes()),
                     (if outcome.Completed? then p.before else tree.info.Hashes()) - old(tree.info.Hashes()), first)
      ensures solo ==> p.others == {}
      ensures outcome.Completed? && reported.value == old(lastTips) && solo ==> p.before == old(tree.info.Hashes())
      ensures reported.Success? && reported.value == old(lastTips) ==> outcome.Completed?
      ensures reported.Success? && view.reliable && Fetchable(view, reported.value, old(tree.info.Hashes()), first) ==>
              outcome.Completed?
      ensures outcome.Completed? && view.reliable && Answerable(view, p.before, first) ==> outcome.repaired
      ensures outcome == Completed(true) && solo ==> Answerable(view, p.before, first)
      ensures solo && db.reliable && old(Mirrored(tree.info, db.rows, network, first)) ==>
              Mirrored(tree.info, db.rows, network, first)
    {
      hide Backed, AllCovered, Healed, PassAdds, Served, Mirrored, LoadKeys, Answerable, Fetchable, Wanted, OnlyMissing;
      MirroredMeans(tree.info, db.rows, network, first);
      p := Pass({}, {}, {});
      if reported.Failure? {
        return TipsUnavailable, p;
      }
      var tips := reported.value;
      NoneWanted(view, tips, tree.info.Hashes(), first);
      if lastTips != tips {
        var ok := FetchIncrementalHeaders(view, tips, useRest, tree, db, network, first, solo);
        if !ok {
          return FetchFailed, p;
        }
        lastTips := tips;
      }
      ghost var fetched := tree.info.Hashes();
      MirroredMeans(tree.info, db.rows, network, first);
      NoHashes(first);
      OthersRun(tree, db, [], network, first, solo);
      MirroredMeans(tree.info, db.rows, network, first);
      var repaired;
      repaired, p := RepairMissingHeaders(view, tree, db, network, first, solo);
      assert solo ==> p.before == fetched;
      if AllCovered(tips, fetched, first) {
        AllCoveredMonotone(tips, fetched, p.before, first);
      }
      outcome := Completed(repaired);
      PassGrows(p, tree.info.Hashes());
    }
  }

  lemma PassGrows(p: Pass, known: set<BlockHash>)
    requires PassAdds(p, known)
    ensures p.before <= known
  {}

  // ----- Whole runs

  /** The tree of a network, and the tips each of its pollers remembers; an absent entry is empty. */
  datatype State = State(tree: set<BlockHash>, lastTips: map<nat, seq<ChainTip>>) {
    ghost function LastTips(node: nat): seq<ChainTip> {
      if node in lastTips then lastTips[node] else []
    }
  }

  /** A running iteration inserts headers; an iteration that began in the state with the number `begin` ends; or the
      program restarts and reloads what the table holds. Iterations of different pollers overlap in any way. */
  datatype Event =
    | Insert(headers: set<BlockHash>)
    | Poll(node: nat, view: NodeView, tips: seq<ChainTip>, outcome: Outcome, begin: nat, p: Pass)
    | Restart

  /** No restart, and no other iteration of the same poller, since the iteration began. */
  ghost predicate Undisturbed(events: seq<Event>, begin: nat, i: nat, node: nat) {
    begin <= i <= |events|
    && forall j :: begin <= j < i ==> !events[j].Restart? && (events[j].Poll? ==> events[j].node != node)
  }

  ghost predicate Step(states: seq<State>, events: seq<Event>, i: nat, first: nat)
    requires i < |events| && |states| == |events| + 1
  {
    var s, s' := states[i], states[i + 1];
    match events[i]
    case Insert(headers) =>
      s' == s.(tree := s.tree + headers)
    case Poll(node, view, tips, outcome, begin, p) =>
      && Undisturbed(events, begin, i, node) && s'.tree == s.tree
      && PollStep(states[begin].tree, states[begin].LastTips(node), s'.tree, s'.LastTips(node), view, tips, outcome, p,
                  first)
      && forall other :: other != node ==> s'.LastTips(other) == s.LastTips(other)
    case Restart =>
      s'.tree <= s.tree && s'.lastTips == map[]
  }

  ghost predicate IsRun(states: seq<State>, events: seq<Event>, first: nat) {
    && |states| == |events| + 1
    && states[0].lastTips == map[]
    && forall i :: 0 <= i < |events| ==> Step(states, events, i, first)
  }

  /** Skipping a fetch is safe: in every reachable state the tree holds all eligible tips of every list of
      tips a poller remembers, so when a node reports that list again there is nothing to fetch. */
  lemma {:induction false} RememberedTipsAreCovered(states: seq<State>, events: seq<Event>, first: nat, i: nat,
                                                    node: nat)
    requires IsRun(states, events, first) && i < |states|
    ensures AllCovered(states[i].LastTips(node), states[i].tree, first)
  {
    if i > 0 {
      RememberedTipsAreCovered(states, events, first, i - 1, node);
      assert Step(states, events, i - 1, first);
      var e := events[i - 1];
      if e.Poll? && e.node == node {
        RememberedTipsAreCovered(states, events, first, e.begin, node);
        PollCovers(states[e.begin].tree, states[e.begin].LastTips(node), states[i].tree, states[i].LastTips(node),
                   e.view, e.tips, e.outcome, e.p, first);
      } else if !e.Restart? {
        AllCoveredMonotone(states[i - 1].LastTips(node), states[i - 1].tree, states[i].tree, first);
      }
    }
  }

  lemma PollCovers(tree: set<BlockHash>, last: seq<ChainTip>, tree': set<BlockHash>, last': seq<ChainTip>,
                   view: NodeView, tips: seq<ChainTip>, outcome: Outcome, p: Pass, first: nat)
    requires PollStep(tree, last, tree', last', view, tips, outcome, p, first) && AllCovered(last, tree, first)
    ensures AllCovered(last', tree', first)
    ensures outcome.Completed? ==> AllCovered(tips, p.before, first) && p.before <= tree'
  {
    hide AllCovered, Healed;
    AllCoveredMonotone(last, tree, tree', first);
    if outcome.Completed? {
      if tips == last {
        AllCoveredMonotone(last, tree, p.before, first);
      }
      AllCoveredMonotone(tips, p.before, tree', first);
    }
  }

  /** The predecessor is there, unless the header is at the bound or out of the reach of the node. */
  ghost predicate Connected(view: NodeView, h: BlockHash, known: set<BlockHash>, first: nat) {
    Unexpected(h, known, first) ==> Unreachable(view, h.header)
  }

  /** Self-healing. Whatever happened before and happens meanwhile - fetches and repairs that fail after any number of
      batches, by any poller, lost writes, restarts - an iteration that completes with an Ok repair ends with every
      eligible tip in the tree, fetched or not. Every header that was in the tree when the iteration began, every one
      it fetched and every one its repair loaded is connected then, and so are the tips. */
  lemma SelfHealing(states: seq<State>, events: seq<Event>, first: nat, i: nat)
    requires IsRun(states, events, first) && i < |events|
    requires events[i].Poll? && events[i].outcome == Completed(true)
    ensures var p, known := events[i].p, states[i + 1].tree;
            && events[i].begin <= i && states[events[i].begin].tree <= p.before && p.before + p.loaded <= known
            && AllCovered(events[i].tips, p.before, first) && AllCovered(events[i].tips, known, first)
            && forall h :: h in p.before + p.loaded ==> Connected(events[i].view, h, known, first)
  {
    var e := events[i];
    assert Step(states, events, i, first);
    RememberedTipsAreCovered(states, events, first, e.begin, e.node);
    PollCovers(states[e.begin].tree, states[e.begin].LastTips(e.node), states[i + 1].tree,
               states[i + 1].LastTips(e.node), e.view, e.tips, e.outcome, e.p, first);
    AllCoveredMonotone(e.tips, e.p.before, states[i + 1].tree, first);
  }

  /** A header whose predecessor is missing, and why that is no fault of the pass. */
  ghost predicate EndsAt(view: NodeView, p: Pass, known: set<BlockHash>, h: Header, first: nat) {
    && Digest(h) in known && Unexpected(Digest(h), known, first)
    && (Digest(h) in p.others || Unreachable(view, h))
  }

  lemma {:induction false} AncestryOfHealed(view: NodeView, p: Pass, known: set<BlockHash>, first: nat, h: Header,
                                            n: nat)
    requires Healed(view, p, known, first) && Digest(h) in known && first <= n <= Height(h)
    ensures || Digest(AncestorAt(h, n)) in known
            || exists m :: n < m <= Height(h) && EndsAt(view, p, known, AncestorAt(h, m), first)
    decreases Height(h)
  {
    hide Healed, EndsAt, Unexpected;
    if n < Height(h) {
      if h.prev in known {
        AncestryOfHealed(view, p, known, first, h.prev.header, n);
        if Digest(AncestorAt(h, n)) !in known {
          var m :| n < m <= Height(h.prev.header) && EndsAt(view, p, known, AncestorAt(h.prev.header, m), first);
          assert AncestorAt(h, m) == AncestorAt(h.prev.header, m);
        }
      } else {
        HealedEndsAt(view, p, known, first, h);
        assert AncestorAt(h, Height(h)) == h;
      }
    }
  }

  lemma HealedEndsAt(view: NodeView, p: Pass, known: set<BlockHash>, first: nat, h: Header)
    requires Healed(view, p, known, first) && Digest(h) in known && first < Height(h) && h.prev !in known
    ensures EndsAt(view, p, known, h, first)
  {
    assert Unexpected(Digest(h), known, first);
  }

  /** And it does heal. If the tips are there, the node is reliable and it has an answer to whatever fetch and repair
      ask for, the iteration completes with an Ok repair. */
  lemma ReliableIterationHeals(states: seq<State>, events: seq<Event>, first: nat, i: nat)
    requires IsRun(states, events, first) && i < |events|
    requires events[i].Poll? && !events[i].outcome.TipsUnavailable? && events[i].view.reliable
    requires events[i].begin <= i ==>
               var e, s := events[i], states[events[i].begin];
               e.tips == s.LastTips(e.node) || Fetchable(e.view, e.tips, s.tree, first)
    requires Answerable(events[i].view, events[i].p.before, first)
    ensures events[i].outcome == Completed(true) && AllCovered(events[i].tips, states[i + 1].tree, first)
    ensures forall h :: h in events[i].p.before ==> Connected(events[i].view, h, states[i + 1].tree, first)
  {
    hide Fetchable, Answerable, Healed, PassAdds;
    assert Step(states, events, i, first);
    SelfHealing(states, events, first, i);
  }

  /** Down from any header in the tree the ancestry is complete, unless it meets a header whose predecessor is missing
      because another poller inserted it during the repair, or because it is out of the reach of the node. */
  lemma AncestryEndsAtOthers(states: seq<State>, events: seq<Event>, first: nat, i: nat, h: Header, n: nat)
    requires IsRun(states, events, first) && i < |events|
    requires events[i].Poll? && events[i].outcome == Completed(true)
    requires Digest(h) in states[i + 1].tree && first <= n <= Height(h)
    ensures || Digest(AncestorAt(h, n)) in states[i + 1].tree
            || exists m :: n < m <= Height(h)
                           && EndsAt(events[i].view, events[i].p, states[i + 1].tree, AncestorAt(h, m), first)
  {
    hide EndsAt, Healed, PassAdds;
    assert Step(states, events, i, first);
    AncestryOfHealed(events[i].view, events[i].p, states[i + 1].tree, first, h, n);
  }

  /** With a node that serves headers by hash, and no other poller inserting during the repair, no gap is
      left: the whole ancestry of every eligible tip is in the tree, down to the lower bound. */
  lemma HealedCompletely(states: seq<State>, events: seq<Event>, first: nat, i: nat, tip: ChainTip, n: nat)
    requires IsRun(states, events, first) && i < |events|
    requires events[i].Poll? && events[i].outcome == Completed(true)
    requires events[i].view.hashLookup && events[i].p.others == {}
    ensures Closed(states[i + 1].tree, first)
    ensures tip in events[i].tips && events[i].view.ConsistentTip(tip) && tip.hash.Some? && first <= n <= tip.height
            && (tip.status.Active? || tip.branchlen <= tip.height)
            ==> Digest(AncestorAt(tip.hash.value.header, n)) in states[i + 1].tree
  {
    SelfHealing(states, events, first, i);
    assert Step(states, events, i, first);
    if tip in events[i].tips && events[i].view.ConsistentTip(tip) && tip.hash.Some? && first <= n <= tip.height
       && (tip.status.Active? || tip.branchlen <= tip.height) {
      assert Covered(tip, states[i + 1].tree, first);
      ClosedHoldsAncestry(states[i + 1].tree, first, tip.hash.value.header, n);
    }
  }
}
