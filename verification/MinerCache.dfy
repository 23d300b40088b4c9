/**
 The cached header payload and the replay of miner results.

 Refreshing the cache takes a snapshot of the tree and applies it later; identifying
 a miner writes the tree and updates the cache later. The two interleave.
 */
module MinerCache {
  import opened Wrappers
  import opened Chain

  const RECENT_MINERS: nat := 5
  const MINER_UNKNOWN := "Unknown"

  /** One header of the payload; `prevId` is `None` where the sentinel for "no parent" is sent. */
  datatype HeaderInfoJson = HeaderInfoJson(id: nat, prevId: Option<nat>, height: nat, hash: BlockHash, miner: string)

  /** A miner result, as kept in the replay buffer. */
  datatype Found = Found(hash: BlockHash, miner: string)

  /** `push`, then drop the oldest entry if there are more than five. */
  ghost function Push(recent: seq<Found>, f: Found): seq<Found> {
    var r := recent + [f];
    if |r| > RECENT_MINERS then r[1..] else r
  }

  ghost predicate DistinctHashes(infos: seq<HeaderInfoJson>) {
    forall i, j :: 0 <= i < j < |infos| ==> infos[i].hash != infos[j].hash
  }

  /** The payload as a table. */
  ghost function Table(infos: seq<HeaderInfoJson>): map<BlockHash, HeaderInfoJson>
    requires DistinctHashes(infos)
  {
    map i | 0 <= i < |infos| :: infos[i].hash := infos[i]
  }

  function SetMiner(table: map<BlockHash, HeaderInfoJson>, f: Found): map<BlockHash, HeaderInfoJson> {
    if f.hash in table then table[f.hash := table[f.hash].(miner := f.miner)] else table
  }

  ghost function ReplayInfos(table: map<BlockHash, HeaderInfoJson>, recent: seq<Found>)
    : map<BlockHash, HeaderInfoJson>
  {
    if recent == [] then table else SetMiner(ReplayInfos(table, recent[..|recent| - 1]), recent[|recent| - 1])
  }

  class Cache {
    var headerInfos: seq<HeaderInfoJson>
    var recentMiners: seq<Found>

    ghost predicate Valid()
      reads this
    {
      DistinctHashes(headerInfos)
    }

    constructor (infos: seq<HeaderInfoJson>)
      requires DistinctHashes(infos)
      ensures Valid() && headerInfos == infos && recentMiners == []
    {
      headerInfos, recentMiners := infos, [];
    }

    /** A miner was identified: patch the payload and remember the result. */
    method UpdateHeaderMiner(f: Found)
      requires Valid()
      modifies this
      ensures Valid() && Table(headerInfos) == SetMiner(old(Table(headerInfos)), f)
      ensures recentMiners == Push(old(recentMiners), f)
      ensures old(|recentMiners|) <= 5 ==> |recentMiners| <= 5
      ensures old(|recentMiners|) < 5 ==> recentMiners == old(recentMiners) + [f]
    {
      var i := 0;
      while i < |headerInfos| && headerInfos[i].hash != f.hash
        invariant 0 <= i <= |headerInfos| && headerInfos == old(headerInfos) && recentMiners == old(recentMiners)
        invariant forall j :: 0 <= j < i ==> headerInfos[j].hash != f.hash
      {
        i := i + 1;
      }
      if i < |headerInfos| {
        PatchedTable(headerInfos, i, f);
        headerInfos := headerInfos[i := headerInfos[i].(miner := f.miner)];
      }
      recentMiners := recentMiners + [f];
      if |recentMiners| > RECENT_MINERS {
        recentMiners := recentMiners[1..];
      }
    }

    /** A snapshot of the tree arrives: replay the recent results over it and install it. */
    method UpdateHeaderTree(infos: seq<HeaderInfoJson>)
      requires Valid() && DistinctHashes(infos)
      modifies this`headerInfos
      ensures Valid() && Table(headerInfos) == ReplayInfos(Table(infos), recentMiners)
    {
      var table: map<BlockHash, HeaderInfoJson> := map[];
      for i := 0 to |infos|
        invariant DistinctHashes(infos[..i]) && table == Table(infos[..i])
      {
        TableSnoc(infos, i);
        table := table[infos[i].hash := infos[i]];
      }
      assert infos[..|infos|] == infos;
      for k := 0 to |recentMiners|
        invariant table == ReplayInfos(Table(infos), recentMiners[..k])
      {
        assert recentMiners[..k + 1][..k] == recentMiners[..k];
        table := SetMiner(table, recentMiners[k]);
      }
      assert recentMiners[..|recentMiners|] == recentMiners;
      ReplayKeepsHashes(Table(infos), recentMiners);
      headerInfos := IntoValues(table);
    }
  }

  /** The values of a table, in some order. */
  method IntoValues(table: map<BlockHash, HeaderInfoJson>) returns (infos: seq<HeaderInfoJson>)
    requires forall h :: h in table ==> table[h].hash == h
    ensures DistinctHashes(infos) && Table(infos) == table
  {
    infos := [];
    var left := table.Keys;
    while left != {}
      invariant left <= table.Keys && DistinctHashes(infos)
      invariant forall i :: 0 <= i < |infos| ==> infos[i].hash in table.Keys - left && infos[i] == table[infos[i].hash]
      invariant forall h :: h in table.Keys - left ==> table[h] in infos
    {
      var h :| h in left;
      left, infos := left - {h}, infos + [table[h]];
    }
    forall h | h in table
      ensures h in Table(infos)
    {
      var i :| 0 <= i < |infos| && infos[i] == table[h];
      assert infos[i].hash == h;
    }
  }

  lemma TableLookup(infos: seq<HeaderInfoJson>)
    requires DistinctHashes(infos)
    ensures forall j :: 0 <= j < |infos| ==> infos[j].hash in Table(infos) && Table(infos)[infos[j].hash] == infos[j]
    ensures forall h :: h in Table(infos) ==> exists j :: 0 <= j < |infos| && infos[j].hash == h
  {}

  lemma PatchedTable(infos: seq<HeaderInfoJson>, i: nat, f: Found)
    requires DistinctHashes(infos) && i < |infos| && infos[i].hash == f.hash
    ensures var r := infos[i := infos[i].(miner := f.miner)];
            DistinctHashes(r) && Table(r) == SetMiner(Table(infos), f)
  {
    hide Table;
    var r := infos[i := infos[i].(miner := f.miner)];
    assert forall j :: 0 <= j < |infos| ==> r[j].hash == infos[j].hash;
    TableLookup(infos);
    TableLookup(r);
    forall h
      ensures h in Table(r) <==> h in Table(infos)
      ensures h in Table(infos) ==> Table(r)[h] == SetMiner(Table(infos), f)[h]
    {
      if h in Table(infos) || h in Table(r) {
        var j :| 0 <= j < |infos| && infos[j].hash == h;
        assert r[j].hash in Table(r) && infos[j].hash in Table(infos);
      }
    }
  }

  lemma TableSnoc(infos: seq<HeaderInfoJson>, i: nat)
    requires DistinctHashes(infos) && i < |infos|
    ensures DistinctHashes(infos[..i]) && DistinctHashes(infos[..i + 1])
    ensures Table(infos[..i + 1]) == Table(infos[..i])[infos[i].hash := infos[i]]
  {
    var before, after := infos[..i], infos[..i + 1];
    assert after == before + [infos[i]];
    assert after[i] == infos[i];
    forall h | h in Table(before)
      ensures h in Table(after)
    {
      var j :| 0 <= j < i && before[j].hash == h;
      assert after[j].hash == h;
    }
  }

  lemma ReplayKeepsHashes(table: map<BlockHash, HeaderInfoJson>, recent: seq<Found>)
    requires forall h :: h in table ==> table[h].hash == h
    ensures ReplayInfos(table, recent).Keys == table.Keys
    ensures forall h :: h in table ==> ReplayInfos(table, recent)[h].hash == h
  {}

  // ----- Interleavings

  type Miners = map<BlockHash, string>

  ghost function MinersOf(table: map<BlockHash, HeaderInfoJson>): Miners {
    map h | h in table :: table[h].miner
  }

  ghost function Patch(miners: Miners, f: Found): Miners {
    if f.hash in miners then miners[f.hash := f.miner] else miners
  }

  ghost function Replay(miners: Miners, recent: seq<Found>): Miners {
    if recent == [] then miners else Patch(Replay(miners, recent[..|recent| - 1]), recent[|recent| - 1])
  }

  /** What the replay does to the miners is all it does. */
  lemma {:induction false} ReplayInfosMiners(table: map<BlockHash, HeaderInfoJson>, recent: seq<Found>)
    ensures MinersOf(ReplayInfos(table, recent)) == Replay(MinersOf(table), recent)
    ensures forall h :: h in table ==> h in ReplayInfos(table, recent)
                                       && ReplayInfos(table, recent)[h].(miner := "") == table[h].(miner := "")
  {
    if recent != [] {
      ReplayInfosMiners(table, recent[..|recent| - 1]);
    }
  }

  /** A snapshot that waits to be applied, and how many results were complete when it was taken. */
  datatype Snapshot = Snapshot(miners: Miners, taken: nat)

  /** The miners in the tree and in the cache, the replay buffer, the result that is in the tree but not
      yet in the cache, the pending snapshots, and all results completed so far. */
  datatype State = State(tree: Miners, cache: Miners, recent: seq<Found>, inFlight: Option<Found>,
                         pending: set<Snapshot>, log: seq<Found>)

  datatype Event =
    | InsertHeader(hash: BlockHash, miner: string)
    | Identify(f: Found)
    | Complete
    | TakeSnapshot
    | ApplySnapshot(s: Snapshot)

  /** Start-up: the cache is populated from the tree. */
  ghost function Initial(tree: Miners): State {
    State(tree, tree, [], None, {}, [])
  }

  /** Nothing is known about the block yet. */
  ghost predicate Unidentified(miner: string) {
    miner == "" || miner == MINER_UNKNOWN
  }

  /** Only the one identification consumer writes miners, one block at a time, and it passes over the blocks
      that have one. */
  ghost predicate Enabled(s: State, e: Event) {
    match e
    case InsertHeader(_, _) => true
    case Identify(f) => s.inFlight.None? && f.hash in s.tree && Unidentified(s.tree[f.hash])
    case Complete => s.inFlight.Some?
    case TakeSnapshot => true
    case ApplySnapshot(snap) => snap in s.pending
  }

  ghost function Next(s: State, e: Event): State
    requires Enabled(s, e)
  {
    match e
    case InsertHeader(h, miner) => if h in s.tree then s else s.(tree := s.tree[h := miner])
    case Identify(f) => s.(tree := s.tree[f.hash := f.miner], inFlight := Some(f))
    case Complete =>
      var f := s.inFlight.value;
      s.(cache := Patch(s.cache, f), recent := Push(s.recent, f), inFlight := None, log := s.log + [f])
    case TakeSnapshot => s.(pending := s.pending + {Snapshot(s.tree, |s.log|)})
    case ApplySnapshot(snap) => s.(cache := Replay(snap.miners, s.recent), pending := s.pending - {snap})
  }

  /** No more than five results complete between a snapshot and its application. */
  ghost predicate Timely(s: State, e: Event) {
    e.ApplySnapshot? ==> |s.log| <= e.s.taken + 5
  }

  ghost predicate Settled(s: State, h: BlockHash) {
    s.inFlight.Some? ==> s.inFlight.value.hash != h
  }

  /** Every cached block with no identification in flight shows the miner the tree has for it. */
  ghost predicate Agrees(s: State) {
    forall h | h in s.cache :: h in s.tree && (Settled(s, h) ==> s.cache[h] == s.tree[h])
  }

  ghost predicate Logged(log: seq<Found>, from: nat, h: BlockHash) {
    exists i :: from <= i < |log| && log[i].hash == h
  }

  /** The latest result for `h` is the tree's miner for it, unless a newer one is in flight. */
  ghost predicate LogMatchesTree(s: State) {
    forall i :: 0 <= i < |s.log| && !Logged(s.log, i + 1, s.log[i].hash)
      ==> s.log[i].hash in s.tree && (Settled(s, s.log[i].hash) ==> s.tree[s.log[i].hash] == s.log[i].miner)
  }

  /** A pending snapshot is out of date only for blocks with a result that completed since, or in flight. */
  ghost predicate SnapshotFresh(s: State, snap: Snapshot) {
    && snap.taken <= |s.log|
    && forall h :: h in snap.miners ==>
         h in s.tree && (Settled(s, h) && !Logged(s.log, snap.taken, h) ==> snap.miners[h] == s.tree[h])
  }

  /** What holds in every run, however late snapshots are applied. */
  ghost predicate Kept(s: State) {
    && LogMatchesTree(s) && s.cache.Keys <= s.tree.Keys
    && s.recent == (if |s.log| <= 5 then s.log else s.log[|s.log| - 5..])
    && (s.inFlight.Some? ==> s.inFlight.value.hash in s.tree && s.tree[s.inFlight.value.hash] == s.inFlight.value.miner)
    && forall snap :: snap in s.pending ==> SnapshotFresh(s, snap)
  }

  /** What holds in addition while every snapshot is applied in time. */
  ghost predicate Inv(s: State) {
    Agrees(s) && Kept(s)
  }

  /** After a replay a block shows its last result in the buffer, or else what the snapshot had. */
  lemma {:induction false} ReplayLookup(miners: Miners, recent: seq<Found>, h: BlockHash)
    requires h in miners
    ensures Replay(miners, recent).Keys == miners.Keys
    ensures !Logged(recent, 0, h) ==> Replay(miners, recent)[h] == miners[h]
    ensures Logged(recent, 0, h) ==> exists i :: 0 <= i < |recent| && recent[i].hash == h && !Logged(recent, i + 1, h)
                                              && Replay(miners, recent)[h] == recent[i].miner
  {
    if recent != [] {
      var n := |recent| - 1;
      var init := recent[..n];
      ReplayLookup(miners, init, h);
      if recent[n].hash != h && Logged(recent, 0, h) {
        assert Logged(init, 0, h);
        var i :| 0 <= i < n && init[i].hash == h && !Logged(init, i + 1, h) && Replay(miners, init)[h] == init[i].miner;
        assert !Logged(recent, i + 1, h);
      }
    }
  }

  lemma ReplayKeys(miners: Miners, recent: seq<Found>)
    ensures Replay(miners, recent).Keys == miners.Keys
  {}

  /** The last mention in the buffer is the last mention in the log. */
  lemma BufferIsSuffix(s: State, i: nat)
    requires Kept(s) && i < |s.recent|
    ensures |s.recent| <= |s.log| && s.recent[i] == s.log[|s.log| - |s.recent| + i]
    ensures Logged(s.log, |s.log| - |s.recent| + i + 1, s.recent[i].hash) ==> Logged(s.recent, i + 1, s.recent[i].hash)
  {
    var dropped, h := |s.log| - |s.recent|, s.recent[i].hash;
    assert s.recent == s.log[dropped..];
    hide Kept, LogMatchesTree, SnapshotFresh;
    if Logged(s.log, dropped + i + 1, h) {
      var j :| dropped + i + 1 <= j < |s.log| && s.log[j].hash == h;
      assert s.recent[j - dropped].hash == h;
    }
  }

  /** A settled block that the buffer mentions shows the tree's miner after any replay. */
  lemma ReplayedMatchesTree(s: State, miners: Miners, h: BlockHash)
    requires Kept(s) && h in miners && Logged(s.recent, 0, h) && Settled(s, h)
    ensures h in s.tree && h in Replay(miners, s.recent) && Replay(miners, s.recent)[h] == s.tree[h]
  {
    hide SnapshotFresh, Replay;
    ReplayLookup(miners, s.recent, h);
    var i :| 0 <= i < |s.recent| && s.recent[i].hash == h && !Logged(s.recent, i + 1, h)
             && Replay(miners, s.recent)[h] == s.recent[i].miner;
    BufferIsSuffix(s, i);
  }

  lemma {:induction false} LastMention(log: seq<Found>, from: nat, h: BlockHash) returns (i: nat)
    requires Logged(log, from, h)
    ensures from <= i < |log| && log[i].hash == h && !Logged(log, i + 1, h)
    decreases |log| - from
  {
    i :| from <= i < |log| && log[i].hash == h;
    if Logged(log, i + 1, h) {
      i := LastMention(log, i + 1, h);
    }
  }

  /** The snapshot is right about every result that completed since it was taken, has left the buffer, and is the
      last one for a settled block. */
  ghost predicate DroppedAgree(s: State, snap: Snapshot) {
    forall i :: snap.taken <= i < |s.log| - 5 && !Logged(s.log, i + 1, s.log[i].hash)
                && s.log[i].hash in snap.miners && Settled(s, s.log[i].hash)
      ==> snap.miners[s.log[i].hash] == s.log[i].miner
  }

  /** What the buffer does not mention was last mentioned, if at all, by a result that has left it. */
  lemma NotInBuffer(s: State, h: BlockHash, i: nat)
    requires Kept(s) && i < |s.log| && s.log[i].hash == h && !Logged(s.recent, 0, h)
    ensures i < |s.log| - 5
  {
    hide LogMatchesTree, SnapshotFresh;
    var dropped := |s.log| - |s.recent|;
    forall j | dropped <= j < |s.log|
      ensures s.log[j].hash != h
    {
      assert s.recent[j - dropped] == s.log[j];
    }
  }

  lemma LogLookup(s: State, i: nat)
    requires Kept(s) && i < |s.log| && !Logged(s.log, i + 1, s.log[i].hash) && Settled(s, s.log[i].hash)
    ensures s.log[i].hash in s.tree && s.tree[s.log[i].hash] == s.log[i].miner
  {
    hide SnapshotFresh;
  }

  /** The result that left the buffer decides what a replayed snapshot shows. */
  lemma DroppedShown(s: State, snap: Snapshot, i: nat)
    requires Kept(s) && i < |s.log| - 5 && !Logged(s.log, i + 1, s.log[i].hash)
    requires s.log[i].hash in snap.miners
    ensures var replayed := Replay(snap.miners, s.recent);
            s.log[i].hash in replayed && replayed[s.log[i].hash] == snap.miners[s.log[i].hash]
  {
    hide LogMatchesTree, SnapshotFresh, Replay;
    var h, dropped := s.log[i].hash, |s.log| - |s.recent|;
    forall j | 0 <= j < |s.recent|
      ensures s.recent[j].hash != h
    {
      assert s.recent[j] == s.log[dropped + j];
    }
    ReplayLookup(snap.miners, s.recent, h);
  }

  /** A settled block about which no dropped result disagrees shows the tree's miner after the replay. */
  lemma UndroppedShown(s: State, snap: Snapshot, h: BlockHash)
    requires Kept(s) && snap in s.pending && DroppedAgree(s, snap) && h in snap.miners && Settled(s, h)
    ensures h in s.tree && h in Replay(snap.miners, s.recent) && Replay(snap.miners, s.recent)[h] == s.tree[h]
  {
    hide LogMatchesTree, Replay;
    assert SnapshotFresh(s, snap);
    if Logged(s.recent, 0, h) {
      ReplayedMatchesTree(s, snap.miners, h);
    } else {
      ReplayLookup(snap.miners, s.recent, h);
      if Logged(s.log, snap.taken, h) {
        var i := LastMention(s.log, snap.taken, h);
        NotInBuffer(s, h, i);
        LogLookup(s, i);
      }
    }
  }

  /** Exactly when applying a snapshot leaves the cache in agreement with the tree, whatever the cache was before:
      no result that completed since the snapshot has left the buffer and disagrees with the snapshot. */
  lemma AppliedAgreesIff(s: State, snap: Snapshot)
    requires Kept(s) && snap in s.pending
    ensures Agrees(Next(s, ApplySnapshot(snap))) <==> DroppedAgree(s, snap)
  {
    hide LogMatchesTree, Replay, Kept;
    var r := Next(s, ApplySnapshot(snap));
    ReplayKeys(snap.miners, s.recent);
    if DroppedAgree(s, snap) {
      PendingIsFresh(s, snap);
      forall h | h in r.cache
        ensures h in r.tree && (Settled(r, h) ==> r.cache[h] == r.tree[h])
      {
        if Settled(s, h) {
          UndroppedShown(s, snap, h);
        }
      }
    }
    if Agrees(r) {
      forall i | snap.taken <= i < |s.log| - 5 && !Logged(s.log, i + 1, s.log[i].hash)
                 && s.log[i].hash in snap.miners && Settled(s, s.log[i].hash)
        ensures snap.miners[s.log[i].hash] == s.log[i].miner
      {
        DroppedShown(s, snap, i);
        LogLookup(s, i);
      }
    }
  }

  lemma PendingIsFresh(s: State, snap: Snapshot)
    requires Kept(s) && snap in s.pending
    ensures SnapshotFresh(s, snap) && snap.miners.Keys <= s.tree.Keys
  {
    hide LogMatchesTree;
    assert SnapshotFresh(s, snap);
  }

  lemma LoggedSnoc(log: seq<Found>, f: Found, from: nat, h: BlockHash)
    requires from <= |log|
    ensures Logged(log + [f], from, h) <==> Logged(log, from, h) || f.hash == h
  {
    var r := log + [f];
    if Logged(log, from, h) {
      var i :| from <= i < |log| && log[i].hash == h;
      assert r[i].hash == h;
    }
    if f.hash == h {
      assert r[|log|].hash == h;
    }
  }

  lemma CompleteKeeps(s: State)
    requires Kept(s) && s.inFlight.Some?
    ensures Kept(Next(s, Complete))
  {
    var f, r := s.inFlight.value, Next(s, Complete);
    forall i | 0 <= i < |r.log| && !Logged(r.log, i + 1, r.log[i].hash)
      ensures r.log[i].hash in r.tree && r.tree[r.log[i].hash] == r.log[i].miner
    {
      if i < |s.log| {
        LoggedSnoc(s.log, f, i + 1, s.log[i].hash);
      }
    }
    forall snap | snap in r.pending
      ensures SnapshotFresh(r, snap)
    {
      assert SnapshotFresh(s, snap);
      forall h | h in snap.miners && !Logged(r.log, snap.taken, h)
        ensures h in r.tree && snap.miners[h] == r.tree[h]
      {
        LoggedSnoc(s.log, f, snap.taken, h);
      }
    }
  }

  lemma ApplyKeeps(s: State, snap: Snapshot)
    requires Kept(s) && snap in s.pending
    ensures Kept(Next(s, ApplySnapshot(snap)))
  {
    hide Replay, Logged;
    ReplayKeys(snap.miners, s.recent);
    PendingIsFresh(s, snap);
    var r := Next(s, ApplySnapshot(snap));
    forall other | other in r.pending
      ensures SnapshotFresh(r, other)
    {
      assert SnapshotFresh(s, other);
    }
  }

  lemma OtherStepKeeps(s: State, e: Event)
    requires Kept(s) && Enabled(s, e) && !e.Complete? && !e.ApplySnapshot?
    ensures Kept(Next(s, e))
  {
    hide Logged;
    var r := Next(s, e);
    forall snap | snap in r.pending
      ensures SnapshotFresh(r, snap)
    {
      if snap in s.pending {
        assert SnapshotFresh(s, snap);
      }
    }
  }

  /** Every step keeps the log, the buffer and the snapshots in step with the tree, timely or not. */
  lemma StepKeeps(s: State, e: Event)
    requires Kept(s) && Enabled(s, e)
    ensures Kept(Next(s, e))
  {
    hide Kept;
    if e.Complete? {
      CompleteKeeps(s);
    } else if e.ApplySnapshot? {
      ApplyKeeps(s, e.s);
    } else {
      OtherStepKeeps(s, e);
    }
  }

  /** Between a snapshot and a timely application nothing leaves the buffer. */
  lemma TimelyAgrees(s: State, snap: Snapshot)
    requires Kept(s) && snap in s.pending && Timely(s, ApplySnapshot(snap))
    ensures Agrees(Next(s, ApplySnapshot(snap)))
  {
    AppliedAgreesIff(s, snap);
  }

  lemma StepKeepsAgrees(s: State, e: Event)
    requires Inv(s) && Enabled(s, e) && !e.ApplySnapshot?
    ensures Agrees(Next(s, e))
  {
    hide LogMatchesTree, SnapshotFresh, Logged;
  }

  /** Each step keeps cache and tree in agreement, an application if it is timely. */
  lemma StepKeepsInv(s: State, e: Event)
    requires Inv(s) && Enabled(s, e) && Timely(s, e)
    ensures Inv(Next(s, e))
  {
    hide Agrees, Kept, Timely;
    StepKeeps(s, e);
    if e.ApplySnapshot? {
      TimelyAgrees(s, e.s);
    } else {
      StepKeepsAgrees(s, e);
    }
  }

  ghost predicate IsRun(states: seq<State>, events: seq<Event>) {
    && |states| == |events| + 1
    && (exists tree :: states[0] == Initial(tree))
    && forall i :: 0 <= i < |events| ==> Enabled(states[i], events[i]) && states[i + 1] == Next(states[i], events[i])
  }

  lemma {:induction false} RunKeeps(states: seq<State>, events: seq<Event>, i: nat)
    requires IsRun(states, events) && i < |states|
    ensures Kept(states[i])
  {
    if i > 0 {
      RunKeeps(states, events, i - 1);
      StepKeeps(states[i - 1], events[i - 1]);
    }
  }

  lemma {:induction false} RunKeepsInv(states: seq<State>, events: seq<Event>, i: nat)
    requires IsRun(states, events) && i < |states|
    requires forall j :: 0 <= j < |events| ==> Timely(states[j], events[j])
    ensures Inv(states[i])
  {
    if i > 0 {
      RunKeepsInv(states, events, i - 1);
      StepKeepsInv(states[i - 1], events[i - 1]);
    }
  }

  /** The replay loses nothing. In every interleaving in which at most five results complete between a
      snapshot and its application, every cached block with no identification in flight shows the miner
      the tree has for it; if a result for it ever completed, that is the latest one. */
  lemma ReplayLosesNothing(states: seq<State>, events: seq<Event>, i: nat, h: BlockHash, k: nat)
    requires IsRun(states, events) && i < |states|
    requires forall j :: 0 <= j < |events| ==> Timely(states[j], events[j])
    ensures h in states[i].cache && Settled(states[i], h) ==>
              && h in states[i].tree && states[i].cache[h] == states[i].tree[h]
              && (k < |states[i].log| && states[i].log[k].hash == h && !Logged(states[i].log, k + 1, h)
                  ==> states[i].cache[h] == states[i].log[k].miner)
  {
    RunKeepsInv(states, events, i);
  }

  /** In every run, timely or not: a refresh leaves cache and tree in agreement if and only if no result that
      completed since its snapshot has left the buffer and disagrees with the snapshot. */
  lemma RefreshAgreesIff(states: seq<State>, events: seq<Event>, i: nat)
    requires IsRun(states, events) && i < |events| && events[i].ApplySnapshot?
    ensures Agrees(states[i + 1]) <==> DroppedAgree(states[i], events[i].s)
  {
    hide Agrees, DroppedAgree, Kept;
    RunKeeps(states, events, i);
    AppliedAgreesIff(states[i], events[i].s);
  }

  // ----- Six results are too many

  /** Results for different blocks, none of which had a miner. */
  ghost predicate FirstResults(tree: Miners, fs: seq<Found>) {
    && (forall i, j :: 0 <= i < j < |fs| ==> fs[i].hash != fs[j].hash)
    && (forall i :: 0 <= i < |fs| ==> fs[i].hash in tree && Unidentified(tree[fs[i].hash]))
  }

  /** After a snapshot at start-up and the first `n` results. */
  ghost predicate AfterResults(s: State, tree: Miners, fs: seq<Found>, n: nat)
    requires n <= |fs|
  {
    && s.inFlight == None && s.log == fs[..n] && s.pending == {Snapshot(tree, 0)}
    && forall i :: n <= i < |fs| ==>
      fs[i].hash in s.tree && fs[i].hash in tree && s.tree[fs[i].hash] == tree[fs[i].hash]
  }

  lemma ExtendRun(states: seq<State>, events: seq<Event>, e: Event)
    requires IsRun(states, events) && Enabled(states[|events|], e)
    ensures IsRun(states + [Next(states[|events|], e)], events + [e])
  {
    hide Enabled, Next;
  }

  lemma OneMoreResult(s: State, tree: Miners, fs: seq<Found>, n: nat)
    requires n < |fs| && FirstResults(tree, fs) && AfterResults(s, tree, fs, n)
    ensures Enabled(s, Identify(fs[n])) && Enabled(Next(s, Identify(fs[n])), Complete)
    ensures AfterResults(Next(Next(s, Identify(fs[n])), Complete), tree, fs, n + 1)
  {
    assert fs[..n + 1] == fs[..n] + [fs[n]];
  }

  /** The run that takes a snapshot and then completes `n` results. */
  lemma {:induction false} RunOfResults(tree: Miners, fs: seq<Found>, n: nat)
    returns (states: seq<State>, events: seq<Event>)
    requires FirstResults(tree, fs) && n <= |fs|
    ensures IsRun(states, events) && AfterResults(states[|events|], tree, fs, n)
    ensures forall j :: 0 <= j < |events| ==> !events[j].ApplySnapshot?
    decreases n
  {
    if n == 0 {
      var start := Initial(tree);
      states, events := [start, Next(start, TakeSnapshot)], [TakeSnapshot];
    } else {
      states, events := RunOfResults(tree, fs, n - 1);
      var s, e := states[|events|], Identify(fs[n - 1]);
      OneMoreResult(s, tree, fs, n - 1);
      hide AfterResults, FirstResults, Next, Enabled, IsRun;
      ExtendRun(states, events, e);
      states, events := states + [Next(s, e)], events + [e];
      ExtendRun(states, events, Complete);
      states, events := states + [Next(Next(s, e), Complete)], events + [Complete];
    }
  }

  /** From start-up on, any six results for different blocks, the first of which found something, make a refresh
      that was under way wrong. */
  lemma SixResultsLoseOne(tree: Miners, fs: seq<Found>) returns (states: seq<State>, events: seq<Event>)
    requires FirstResults(tree, fs) && |fs| == 6 && tree[fs[0].hash] != fs[0].miner
    ensures IsRun(states, events) && !Agrees(states[|events|])
    ensures forall j :: 0 <= j < |events| - 1 ==> Timely(states[j], events[j])
    ensures events != [] && events[|events| - 1] == ApplySnapshot(Snapshot(tree, 0))
    ensures |states[|events| - 1].log| == 6
  {
    var snap := Snapshot(tree, 0);
    states, events := RunOfResults(tree, fs, |fs|);
    var s := states[|events|];
    RunKeeps(states, events, |events|);
    assert s.log[0] == fs[0] && !Logged(s.log, 1, fs[0].hash);
    AppliedAgreesIff(s, snap);
    ExtendRun(states, events, ApplySnapshot(snap));
    states, events := states + [Next(s, ApplySnapshot(snap))], events + [ApplySnapshot(snap)];
  }

  /** Five is the limit: there is a run in which all is timely but one application, after six results, and that one
      leaves the cache with an older miner than the tree. */
  lemma SixIsTooMany()
    ensures exists states: seq<State>, events: seq<Event> ::
              && IsRun(states, events) && events != [] && events[|events| - 1].ApplySnapshot?
              && (forall j :: 0 <= j < |events| - 1 ==> Timely(states[j], events[j]))
              && |states[|events| - 1].log| == events[|events| - 1].s.taken + 6
              && !Agrees(states[|events|])
  {
    var tree: Miners := map i | 0 <= i < 6 :: NoPreimage(i) := "";
    var fs := seq(6, i requires 0 <= i < 6 => Found(NoPreimage(i), "pool"));
    hide IsRun, Agrees, Timely;
    var states, events := SixResultsLoseOne(tree, fs);
  }
}
