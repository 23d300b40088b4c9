/**
 The header fetchers and the repair pass.

 A fetch runs concurrently with the consumer that inserts its progress batches into the
 tree and with the tasks that poll other nodes. `OtherTasks` stands for whatever they
 do between two steps of the fetch; it is called before every look at the tree.
 With `solo`, only the fetch's own progress consumer runs beside it.
 */
module SharedFetch {
  import opened Wrappers
  import opened Sorting
  import opened Chain
  import opened HeaderTree
  import opened NodeOracle

  const ACTIVE_BATCH_STEP: nat := 2000
  const RPC_PROGRESS_BATCH_SIZE: nat := 10

  function MakeHeaderInfo(height: nat, header: Header): HeaderInfo {
    HeaderInfo(header, height, "")
  }

  function Flatten(batches: seq<seq<HeaderInfo>>): seq<HeaderInfo> {
    if batches == [] then [] else Flatten(batches[..|batches| - 1]) + batches[|batches| - 1]
  }

  /** Appends a batch to the progress channel unless it is empty. */
  function SendProgressBatch(progress: seq<seq<HeaderInfo>>, batch: seq<HeaderInfo>): (r: seq<seq<HeaderInfo>>)
    ensures Flatten(r) == Flatten(progress) + batch
  {
    if batch == [] then progress else progress + [batch]
  }

  /** What a fetch may rely on, and leaves behind: the tree only grows, everything in it is tracked, and
      without other pollers nothing is added but headers that were sent. */
  ghost predicate Grown(before: set<BlockHash>, after: TreeInfo, sent: seq<HeaderInfo>, first: nat, solo: bool) {
    && after.AllTracked(first) && before <= after.Hashes()
    && (solo ==> after.Hashes() <= before + HashesOf(sent))
  }

  lemma GrownSteps(before: set<BlockHash>, t: TreeInfo, t': TreeInfo, sent: seq<HeaderInfo>, more: seq<HeaderInfo>,
                   first: nat, solo: bool)
    requires Grown(before, t, sent, first, solo) && Grown(t.Hashes(), t', sent, first, solo)
    requires AllFetched(sent, first) && AllFetched(more, first)
    ensures Grown(before, t', sent, first, solo) && Grown(before, t', sent + more, first, solo)
    ensures AllFetched(sent + more, first)
  {
    HashesOfConcat(sent, more);
  }

  method OtherTasks(tree: SharedTree, sent: seq<HeaderInfo>, first: nat, solo: bool)
    requires tree.info.AllTracked(first) && AllFetched(sent, first)
    modifies tree
    ensures Grown(old(tree.info.Hashes()), tree.info, sent, first, solo)
    ensures old(tree.info.nodes) <= tree.info.nodes
  {
    var batch: seq<HeaderInfo> := *;
    if AllFetched(batch, first) && (solo ==> forall x | x in batch :: x in sent) {
      var _ := tree.InsertHeaders(batch);
    }
  }

  /** No batch of a fetcher has two different entries for one hash, so the order of its headers never matters. */
  lemma FetchedBatchesAgree(known: map<BlockHash, HeaderInfo>, batch: seq<HeaderInfo>, other: seq<HeaderInfo>,
                            first: nat)
    requires AllFetched(batch, first) && multiset(other) == multiset(batch)
    ensures Agreeing(known, batch) && Merge(known, other) == Merge(known, batch)
  {
    assert Agreeing(known, batch);
    OrderIrrelevantIffAgreeing(known, batch);
  }

  // ----- The active chain

  /** The newest active tip. */
  function FindActiveTip(tips: seq<ChainTip>): Result<ChainTip, FetchError> {
    if tips == [] then Failure(DataError)
    else if tips[|tips| - 1].status.Active? then Success(tips[|tips| - 1])
    else FindActiveTip(tips[..|tips| - 1])
  }

  ghost predicate IsLastActive(tips: seq<ChainTip>, k: nat) {
    k < |tips| && tips[k].status.Active? && forall j :: k < j < |tips| ==> !tips[j].status.Active?
  }

  /** The last active tip is taken, and it fails only if there is none. */
  lemma {:induction false} FindActiveTipMeaning(tips: seq<ChainTip>)
    ensures FindActiveTip(tips).Success? ==>
            FindActiveTip(tips).value in tips && FindActiveTip(tips).value.status.Active?
    ensures FindActiveTip(tips).Success? ==>
            exists k: nat :: IsLastActive(tips, k) && FindActiveTip(tips).value == tips[k]
    ensures FindActiveTip(tips).Failure? ==> forall tip :: tip in tips ==> !tip.status.Active?
  {
    if tips != [] {
      var n := |tips| - 1;
      var init := tips[..n];
      FindActiveTipMeaning(init);
      assert tips == init + [tips[n]];
      if tips[n].status.Active? {
        assert IsLastActive(tips, n);
      } else if FindActiveTip(init).Success? {
        var k: nat :| IsLastActive(init, k) && FindActiveTip(init).value == init[k];
        assert tips[k] == init[k] && IsLastActive(tips, k);
      }
    }
  }

  ghost predicate HasActiveTip(tips: seq<ChainTip>) {
    exists tip :: tip in tips && tip.status.Active?
  }

  lemma ActiveTipFound(tips: seq<ChainTip>)
    ensures FindActiveTip(tips).Success? <==> HasActiveTip(tips)
  {
    FindActiveTipMeaning(tips);
  }

  /** `headers` is the active chain above `low`, highest first. */
  ghost predicate IsActiveAbove(view: NodeView, low: int, headers: seq<HeaderInfo>)
    requires -1 <= low < |view.active|
  {
    && |headers| == |view.active| - 1 - low
    && forall k :: 0 <= k < |headers| ==>
      headers[k] == MakeHeaderInfo(|view.active| - 1 - k, view.active[|view.active| - 1 - k])
  }

  /** The hashes of the tracked active chain above `low`. */
  ghost function ActiveHashesAbove(view: NodeView, low: int, first: nat): set<BlockHash> {
    set i | low < i && 0 <= i < |view.active| && first <= i :: Digest(view.active[i])
  }

  /** The part of the tracked active chain that is not in `known`. */
  ghost function MissingActive(view: NodeView, known: set<BlockHash>, first: nat): set<BlockHash> {
    set i | first <= i < |view.active| && Digest(view.active[i]) !in known :: Digest(view.active[i])
  }

  /** No gaps along the active chain. */
  ghost predicate UnbrokenActive(view: NodeView, known: set<BlockHash>, first: nat) {
    forall i, j :: first <= i <= j < |view.active| && Digest(view.active[j]) in known ==>
      Digest(view.active[i]) in known
  }

  /** Nothing in `added` lacks its predecessor. */
  ghost predicate Supported(added: set<BlockHash>, known: set<BlockHash>, first: nat) {
    forall h :: h in added ==> !Unexpected(h, known, first)
  }

  /** Nothing was fetched `reach` blocks or more below a header of the active chain that the tree held. */
  ghost predicate StopsAtKnown(view: NodeView, before: set<BlockHash>, headers: seq<HeaderInfo>, reach: nat) {
    forall i, x :: 0 <= i < |view.active| && Digest(view.active[i]) in before && x in headers ==> i < x.height + reach
  }

  /** What an active fetch that returned `headers` has achieved: they are sorted by height, all are from the tracked
      active chain, none was in the tree before, the tip is covered, everything returned was sent as progress and
      nothing else was, and, on a tree without gaps along the active chain and without other pollers, the missing part
      of the active chain was returned and nothing else. */
  ghost predicate ActiveFetched(view: NodeView, before: set<BlockHash>, after: set<BlockHash>, headers: seq<HeaderInfo>,
                                sent: seq<HeaderInfo>, first: nat, solo: bool)
    requires view.Consistent()
  {
    && multiset(sent) == multiset(headers) && Sorted(headers, HeightKey) && HashesOf(headers) !! before
    && HashesOf(headers) <= ActiveHashesAbove(view, -1, first)
    && (first < |view.active| ==> Digest(view.active[|view.active| - 1]) in after + HashesOf(headers))
    && (solo && UnbrokenActive(view, before, first) ==> HashesOf(headers) == MissingActive(view, before, first))
  }

  method TreeContains(tree: SharedTree, hash: BlockHash) returns (b: bool)
    ensures b <==> hash in tree.info.Hashes()
  {
    b := hash in tree.info.index;
  }

  lemma SameElementsSameHashes(a: seq<HeaderInfo>, b: seq<HeaderInfo>)
    requires multiset(a) == multiset(b)
    ensures HashesOf(a) == HashesOf(b)
  {
    assert HashesOf(a) == set x | x in multiset(a) :: x.Hash();
    assert HashesOf(b) == set x | x in multiset(b) :: x.Hash();
  }

  lemma HashesOfActiveAbove(view: NodeView, low: int, headers: seq<HeaderInfo>)
    requires -1 <= low < |view.active| && IsActiveAbove(view, low, headers)
    ensures HashesOf(headers) == set i | low < i < |view.active| :: Digest(view.active[i])
  {
    forall i | low < i < |view.active|
      ensures Digest(view.active[i]) in HashesOf(headers)
    {
      assert headers[|view.active| - 1 - i].Hash() == Digest(view.active[i]);
    }
  }

  /** A walk that covered the chain above `low`, and met a header known before at or above `low` unless it
      went below the bound, has added exactly what was missing. */
  lemma ExactlyMissing(view: NodeView, low: int, before: set<BlockHash>, after: set<BlockHash>, added: set<BlockHash>,
                       first: nat)
    requires UnbrokenActive(view, before, first)
    requires added <= ActiveHashesAbove(view, -1, first) && added !! before
    requires ActiveHashesAbove(view, low, first) <= after + added && after <= before + added
    requires first <= low ==> exists j :: low <= j < |view.active| && Digest(view.active[j]) in before
    ensures added == MissingActive(view, before, first)
  {
    forall i | first <= i < |view.active| && Digest(view.active[i]) !in before
      ensures Digest(view.active[i]) in added
    {
      assert low < i;
      assert Digest(view.active[i]) in ActiveHashesAbove(view, low, first);
    }
  }

  lemma ActiveAboveSupported(view: NodeView, low: int, known: set<BlockHash>, added: set<BlockHash>, first: nat)
    requires view.Consistent() && -1 <= low < |view.active|
    requires added == set i | low < i < |view.active| :: Digest(view.active[i])
    requires low < first || Digest(view.active[low]) in known
    ensures Supported(added, known + added, first)
  {
    forall h | h in added
      ensures !Unexpected(h, known + added, first)
    {
      var i :| low < i < |view.active| && h == Digest(view.active[i]);
      assert i - 1 == low || Digest(view.active[i - 1]) in added;
    }
  }

  /** The walk stopped at height `low`: at a known header, or below the bound. */
  lemma ActiveWalkDone(view: NodeView, low: int, before: set<BlockHash>, t: TreeInfo, headers: seq<HeaderInfo>,
                       sent: seq<HeaderInfo>, first: nat, solo: bool)
    requires ActiveWalk(view, low, before, t, sent, [], first, solo) && multiset(headers) == multiset(sent)
    requires Sorted(headers, HeightKey)
    requires low < first || Digest(view.active[low]) in t.Hashes()
    ensures ActiveFetched(view, before, t.Hashes(), headers, sent, first, solo)
    ensures Supported(HashesOf(headers), t.Hashes() + HashesOf(headers), first)
    ensures StopsAtKnown(view, before, headers, 0)
  {
    assert sent + [] == sent;
    WalkStops(view, low, before, headers, sent);
    hide TreeInfo.AllTracked, UnbrokenActive, Supported, IsActiveAbove, HashesOf, Sorted, StopsAtKnown;
    var after, added := t.Hashes(), HashesOf(headers);
    SameElementsSameHashes(headers, sent);
    HashesOfActiveAbove(view, low, sent);
    ActiveAboveSupported(view, low, after, added, first);
    if sent == [] {
      NoneOf();
    }
    TipAdded(view, low, after, added, first);
    AddedIsTracked(view, low, added, first);
    if solo && UnbrokenActive(view, before, first) {
      ExactlyMissing(view, low, before, after, added, first);
    }
  }

  lemma WalkStops(view: NodeView, low: int, before: set<BlockHash>, headers: seq<HeaderInfo>, sent: seq<HeaderInfo>)
    requires -1 <= low < |view.active| && IsActiveAbove(view, low, sent) && HashesOf(sent) !! before
    requires multiset(headers) == multiset(sent)
    ensures StopsAtKnown(view, before, headers, 0)
  {
    HashesOfActiveAbove(view, low, sent);
    forall i, x | 0 <= i < |view.active| && Digest(view.active[i]) in before && x in headers
      ensures i < x.height
    {
      assert x in multiset(headers);
      assert x in sent;
      assert i <= low;
    }
  }

  lemma TipAdded(view: NodeView, low: int, after: set<BlockHash>, added: set<BlockHash>, first: nat)
    requires view.Consistent() && -1 <= low < |view.active|
    requires added == set i | low < i < |view.active| :: Digest(view.active[i])
    requires low < first || Digest(view.active[low]) in after
    ensures first < |view.active| ==> Digest(view.active[|view.active| - 1]) in after + added
  {}

  lemma AddedIsTracked(view: NodeView, low: int, added: set<BlockHash>, first: nat)
    requires view.Consistent() && -1 <= low < |view.active| && (first - 1 <= low || added == {})
    requires added == set i | low < i < |view.active| :: Digest(view.active[i])
    ensures added == ActiveHashesAbove(view, low, first) && added <= ActiveHashesAbove(view, -1, first)
  {
    assert low < |view.active| - 1 ==> Digest(view.active[|view.active| - 1]) in added;
  }

  /** The state of the height-by-height walk: `sent + pending` is the active chain above `low`. */
  ghost predicate ActiveWalk(view: NodeView, low: int, before: set<BlockHash>, t: TreeInfo, sent: seq<HeaderInfo>,
                             pending: seq<HeaderInfo>, first: nat, solo: bool)
  {
    && view.Consistent() && -1 <= low < |view.active| && IsActiveAbove(view, low, sent + pending)
    && Grown(before, t, sent, first, solo)
    && HashesOf(sent + pending) !! before
    && (low < first - 1 ==> sent + pending == [])
  }

  lemma ActiveWalkStart(view: NodeView, tips: seq<ChainTip>, t: TreeInfo, first: nat, solo: bool)
    requires view.ConsistentTips(tips) && t.AllTracked(first) && FindActiveTip(tips).Success?
    ensures ActiveWalk(view, FindActiveTip(tips).value.height, t.Hashes(), t, Flatten([]), [], first, solo)
    ensures FindActiveTip(tips).value.height < |view.active|
  {
    FindActiveTipMeaning(tips);
  }

  lemma ActiveWalkSent(view: NodeView, low: int, before: set<BlockHash>, t: TreeInfo, sent: seq<HeaderInfo>,
                       pending: seq<HeaderInfo>, first: nat, solo: bool)
    requires ActiveWalk(view, low, before, t, sent, pending, first, solo)
    ensures AllFetched(sent, first) && Grown(before, t, sent, first, solo) && t.AllTracked(first)
    ensures HashesOf(sent) <= ActiveHashesAbove(view, -1, first)
    ensures low < |view.active| && (0 <= low ==> view.Answer(ByHeight(low)) == Success(view.active[low]))
    ensures sent + pending != [] ==> Digest(view.active[|view.active| - 1]) !in before
  {
    if sent + pending != [] {
      assert (sent + pending)[0].Hash() == Digest(view.active[|view.active| - 1]);
    }
    forall k | 0 <= k < |sent|
      ensures Fetched(sent[k], first) && sent[k].Hash() in ActiveHashesAbove(view, -1, first)
    {
      assert (sent + pending)[k] == sent[k];
    }
  }

  /** The other tasks ran, and the header at `low` is still unknown. */
  lemma ActiveWalkStep(view: NodeView, low: int, before: set<BlockHash>, t: TreeInfo, t': TreeInfo,
                       sent: seq<HeaderInfo>, pending: seq<HeaderInfo>, first: nat, solo: bool)
    requires ActiveWalk(view, low, before, t, sent, pending, first, solo)
    requires Grown(t.Hashes(), t', sent, first, solo)
    ensures ActiveWalk(view, low, before, t', sent, pending, first, solo)
    ensures first <= low && Digest(view.active[low]) !in t'.Hashes()
            ==> ActiveWalk(view, low - 1, before, t', sent, pending + [MakeHeaderInfo(low, view.active[low])], first,
                           solo)
  {
    if first <= low {
      var info := MakeHeaderInfo(low, view.active[low]);
      assert sent + (pending + [info]) == (sent + pending) + [info];
      HashesOfConcat(sent + pending, [info]);
    }
  }

  lemma ActiveWalkFlush(view: NodeView, low: int, before: set<BlockHash>, t: TreeInfo, sent: seq<HeaderInfo>,
                        pending: seq<HeaderInfo>, first: nat, solo: bool)
    requires ActiveWalk(view, low, before, t, sent, pending, first, solo)
    ensures ActiveWalk(view, low, before, t, sent + pending, [], first, solo)
  {
    assert (sent + pending) + [] == sent + pending;
    HashesOfConcat(sent, pending);
  }

  /** Progress comes in batches of at most ten headers. */
  ghost predicate SmallBatches(progress: seq<seq<HeaderInfo>>) {
    forall batch :: batch in progress ==> 1 <= |batch| <= 10
  }

  lemma OneMoreBatch(progress: seq<seq<HeaderInfo>>, batch: seq<HeaderInfo>)
    requires SmallBatches(progress) && |batch| <= 10
    ensures SmallBatches(SendProgressBatch(progress, batch))
  {}

  lemma NothingSent(t: TreeInfo, first: nat, solo: bool)
    requires t.AllTracked(first)
    ensures HashesOf([]) == {} && SmallBatches([]) && Flatten([]) == [] && AllFetched([], first)
    ensures Grown(t.Hashes(), t, [], first, solo)
    ensures RPC_PROGRESS_BATCH_SIZE == 10
  {}

  /** Downwards from the tip, one lookup per height, until a known header or the lower bound. */
  method GetNewActiveHeadersByHeight(view: NodeView, tips: seq<ChainTip>, tree: SharedTree, first: nat, solo: bool)
    returns (r: Result<seq<HeaderInfo>, FetchError>, progress: seq<seq<HeaderInfo>>)
    requires view.ConsistentTips(tips) && tree.info.AllTracked(first)
    modifies tree
    ensures AllFetched(Flatten(progress), first)
    ensures Grown(old(tree.info.Hashes()), tree.info, Flatten(progress), first, solo)
    ensures r.Success? ==>
            ActiveFetched(view, old(tree.info.Hashes()), tree.info.Hashes(), r.value, Flatten(progress), first, solo)
    ensures r.Success? ==> Supported(HashesOf(r.value), tree.info.Hashes() + HashesOf(r.value), first)
    ensures HashesOf(Flatten(progress)) <= ActiveHashesAbove(view, -1, first)
    ensures !HasActiveTip(tips) ==> r == Failure(DataError)
    ensures view.reliable && HasActiveTip(tips) ==> r.Success?
    ensures r.Success? ==> StopsAtKnown(view, old(tree.info.Hashes()), r.value, 0)
    ensures r.Success? && Digest(view.active[|view.active| - 1]) in old(tree.info.Hashes()) ==> r.value == []
    ensures SmallBatches(progress)
  {
    hide *;
    ghost var before := tree.info.Hashes();
    ActiveTipFound(tips);
    NothingSent(tree.info, first, solo);
    progress := [];
    var newHeaders: seq<HeaderInfo>, progressBatch: seq<HeaderInfo> := [], [];
    var activeTip := FindActiveTip(tips);
    if activeTip.Failure? {
      return Failure(DataError), progress;
    }
    ActiveWalkStart(view, tips, tree.info, first, solo);
    var queryHeight: int := activeTip.value.height;

    while first <= queryHeight
      invariant ActiveWalk(view, queryHeight, before, tree.info, Flatten(progress), progressBatch, first, solo)
      invariant newHeaders == Flatten(progress) + progressBatch
      invariant |progressBatch| < 10 && SmallBatches(progress)
      decreases queryHeight
    {
      ActiveWalkSent(view, queryHeight, before, tree.info, Flatten(progress), progressBatch, first, solo);
      var header := BlockHeader(view, ByHeight(queryHeight));
      if header.Failure? {
        return Failure(header.error), progress;
      }
      ghost var t := tree.info;
      OtherTasks(tree, Flatten(progress), first, solo);
      ActiveWalkStep(view, queryHeight, before, t, tree.info, Flatten(progress), progressBatch, first, solo);
      var known := TreeContains(tree, Digest(header.value));
      if known {
        break;
      }
      var info := MakeHeaderInfo(queryHeight, header.value);
      progressBatch := progressBatch + [info];
      newHeaders := newHeaders + [info];
      if |progressBatch| >= RPC_PROGRESS_BATCH_SIZE {
        ActiveWalkFlush(view, queryHeight - 1, before, tree.info, Flatten(progress), progressBatch, first, solo);
        OneMoreBatch(progress, progressBatch);
        progress, progressBatch := SendProgressBatch(progress, progressBatch), [];
      }
      queryHeight := queryHeight - 1;
    }

    ActiveWalkFlush(view, queryHeight, before, tree.info, Flatten(progress), progressBatch, first, solo);
    OneMoreBatch(progress, progressBatch);
    progress := SendProgressBatch(progress, progressBatch);
    var sorted := SortBy(newHeaders, HeightKey);
    ActiveWalkSent(view, queryHeight, before, tree.info, newHeaders, [], first, solo);
    assert newHeaders + [] == newHeaders;
    ActiveWalkDone(view, queryHeight, before, tree.info, sorted, newHeaders, first, solo);
    r := Success(sorted);
  }

  ghost function DigestsOf(headers: seq<Header>): set<BlockHash> {
    set i | 0 <= i < |headers| :: Digest(headers[i])
  }

  /** From the lowest height to the highest, each as the window has it. */
  ghost predicate InWindowOrder(start: nat, headers: seq<Header>, infos: seq<HeaderInfo>) {
    && (forall i, j :: 0 <= i < j < |infos| ==> infos[i].height < infos[j].height)
    && forall i :: 0 <= i < |infos| ==>
         start <= infos[i].height < start + |headers|
         && infos[i] == MakeHeaderInfo(infos[i].height, headers[infos[i].height - start])
  }

  /** The headers of one window that the tree does not hold, and whether it holds any of the others. */
  method CollectUnknownActiveBatchHeaders(tree: SharedTree, start: nat, headers: seq<Header>)
    returns (unknown: seq<HeaderInfo>, encounteredKnown: bool)
    requires forall i :: 0 <= i < |headers| ==> Height(headers[i]) == start + i
    ensures HashesOf(unknown) == DigestsOf(headers) - tree.info.Hashes()
    ensures encounteredKnown <==> DigestsOf(headers) * tree.info.Hashes() != {}
    ensures InWindowOrder(start, headers, unknown) && AllFetched(unknown, start)
  {
    hide *;
    unknown, encounteredKnown := [], false;
    NothingCollected(tree.info.Hashes(), start);
    for k := 0 to |headers|
      invariant Collected(tree.info.Hashes(), start, headers[..k], unknown, encounteredKnown)
    {
      CollectStep(tree.info.Hashes(), start, headers, k, unknown, encounteredKnown);
      var known := TreeContains(tree, Digest(headers[k]));
      if known {
        encounteredKnown := true;
      } else {
        unknown := unknown + [MakeHeaderInfo(start + k, headers[k])];
      }
    }
    assert headers[..|headers|] == headers;
    CollectedAll(tree.info.Hashes(), start, headers, unknown, encounteredKnown);
  }

  /** What was collected from some headers of a window. */
  ghost predicate Collected(known: set<BlockHash>, start: nat, headers: seq<Header>, unknown: seq<HeaderInfo>,
                            met: bool) {
    && HashesOf(unknown) == DigestsOf(headers) - known
    && (met <==> DigestsOf(headers) * known != {})
    && InWindowOrder(start, headers, unknown) && AllFetched(unknown, start)
  }

  lemma NothingCollected(known: set<BlockHash>, start: nat)
    ensures Collected(known, start, [][..0], [], false)
  {}

  lemma CollectedAll(known: set<BlockHash>, start: nat, headers: seq<Header>, unknown: seq<HeaderInfo>, met: bool)
    requires Collected(known, start, headers, unknown, met)
    ensures HashesOf(unknown) == DigestsOf(headers) - known
    ensures met <==> DigestsOf(headers) * known != {}
    ensures InWindowOrder(start, headers, unknown) && AllFetched(unknown, start)
  {}

  lemma CollectStep(known: set<BlockHash>, start: nat, headers: seq<Header>, k: nat, unknown: seq<HeaderInfo>,
                    met: bool)
    requires k < |headers| && Height(headers[k]) == start + k && Collected(known, start, headers[..k], unknown, met)
    ensures Digest(headers[k]) in known ==> Collected(known, start, headers[..k + 1], unknown, true)
    ensures Digest(headers[k]) !in known
        ==> Collected(known, start, headers[..k + 1], unknown + [MakeHeaderInfo(start + k, headers[k])], met)
  {
    hide Height;
    DigestsOfSnoc(headers, k);
    assert headers[..k + 1] == headers[..k] + [headers[k]];
    AppendHash(unknown, MakeHeaderInfo(start + k, headers[k]));
    hide HashesOf, DigestsOf;
    if Digest(headers[k]) in known {
      assert Digest(headers[k]) in DigestsOf(headers[..k + 1]) * known;
    } else {
      assert DigestsOf(headers[..k + 1]) * known == DigestsOf(headers[..k]) * known;
    }
  }

  lemma DigestsOfSnoc(headers: seq<Header>, n: nat)
    requires n < |headers|
    ensures DigestsOf(headers[..n + 1]) == DigestsOf(headers[..n]) + {Digest(headers[n])}
  {
    forall h | h in DigestsOf(headers[..n])
      ensures h in DigestsOf(headers[..n + 1])
    {
      var i :| 0 <= i < n && h == Digest(headers[..n][i]);
      assert headers[..n + 1][i] == headers[i];
    }
    assert headers[..n + 1][n] == headers[n];
  }

  /** The state of the windowed walk before a known header is met: the tracked chain above `low` was sent. */
  ghost predicate BatchWalk(view: NodeView, low: int, before: set<BlockHash>, t: TreeInfo, sent: seq<HeaderInfo>,
                            first: nat, solo: bool)
  {
    && view.Consistent() && low < |view.active| && AllFetched(sent, first)
    && HashesOf(sent) == ActiveHashesAbove(view, low, first)
    && Grown(before, t, sent, first, solo)
    && HashesOf(sent) !! before
  }

  lemma BatchWalkStart(view: NodeView, tips: seq<ChainTip>, t: TreeInfo, first: nat, solo: bool)
    requires view.ConsistentTips(tips) && t.AllTracked(first) && FindActiveTip(tips).Success?
    ensures BatchWalk(view, FindActiveTip(tips).value.height, t.Hashes(), t, [], first, solo)
  {
    FindActiveTipMeaning(tips);
  }

  lemma BatchWalkFacts(view: NodeView, low: int, before: set<BlockHash>, t: TreeInfo, sent: seq<HeaderInfo>, first: nat,
                       solo: bool)
    requires BatchWalk(view, low, before, t, sent, first, solo)
    ensures view.Consistent() && low < |view.active|
    ensures t.AllTracked(first) && AllFetched(sent, first) && Grown(before, t, sent, first, solo)
    ensures HashesOf(sent) <= ActiveHashesAbove(view, -1, first)
  {}

  function WindowStart(low: int, first: nat): nat
    requires first <= low
  {
    if low - ACTIVE_BATCH_STEP + 1 < first then first else low - ACTIVE_BATCH_STEP + 1
  }

  /** The headers of the window asked for at `low`; the last window reaches above `low`. */
  ghost function Window(view: NodeView, low: int, first: nat): seq<Header>
    requires first <= low < |view.active|
  {
    var start := WindowStart(low, first);
    ActiveWindow(view, start, ACTIVE_BATCH_STEP)
  }

  lemma WindowHeaders(view: NodeView, low: int, first: nat)
    requires view.Consistent() && first <= low < |view.active|
    ensures var start, headers := WindowStart(low, first), Window(view, low, first);
            && headers == ActiveWindow(view, start, ACTIVE_BATCH_STEP)
            && forall i :: 0 <= i < |headers| ==> Height(headers[i]) == start + i
    ensures first <= WindowStart(low, first) < |view.active|
    ensures Window(view, low, first) != []
  {}

  lemma WindowDigests(view: NodeView, low: int, first: nat)
    requires first <= low < |view.active|
    ensures ActiveHashesAbove(view, low - ACTIVE_BATCH_STEP, first)
         == ActiveHashesAbove(view, low, first) + DigestsOf(Window(view, low, first))
  {
    var start, headers := WindowStart(low, first), Window(view, low, first);
    assert forall i :: 0 <= i < |headers| ==> headers[i] == view.active[start + i];
    forall i | start <= i <= low
      ensures Digest(view.active[i]) in DigestsOf(headers)
    {
      assert headers[i - start] == view.active[i];
    }
  }

  lemma WindowReach(view: NodeView, low: int, first: nat)
    requires first <= low < |view.active|
    ensures ActiveHashesAbove(view, low, first) + DigestsOf(Window(view, low, first))
         <= ActiveHashesAbove(view, -1, first)
    ensures Digest(view.active[|view.active| - 1])
         in ActiveHashesAbove(view, low, first) + DigestsOf(Window(view, low, first))
  {
    WindowDigests(view, low, first);
    assert Digest(view.active[|view.active| - 1]) in ActiveHashesAbove(view, low - ACTIVE_BATCH_STEP, first);
  }

  /** One window, of which `unknown` was sent, and in which no header was known. */
  lemma BatchWindowStep(view: NodeView, low: int, before: set<BlockHash>, t: TreeInfo, t': TreeInfo,
                        sent: seq<HeaderInfo>, unknown: seq<HeaderInfo>, first: nat, solo: bool)
    requires BatchWalk(view, low, before, t, sent, first, solo) && first <= low
    requires Grown(t.Hashes(), t', sent, first, solo) && AllFetched(unknown, WindowStart(low, first))
    requires HashesOf(unknown) == DigestsOf(Window(view, low, first)) - t'.Hashes()
    ensures AllFetched(sent + unknown, first) && Grown(before, t', sent + unknown, first, solo)
    ensures HashesOf(sent + unknown) <= ActiveHashesAbove(view, -1, first)
    ensures DigestsOf(Window(view, low, first)) * t'.Hashes() == {} ==>
              BatchWalk(view, low - ACTIVE_BATCH_STEP, before, t', sent + unknown, first, solo)
  {
    HashesOfConcat(sent, unknown);
    WindowDigests(view, low, first);
    var window := DigestsOf(Window(view, low, first));
    if window * t'.Hashes() == {} {
      assert forall h :: h in window ==> h in window * t'.Hashes() || h !in t'.Hashes();
      assert window - t'.Hashes() == window;
    }
  }

  lemma NotAbove(view: NodeView, low: int, first: nat, j: nat)
    requires view.Consistent() && j <= low && j < |view.active|
    ensures Digest(view.active[j]) !in ActiveHashesAbove(view, low, first)
  {
    assert Height(view.active[j]) == j;
  }

  /** One window in which some header was already known ends the walk. */
  lemma BatchWindowEnd(view: NodeView, low: int, before: set<BlockHash>, known: set<BlockHash>, sent: set<BlockHash>,
                       unknown: set<BlockHash>, first: nat)
    requires view.Consistent() && UnbrokenActive(view, before, first) && first <= low < |view.active|
    requires sent + DigestsOf(Window(view, low, first)) <= ActiveHashesAbove(view, -1, first)
    requires before <= known && known <= before + sent && sent !! before
    requires sent == ActiveHashesAbove(view, low, first)
    requires unknown == DigestsOf(Window(view, low, first)) - known && DigestsOf(Window(view, low, first)) * known != {}
    ensures sent + unknown == MissingActive(view, before, first)
  {
    WindowDigests(view, low, first);
    var j := KnownInWindow(view, low, known, first);
    if j <= low {
      NotAbove(view, low, first, j);
    }
    var below, window := low - ACTIVE_BATCH_STEP, DigestsOf(Window(view, low, first));
    Leftover(sent, window, known, unknown);
    ExactlyMissing(view, below, before, known, sent + unknown, first);
  }

  lemma KnownInWindow(view: NodeView, low: int, known: set<BlockHash>, first: nat) returns (j: nat)
    requires first <= low < |view.active| && DigestsOf(Window(view, low, first)) * known != {}
    ensures WindowStart(low, first) <= j < |view.active| && Digest(view.active[j]) in known
    ensures first <= low - ACTIVE_BATCH_STEP ==> j <= low
  {
    var window := Window(view, low, first);
    var i :| 0 <= i < |window| && Digest(window[i]) in known;
    j := WindowStart(low, first) + i;
  }

  lemma Leftover(sent: set<BlockHash>, window: set<BlockHash>, known: set<BlockHash>, unknown: set<BlockHash>)
    requires unknown == window - known
    ensures sent + window <= known + (sent + unknown)
  {}

  /** What the tree held of the active chain lies at or below `low`, and the last window is less than 2000 long. */
  lemma WindowsStop(view: NodeView, low: int, before: set<BlockHash>, headers: seq<HeaderInfo>, sent: seq<HeaderInfo>,
                    unknown: seq<HeaderInfo>, first: nat)
    requires view.Consistent() && HashesOf(sent) == ActiveHashesAbove(view, low, first) && HashesOf(sent) !! before
    requires AllFetched(sent, first) && multiset(headers) == multiset(sent + unknown)
    requires unknown != [] ==> first <= low && AllFetched(unknown, WindowStart(low, first))
    ensures StopsAtKnown(view, before, headers, 2000)
  {
    forall i, x | 0 <= i < |view.active| && Digest(view.active[i]) in before && x in headers
      ensures i < x.height + 2000
    {
      assert x in multiset(headers);
      if first <= i {
        assert i <= low;
      }
      if x in sent {
        assert x.Hash() in ActiveHashesAbove(view, low, first);
      }
    }
  }

  lemma BatchFetched(view: NodeView, low: int, before: set<BlockHash>, t: TreeInfo, t': TreeInfo, sent: seq<HeaderInfo>,
                     unknown: seq<HeaderInfo>, headers: seq<HeaderInfo>, first: nat, solo: bool)
    requires BatchWalk(view, low, before, t, sent, first, solo) && first <= low
    requires Grown(t.Hashes(), t', sent, first, solo)
    requires HashesOf(unknown) == DigestsOf(Window(view, low, first)) - t'.Hashes()
    requires AllFetched(unknown, WindowStart(low, first))
    requires DigestsOf(Window(view, low, first)) * t'.Hashes() != {}
    requires multiset(headers) == multiset(sent + unknown) && Sorted(headers, HeightKey)
    ensures ActiveFetched(view, before, t'.Hashes(), headers, sent + unknown, first, solo)
    ensures StopsAtKnown(view, before, headers, 2000)
  {
    hide ActiveHashesAbove, DigestsOf, Window, HashesOf, UnbrokenActive, Sorted, StopsAtKnown, WindowStart,
         TreeInfo.AllTracked, NodeView.Consistent, AllFetched;
    WindowsStop(view, low, before, headers, sent, unknown, first);
    SameElementsSameHashes(headers, sent + unknown);
    HashesOfConcat(sent, unknown);
    WindowReach(view, low, first);
    if solo && UnbrokenActive(view, before, first) {
      BatchWindowEnd(view, low, before, t'.Hashes(), HashesOf(sent), HashesOf(unknown), first);
    }
  }

  /** The walk went below the bound without meeting a known header. */
  lemma BatchExhausted(view: NodeView, low: int, before: set<BlockHash>, t: TreeInfo, sent: seq<HeaderInfo>,
                       headers: seq<HeaderInfo>, first: nat, solo: bool)
    requires BatchWalk(view, low, before, t, sent, first, solo) && low < first
    requires multiset(headers) == multiset(sent) && Sorted(headers, HeightKey)
    ensures ActiveFetched(view, before, t.Hashes(), headers, sent, first, solo)
    ensures StopsAtKnown(view, before, headers, 2000)
  {
    assert sent + [] == sent;
    WindowsStop(view, low, before, headers, sent, [], first);
    hide StopsAtKnown;
    SameElementsSameHashes(headers, sent);
    assert ActiveHashesAbove(view, low, first) == ActiveHashesAbove(view, -1, first);
    if solo && UnbrokenActive(view, before, first) {
      ExactlyMissing(view, low, before, t.Hashes(), HashesOf(sent), first);
    }
    if first < |view.active| {
      assert Digest(view.active[|view.active| - 1]) in ActiveHashesAbove(view, low, first);
    }
  }

  /** Downwards from the tip in windows, until a window holds a known header or the lower bound is passed. */
  method GetNewActiveHeadersAsBatch(view: NodeView, tips: seq<ChainTip>, tree: SharedTree, first: nat, solo: bool)
    returns (r: Result<seq<HeaderInfo>, FetchError>, progress: seq<seq<HeaderInfo>>)
    requires view.ConsistentTips(tips) && tree.info.AllTracked(first)
    modifies tree
    ensures AllFetched(Flatten(progress), first)
    ensures Grown(old(tree.info.Hashes()), tree.info, Flatten(progress), first, solo)
    ensures r.Success? ==>
            ActiveFetched(view, old(tree.info.Hashes()), tree.info.Hashes(), r.value, Flatten(progress), first, solo)
    ensures r.Success? ==> StopsAtKnown(view, old(tree.info.Hashes()), r.value, 2000)
    ensures HashesOf(Flatten(progress)) <= ActiveHashesAbove(view, -1, first)
    ensures !HasActiveTip(tips) ==> r == Failure(DataError)
    ensures view.reliable && HasActiveTip(tips) ==> r.Success?
  {
    ghost var before := tree.info.Hashes();
    ActiveTipFound(tips);
    progress := [];
    var newHeaders: seq<HeaderInfo> := [];
    var activeTip := FindActiveTip(tips);
    if activeTip.Failure? {
      return Failure(DataError), progress;
    }
    hide *;
    BatchWalkStart(view, tips, tree.info, first, solo);
    var queryHeight: int := activeTip.value.height;

    while first <= queryHeight
      invariant BatchWalk(view, queryHeight, before, tree.info, newHeaders, first, solo)
      invariant newHeaders == Flatten(progress)
    {
      BatchWalkFacts(view, queryHeight, before, tree.info, newHeaders, first, solo);
      WindowHeaders(view, queryHeight, first);
      var start := WindowStart(queryHeight, first);
      var headers := BatchActiveHeaders(view, start, ACTIVE_BATCH_STEP);
      if headers.Failure? {
        return Failure(headers.error), progress;
      }
      if |headers.value| == 0 {
        break;
      }
      ghost var t := tree.info;
      OtherTasks(tree, newHeaders, first, solo);
      var unknown, encounteredKnown := CollectUnknownActiveBatchHeaders(tree, start, headers.value);
      BatchWindowStep(view, queryHeight, before, t, tree.info, newHeaders, unknown, first, solo);
      ghost var sent := newHeaders;
      newHeaders := newHeaders + unknown;
      progress := SendProgressBatch(progress, unknown);
      if encounteredKnown {
        var sorted := SortBy(newHeaders, HeightKey);
        BatchFetched(view, queryHeight, before, t, tree.info, sent, unknown, sorted, first, solo);
        return Success(sorted), progress;
      }
      queryHeight := queryHeight - ACTIVE_BATCH_STEP;
    }

    BatchWalkFacts(view, queryHeight, before, tree.info, newHeaders, first, solo);
    var sorted := SortBy(newHeaders, HeightKey);
    BatchExhausted(view, queryHeight, before, tree.info, newHeaders, sorted, first, solo);
    r := Success(sorted);
  }

  // ----- Non-active branches

  /** Whether a tip can contribute headers inside the tracked range. */
  predicate NonactiveTipReachesTrackedRange(tip: ChainTip, first: nat) {
    first <= tip.height && tip.branchlen <= tip.height
  }

  /** A tip whose branch is fetched. */
  ghost predicate Eligible(tip: ChainTip, first: nat) {
    !tip.status.Active? && first <= tip.height && tip.branchlen <= tip.height
  }

  /** Every eligible tip is in the tree. */
  ghost predicate AllKnown(tips: seq<ChainTip>, known: set<BlockHash>, first: nat) {
    forall tip :: tip in tips && Eligible(tip, first) ==> tip.hash.Some? && tip.hash.value in known
  }

  /** The node has an answer to whatever the fetch of this tip asks for. */
  ghost predicate TipLoadable(view: NodeView, tip: ChainTip, known: set<BlockHash>, first: nat) {
    Eligible(tip, first) ==> tip.hash.Some? && (view.hashLookup || tip.hash.value in known)
  }

  ghost predicate AllLoadable(view: NodeView, tips: seq<ChainTip>, known: set<BlockHash>, first: nat) {
    forall tip :: tip in tips ==> TipLoadable(view, tip, known, first)
  }

  /** `headers` is the branch from the tip down, and `next` the hash below it. */
  ghost predicate BranchWalk(view: NodeView, tip: ChainTip, headers: seq<HeaderInfo>, next: BlockHash, first: nat)
    requires view.Consistent() && view.ConsistentTip(tip) && tip.hash.Some?
  {
    var h := tip.hash.value.header;
    && |headers| <= tip.height + 1
    && (forall k :: 0 <= k < |headers| ==>
          first <= tip.height - k && headers[k] == MakeHeaderInfo(tip.height - k, AncestorAt(h, tip.height - k)))
    && (|headers| <= tip.height ==> next == Digest(AncestorAt(h, tip.height - |headers|)))
  }

  /** A header of the branch of an eligible tip, and nothing from it up to the tip was in the tree. */
  ghost predicate FromBranch(tip: ChainTip, before: set<BlockHash>, h: Header, first: nat) {
    && Eligible(tip, first) && tip.hash.Some? && tip.hash.value.Digest? && Height(tip.hash.value.header) == tip.height
    && first <= Height(h) <= tip.height <= Height(h) + tip.branchlen
    && h == AncestorAt(tip.hash.value.header, Height(h))
    && forall n :: Height(h) <= n <= tip.height ==> Digest(AncestorAt(tip.hash.value.header, n)) !in before
  }

  ghost predicate AllFromBranch(tip: ChainTip, before: set<BlockHash>, added: set<BlockHash>, first: nat) {
    forall x :: x in added ==> x.Digest? && FromBranch(tip, before, x.header, first)
  }

  lemma WalkIsFromBranch(view: NodeView, tip: ChainTip, before: set<BlockHash>, headers: seq<HeaderInfo>,
                         next: BlockHash, first: nat)
    requires view.Consistent() && view.ConsistentTip(tip) && Eligible(tip, first) && tip.hash.Some?
    requires BranchWalk(view, tip, headers, next, first) && |headers| <= tip.branchlen + 1
    requires HashesOf(headers) !! before
    ensures AllFromBranch(tip, before, HashesOf(headers), first)
  {
    var h := tip.hash.value.header;
    forall k | 0 <= k < |headers|
      ensures FromBranch(tip, before, headers[k].header, first)
    {
      forall n | tip.height - k <= n <= tip.height
        ensures Digest(AncestorAt(h, n)) !in before
      {
        assert headers[tip.height - n].Hash() in HashesOf(headers);
      }
    }
  }

  lemma BranchWalkStep(view: NodeView, tip: ChainTip, headers: seq<HeaderInfo>, next: BlockHash, first: nat)
    requires view.Consistent() && view.ConsistentTip(tip) && tip.hash.Some?
    requires BranchWalk(view, tip, headers, next, first)
    requires first <= tip.height - |headers|
    ensures next.Digest? && next.header in view.known
    ensures BranchWalk(view, tip, headers + [MakeHeaderInfo(tip.height - |headers|, next.header)], next.header.prev,
                       first)
  {
    var h, n := tip.hash.value.header, tip.height - |headers|;
    AncestorKnown(view, h, n);
    if 0 < n {
      AncestorPrev(h, n);
    }
  }

  /** The walk down one branch ends at a known header, at the lower bound, or on the active chain; so
      nothing it loaded is left without its predecessor once the active chain is there. */
  lemma BranchWalkDone(view: NodeView, tip: ChainTip, headers: seq<HeaderInfo>, next: BlockHash, first: nat,
                       known: set<BlockHash>)
    requires view.Consistent() && view.ConsistentTip(tip) && tip.hash.Some? && !tip.status.Active?
    requires BranchWalk(view, tip, headers, next, first)
    requires NonactiveTipReachesTrackedRange(tip, first)
    requires tip.height - |headers| < first || next in known || |headers| == tip.branchlen + 1
    ensures tip.hash.value in known + HashesOf(headers)
    ensures Supported(HashesOf(headers), known + ActiveHashesAbove(view, -1, first) + HashesOf(headers), first)
  {
    var h := tip.hash.value.header;
    if headers != [] {
      assert headers[0].Hash() == tip.hash.value;
    }
    forall x | x in HashesOf(headers)
      ensures !Unexpected(x, known + ActiveHashesAbove(view, -1, first) + HashesOf(headers), first)
    {
      var k :| 0 <= k < |headers| && headers[k].Hash() == x;
      var n := tip.height - k;
      assert x.header == AncestorAt(h, n);
      if first < n {
        AncestorPrev(h, n);
        if k + 1 < |headers| {
          assert headers[k + 1].Hash() == x.header.prev;
        } else if |headers| == tip.branchlen + 1 {
          assert view.OnActiveChain(x.header) && x.header.prev == Digest(view.active[n - 1]);
        }
      }
    }
  }

  /** The branch of one tip, if it is eligible. */
  method FetchTip(view: NodeView, tip: ChainTip, tree: SharedTree, sent: seq<HeaderInfo>, first: nat, solo: bool)
    returns (r: Result<seq<HeaderInfo>, FetchError>)
    requires view.Consistent() && view.ConsistentTip(tip) && tree.info.AllTracked(first) && AllFetched(sent, first)
    modifies tree
    ensures Grown(old(tree.info.Hashes()), tree.info, sent, first, solo)
    ensures r.Success? ==> AllFetched(r.value, first) && TipCovered(tip, tree.info.Hashes() + HashesOf(r.value), first)
    ensures r.Success? ==>
            Supported(HashesOf(r.value), tree.info.Hashes() + ActiveHashesAbove(view, -1, first) + HashesOf(r.value),
                      first)
    ensures r.Success? ==> HashesOf(r.value) !! old(tree.info.Hashes()) && (!view.hashLookup ==> r.value == [])
    ensures r.Success? ==> AllFromBranch(tip, old(tree.info.Hashes()), HashesOf(r.value), first)
    ensures !Eligible(tip, first) ==> r == Success([])
    ensures Eligible(tip, first) && tip.hash.None? ==> r == Failure(DataError)
    ensures Eligible(tip, first) && tip.hash.Some? && tip.hash.value in old(tree.info.Hashes()) ==> r == Success([])
    ensures view.reliable && TipLoadable(view, tip, old(tree.info.Hashes()), first) ==> r.Success?
  {
    NoneOf();
    if !NonactiveTipReachesTrackedRange(tip, first) || tip.status.Active? {
      return Success([]);
    }
    if tip.hash.None? {
      return Failure(DataError);
    }
    r := FetchBranch(view, tip, tip.hash.value, tree, sent, first, solo);
  }

  /** Loads one branch by hash, from its tip down to the first known header. */
  method FetchBranch(view: NodeView, tip: ChainTip, tipHash: BlockHash, tree: SharedTree, sent: seq<HeaderInfo>,
                     first: nat, solo: bool)
    returns (r: Result<seq<HeaderInfo>, FetchError>)
    requires view.Consistent() && view.ConsistentTip(tip) && !tip.status.Active? && tip.hash == Some(tipHash)
    requires NonactiveTipReachesTrackedRange(tip, first)
    requires tree.info.AllTracked(first) && AllFetched(sent, first)
    modifies tree
    ensures Grown(old(tree.info.Hashes()), tree.info, sent, first, solo)
    ensures r.Success? ==> AllFetched(r.value, first) && tipHash in tree.info.Hashes() + HashesOf(r.value)
    ensures r.Success? ==>
            Supported(HashesOf(r.value), tree.info.Hashes() + ActiveHashesAbove(view, -1, first) + HashesOf(r.value),
                      first)
    ensures r.Success? ==> HashesOf(r.value) !! old(tree.info.Hashes()) && (!view.hashLookup ==> r.value == [])
    ensures r.Success? ==> AllFromBranch(tip, old(tree.info.Hashes()), HashesOf(r.value), first)
    ensures tipHash in old(tree.info.Hashes()) ==> r == Success([])
    ensures view.reliable && (view.hashLookup || tipHash in old(tree.info.Hashes())) ==> r.Success?
  {
    hide TreeInfo.AllTracked;
    var headersForTip: seq<HeaderInfo> := [];
    var nextHash := tipHash;
    var i := 0;
    while i <= tip.branchlen
      invariant |headersForTip| == i <= tip.branchlen + 1
      invariant BranchWalk(view, tip, headersForTip, nextHash, first)
      invariant Grown(old(tree.info.Hashes()), tree.info, sent, first, solo)
      invariant HashesOf(headersForTip) !! old(tree.info.Hashes())
      invariant i == 0 ==> nextHash == tipHash
      invariant i > 0 ==> view.hashLookup && tipHash !in old(tree.info.Hashes())
    {
      var height := if i <= tip.height then tip.height - i else 0;
      if height < first {
        break;
      }
      OtherTasks(tree, sent, first, solo);
      var known := TreeContains(tree, nextHash);
      if known {
        break;
      }
      BranchWalkStep(view, tip, headersForTip, nextHash, first);
      var header := BlockHeader(view, ByHash(nextHash));
      if header.Failure? {
        return Failure(header.error);
      }
      AppendHash(headersForTip, MakeHeaderInfo(height, header.value));
      headersForTip := headersForTip + [MakeHeaderInfo(height, header.value)];
      nextHash := header.value.prev;
      i := i + 1;
    }
    BranchWalkDone(view, tip, headersForTip, nextHash, first, tree.info.Hashes());
    WalkIsFromBranch(view, tip, old(tree.info.Hashes()), headersForTip, nextHash, first);
    r := Success(headersForTip);
  }

  lemma SupportedMonotone(a: set<BlockHash>, known: set<BlockHash>, b: set<BlockHash>, known': set<BlockHash>,
                          first: nat)
    requires Supported(a, known, first) && Supported(b, known', first)
    ensures Supported(a + b, known + known', first)
  {
    forall h | h in a + b
      ensures !Unexpected(h, known + known', first)
    {
      assert h in a ==> !Unexpected(h, known, first);
      assert h in b ==> !Unexpected(h, known', first);
    }
  }

  /** The tip is in `known` unless it is the active one or out of range. */
  ghost predicate TipCovered(tip: ChainTip, known: set<BlockHash>, first: nat) {
    Eligible(tip, first) ==> tip.hash.Some? && tip.hash.value in known
  }

  lemma NoneOf()
    ensures HashesOf([]) == {}
  {}

  /** What a non-active fetch that returned `headers` has achieved: every eligible tip is covered, and
      once the active chain is there nothing returned lacks its predecessor. */
  ghost predicate NonactiveFetched(view: NodeView, tips: seq<ChainTip>, after: set<BlockHash>, headers: seq<HeaderInfo>,
                                   first: nat)
    requires view.ConsistentTips(tips)
  {
    && (forall tip :: tip in tips ==> TipCovered(tip, after + HashesOf(headers), first))
    && Supported(HashesOf(headers), after + ActiveHashesAbove(view, -1, first) + HashesOf(headers), first)
  }

  /** One more branch was loaded. */
  lemma NonactiveStep(view: NodeView, tips: seq<ChainTip>, tip: ChainTip, before: set<BlockHash>, after: set<BlockHash>,
                      headers: seq<HeaderInfo>, branch: seq<HeaderInfo>, first: nat)
    requires view.ConsistentTips(tips + [tip]) && before <= after
    requires view.ConsistentTips(tips) && NonactiveFetched(view, tips, before, headers, first)
    requires TipCovered(tip, after + HashesOf(branch), first)
    requires Supported(HashesOf(branch), after + ActiveHashesAbove(view, -1, first) + HashesOf(branch), first)
    ensures NonactiveFetched(view, tips + [tip], after, headers + branch, first)
  {
    var active := ActiveHashesAbove(view, -1, first);
    HashesOfConcat(headers, branch);
    SupportedMonotone(HashesOf(headers), before + active + HashesOf(headers), HashesOf(branch),
                      after + active + HashesOf(branch), first);
    assert (before + active + HashesOf(headers)) + (after + active + HashesOf(branch))
        == after + active + HashesOf(headers + branch);
  }

  lemma ConsistentTipAt(view: NodeView, tips: seq<ChainTip>, j: nat)
    requires view.ConsistentTips(tips) && j < |tips|
    ensures tips[..j + 1] == tips[..j] + [tips[j]]
    ensures view.Consistent() && view.ConsistentTip(tips[j]) && view.ConsistentTips(tips[..j])
    ensures view.ConsistentTips(tips[..j + 1])
  {}

  /** Only headers that were not in the tree, and none without hash lookup or if every eligible tip was known. */
  ghost predicate OnlyNew(view: NodeView, tips: seq<ChainTip>, before: set<BlockHash>, headers: seq<HeaderInfo>,
                          first: nat) {
    && HashesOf(headers) !! before && (!view.hashLookup ==> headers == [])
    && (AllKnown(tips, before, first) ==> headers == [])
    && FromBranches(tips, before, HashesOf(headers), first)
  }

  /** Each header is from the branch of some eligible tip, above everything the tree held of that branch. */
  ghost predicate FromBranches(tips: seq<ChainTip>, before: set<BlockHash>, added: set<BlockHash>, first: nat) {
    forall x :: x in added ==> x.Digest? && exists tip :: tip in tips && FromBranch(tip, before, x.header, first)
  }

  /** The branches of the first `j` tips have been fetched. */
  ghost predicate NonactiveWalk(view: NodeView, tips: seq<ChainTip>, j: nat, before: set<BlockHash>, t: TreeInfo,
                                earlier: seq<HeaderInfo>, headers: seq<HeaderInfo>, first: nat, solo: bool)
  {
    && j <= |tips| && view.ConsistentTips(tips) && view.ConsistentTips(tips[..j])
    && AllFetched(headers, first) && AllFetched(earlier + headers, first)
    && t.AllTracked(first) && Grown(before, t, earlier + headers, first, solo)
    && NonactiveFetched(view, tips[..j], t.Hashes(), headers, first)
    && OnlyNew(view, tips, before, headers, first)
  }

  lemma NonactiveWalkFacts(view: NodeView, tips: seq<ChainTip>, j: nat, before: set<BlockHash>, t: TreeInfo,
                           earlier: seq<HeaderInfo>, headers: seq<HeaderInfo>, first: nat, solo: bool)
    requires NonactiveWalk(view, tips, j, before, t, earlier, headers, first, solo) && j < |tips|
    ensures view.Consistent() && view.ConsistentTip(tips[j]) && t.AllTracked(first) && AllFetched([], first)
    ensures AllFetched(headers, first) && AllFetched(earlier + headers, first)
    ensures Grown(before, t, earlier + headers, first, solo)
    ensures FromBranches(tips, before, HashesOf(headers), first)
  {
    ConsistentTipAt(view, tips, j);
    hide NonactiveFetched, OnlyNew, NodeView.ConsistentTips, TreeInfo.AllTracked, Grown;
  }

  lemma NonactiveWalkStep(view: NodeView, tips: seq<ChainTip>, j: nat, before: set<BlockHash>, t: TreeInfo,
                          t': TreeInfo, earlier: seq<HeaderInfo>, headers: seq<HeaderInfo>, branch: seq<HeaderInfo>,
                          first: nat, solo: bool)
    requires NonactiveWalk(view, tips, j, before, t, earlier, headers, first, solo) && j < |tips|
    requires Grown(t.Hashes(), t', earlier + headers, first, solo) && AllFetched(branch, first)
    requires TipCovered(tips[j], t'.Hashes() + HashesOf(branch), first)
    requires Supported(HashesOf(branch), t'.Hashes() + ActiveHashesAbove(view, -1, first) + HashesOf(branch), first)
    requires HashesOf(branch) !! t.Hashes() && (!view.hashLookup ==> branch == [])
    requires AllFromBranch(tips[j], t.Hashes(), HashesOf(branch), first)
    requires AllKnown(tips, before, first) ==> branch == []
    ensures NonactiveWalk(view, tips, j + 1, before, t', earlier, headers + branch, first, solo)
  {
    hide *;
    NonactiveWalkIs(view, tips, j, before, t, earlier, headers, first, solo);
    ConsistentTipAt(view, tips, j);
    assert earlier + (headers + branch) == (earlier + headers) + branch;
    GrownSteps(before, t, t', earlier + headers, branch, first, solo);
    TreeGrows(before, t, t', earlier + headers, first, solo);
    MoreFetched(headers, branch, first);
    NonactiveStep(view, tips[..j], tips[j], t.Hashes(), t'.Hashes(), headers, branch, first);
    Disjoint(branch, before, t.Hashes());
    NewInBranch(tips[j], before, t.Hashes(), HashesOf(branch), first);
    OnlyNewStep(view, tips, j, before, headers, branch, first);
    NonactiveWalkIs(view, tips, j + 1, before, t', earlier, headers + branch, first, solo);
  }

  lemma Disjoint(branch: seq<HeaderInfo>, before: set<BlockHash>, known: set<BlockHash>)
    requires HashesOf(branch) !! known && before <= known
    ensures HashesOf(branch) !! before
  {
    hide HashesOf;
  }

  lemma NewInBranch(tip: ChainTip, before: set<BlockHash>, known: set<BlockHash>, added: set<BlockHash>, first: nat)
    requires AllFromBranch(tip, known, added, first) && before <= known
    ensures AllFromBranch(tip, before, added, first)
  {
    forall x | x in added
      ensures x.Digest? && FromBranch(tip, before, x.header, first)
    {
      assert FromBranch(tip, known, x.header, first);
    }
  }

  lemma NonactiveWalkIs(view: NodeView, tips: seq<ChainTip>, j: nat, before: set<BlockHash>, t: TreeInfo,
                        earlier: seq<HeaderInfo>, headers: seq<HeaderInfo>, first: nat, solo: bool)
    ensures NonactiveWalk(view, tips, j, before, t, earlier, headers, first, solo) <==>
            && j <= |tips| && view.ConsistentTips(tips) && view.ConsistentTips(tips[..j])
            && AllFetched(headers, first) && AllFetched(earlier + headers, first)
            && t.AllTracked(first) && Grown(before, t, earlier + headers, first, solo)
            && NonactiveFetched(view, tips[..j], t.Hashes(), headers, first)
            && OnlyNew(view, tips, before, headers, first)
  {
    hide NodeView.ConsistentTips, AllFetched, TreeInfo.AllTracked, Grown, NonactiveFetched, OnlyNew;
  }

  lemma MoreFetched(a: seq<HeaderInfo>, b: seq<HeaderInfo>, first: nat)
    requires AllFetched(a, first) && AllFetched(b, first)
    ensures AllFetched(a + b, first)
  {}

  lemma TreeGrows(before: set<BlockHash>, t: TreeInfo, t': TreeInfo, sent: seq<HeaderInfo>, first: nat, solo: bool)
    requires Grown(before, t, sent, first, solo) && Grown(t.Hashes(), t', sent, first, solo)
    ensures before <= t.Hashes() <= t'.Hashes() && t'.AllTracked(first)
  {
    hide TreeInfo.AllTracked;
  }

  lemma NonactiveWalkDone(view: NodeView, tips: seq<ChainTip>, before: set<BlockHash>, t: TreeInfo,
                          earlier: seq<HeaderInfo>, headers: seq<HeaderInfo>, first: nat, solo: bool)
    requires NonactiveWalk(view, tips, |tips|, before, t, earlier, headers, first, solo)
    ensures AllFetched(headers, first) && Grown(before, t, earlier + headers, first, solo)
    ensures FromBranches(tips, before, HashesOf(headers), first)
    ensures view.ConsistentTips(tips) && NonactiveFetched(view, tips, t.Hashes(), headers, first)
    ensures HashesOf(headers) !! before && (!view.hashLookup ==> headers == [])
    ensures AllKnown(tips, before, first) ==> headers == []
  {
    assert tips[..|tips|] == tips;
    hide NonactiveFetched, NodeView.ConsistentTips, Grown, AllKnown;
  }

  lemma NonactiveStart(view: NodeView, tips: seq<ChainTip>, t: TreeInfo, earlier: seq<HeaderInfo>, first: nat,
                       solo: bool)
    requires view.ConsistentTips(tips) && t.AllTracked(first) && AllFetched(earlier, first)
    ensures Flatten([]) == [] && NonactiveWalk(view, tips, 0, t.Hashes(), t, earlier, [], first, solo)
  {
    assert earlier + [] == earlier;
  }

  lemma OnlyNewStep(view: NodeView, tips: seq<ChainTip>, j: nat, before: set<BlockHash>, headers: seq<HeaderInfo>,
                    branch: seq<HeaderInfo>, first: nat)
    requires OnlyNew(view, tips, before, headers, first) && HashesOf(branch) !! before && j < |tips|
    requires !view.hashLookup ==> branch == []
    requires AllKnown(tips, before, first) ==> branch == []
    requires AllFromBranch(tips[j], before, HashesOf(branch), first)
    ensures OnlyNew(view, tips, before, headers + branch, first)
  {
    hide AllKnown, FromBranch;
    HashesOfConcat(headers, branch);
    assert tips[j] in tips;
  }

  /** What is known or loadable before is so later. */
  lemma TipOf(view: NodeView, tips: seq<ChainTip>, j: nat, before: set<BlockHash>, t: TreeInfo, sent: seq<HeaderInfo>,
              first: nat, solo: bool)
    requires j < |tips| && Grown(before, t, sent, first, solo)
    ensures before <= t.Hashes()
    ensures AllKnown(tips, before, first) ==>
            !Eligible(tips[j], first) || (tips[j].hash.Some? && tips[j].hash.value in t.Hashes())
    ensures AllLoadable(view, tips, before, first) ==> TipLoadable(view, tips[j], t.Hashes(), first)
  {
    hide TreeInfo.AllTracked;
    assert tips[j] in tips;
  }

  /** The branches of all eligible non-active tips. `earlier` is what this poll iteration has already sent. */
  method GetNewNonactiveHeadersByHash(view: NodeView, tips: seq<ChainTip>, tree: SharedTree, earlier: seq<HeaderInfo>,
                                      first: nat, solo: bool)
    returns (r: Result<seq<HeaderInfo>, FetchError>, progress: seq<seq<HeaderInfo>>)
    requires view.ConsistentTips(tips) && tree.info.AllTracked(first) && AllFetched(earlier, first)
    modifies tree
    ensures AllFetched(Flatten(progress), first)
    ensures Grown(old(tree.info.Hashes()), tree.info, earlier + Flatten(progress), first, solo)
    ensures r.Success? ==>
            r.value == Flatten(progress) && NonactiveFetched(view, tips, tree.info.Hashes(), r.value, first)
    ensures r.Success? ==> HashesOf(r.value) !! old(tree.info.Hashes()) && (!view.hashLookup ==> r.value == [])
    ensures FromBranches(tips, old(tree.info.Hashes()), HashesOf(Flatten(progress)), first)
    ensures AllKnown(tips, old(tree.info.Hashes()), first) ==> r == Success([])
    ensures view.reliable && AllLoadable(view, tips, old(tree.info.Hashes()), first) ==> r.Success?
  {
    progress := [];
    var newHeaders: seq<HeaderInfo> := [];
    ghost var before := tree.info.Hashes();
    hide *;
    NonactiveStart(view, tips, tree.info, earlier, first, solo);
    for j := 0 to |tips|
      invariant newHeaders == Flatten(progress)
      invariant NonactiveWalk(view, tips, j, before, tree.info, earlier, newHeaders, first, solo)
    {
      ghost var t := tree.info;
      NonactiveWalkFacts(view, tips, j, before, t, earlier, newHeaders, first, solo);
      TipOf(view, tips, j, before, t, earlier + newHeaders, first, solo);
      var branch := FetchTip(view, tips[j], tree, earlier + newHeaders, first, solo);
      if branch.Failure? {
        GrownSteps(before, t, tree.info, earlier + newHeaders, [], first, solo);
        return Failure(branch.error), progress;
      }
      NonactiveWalkStep(view, tips, j, before, t, tree.info, earlier, newHeaders, branch.value, first, solo);
      newHeaders := newHeaders + branch.value;
      progress := SendProgressBatch(progress, branch.value);
    }
    NonactiveWalkDone(view, tips, before, tree.info, earlier, newHeaders, first, solo);
    r := Success(newHeaders);
  }

  // ----- Repairing disconnected subtrees

  /** `headers` are the ancestors of `root` from its parent downwards. */
  ghost predicate RootWalk(root: Header, headers: seq<HeaderInfo>, first: nat) {
    && |headers| + first <= Height(root)
    && forall k :: 0 <= k < |headers| ==>
         headers[k] == MakeHeaderInfo(Height(root) - 1 - k, AncestorAt(root, Height(root) - 1 - k))
  }

  /** What was loaded below one root when the walk has reached the bound or a header of `known`. */
  ghost predicate RootFetched(root: Header, headers: seq<HeaderInfo>, known: set<BlockHash>, first: nat) {
    && RootWalk(root, headers, first)
    && root.prev in known + HashesOf(headers)
    && Supported(HashesOf(headers), known + HashesOf(headers), first)
  }

  lemma RootWalkDone(root: Header, headers: seq<HeaderInfo>, known: set<BlockHash>, first: nat)
    requires first < Height(root) && RootWalk(root, headers, first)
    requires |headers| == Height(root) - first || Digest(AncestorAt(root, Height(root) - 1 - |headers|)) in known
    ensures RootFetched(root, headers, known, first)
  {
    AncestorPrev(root, Height(root));
    hide AncestorAt;
    if headers != [] {
      assert headers[0].Hash() == root.prev;
    }
    forall h | h in HashesOf(headers)
      ensures !Unexpected(h, known + HashesOf(headers), first)
    {
      var k :| 0 <= k < |headers| && headers[k].Hash() == h;
      var n := Height(root) - 1 - k;
      assert h.header == AncestorAt(root, n);
      if first < n {
        AncestorPrev(root, n);
        if k + 1 < |headers| {
          assert headers[k + 1].Hash() == h.header.prev;
        }
      }
    }
  }

  ghost predicate AllActive(view: NodeView, headers: seq<HeaderInfo>) {
    forall k :: 0 <= k < |headers| ==> view.OnActiveChain(headers[k].header)
  }

  ghost predicate AllServed(view: NodeView, headers: seq<HeaderInfo>) {
    forall k :: 0 <= k < |headers| ==> headers[k].header in view.known
  }

  /** The ancestors of a root on the active chain, by height. */
  method FetchMissingActiveAncestors(view: NodeView, tree: SharedTree, first: nat, root: HeaderInfo,
                                     loaded: set<BlockHash>, solo: bool)
    returns (r: Result<seq<HeaderInfo>, FetchError>, loaded': set<BlockHash>)
    requires view.Consistent() && Tracked(root, first) && first < root.height && view.OnActiveChain(root.header)
    requires tree.info.AllTracked(first)
    modifies tree
    ensures Grown(old(tree.info.Hashes()), tree.info, [], first, solo)
    ensures r.Success? ==>
            loaded' == loaded + HashesOf(r.value) && HashesOf(r.value) !! loaded + old(tree.info.Hashes())
    ensures r.Success? ==> RootFetched(root.header, r.value, tree.info.Hashes() + loaded, first)
    ensures r.Success? ==> AllActive(view, r.value)
    ensures view.reliable ==> r.Success?
  {
    hide TreeInfo.AllTracked;
    var headers: seq<HeaderInfo> := [];
    loaded' := loaded;
    var height: int := root.height - 1;
    while first <= height
      invariant AllActive(view, headers)
      invariant height == root.height - 1 - |headers| && RootWalk(root.header, headers, first)
      invariant loaded' == loaded + HashesOf(headers) && HashesOf(headers) !! loaded + old(tree.info.Hashes())
      invariant Grown(old(tree.info.Hashes()), tree.info, [], first, solo)
    {
      var header := BlockHeader(view, ByHeight(height));
      if header.Failure? {
        return Failure(header.error), loaded';
      }
      ActiveAncestor(view, root.height, height);
      OtherTasks(tree, [], first, solo);
      var known := TreeContains(tree, Digest(header.value));
      if known || Digest(header.value) in loaded' {
        break;
      }
      loaded' := loaded' + {Digest(header.value)};
      AppendHash(headers, MakeHeaderInfo(height, header.value));
      headers := headers + [MakeHeaderInfo(height, header.value)];
      height := height - 1;
    }
    if first <= height {
      NotAmongLower(root.header, headers, first);
    }
    RootWalkDone(root.header, headers, tree.info.Hashes() + loaded, first);
    r := Success(headers);
  }

  /** The ancestors of any other root, by hash. */
  method FetchMissingBranchAncestorsByHash(view: NodeView, tree: SharedTree, first: nat, root: HeaderInfo,
                                           loaded: set<BlockHash>, solo: bool)
    returns (r: Result<seq<HeaderInfo>, FetchError>, loaded': set<BlockHash>)
    requires view.Consistent() && Tracked(root, first) && first < root.height
    requires tree.info.AllTracked(first)
    modifies tree
    ensures Grown(old(tree.info.Hashes()), tree.info, [], first, solo)
    ensures r.Success? ==>
            loaded' == loaded + HashesOf(r.value) && HashesOf(r.value) !! loaded + old(tree.info.Hashes())
    ensures r.Success? ==> RootFetched(root.header, r.value, tree.info.Hashes() + loaded, first)
    ensures r.Success? && !view.hashLookup ==> r.value == []
    ensures r == Failure(NotSupported) ==> !view.hashLookup && loaded' == loaded
    ensures r.Success? ==> AllServed(view, r.value)
    ensures r.Success? && view.hashLookup ==>
            root.header.prev in tree.info.Hashes() + loaded || root.header.prev.header in view.known
    ensures view.reliable && view.hashLookup && root.header.prev.header in view.known ==> r.Success?
    ensures view.reliable && !view.hashLookup ==> r.Success? || r == Failure(NotSupported)
  {
    hide TreeInfo.AllTracked;
    var headers: seq<HeaderInfo> := [];
    loaded' := loaded;
    var nextHash := root.header.prev;
    var height: int := root.height - 1;
    AncestorPrev(root.header, root.height);
    while first <= height
      invariant height == root.height - 1 - |headers| && RootWalk(root.header, headers, first)
      invariant 0 <= height ==> nextHash == Digest(AncestorAt(root.header, height))
      invariant loaded' == loaded + HashesOf(headers) && HashesOf(headers) !! loaded + old(tree.info.Hashes())
      invariant headers != [] ==> view.hashLookup
      invariant AllServed(view, headers) && (headers != [] ==> root.header.prev.header in view.known)
      invariant first <= height && (headers != [] || root.header.prev.header in view.known) ==>
                  nextHash.Digest? && nextHash.header in view.known
      invariant headers == [] ==> nextHash == root.header.prev && loaded' == loaded
      invariant Grown(old(tree.info.Hashes()), tree.info, [], first, solo)
    {
      OtherTasks(tree, [], first, solo);
      var known := TreeContains(tree, nextHash);
      if known || nextHash in loaded' {
        break;
      }
      var header := BlockHeader(view, ByHash(nextHash));
      if header.Failure? {
        return Failure(header.error), loaded';
      }
      var headerHash := Digest(header.value);
      nextHash := header.value.prev;
      if headerHash in loaded' {
        break;
      }
      loaded' := loaded' + {headerHash};
      AppendHash(headers, MakeHeaderInfo(height, header.value));
      headers := headers + [MakeHeaderInfo(height, header.value)];
      if 0 < height {
        AncestorPrev(root.header, height);
      }
      height := height - 1;
    }
    if first <= height {
      NotAmongLower(root.header, headers, first);
    }
    RootWalkDone(root.header, headers, tree.info.Hashes() + loaded, first);
    r := Success(headers);
  }

  lemma AppendHash(headers: seq<HeaderInfo>, info: HeaderInfo)
    ensures HashesOf(headers + [info]) == HashesOf(headers) + {info.Hash()}
  {
    HashesOfConcat(headers, [info]);
    assert HashesOf([info]) == {[info][0].Hash()};
  }

  /** The walk never meets a header it has itself loaded. */
  lemma NotAmongLower(root: Header, headers: seq<HeaderInfo>, first: nat)
    requires RootWalk(root, headers, first) && first + |headers| < Height(root)
    ensures Digest(AncestorAt(root, Height(root) - 1 - |headers|)) !in HashesOf(headers)
  {}

  /** A root that the pass could not connect: the node does not serve headers by hash, and the root is
      not on its active chain. */
  ghost predicate Unreachable(view: NodeView, h: Header) {
    !view.hashLookup && !view.OnActiveChain(h)
  }

  /** The node has an answer to whatever the pass asks for below this root: the root is not above its active tip,
      and if it serves headers by hash, it knows the one before the root. */
  ghost predicate Repairable(view: NodeView, h: Header) {
    Height(h) < |view.active| && (view.hashLookup ==> h.prev.Digest? && h.prev.header in view.known)
  }

  /** The node can answer for every unexpected root. */
  ghost predicate Answerable(view: NodeView, known: set<BlockHash>, first: nat) {
    forall h :: h in known && Unexpected(h, known, first) ==> Repairable(view, h.header)
  }

  /** No unexpected root is above the active tip of the node. */
  ghost predicate RootsBelowTip(view: NodeView, known: set<BlockHash>, first: nat) {
    forall h :: h in known && Unexpected(h, known, first) ==> Height(h.header) < |view.active|
  }

  /** What the answers to the first `n` roots tell about the node. */
  ghost predicate Answered(view: NodeView, roots: seq<HeaderInfo>, n: nat, known: set<BlockHash>,
                           loaded: set<BlockHash>) {
    && n <= |roots|
    && (forall x :: x in loaded ==> x.Digest? && x.header in view.known)
    && forall i :: 0 <= i < n ==>
         var h := roots[i].header;
         Height(h) < |view.active| && (view.hashLookup ==> h.prev in known || Repairable(view, h))
  }

  lemma AnsweredStep(view: NodeView, roots: seq<HeaderInfo>, n: nat, known: set<BlockHash>, known': set<BlockHash>,
                     loaded: set<BlockHash>, more: seq<HeaderInfo>)
    requires Answered(view, roots, n, known, loaded) && n < |roots| && known <= known' && AllServed(view, more)
    requires Height(roots[n].header) < |view.active|
    requires view.hashLookup ==> roots[n].header.prev in known' + loaded || Repairable(view, roots[n].header)
    ensures Answered(view, roots, n + 1, known', loaded + HashesOf(more))
  {
    hide Height;
  }

  lemma RootIsUnexpected(t: TreeInfo, roots: seq<HeaderInfo>, first: nat, i: nat)
    requires t.AllTracked(first) && roots == UnexpectedRoots(t, first) && i < |roots|
    ensures roots[i].Hash() in t.Hashes() && Unexpected(roots[i].Hash(), t.Hashes(), first)
  {
    UnexpectedRootsMeaning(t, first);
    assert roots[i] in roots;
  }

  /** What an Ok pass has shown about the node. */
  lemma AnsweredAll(view: NodeView, t: TreeInfo, roots: seq<HeaderInfo>, known: set<BlockHash>, loaded: set<BlockHash>,
                    first: nat)
    requires t.AllTracked(first) && roots == UnexpectedRoots(t, first)
    requires Answered(view, roots, |roots|, known, loaded)
    ensures RootsBelowTip(view, t.Hashes(), first)
    ensures known == t.Hashes() ==> Answerable(view, t.Hashes(), first)
  {
    UnexpectedRootsMeaning(t, first);
    hide UnexpectedRoots, Height;
    forall h | h in t.Hashes() && Unexpected(h, t.Hashes(), first)
      ensures Height(h.header) < |view.active|
      ensures known == t.Hashes() ==> Repairable(view, h.header)
    {
      var info := t.nodes[t.index[h]];
      assert info in t.nodes && info in roots;
    }
  }

  ghost predicate DistinctHashes(headers: seq<HeaderInfo>) {
    forall i, j :: 0 <= i < j < |headers| ==> headers[i].Hash() != headers[j].Hash()
  }

  /** `known` holds a header of the active chain above height `n`. */
  ghost predicate ActiveAbove(view: NodeView, known: set<BlockHash>, n: nat) {
    exists i :: n < i < |view.active| && Digest(view.active[i]) in known
  }

  /** Without hash lookup only the active chain is loaded, and only below an active header of the tree. */
  ghost predicate ActiveLoads(view: NodeView, before: set<BlockHash>, loaded: set<BlockHash>) {
    forall x :: x in loaded ==> x.Digest? && view.OnActiveChain(x.header) && ActiveAbove(view, before, Height(x.header))
  }

  lemma MoreActiveLoads(view: NodeView, root: Header, before: set<BlockHash>, loaded: set<BlockHash>,
                        more: seq<HeaderInfo>, first: nat)
    requires ActiveLoads(view, before, loaded) && AllActive(view, more)
    requires more == [] || (view.OnActiveChain(root) && Digest(root) in before && RootWalk(root, more, first))
    ensures ActiveLoads(view, before, loaded + HashesOf(more))
  {
    forall x | x in HashesOf(more)
      ensures x.Digest? && view.OnActiveChain(x.header) && ActiveAbove(view, before, Height(x.header))
    {
      var k :| 0 <= k < |more| && more[k].Hash() == x;
      assert Height(x.header) < Height(root) && view.active[Height(root)] == root;
    }
  }

  /** After `n` of the roots: what was loaded is new, free of duplicates and supported, and each of these
      roots has its predecessor. */
  ghost predicate RepairState(view: NodeView, roots: seq<HeaderInfo>, n: nat, before: set<BlockHash>,
                              known: set<BlockHash>, headers: seq<HeaderInfo>, loaded: set<BlockHash>, first: nat)
  {
    && n <= |roots| && view.Consistent() && AllFetched(headers, first)
    && loaded == HashesOf(headers) && loaded !! before && before <= known
    && DistinctHashes(headers)
    && Supported(loaded, known + loaded, first)
    && (forall i :: 0 <= i < |roots| ==> roots[i].Hash() in before)
    && (!view.hashLookup ==> ActiveLoads(view, before, loaded))
    && (forall i :: 0 <= i < n ==> roots[i].header.prev in known + loaded || Unreachable(view, roots[i].header))
  }

  lemma RepairStep(view: NodeView, roots: seq<HeaderInfo>, n: nat, before: set<BlockHash>, known: set<BlockHash>,
                   known': set<BlockHash>, headers: seq<HeaderInfo>, loaded: set<BlockHash>, more: seq<HeaderInfo>,
                   first: nat)
    requires RepairState(view, roots, n, before, known, headers, loaded, first) && n < |roots| && known <= known'
    requires HashesOf(more) !! loaded + known
    requires RootFetched(roots[n].header, more, known' + loaded, first)
             || (more == [] && Unreachable(view, roots[n].header))
    requires !view.hashLookup ==> AllActive(view, more) && (more == [] || view.OnActiveChain(roots[n].header))
    ensures RepairState(view, roots, n + 1, before, known', headers + more, loaded + HashesOf(more), first)
  {
    hide ActiveLoads, AllActive, ActiveAbove, Unexpected;
    if !view.hashLookup {
      MoreActiveLoads(view, roots[n].header, before, loaded, more, first);
    }
    HashesOfConcat(headers, more);
    SupportedMonotone(loaded, known + loaded, HashesOf(more), known' + loaded + HashesOf(more), first);
    assert (known + loaded) + (known' + loaded + HashesOf(more)) == known' + (loaded + HashesOf(more));
    forall i, j | 0 <= i < j < |headers + more|
      ensures (headers + more)[i].Hash() != (headers + more)[j].Hash()
    {
      if i < |headers| <= j {
        assert (headers + more)[i].Hash() in loaded && (headers + more)[j].Hash() in HashesOf(more);
      }
    }
  }

  /** What an Ok repair pass has achieved: it returns new headers, each once, at its true height and lowest first, and
      once they are inserted every header that was in the tree when the pass began, and every one it
      returns, has its predecessor, but for the roots that were out of its reach. */
  ghost predicate Repaired(view: NodeView, before: set<BlockHash>, after: set<BlockHash>, headers: seq<HeaderInfo>,
                           first: nat) {
    && AllFetched(headers, first) && DistinctHashes(headers) && HashesOf(headers) !! before
    && Sorted(headers, HeightKey)
    && (forall h :: h in before + HashesOf(headers) && Unexpected(h, after + HashesOf(headers), first)
          ==> h in before && Unreachable(view, h.header))
  }

  lemma RepairDone(view: NodeView, t: TreeInfo, roots: seq<HeaderInfo>, after: set<BlockHash>, headers: seq<HeaderInfo>,
                   sorted: seq<HeaderInfo>, loaded: set<BlockHash>, first: nat)
    requires t.AllTracked(first) && roots == UnexpectedRoots(t, first)
    requires RepairState(view, roots, |roots|, t.Hashes(), after, headers, loaded, first)
    requires sorted == SortBy(headers, HeightKey)
    ensures Repaired(view, t.Hashes(), after, sorted, first)
  {
    SameElementsSameHashes(headers, sorted);
    SortedDistinctHashes(headers);
    UnexpectedRootsMeaning(t, first);
    forall i | 0 <= i < |sorted|
      ensures Fetched(sorted[i], first)
    {
      assert sorted[i] in headers;
    }
    forall h | h in t.Hashes() && Unexpected(h, after + loaded, first)
      ensures Unreachable(view, h.header)
    {
      assert Unexpected(h, t.Hashes(), first);
      var info := t.nodes[t.index[h]];
      assert info in t.nodes && info in roots;
    }
  }

  /** What stays disconnected without hash lookup: a root off the active chain whose predecessor is off it too, or
      is on it but above every active header of the tree. */
  ghost predicate StaysDisconnected(view: NodeView, known: set<BlockHash>, h: Header) {
    && !view.OnActiveChain(h)
    && !(h.prev.Digest? && view.OnActiveChain(h.prev.header) && ActiveAbove(view, known, Height(h.prev.header)))
  }

  /** Exactly those of the unexpected roots are left when `added` is inserted. */
  ghost predicate LeavesExactly(view: NodeView, before: set<BlockHash>, added: set<BlockHash>, first: nat) {
    forall h :: h in before && Unexpected(h, before, first)
      ==> (Unexpected(h, before + added, first) <==> StaysDisconnected(view, before, h.header))
  }

  /** After all roots the active chain is there below every active header that is. */
  lemma {:induction false} ActiveFilled(view: NodeView, t: TreeInfo, roots: seq<HeaderInfo>, headers: seq<HeaderInfo>,
                                        loaded: set<BlockHash>, first: nat, n: nat, i: nat)
    requires t.AllTracked(first) && roots == UnexpectedRoots(t, first)
    requires RepairState(view, roots, |roots|, t.Hashes(), t.Hashes(), headers, loaded, first)
    requires first <= n <= i < |view.active| && Digest(view.active[i]) in t.Hashes() + loaded
    ensures Digest(view.active[n]) in t.Hashes() + loaded
    decreases i
  {
    if n < i {
      RootOrSupported(view, t, roots, headers, loaded, first, Digest(view.active[i]));
      ActiveFilled(view, t, roots, headers, loaded, first, n, i - 1);
    }
  }

  /** Everything on the active chain has its predecessor. */
  lemma RootOrSupported(view: NodeView, t: TreeInfo, roots: seq<HeaderInfo>, headers: seq<HeaderInfo>,
                        loaded: set<BlockHash>, first: nat, h: BlockHash)
    requires t.AllTracked(first) && roots == UnexpectedRoots(t, first)
    requires RepairState(view, roots, |roots|, t.Hashes(), t.Hashes(), headers, loaded, first)
    requires h in t.Hashes() + loaded && h.Digest? && first < Height(h.header) && view.OnActiveChain(h.header)
    ensures h.header.prev in t.Hashes() + loaded
  {
    UnexpectedRootsMeaning(t, first);
    hide UnexpectedRoots, ActiveLoads;
    if h in loaded {
      assert !Unexpected(h, t.Hashes() + loaded, first);
    } else if Unexpected(h, t.Hashes(), first) {
      var info := t.nodes[t.index[h]];
      assert info in t.nodes && info in roots;
    }
  }

  lemma RepairIsExact(view: NodeView, t: TreeInfo, roots: seq<HeaderInfo>, headers: seq<HeaderInfo>,
                      loaded: set<BlockHash>, first: nat)
    requires !view.hashLookup && t.AllTracked(first) && roots == UnexpectedRoots(t, first)
    requires RepairState(view, roots, |roots|, t.Hashes(), t.Hashes(), headers, loaded, first)
    ensures LeavesExactly(view, t.Hashes(), loaded, first)
  {
    hide UnexpectedRoots, TreeInfo.AllTracked;
    forall h | h in t.Hashes() && Unexpected(h, t.Hashes(), first)
      ensures Unexpected(h, t.Hashes() + loaded, first) <==> StaysDisconnected(view, t.Hashes(), h.header)
    {
      var p := h.header.prev;
      if view.OnActiveChain(h.header) {
        RootOrSupported(view, t, roots, headers, loaded, first, h);
      } else if view.OnActiveChain(p.header) && ActiveAbove(view, t.Hashes(), Height(p.header)) {
        var i :| Height(p.header) < i < |view.active| && Digest(view.active[i]) in t.Hashes();
        ActiveFilled(view, t, roots, headers, loaded, first, Height(p.header), i);
      }
    }
  }

  /** Every header of the tree is within the active chain of a node that answers every call a pass makes. */
  ghost predicate PassIsOk(view: NodeView, t: TreeInfo) {
    && view.Consistent() && view.reliable && t.AllTracked(0) && Answerable(view, t.Hashes(), 0)
    && forall x :: x in t.nodes ==> x.height < |view.active|
  }

  /** A node without hash lookup and a tree at which every pass without other pollers is Ok and leaves a root
      disconnected: a stale branch of two headers of which the tree holds the upper one. */
  lemma GapCanStay() returns (view: NodeView, t: TreeInfo, h: BlockHash)
    ensures PassIsOk(view, t) && !view.hashLookup
    ensures h in t.Hashes() && Unexpected(h, t.Hashes(), 0) && StaysDisconnected(view, t.Hashes(), h.header)
  {
    var genesis := Header(NoPreimage(0), 0);
    var active, stale := Header(Digest(genesis), 0), Header(Digest(genesis), 1);
    var next, tip := Header(Digest(active), 0), Header(Digest(stale), 1);
    hide Height, NodeView.Consistent, NodeView.OnActiveChain;
    view := StaleView(genesis, active, next, stale, tip);
    h := Digest(tip);
    t := ThreeNodes(MakeHeaderInfo(0, genesis), MakeHeaderInfo(1, active), MakeHeaderInfo(2, tip));
    AnswersBelowTip(view, t);
  }

  lemma StaleView(genesis: Header, active: Header, next: Header, stale: Header, tip: Header) returns (view: NodeView)
    requires genesis.prev.NoPreimage? && active.prev == stale.prev == Digest(genesis) && active != stale
    requires next.prev == Digest(active) && tip.prev == Digest(stale)
    ensures Height(genesis) == 0 && Height(active) == 1 && Height(tip) == 2
    ensures view.Consistent() && !view.hashLookup && view.reliable && |view.active| == 3
    ensures !view.OnActiveChain(tip) && !view.OnActiveChain(stale)
  {
    view := NodeView([genesis, active, next], {genesis, active, next, stale, tip}, false, true);
  }

  lemma AnswersBelowTip(view: NodeView, t: TreeInfo)
    requires view.Consistent() && !view.hashLookup && view.reliable && t.AllTracked(0)
    requires forall x :: x in t.nodes ==> x.height < |view.active|
    ensures PassIsOk(view, t)
  {
    hide Height;
    forall h | h in t.Hashes() && Unexpected(h, t.Hashes(), 0)
      ensures Repairable(view, h.header)
    {
      assert t.nodes[t.index[h]] in t.nodes;
    }
  }

  /** Being off the active chain is not enough: here a root off the chain is connected by every such pass, because
      the active header beside it is. */
  lemma GapCanClose() returns (view: NodeView, t: TreeInfo, h: BlockHash)
    ensures PassIsOk(view, t) && !view.hashLookup
    ensures h in t.Hashes() && Unexpected(h, t.Hashes(), 0) && !view.OnActiveChain(h.header)
    ensures !StaysDisconnected(view, t.Hashes(), h.header)
  {
    var genesis := Header(NoPreimage(0), 0);
    var missing := Header(Digest(genesis), 0);
    var active, stale := Header(Digest(missing), 0), Header(Digest(missing), 1);
    view := NodeView([genesis, missing, active], {genesis, missing, active, stale}, false, true);
    h := Digest(stale);
    assert view.active[2] == active && Height(missing) == 1;
    t := ThreeNodes(MakeHeaderInfo(0, genesis), MakeHeaderInfo(2, active), MakeHeaderInfo(2, stale));
    AnswersBelowTip(view, t);
  }

  /** The valid tree of three headers, of which only the second can have its predecessor among them. */
  lemma ThreeNodes(a: HeaderInfo, b: HeaderInfo, c: HeaderInfo) returns (t: TreeInfo)
    requires Tracked(a, 0) && Tracked(b, 0) && Tracked(c, 0) && a != b && b != c && a != c
    requires a.miner == b.miner == c.miner == ""
    ensures t.AllTracked(0) && t.Hashes() == {a.Hash(), b.Hash(), c.Hash()} && t.nodes == [a, b, c]
  {
    var nodes := [a, b, c];
    t := TreeInfo(nodes, set i, j | 0 <= i < 3 && 0 <= j < 3 && nodes[j].header.prev == nodes[i].Hash() :: (i, j),
                  map[a.Hash() := 0, b.Hash() := 1, c.Hash() := 2]);
  }

  lemma RepairStart(view: NodeView, t: TreeInfo, roots: seq<HeaderInfo>, first: nat, solo: bool)
    requires view.Consistent() && t.AllTracked(first) && roots == UnexpectedRoots(t, first)
    ensures forall i :: 0 <= i < |roots| ==> Tracked(roots[i], first) && first < roots[i].height
    ensures Grown(t.Hashes(), t, [], first, solo) && RepairState(view, roots, 0, t.Hashes(), t.Hashes(), [], {}, first)
    ensures AllFetched([], first) && HashesOf([]) == {}
  {
    UnexpectedRootsMeaning(t, first);
    forall i | 0 <= i < |roots|
      ensures Tracked(roots[i], first) && first < roots[i].height
    {
      assert roots[i] in t.nodes;
    }
  }

  lemma SortedDistinctHashes(headers: seq<HeaderInfo>)
    requires DistinctHashes(headers)
    ensures DistinctHashes(SortBy(headers, HeightKey))
  {
    var sorted := SortBy(headers, HeightKey);
    PermutationDistinct(headers, sorted);
    forall i, j | 0 <= i < j < |sorted|
      ensures sorted[i].Hash() != sorted[j].Hash()
    {
      assert sorted[i] in headers && sorted[j] in headers;
    }
  }

  /** Loads what is missing below one root: by height if it is the active header of its height, otherwise
      by hash, and nothing where the node does not support that. */
  method FetchMissingAncestors(view: NodeView, tree: SharedTree, first: nat, root: HeaderInfo, loaded: set<BlockHash>,
                               solo: bool)
    returns (r: Result<seq<HeaderInfo>, FetchError>, loaded': set<BlockHash>)
    requires view.Consistent() && Tracked(root, first) && first < root.height
    requires tree.info.AllTracked(first)
    modifies tree
    ensures Grown(old(tree.info.Hashes()), tree.info, [], first, solo)
    ensures r.Success? ==>
            loaded' == loaded + HashesOf(r.value) && HashesOf(r.value) !! loaded + old(tree.info.Hashes())
    ensures r.Success? ==> RootFetched(root.header, r.value, tree.info.Hashes() + loaded, first)
                           || (r.value == [] && Unreachable(view, root.header))
    ensures r.Success? && !view.hashLookup ==>
            AllActive(view, r.value) && (r.value == [] || view.OnActiveChain(root.header))
    ensures r.Success? ==> AllServed(view, r.value) && Height(root.header) < |view.active|
    ensures r.Success? && view.hashLookup ==>
            root.header.prev in tree.info.Hashes() + loaded || Repairable(view, root.header)
    ensures view.reliable && Repairable(view, root.header) ==> r.Success?
  {
    var activeHeader := BlockHeader(view, ByHeight(root.height));
    if activeHeader.Failure? {
      return Failure(activeHeader.error), loaded;
    }
    if activeHeader.value == root.header {
      r, loaded' := FetchMissingActiveAncestors(view, tree, first, root, loaded, solo);
    } else {
      r, loaded' := FetchMissingBranchAncestorsByHash(view, tree, first, root, loaded, solo);
      if r == Failure(NotSupported) {
        r := Success([]);
      }
    }
  }

  lemma SoloPass(view: NodeView, t0: TreeInfo, t: TreeInfo, roots: seq<HeaderInfo>, headers: seq<HeaderInfo>,
                 sorted: seq<HeaderInfo>, loaded: set<BlockHash>, first: nat)
    requires t0.AllTracked(first) && roots == UnexpectedRoots(t0, first) && Grown(t0.Hashes(), t, [], first, true)
    requires RepairState(view, roots, |roots|, t0.Hashes(), t.Hashes(), headers, loaded, first)
    requires multiset(sorted) == multiset(headers)
    ensures t.Hashes() == t0.Hashes()
    ensures !view.hashLookup ==> LeavesExactly(view, t0.Hashes(), HashesOf(sorted), first)
  {
    hide TreeInfo.AllTracked, UnexpectedRoots, LeavesExactly;
    assert HashesOf([]) == {};
    SameElementsSameHashes(headers, sorted);
    if !view.hashLookup {
      RepairIsExact(view, t0, roots, headers, loaded, first);
    }
  }

  /** An ancestor of an unexpected root, and nothing from it up to the root was in the tree. */
  ghost predicate BelowRoot(known: set<BlockHash>, h: Header, root: BlockHash, first: nat) {
    && root in known && Unexpected(root, known, first) && root.Digest?
    && first <= Height(h) < Height(root.header) && h == AncestorAt(root.header, Height(h))
    && forall n :: Height(h) <= n < Height(root.header) ==> Digest(AncestorAt(root.header, n)) !in known
  }

  /** Nothing was loaded but what is missing below the unexpected roots. */
  ghost predicate OnlyMissing(known: set<BlockHash>, added: set<BlockHash>, first: nat) {
    forall x :: x in added ==> x.Digest? && exists root :: BelowRoot(known, x.header, root, first)
  }

  lemma OnlyMissingStep(t0: TreeInfo, roots: seq<HeaderInfo>, i: nat, known: set<BlockHash>, headers: seq<HeaderInfo>,
                        more: seq<HeaderInfo>, first: nat)
    requires t0.AllTracked(first) && roots == UnexpectedRoots(t0, first) && i < |roots| && t0.Hashes() <= known
    requires more == [] || RootWalk(roots[i].header, more, first)
    requires OnlyMissing(t0.Hashes(), HashesOf(headers), first) && HashesOf(more) !! known
    ensures OnlyMissing(t0.Hashes(), HashesOf(headers + more), first)
  {
    HashesOfConcat(headers, more);
    RootIsUnexpected(t0, roots, first, i);
    hide UnexpectedRoots, TreeInfo.AllTracked;
    var root := roots[i].Hash();
    forall k | 0 <= k < |more|
      ensures BelowRoot(t0.Hashes(), more[k].header, root, first)
    {
      var h := root.header;
      forall n | Height(h) - 1 - k <= n < Height(h)
        ensures Digest(AncestorAt(h, n)) !in t0.Hashes()
      {
        assert more[Height(h) - 1 - n].Hash() in HashesOf(more);
      }
    }
  }

  lemma NothingMissing(known: set<BlockHash>, first: nat)
    ensures OnlyMissing(known, HashesOf([]), first)
  {}

  lemma GrownKeeps(before: set<BlockHash>, t: TreeInfo, first: nat, solo: bool)
    requires Grown(before, t, [], first, solo)
    ensures before <= t.Hashes()
  {
    hide TreeInfo.AllTracked;
  }

  lemma FetchedIsWalk(root: Header, headers: seq<HeaderInfo>, known: set<BlockHash>, first: nat)
    ensures RootFetched(root, headers, known, first) ==> RootWalk(root, headers, first)
  {}

  lemma NothingAnswered(view: NodeView, roots: seq<HeaderInfo>, known: set<BlockHash>)
    ensures Answered(view, roots, 0, known, {}) && AllServed(view, [])
  {}

  lemma AllServedMore(view: NodeView, a: seq<HeaderInfo>, b: seq<HeaderInfo>)
    requires AllServed(view, a) && AllServed(view, b)
    ensures AllServed(view, a + b)
  {}

  lemma AllServedSorted(view: NodeView, headers: seq<HeaderInfo>, sorted: seq<HeaderInfo>)
    requires AllServed(view, headers) && multiset(sorted) == multiset(headers)
    ensures AllServed(view, sorted)
  {
    forall k | 0 <= k < |sorted|
      ensures sorted[k].header in view.known
    {
      assert sorted[k] in multiset(headers);
    }
  }

  lemma NotAnswerable(view: NodeView, t: TreeInfo, roots: seq<HeaderInfo>, first: nat, i: nat)
    requires t.AllTracked(first) && roots == UnexpectedRoots(t, first) && i < |roots|
    requires !(view.reliable && Repairable(view, roots[i].header))
    ensures !(view.reliable && Answerable(view, t.Hashes(), first))
  {
    RootIsUnexpected(t, roots, first, i);
    hide UnexpectedRoots, Unexpected, Repairable;
    assert roots[i].Hash().header == roots[i].header;
  }

  /** Loads what is missing below every unexpected root, lowest root first. */
  method FetchMissingHeadersForUnexpectedRoots(view: NodeView, tree: SharedTree, first: nat, solo: bool)
    returns (r: Result<seq<HeaderInfo>, FetchError>)
    requires view.Consistent() && tree.info.AllTracked(first)
    modifies tree
    ensures Grown(old(tree.info.Hashes()), tree.info, [], first, solo)
    ensures r.Success? ==> Repaired(view, old(tree.info.Hashes()), tree.info.Hashes(), r.value, first)
    ensures r.Success? && solo ==> tree.info.Hashes() == old(tree.info.Hashes())
    ensures r.Success? && solo && !view.hashLookup ==>
            LeavesExactly(view, old(tree.info.Hashes()), HashesOf(r.value), first)
    ensures r.Success? ==> OnlyMissing(old(tree.info.Hashes()), HashesOf(r.value), first)
    ensures r.Success? ==> AllServed(view, r.value) && RootsBelowTip(view, old(tree.info.Hashes()), first)
    ensures r.Success? && solo ==> Answerable(view, old(tree.info.Hashes()), first)
    ensures view.reliable && Answerable(view, old(tree.info.Hashes()), first) ==> r.Success?
  {
    ghost var t0 := tree.info;
    var newHeaders: seq<HeaderInfo>, loaded: set<BlockHash> := [], {};
    var roots := UnexpectedRoots(tree.info, first);
    RepairStart(view, t0, roots, first, solo);
    hide *;
    NothingAnswered(view, roots, t0.Hashes());
    NothingMissing(t0.Hashes(), first);
    for j := 0 to |roots|
      invariant tree.info.AllTracked(first) && Grown(t0.Hashes(), tree.info, [], first, solo)
      invariant RepairState(view, roots, j, t0.Hashes(), tree.info.Hashes(), newHeaders, loaded, first)
      invariant Answered(view, roots, j, tree.info.Hashes(), loaded)
      invariant AllServed(view, newHeaders) && OnlyMissing(t0.Hashes(), HashesOf(newHeaders), first)
    {
      var root := roots[j];
      ghost var t := tree.info;
      ghost var loadedBefore := loaded;
      var headersForRoot;
      headersForRoot, loaded := FetchMissingAncestors(view, tree, first, root, loaded, solo);
      GrownSteps(t0.Hashes(), t, tree.info, [], [], first, solo);
      if headersForRoot.Failure? {
        NotAnswerable(view, t0, roots, first, j);
        return headersForRoot;
      }
      AnsweredStep(view, roots, j, t.Hashes(), tree.info.Hashes(), loadedBefore, headersForRoot.value);
      AllServedMore(view, newHeaders, headersForRoot.value);
      FetchedIsWalk(root.header, headersForRoot.value, tree.info.Hashes() + loadedBefore, first);
      GrownKeeps(t0.Hashes(), t, first, solo);
      OnlyMissingStep(t0, roots, j, t.Hashes(), newHeaders, headersForRoot.value, first);
      RepairStep(view, roots, j, t0.Hashes(), t.Hashes(), tree.info.Hashes(), newHeaders, loadedBefore,
                 headersForRoot.value, first);
      newHeaders := newHeaders + headersForRoot.value;
    }
    var sorted := SortBy(newHeaders, HeightKey);
    AllServedSorted(view, newHeaders, sorted);
    SameElementsSameHashes(newHeaders, sorted);
    if solo {
      SoloPass(view, t0, tree.info, roots, newHeaders, sorted, loaded, first);
    }
    RepairDone(view, t0, roots, tree.info.Hashes(), newHeaders, sorted, loaded, first);
    AnsweredAll(view, t0, roots, tree.info.Hashes(), loaded, first);
    r := Success(sorted);
  }
}
