# A verified model of the header tree, its metrics and its graph

The repository polls Bitcoin nodes, keeps one tree of block headers per network in memory and in a table,
derives stale-block rates from the tree, and draws the tree as a graph. This project models those four parts in
Dafny and proves what each of them promises, for every input, every interleaving and every run.

* **Header synchronisation.** `Chain`, `HeaderTree`, `HeaderDb`, `NodeOracle`, `SharedFetch` and `PollLoop` follow
  one poll from the node's answer to the tree and the table. A node is fixed during one iteration, but unless it is
  reliable any call to it may fail, and so may any call to a database that is not reliable; while a fetch runs, its own progress batches and the fetches of other nodes change
  the tree.
  Hashes are structural (`Digest(header)`), which is what "collision-free" means here.
* **Metrics.** `Metrics` proves the lowest common ancestor and the stale-block counts.
* **Miner cache.** `MinerCache` is the replay buffer, with every interleaving of tree writes, cache patches, snapshots
  and snapshot applications.
* **Graph.** `BlockForest`, `ForestNumbering`, `SlotLayout`, `ForestLayout`, `SlotCompaction`, `CompactionLaws`,
  `Folding`, `FoldGraph`, `Placement`, `MineSlots`, `MineNodes` and `Graph` are the page's layout, folding and
  placement. `DrawnEdges` and `RootFolds` say exactly when edges cross and when mine nodes lie on folds;
  `MineCrossing` and `FoldOverlap` show that both happen. Slots are real numbers. `HeaderPayload` leads from a tree
  that the poll loop keeps to the graph of a forest.

`Sorting` and `Wrappers` hold the stable sort and the failure-carrying datatypes that all parts use.
`dafny verify dfyconfig.toml` checks the whole project.

Where a promise is not kept by the code as it stands, the exact condition is proved instead:

* The recorded heights and miners after `insert_headers` depend on the order of a batch exactly when two entries for
  one new hash differ (`OrderIrrelevantIffAgreeing`); hashes and edges never do. No batch the fetchers build has two
  such entries (`FetchedBatchesAgree`), so this matters only to a new caller.
* In any run, a cache refresh agrees with the tree if and only if no result that completed since its snapshot has left
  the buffer of five and disagrees with the snapshot (`RefreshAgreesIff`). Up to five results between snapshot and
  application are always fine; from start-up on, six results for any six blocks without a miner lose the first one
  (`SixResultsLoseOne`).
* A repair pass of a node that serves no headers by hash returns Ok although roots stay disconnected. Without other
  pollers these are exactly the roots off its active chain whose predecessor is off it as well, or is on it but above
  every active header of the tree (`LeavesExactly`). `GapCanStay` is an instance with an Ok pass, and `GapCanClose` one
  in which a root off the active chain is connected all the same. With other pollers, every root left over is
  `Unreachable` or new.
* One root that the node has no answer for makes the whole pass fail, and what it loaded for the others is dropped. With
  a reliable node and no other pollers the pass is Ok if and only if every root is at or below the active tip and, if
  the node serves headers by hash, it knows the header before each root (`Answerable`).
* Edges of the tree and of its folds never cross, but the edge to a mine node can cross them (`MineEdgeCanCross`). It
  crosses nothing drawn before it if and only if the slot the node should have is free and in the order of the edges,
  or taken with no edge starting further down (`MineEdgeCrossesIff`).
* Rectangles of the picture never overlap, but for a mine node and a fold that begins at a root (`MineOnFold`): exactly
  if the block to mine on is in the column before the fold and at nearly its slot (`MineOverlapsFoldIff`).

## Model

| member | source | states |
|---|---|---|
| HeaderTree.SharedTree.InsertHeaders | src/headertree.rs:191-228 | from any valid tree and any batch the index stays a bijection, an edge exists exactly where a header names another's hash, known entries win over new ones and the first new entry wins; the flag tells whether the tree grew |
| HeaderTree.LinkBatch | src/headertree.rs:213-226 | the second loop adds exactly the links with a header of the batch at one end |
| HeaderTree.ChildrenByPrev | src/headertree.rs:202-211 | every node is listed under the hash it names as its predecessor and under no other |
| HeaderTree.EdgesFollowFromHashes | src/headertree.rs:213-226 | read as hashes, the edges are determined by which hashes are in the tree |
| HeaderTree.ValidIsForest | src/headertree.rs:191-228 | no node has two parents, and a child's place in the chain of its header, not the recorded height, is one above its parent's |
| HeaderTree.MergeConcat | src/headertree.rs:191-201 | splitting a batch anywhere changes nothing |
| HeaderTree.MergeLookup | src/headertree.rs:194-200 | a known hash keeps its entry, a new one gets the first entry of the batch for it |
| HeaderTree.HashesIgnoreOrder | src/headertree.rs:191-228 | the hashes in the tree, and hence its edges, do not depend on the order of a batch |
| HeaderTree.OrderIrrelevantIffAgreeing | src/headertree.rs:194-200 | heights and miners are independent of the order if and only if no two entries for one new hash differ |
| SharedFetch.FetchedBatchesAgree | src/headertree.rs:194-200 | no batch of tracked headers without miners, which is all the fetchers build, has two different entries for one hash, so any order of it leaves the same entries |
| HeaderTree.UnexpectedRootsMeaning | src/headertree.rs:164-187 | the roots handed to the repair are exactly the headers above the bound whose predecessor is missing, each once, lowest first; the count is zero if and only if there is no gap |
| HeaderTree.RootLacksParent | src/headertree.rs:168-183 | a node without incoming edge is one whose predecessor is not in the tree |
| HeaderTree.ClosedHoldsAncestry | src/headertree.rs:173-187 | without gaps, every header's whole ancestry is present down to the lower bound |
| HeaderDb.Database.WriteToDb | src/db.rs:52-81 | all rows of the batch are inserted, ignoring those with a known key, or none on any failure; a reliable database does not fail |
| HeaderDb.Database.UpdateMiner | src/db.rs:83-90 | in what every network has stored, the miner of that header changes and nothing else does; a failure changes no row, and a reliable database does not fail |
| HeaderDb.WithMinerStored | src/db.rs:83-90 | one update statement over rows of all networks is, for each network, setting the miner of at most one stored header |
| HeaderDb.Database.LoadHeaderInfos | src/db.rs:138-172 | exactly the rows of the network at or above the bound, each once, by height, or a failure as soon as one cannot be read or decoded; a reliable database does not fail |
| HeaderDb.Database.LoadTreeInfos | src/db.rs:94-136 | the rebuilt tree is valid and holds exactly the stored headers at or above the bound; if a row cannot be loaded there is no tree; a reliable database gives one |
| HeaderDb.BuildTree | src/db.rs:101-117 | adding all nodes and then each header's edge from its predecessor gives a valid tree |
| HeaderDb.InsertRowsIsMerge | src/db.rs:60-73 | insert-or-ignore in the table is insert-if-absent in the tree, and leaves other networks alone |
| HeaderDb.RestartTransparent | src/main.rs:225-254 | over any sequence of persisted batches and miner results, written or lost, the reloadable headers equal the live ones if all batches were written, and are never more |
| HeaderDb.SameHeadersSameEdges | src/db.rs:101-117 | the reloaded tree has the edges of the live one |
| NodeOracle.BlockHeader | src/node/shared_fetch.rs:112-112 | the node's answer, or a transport failure if the node is not reliable |
| NodeOracle.BatchActiveHeaders | src/node/shared_fetch.rs:62-64 | a window of the active chain, cut at its end, or a failure; a reliable node fails only past its end |
| NodeOracle.ActiveAncestor | src/node/shared_fetch.rs:295-302 | the headers below an active one are those of the active chain |
| SharedFetch.FindActiveTipMeaning | src/node/shared_fetch.rs:246-250 | the last active tip of the list is taken, and it fails if and only if there is none |
| SharedFetch.SendProgressBatch | src/node/shared_fetch.rs:269-278 | sending adds exactly the batch to what was sent |
| SharedFetch.GetNewActiveHeadersByHeight | src/node/shared_fetch.rs:94-134 | everything returned was sent, in batches of at most ten, and nothing else was; it is sorted, at true heights, from the tracked active chain, new, and nothing is fetched at or below an active header the tree held; the tip is covered; on a chain without gaps and without other pollers exactly the unknown part of the tracked active chain; without an active tip it fails, with one and a reliable node it succeeds |
| SharedFetch.GetNewActiveHeadersAsBatch | src/node/shared_fetch.rs:42-91 | terminates, and meets the same specification as the walk by height: on a chain without gaps both give the same set of hashes, although the clamped last window overlaps earlier ones; nothing is fetched 2000 blocks or more below an active header the tree held |
| SharedFetch.CollectUnknownActiveBatchHeaders | src/node/shared_fetch.rs:340-359 | exactly the unknown headers of a window, each once, in the order of the window, at true heights, and whether any header of it was known |
| SharedFetch.BatchWindowEnd | src/node/shared_fetch.rs:70-84 | stopping after the first window with a known header loses nothing on a chain without gaps |
| SharedFetch.ExactlyMissing | src/node/shared_fetch.rs:105-129 | a downward walk that ends at a header known before, or below the bound, has found exactly what was missing |
| SharedFetch.FetchTip | src/node/shared_fetch.rs:146-153 | ineligible tips are skipped, an eligible one with a malformed hash fails, a known one costs nothing, any other one is covered afterwards; a reliable node that can answer makes it succeed |
| SharedFetch.FetchBranch | src/node/shared_fetch.rs:155-181 | the tip is covered, nothing loaded lacks its predecessor once the active chain is there, and every header loaded is new and from the branch of the tip, at most `branchlen` below it, with nothing known from there up to the tip; a known tip gives the empty list without a call, and a reliable node that can answer makes it succeed |
| SharedFetch.BranchWalkDone | src/node/shared_fetch.rs:158-179 | whichever way the inclusive walk over `branchlen` ends (at a known header, after `branchlen + 1` headers, or at the lower bound), the tip is covered and nothing it loaded lacks its predecessor once the active chain is there |
| SharedFetch.GetNewNonactiveHeadersByHash | src/node/shared_fetch.rs:137-185 | all eligible tips are covered, everything returned was sent in that order, heights are true, no gap is opened, and every header is new and from the branch of an eligible tip above what the tree held of it; nothing if all eligible tips are known; a reliable node that can answer makes it succeed |
| SharedFetch.FetchMissingActiveAncestors | src/node/shared_fetch.rs:286-305 | loads new headers only, down to a known one or the bound, so that the root is connected |
| SharedFetch.FetchMissingBranchAncestorsByHash | src/node/shared_fetch.rs:308-338 | the same by hash; it is not supported only where the node has no lookup by hash |
| SharedFetch.FetchMissingAncestors | src/node/shared_fetch.rs:202-232 | every root is connected or out of the reach of a node without lookup by hash; an answer needs a root at or below the active tip, and a reliable node that has all answers gives them |
| SharedFetch.RepairStep | src/node/shared_fetch.rs:201-239 | stopping at headers loaded for an earlier root loses nothing |
| SharedFetch.FetchMissingHeadersForUnexpectedRoots | src/node/shared_fetch.rs:192-243 | an Ok pass returns new headers, each once, at its true height, lowest first, and only missing ancestors of roots, above everything the tree held of that ancestry; once inserted, no root of the tree at its start remains but unreachable ones; without other pollers and without lookup by hash, exactly the roots out of the reach of the active chain remain; a reliable node's pass without other pollers is Ok if and only if the node can answer for every root |
| SharedFetch.RepairIsExact | src/node/shared_fetch.rs:201-239 | without lookup by hash an unexpected root is left if and only if it is off the active chain and its predecessor is not on the chain below an active header of the tree |
| SharedFetch.GapCanStay | src/node/shared_fetch.rs:217-232 | a node and a tracked tree at which every pass without other pollers is Ok and a root stays disconnected |
| SharedFetch.GapCanClose | src/node/shared_fetch.rs:217-232 | being off the active chain does not decide it: a root off the chain that every such pass, which is Ok, connects |
| PollLoop.PersistHeaders | src/main.rs:225-254 | the tree gets the headers even if the table does not, known entries stay and the first new one wins, with other tasks between the two writes; the table never holds more than the tree, and gets all rows of the batch or none; a reliable database gets them all, and a table that mirrored the tree still does |
| PollLoop.MirroredIsSame | src/main.rs:225-254 | a table mirrors the tree if and only if a restart would load the same headers at the same heights |
| PollLoop.Reload | src/main.rs:90-95 | a restart loads a valid tree that holds nothing the live one did not, or fails; with a reliable database it loads one, and from a table that mirrors the live tree one with the same headers, heights and edges |
| PollLoop.GetNewHeaders | src/node/bitcoin_core.rs:602-642 | all eligible tips are covered by what was returned, which is what was sent; even if it fails, only headers of the tracked active chain and of branches of eligible tips are sent; a tree without gaps gets none; a reliable node that can answer for an active tip and every eligible one makes it succeed |
| PollLoop.FetchKeepsClosed | src/node/shared_fetch.rs:94-185 | inserting the active and the non-active results into a tree without gaps leaves no gap |
| PollLoop.FetchIncrementalHeaders | src/main.rs:257-389 | it returns true only after every progress batch was consumed, with other tasks between any two, and then every eligible tip is in the tree; without other pollers nothing but wanted headers is inserted; a reliable node that can answer makes it true, and with a reliable database a mirroring table still mirrors the tree |
| PollLoop.RepairMissingHeaders | src/main.rs:411-487 | with other tasks at every await, the tree at the end is the one at the start of the pass, what the pass loaded (only missing ancestors of roots) and what others inserted, without overlaps; after an Ok pass only the last have roots left, or unreachable ones; without other pollers and without lookup by hash, exactly the roots out of the reach of the active chain are left; a reliable node's pass is Ok if it can answer for every root, without other pollers only if it can; a mirroring table still mirrors the tree |
| PollLoop.Poller.Iterate | src/main.rs:551-569 | one iteration is a step of the run below, from the tree it begins with: tips are remembered only after a complete fetch, the tree only grows, by wanted headers and missing ancestors and what others insert; unchanged tips always lead to a repair, changed ones if the node is reliable and has the answers; the repair is Ok if the node is reliable and can answer for every root; without other pollers and with a reliable database the table goes on mirroring the tree |
| PollLoop.RememberedTipsAreCovered | src/main.rs:558-566 | skipping is safe: in every reachable state all eligible remembered tips are in the tree |
| PollLoop.SelfHealing | src/main.rs:551-569 | after any history of overlapping iterations, failures, lost writes and restarts, an iteration with an Ok repair ends with all eligible tips in the tree; every header in the tree when the iteration began, every one it fetched and every one its repair loaded has its predecessor, is at the bound or is unreachable, whatever other pollers do meanwhile |
| PollLoop.ReliableIterationHeals | src/main.rs:551-569 | and it does heal: after any such history, an iteration whose node is reliable and has the answers, with unchanged tips or ones it can serve, ends with an Ok repair |
| PollLoop.AncestryEndsAtOthers | src/main.rs:551-569 | down from any header the ancestry is complete to the bound, unless it meets a header that another poller inserted during the repair or that is out of reach |
| PollLoop.HealedCompletely | src/main.rs:551-569 | with lookup by hash no gap is left: the whole ancestry of every eligible tip is in the tree |
| Metrics.ParentIndex | src/metrics.rs:253-257 | the first incoming edge leads to the node of the predecessor hash, if there is one |
| Metrics.PathToRoot | src/metrics.rs:240-251 | the upward walk, reversed, is the path from the root |
| Metrics.AncestorIsPathPrefix | src/metrics.rs:165-189 | being an ancestor is having a path that is a prefix |
| Metrics.TruncatedPath | src/metrics.rs:172-182 | truncating to the shared prefix keeps exactly the common ancestors |
| Metrics.FoldPaths | src/metrics.rs:165-189 | the fold returns the lowest common ancestor, and fails exactly when there is no common ancestor |
| Metrics.ActiveTipIndices | src/metrics.rs:191-218 | the nodes of all active tips of reachable nodes, and only those; which of the two reasons prevents it, and exactly when |
| Metrics.ResolvedTipIndex | src/metrics.rs:165-218 | the lowest common ancestor of the active tips of reachable nodes; each failure occurs exactly under its condition |
| Metrics.ResolvedIsUnique | src/metrics.rs:165-189 | the resolved tip does not depend on the order or repetition of tips |
| Metrics.WalkBackWindowStart | src/metrics.rs:220-238 | the loop is the recursive walk, each step exactly one height down |
| Metrics.WalkBackIsPath | src/metrics.rs:220-238 | with linked heights the window starts `size - 1` steps up the path, or there is none that long |
| Metrics.CalculateRollingWindow | src/metrics.rs:78-93 | the rolling window of the specification below |
| Metrics.CalculateAllTimeWindow | src/metrics.rs:95-106 | the all-time window of the specification below |
| Metrics.StaleCountExact | src/metrics.rs:108-146 | an available window counts exactly the blocks of its height range that are no ancestors of the resolved tip, and the subtraction never saturates |
| Metrics.RollingWindowExact | src/metrics.rs:78-146 | a rolling window is available if and only if the path is long enough and every block of its height range has an ancestor at its start, and then it counts the blocks of the range off the path; each reason holds exactly in its case |
| Metrics.PathInWindow | src/metrics.rs:123-124 | the non-stale part of a window of `n` blocks has exactly `n` blocks |
| Metrics.AllTimeIsRolling | src/metrics.rs:95-106 | the all-time window is the rolling one as long as the path |
| Metrics.WindowsAreMonotone | src/metrics.rs:78-134 | smaller windows are available whenever larger ones are, with no more stale blocks |
| Metrics.GapFreeIffObserved | src/metrics.rs:156-163 | the gap test is exact: it fails if and only if some block of the window has no ancestor at the start height |
| Metrics.HasReachableStaleTipObserver | src/metrics.rs:148-154 | some reachable node reports stale tips |
| Metrics.OneReason | src/metrics.rs:36-66 | at most one reason for having no windows applies |
| Metrics.TrackedIsLinked | src/metrics.rs:228-235 | every tree the poll loop keeps has linked heights |
| Metrics.CalculateNetworkMetrics | src/metrics.rs:29-76 | one window per range, all at the node that is the lowest common ancestor of every active tip of every reachable node, if a reachable node reports stale tips; or one common reason, which holds and excludes the others |
| MinerCache.Cache.UpdateHeaderMiner | src/cache.rs:163-183 | patches the one entry with the hash and remembers the last five results, all of them while there are no more than five |
| MinerCache.Cache.UpdateHeaderTree | src/cache.rs:184-207 | installs the snapshot with the remembered results replayed over it |
| MinerCache.IntoValues | src/cache.rs:202-203 | whatever the order of the map's values, the table they make is the same |
| MinerCache.ReplayInfosMiners | src/cache.rs:188-200 | replaying changes nothing but miners |
| MinerCache.AppliedAgreesIff | src/cache.rs:184-207 | whatever the cache showed before, applying a snapshot leaves cache and tree in agreement if and only if no result completed since it was taken has left the buffer, is the last for its block and disagrees with it |
| MinerCache.StepKeeps | src/main.rs:623-719 | every step of every task, timely or not, keeps log, buffer and pending snapshots in step with the tree |
| MinerCache.RefreshAgreesIff | src/cache.rs:184-207 | the same condition decides every refresh of every run, after earlier late ones too |
| MinerCache.StepKeepsInv | src/main.rs:623-719 | every step of every task keeps the agreement invariant, an application if at most five results completed since its snapshot |
| MinerCache.ReplayLosesNothing | src/cache.rs:163-207 | in every such interleaving each settled cached block shows the tree's miner, and that of its latest completed result |
| MinerCache.SixResultsLoseOne | src/cache.rs:179-181 | from any start-up state and for any six different blocks without a miner, of which the first one's is found, there is a run in which the six results complete during a refresh and the first is lost |
| MinerCache.SixIsTooMany | src/cache.rs:179-181 | five is the limit: a run from start-up with one application that is late by one result, after which the cache shows an older miner |
| HeaderPayload.GraphToHeaderInfos | src/headertree.rs:103-131 | every node once, under its number, with the number of its parent |
| HeaderPayload.CacheKeepsPayload | src/cache.rs:184-207 | whatever results are replayed, and in whatever order the values come out, the cached entries are a payload of the same tree |
| HeaderPayload.PatchKeepsPayload | src/cache.rs:163-183 | patching a miner into the cached entries leaves them a payload of the same tree |
| HeaderPayload.RefreshNetworkTreeCache | src/main.rs:178-199 | a refresh leaves the cache with a payload of the tree, whose miners are those of the tree with the remembered results replayed over them |
| HeaderPayload.PreprocessData | ui/src/tree.ts:40-97 | every header once, in the order of the blocks (heights do not decrease), from entries in any order; a block has a tip exactly if some node reports one at its hash, and can be mined on exactly if some node that supports mining reports its hash as active |
| HeaderPayload.BlockOfShows | ui/src/tree.ts:40-97 | the block made of an entry is the one that shows it: its number, parent, height and hash, a tip if and only if some node reports one there, mineable if and only if some mining node reports it as active |
| HeaderPayload.SortedBlocksUnique | ui/src/tree.ts:40-97 | the order of the entries is irrelevant: the sorted list of the same blocks is unique |
| HeaderPayload.TrackedTreeRises | src/headertree.rs:103-131 | in the payload of a tree that the poll loop keeps every child is one above its parent |
| HeaderPayload.ShowTree | ui/src/tree.ts:842-913 | for every cached payload of a tree that the poll loop keeps, the page shows the graph of a forest with the same headers, heights and parents; no block that some node reports as a tip is folded away, and with a network there is a mine node exactly for the blocks that some mining node reports as active tip |
| BlockForest.BuildChildrenMap | ui/src/tree.ts:354-380 | every block's children, each once, in the order of the blocks: by height, then by hash, then by id |
| BlockForest.GetRootBlocks | ui/src/tree.ts:382-391 | the blocks without a parent, each once, in that order |
| SlotLayout.AssignSlot | ui/src/tree.ts:408-468 | on any children map, cyclic ones included, the loop over the explicit stack ends and does what the recursion does |
| SlotLayout.RunEnterFrames | ui/src/tree.ts:440-444 | pushing the children in reverse visits them in order |
| SlotLayout.CreateSlotLayout | ui/src/tree.ts:398-479 | terminates on any lists and gives every block a slot |
| SlotLayout.AssignTree | ui/src/tree.ts:408-468 | laying out a fresh tree places every block of it and uses as many slots as it has leaves |
| SlotLayout.KnownSlotsMeaning | ui/src/tree.ts:408-468 | a block is placed by the slots of exactly those children that have one |
| ForestLayout.LayoutOfForest | ui/src/tree.ts:398-479 | on a forest leaves are numbered depth-first with a gap between trees, inner blocks are at the midpoint of their lowest and highest child |
| ForestLayout.LayoutSeparates | ui/src/tree.ts:398-479 | a block all of whose leaves are before another's is at least one slot above it |
| ForestLayout.SubtreesApart | ui/src/tree.ts:398-479 | the subtrees of two blocks neither of which is below the other occupy disjoint slot intervals, at least one slot apart |
| ForestLayout.LayoutOrdersHeights | ui/src/tree.ts:398-479 | at one height the slots are in the order of the leaves |
| ForestNumbering.UnrelatedApart | ui/src/tree.ts:393-397 | of two blocks neither of which is below the other, one has all its leaves before the other's |
| ForestNumbering.ParentsInOrder | ui/src/tree.ts:393-397 | children have the order of their parents |
| SlotCompaction.GroupByHeight | ui/src/tree.ts:290-295 | every block in the row of its height and in no other, heights ascending |
| SlotCompaction.ForwardPass | ui/src/tree.ts:299-315 | the loop over rows is the specified first pass, and leaves the rows sorted |
| SlotCompaction.BackwardPass | ui/src/tree.ts:317-341 | the loop over rows is the specified second pass |
| SlotCompaction.CompactSlots | ui/src/tree.ts:285-344 | the result is that of both passes over exactly the rows of the blocks |
| CompactionLaws.PushedIsForward | ui/src/tree.ts:299-315 | after the first pass every block is at its parent's slot or exactly one below its left neighbour, rows are spaced, and no slot exceeds the number of leaves to the left |
| CompactionLaws.CentredSlot | ui/src/tree.ts:331-339 | the interval between the neighbours is never empty, and the block ends at the centre or exactly one slot from the neighbour in the way |
| CompactionLaws.CompactionOfForest | ui/src/tree.ts:285-344 | after both passes rows are spaced, all slots are within [0, leaves - 1], and every block is centred over its children unless a neighbour stands in the way |
| CompactionLaws.CompactionSeparates | ui/src/tree.ts:297-343 | two blocks at one height are at least one slot apart |
| CompactionLaws.CompactionKeepsOrder | ui/src/tree.ts:277-284 | compaction keeps the order of every height |
| CompactionLaws.NoCrossings | ui/src/tree.ts:277-344 | edges between the same two heights do not cross |
| CompactionLaws.NeverTaller | ui/src/tree.ts:277-284 | no slot exceeds the largest slot of the layout before compaction |
| Folding.ProtectedIds | ui/src/tree.ts:141-160 | exactly the blocks with a tip, at a fork height or next to one |
| Folding.WalkChain | ui/src/tree.ts:180-203 | the walk ends on any input; with right lists of children it never meets a visited block and yields a whole chain |
| Folding.FindChains | ui/src/tree.ts:162-214 | every block in exactly one chain, each block of a chain the only child of the one before it and one above; with right lists of children the defensive pass finds nothing left |
| Folding.FoldChain | ui/src/tree.ts:216-249 | the segments of a chain are its longest unprotected runs of at least three blocks, disjoint, and none is missed |
| Folding.FoldIsSegment | ui/src/tree.ts:229-241 | a segment is height-contiguous; its predecessor is the parent of its first block and its successor the only child of its last, both protected, or null exactly when there is none |
| Folding.ComputeFoldSegments | ui/src/tree.ts:119-252 | on any input segments are disjoint, unprotected, height-contiguous and bounded by protected blocks; with right lists of children, whatever the heights, exactly the blocks of three unprotected ones, each the only child of the one before, are folded; on a forest exactly the blocks of three linked unprotected ones |
| FoldGraph.CreateHiddenBlockIdSet | ui/src/tree.ts:576-582 | a block is hidden if and only if it is in a segment |
| FoldGraph.BuildVisibleBlockEdges | ui/src/tree.ts:689-717 | exactly the edges between a visible block and its visible parent |
| FoldGraph.BuildFoldBoundaryEdges | ui/src/tree.ts:719-753 | exactly the edges from a predecessor to its segment and from a segment to its successor |
| FoldGraph.BuildGraphEdges | ui/src/tree.ts:862-893 | the edges of the graph, folded if and only if asked |
| FoldGraph.EdgeGoesDown | ui/src/tree.ts:689-753 | every edge of the folded graph leads down in the tree |
| FoldGraph.AncestorsConnected | ui/src/tree.ts:689-753 | every descent between visible blocks is a walk in the folded graph |
| FoldGraph.FoldingIsContraction | ui/src/tree.ts:119-252 | folding is a contraction: visible blocks are connected if and only if they are in the tree |
| Placement.CreateDepthLookup | ui/src/tree.ts:587-623 | one column per visible height and segment, in key order, and the lookups are their positions |
| Placement.ColumnsIncrease | ui/src/tree.ts:587-623 | columns strictly increase in height |
| Placement.HeightColumnsAdjacent | ui/src/tree.ts:587-623 | two visible blocks one height apart are in neighbouring columns: no fold is drawn between them |
| Placement.FoldColumnIsBetween | ui/src/tree.ts:600-621 | a segment has a column of its own, right between those of the blocks before and after it |
| MineSlots.NextMineSlotResolver.GetSubtreeBounds | ui/src/tree.ts:495-558 | ends on any children map; on a forest the bounds are the tightest for the whole subtree, whatever was cached |
| MineSlots.NextMineSlotResolver.NextSlot | ui/src/tree.ts:560-573 | the own slot of a block without children, else one past the lowest block below it |
| MineSlots.ResolveOk | ui/src/tree.ts:501-551 | the recursion that the loop stands for keeps every cached bound right |
| MineNodes.ChooseSlot | ui/src/tree.ts:800-803 | the wanted slot if nothing is within one slot of it, else one past the last in the column |
| MineNodes.BuildMineGraphElements | ui/src/tree.ts:770-840 | one mine node, and one edge to it, per mineable block in order, one column to the right, a slot away from every block and mine node there, at the resolver's slot if that is free |
| MineNodes.MineNotAbove | ui/src/tree.ts:798-803 | a mine node is never above the slot the resolver gives |
| MineNodes.MineAndBlockApart | ui/src/tree.ts:786-825 | no mine rectangle overlaps a block rectangle |
| MineNodes.MinesApart | ui/src/tree.ts:786-825 | no two mine rectangles overlap |
| Graph.BuildReactFlowGraph | ui/src/tree.ts:842-913 | on any blocks with distinct ids everything is placed, mine nodes and their edges included, and folded as above if and only if asked; on rising heights the layout, folding, columns and edges are those of a forest |
| Graph.BlocksDoNotOverlap | ui/src/tree.ts:625-662 | no two block rectangles overlap |
| Graph.FoldAndBlockDoNotOverlap | ui/src/tree.ts:664-687 | no fold rectangle overlaps a block |
| Graph.FoldsDoNotOverlap | ui/src/tree.ts:664-687 | no two fold rectangles overlap |
| Graph.MinesDoNotOverlap | ui/src/tree.ts:770-840 | mine nodes overlap neither a block nor each other, and are not above the resolver's slot |
| RootFolds.MineOverlapsFoldIff | ui/src/tree.ts:770-840 | a mine node overlaps a fold if and only if the fold begins at a root, the block is in the column before it and both are at nearly the same slot; the block is then a leaf of a tree that ends below the fold |
| FoldOverlap.MineOnFold | ui/src/tree.ts:842-913 | four blocks for which every graph the page builds has such an overlap |
| DrawnEdges.EdgesJoinNeighbours | ui/src/tree.ts:842-913 | every edge of the finished graph, into and out of folds and to mine nodes too, joins neighbouring columns |
| DrawnEdges.EdgesDoNotCross | ui/src/tree.ts:862-893 | no two edges of the tree and of its folds cross |
| DrawnEdges.MineEdgeCrossesIff | ui/src/tree.ts:770-840 | exactly when the edge to a mine node crosses no tree edge, fold edge or earlier mine edge, told by the slot the node should have and whether it is taken |
| DrawnEdges.EdgesAboveInOrder | ui/src/tree.ts:560-573 | the slot for a block with children is past the target of every tree or fold edge that starts further up, so only edges from further down can be crossed there |
| DrawnEdges.PictureIsPlanarIff | ui/src/tree.ts:842-913 | the finished graph has no crossing at all if and only if that condition holds for every mine node |
| MineCrossing.MineEdgeCanCross | ui/src/tree.ts:796-803 | seven blocks for which every graph the page builds, folded or not, has a mine edge across a tree edge |
| DrawnEdges.PictureConnects | ui/src/tree.ts:842-913 | the finished graph, mine edges included, connects two visible blocks if and only if one is an ancestor of the other in the tree |

## Left out

- Transport and storage formats: JSON-RPC, REST, Electrum and Esplora clients, SQLite, TOML and RSS. A node is an oracle whose calls may fail, the table a map by primary key.
- HTTP handlers, SSE streams, React components and hooks.
- What Bitcoin Core does when blocks are mined or invalidated, the reorg workflow, the faucet and peer matching.
- Proof of work, header encoding and hash computation: a hash is the digest of its header, so it is injective and acyclic by construction.
- Integer widths: heights and ids are unbounded; no computation of the modelled code comes near their limits.
- JavaScript floating point and the `usize::MAX` sentinel: slots are real numbers and a missing parent is `None`.
- Text order of hashes: `localeCompare` is a given rank.
- Timers, poll intervals, the backfill after five minutes, and with it `sorted_interesting_heights`.
- `recent_forks`: it only feeds the RSS text, and its traversal adds no property beyond those of the forest.
- The limit of twenty active headers for miner look-up, and which headers are queued for it.
- Stale rates as floating-point quotients; a rolling window of zero blocks, which `src/config.rs:411` rejects.
- Reachability, tip and version updates of the cache. The metrics in it are computed from a copy of the node data and stored later, so they may lag; that race is not modelled.
- The order of `tips.sort()`: no property depends on it. The Electrum backend runs the batch fetch only; `GetNewHeaders` is the fetch of the other backends.
- PollLoop.SelfHealing: says nothing about the predecessor of a header that another node's poller inserts while the repair runs, because the repair works on the roots at its start.
- SharedFetch.FetchMissingHeadersForUnexpectedRoots: the exact set of roots left is stated without other pollers only, because their insertions can connect any of them; it has no progress channel, which its only caller does not pass, and does not sort per root, since the final sort decides the order.
- SharedFetch.GetNewActiveHeadersAsBatch: the returned list may hold a header twice, because the last window is clamped and overlaps; only its set of hashes is exact. Stale branches shared by two tips are likewise returned twice.
- MinerCache.ReplayLosesNothing: assumes that no snapshot is applied after more than five further results, since it is false otherwise; `RefreshAgreesIff` is the statement without that assumption.
- Names of nodes are taken to be distinct: the page matches reports of mining nodes to tips by name.
- Node ids, colours, selection and edge styles of the graph, and `potentialFoldedSegmentCount`.
- A loop that the source writes once more after its last element (the run scan of a chain) ends here before it, with the same closing step.
