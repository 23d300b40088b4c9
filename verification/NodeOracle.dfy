/** A remote node, fixed for the length of one poll iteration. Unless it is reliable, any call to it may fail. */
module NodeOracle {
  import opened Wrappers
  import opened Chain

  datatype FetchError = DataError | NotSupported | Transport

  datatype Locator = ByHeight(height: nat) | ByHash(hash: BlockHash)

  datatype ChainTipStatus = Active | Invalid | ValidFork | HeadersOnly | ValidHeaders | Unknown

  /** `hash` is `None` when the reported text is not a block hash. */
  datatype ChainTip = ChainTip(height: nat, hash: Option<BlockHash>, branchlen: nat, status: ChainTipStatus)

  /** The active chain by height, every header the node can serve by hash, whether it can at all, and whether
      every call reaches it. */
  datatype NodeView = NodeView(active: seq<Header>, known: set<Header>, hashLookup: bool, reliable: bool) {

    ghost predicate Consistent() {
      && active != []
      && (forall i :: 0 <= i < |active| ==> active[i] in known && Height(active[i]) == i)
      && (forall i :: 0 < i < |active| ==> active[i].prev == Digest(active[i - 1]))
      && (forall h :: h in known && h.prev.Digest? ==> h.prev.header in known)
    }

    function Answer(locator: Locator): Result<Header, FetchError> {
      match locator
      case ByHeight(n) => if n < |active| then Success(active[n]) else Failure(Transport)
      case ByHash(h) =>
        if !hashLookup then Failure(NotSupported)
        else if h.Digest? && h.header in known then Success(h.header)
        else Failure(Transport)
    }

    ghost predicate OnActiveChain(h: Header) {
      Height(h) < |active| && active[Height(h)] == h
    }

    /** A tip of a consistent node: the active one is the end of the active chain, any other one is
        `branchlen` blocks away from it. A malformed hash says nothing about a branch. */
    ghost predicate ConsistentTip(tip: ChainTip) {
      if tip.hash.None? then
        tip.status.Active? ==> |active| == tip.height + 1
      else
        && tip.hash.value.Digest?
        && var h := tip.hash.value.header;
           && h in known && Height(h) == tip.height
           && if tip.status.Active?
              then |active| == tip.height + 1 && active[tip.height] == h
              else tip.branchlen <= tip.height && OnActiveChain(AncestorAt(h, tip.height - tip.branchlen))
    }

    ghost predicate ConsistentTips(tips: seq<ChainTip>) {
      Consistent() && forall tip :: tip in tips ==> ConsistentTip(tip)
    }
  }

  /** `block_header`: the node's answer, or a transport failure. */
  method BlockHeader(view: NodeView, locator: Locator) returns (r: Result<Header, FetchError>)
    ensures r == view.Answer(locator) || (!view.reliable && r == Failure(Transport))
  {
    var lost: bool := *;
    if lost && !view.reliable {
      r := Failure(Transport);
    } else {
      r := view.Answer(locator);
    }
  }

  /** Up to `count` headers of the active chain from `start` on. */
  function ActiveWindow(view: NodeView, start: nat, count: nat): seq<Header>
    requires start <= |view.active|
  {
    view.active[start..if start + count <= |view.active| then start + count else |view.active|]
  }

  /** `batch_active_headers`: up to `count` headers of the active chain from `start` on. */
  method BatchActiveHeaders(view: NodeView, start: nat, count: nat) returns (r: Result<seq<Header>, FetchError>)
    ensures r.Success? ==> start < |view.active| && r.value == ActiveWindow(view, start, count)
    ensures view.reliable && start < |view.active| ==> r.Success?
  {
    var lost: bool := *;
    if lost && !view.reliable {
      return Failure(Transport);
    }
    if |view.active| <= start {
      return Failure(Transport);
    }
    r := Success(ActiveWindow(view, start, count));
  }

  lemma {:induction false} ActiveAncestor(view: NodeView, i: nat, j: nat)
    requires view.Consistent() && j <= i < |view.active|
    ensures AncestorAt(view.active[i], j) == view.active[j]
  {
    if j < i {
      ActiveAncestor(view, i - 1, j);
    }
  }

  lemma {:induction false} AncestorPrev(h: Header, n: nat)
    requires 0 < n <= Height(h)
    ensures AncestorAt(h, n).prev == Digest(AncestorAt(h, n - 1))
  {
    if n < Height(h) {
      AncestorPrev(h.prev.header, n);
    }
  }

  lemma {:induction false} AncestorKnown(view: NodeView, h: Header, n: nat)
    requires view.Consistent() && h in view.known && n <= Height(h)
    ensures AncestorAt(h, n) in view.known
  {
    if n < Height(h) {
      AncestorKnown(view, h.prev.header, n);
    }
  }
}
