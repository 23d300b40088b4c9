/**
 Block headers and the hashes that link them.

 The hash of a header is its `Digest`, so hashing is injective and no chain of
 `prev` links can be cyclic: the idealisation of a collision-free hash.
 */
module Chain {

  /** A digest of a header, or a value (zero hash, foreign data) that no header hashes to. */
  datatype BlockHash = Digest(header: Header) | NoPreimage(id: nat)

  /** `payload` stands for version, merkle root, time, bits and nonce. */
  datatype Header = Header(prev: BlockHash, payload: nat)

  /** A header with the height and the miner recorded for it. */
  datatype HeaderInfo = HeaderInfo(header: Header, height: nat, miner: string) {
    function Hash(): BlockHash {
      Digest(header)
    }
  }

  /** The key of every sort by height. */
  function HeightKey(info: HeaderInfo): real {
    info.height as real
  }

  /** The number of headers below `h`. */
  function Height(h: Header): nat {
    match h.prev
    case Digest(p) => Height(p) + 1
    case NoPreimage(_) => 0
  }

  /** The ancestor-or-self of `h` at height `n`. */
  function AncestorAt(h: Header, n: nat): (a: Header)
    requires n <= Height(h)
    ensures Height(a) == n
  {
    if n == Height(h) then h else AncestorAt(h.prev.header, n)
  }

  function HashesOf(infos: seq<HeaderInfo>): set<BlockHash> {
    set i | 0 <= i < |infos| :: infos[i].Hash()
  }

  /** The true height, and nothing below the lower bound. */
  predicate Tracked(info: HeaderInfo, first: nat) {
    info.height == Height(info.header) && first <= info.height
  }

  ghost predicate AllTracked(infos: seq<HeaderInfo>, first: nat) {
    forall i | 0 <= i < |infos| :: Tracked(infos[i], first)
  }

  /** What every fetcher hands on: a tracked header without a miner. */
  predicate Fetched(info: HeaderInfo, first: nat) {
    Tracked(info, first) && info.miner == ""
  }

  predicate AllFetched(infos: seq<HeaderInfo>, first: nat) {
    forall i | 0 <= i < |infos| :: Fetched(infos[i], first)
  }

  lemma HashesOfConcat(a: seq<HeaderInfo>, b: seq<HeaderInfo>)
    ensures HashesOf(a + b) == HashesOf(a) + HashesOf(b)
  {
    forall h | h in HashesOf(a) + HashesOf(b)
      ensures h in HashesOf(a + b)
    {
      if h in HashesOf(a) {
        var i :| 0 <= i < |a| && a[i].Hash() == h;
        assert (a + b)[i] == a[i];
      } else {
        var i :| 0 <= i < |b| && b[i].Hash() == h;
        assert (a + b)[|a| + i] == b[i];
      }
    }
  }

  lemma HashesOfSnoc(infos: seq<HeaderInfo>, n: nat)
    requires n < |infos|
    ensures infos[..n + 1] == infos[..n] + [infos[n]]
    ensures HashesOf(infos[..n + 1]) == HashesOf(infos[..n]) + {infos[n].Hash()}
  {
    assert infos[..n + 1] == infos[..n] + [infos[n]];
    HashesOfConcat(infos[..n], [infos[n]]);
    assert HashesOf([infos[n]]) == {[infos[n]][0].Hash()};
  }
}
