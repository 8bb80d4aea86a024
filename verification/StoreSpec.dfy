/** What the operations of the torrent store mean, on its abstract value: one map from info-hash to
    torrent, in which shards are only a partition of the keys. */
module StoreSpec {
  import opened Bytes
  import opened Core
  import opened PeerLists

  const SHARD_COUNT: nat := 1024
  const PEER_TIMEOUT_MINUTES: u32 := 45
  const TORRENT_TIMEOUT_MINUTES: u32 := 24 * 60

  datatype Counts = Counts(complete: u32, incomplete: u32, downloaded: u32)

  const NO_COUNTS := Counts(0, 0, 0)

  datatype TorrentState = TorrentState(v4: ListState, v6: ListState, base: u32) {
    ghost predicate Valid() {
      v4.Valid(V4_LEN) && v6.Valid(V6_LEN)
    }

    /** The list of the family that a key belongs to. */
    function ListOf(key: Key): ListState {
      if |key| == V4_LEN then v4 else v6
    }

    function WithList(key: Key, list: ListState, now: u32): TorrentState {
      if |key| == V4_LEN then TorrentState(list, v6, now) else TorrentState(v4, list, now)
    }

    function Downloads(): nat {
      v4.downloaded + v6.downloaded
    }

    predicate IsEmpty() {
      v4.peers == map[] && v6.peers == map[] && v4.downloaded == 0 && v6.downloaded == 0
    }
  }

  const NEW_TORRENT := TorrentState(EMPTY_LIST, EMPTY_LIST, 0)

  lemma NewTorrentValid()
    ensures NEW_TORRENT.Valid()
  {
    assert Seeds(map[]) == {};
  }

  type StoreState = map<InfoHash, TorrentState>

  ghost predicate ValidStore(s: StoreState) {
    forall h :: h in s ==> s[h].Valid()
  }

  /** The top ten bits of the hash. */
  function ShardIndex(hash: InfoHash): (i: nat)
    ensures i < SHARD_COUNT
  {
    Be32(hash[..4]) / 0x40_0000
  }

  /** The swarm counters of a torrent by cardinality; they truncate to 32 bits, as the casts do. */
  function CountsOf(t: TorrentState): Counts {
    Counts(ToU32(|Seeds(t.v4.peers)| + |Seeds(t.v6.peers)|),
           ToU32(|Leeches(t.v4.peers)| + |Leeches(t.v6.peers)|),
           ToU32(t.Downloads()))
  }

  /** Counts for a torrent, zeros if unknown. */
  function CountsAt(s: StoreState, hash: InfoHash): Counts {
    if hash in s then CountsOf(s[hash]) else NO_COUNTS
  }

  function DownloadsAt(s: StoreState, hash: InfoHash): nat {
    if hash in s then s[hash].Downloads() else 0
  }

  /** The residents of one family of a torrent. */
  function PeersAt(s: StoreState, hash: InfoHash, key: Key): Peers {
    if hash in s then s[hash].ListOf(key).peers else map[]
  }

  function AnnounceOp(s: StoreState, hash: InfoHash, key: Key, flags: Flags, now: u32): StoreState {
    var t := if hash in s then s[hash] else NEW_TORRENT;
    s[hash := t.WithList(key, Announced(t.ListOf(key), key, flags, now), now)]
  }

  function RemoveOp(s: StoreState, hash: InfoHash, key: Key, now: u32): StoreState {
    if hash in s then s[hash := s[hash].WithList(key, Removed(s[hash].ListOf(key), key), now)] else s
  }

  function Swept(t: TorrentState, now: u32): TorrentState {
    TorrentState(Expired(t.v4, now, PEER_TIMEOUT_MINUTES), Expired(t.v6, now, PEER_TIMEOUT_MINUTES), t.base)
  }

  predicate Collected(t: TorrentState, now: u32) {
    Swept(t, now).IsEmpty() && SatSub(now, t.base) >= TORRENT_TIMEOUT_MINUTES
  }

  /** Expires the peers of the torrents in `which` and drops those that are empty and idle. */
  function SweepOp(s: StoreState, which: set<InfoHash>, now: u32): StoreState {
    map h | h in s && !(h in which && Collected(s[h], now)) :: if h in which then Swept(s[h], now) else s[h]
  }

  /** The part of the store that lives in one shard. */
  function ShardOf(s: StoreState, i: nat): StoreState {
    map h | h in s && ShardIndex(h) == i :: s[h]
  }

  function InShard(s: StoreState, i: nat): set<InfoHash> {
    set h | h in s && ShardIndex(h) == i
  }

  /** A whole collection, as one step. */
  function GcOp(s: StoreState, now: u32): StoreState {
    SweepOp(s, s.Keys, now)
  }

  // ---------------------------------------------------------------- totals

  /** One peer of one torrent. */
  datatype Residence = Residence(hash: InfoHash, key: Key)

  function Tagged(hash: InfoHash, keys: set<Key>): set<Residence> {
    set k | k in keys :: Residence(hash, k)
  }

  lemma {:induction false} TaggedSize(hash: InfoHash, keys: set<Key>)
    ensures |Tagged(hash, keys)| == |keys|
  {
    if k :| k in keys {
      TaggedSize(hash, keys - {k});
      assert Tagged(hash, keys) == Tagged(hash, keys - {k}) + {Residence(hash, k)};
    } else {
      assert Tagged(hash, keys) == {};
    }
  }

  /** Every seeding (or, for `seeding` false, leeching) peer of the torrents in `which`. */
  function PeersIn(s: StoreState, which: set<InfoHash>, seeding: bool): set<Residence> {
    set h, k | h in which && h in s && k in PeersOf(s[h], seeding) :: Residence(h, k)
  }

  ghost predicate Population(s: StoreState, which: set<InfoHash>, seeders: nat, leechers: nat) {
    seeders == |PeersIn(s, which, true)| && leechers == |PeersIn(s, which, false)|
  }

  function PeersOf(t: TorrentState, seeding: bool): set<Key> {
    if seeding then Seeds(t.v4.peers) + Seeds(t.v6.peers) else Leeches(t.v4.peers) + Leeches(t.v6.peers)
  }

  lemma PeersOfSize(t: TorrentState)
    requires t.Valid()
    ensures |PeersOf(t, true)| == |Seeds(t.v4.peers)| + |Seeds(t.v6.peers)|
    ensures |PeersOf(t, false)| == |Leeches(t.v4.peers)| + |Leeches(t.v6.peers)|
  {
    assert t.v4.peers.Keys !! t.v6.peers.Keys by {
      forall k | k in t.v4.peers.Keys ensures k !in t.v6.peers.Keys {
        assert |k| == V4_LEN;
      }
    }
    assert Seeds(t.v4.peers) <= t.v4.peers.Keys && Seeds(t.v6.peers) <= t.v6.peers.Keys;
  }

  /** One more torrent adds exactly its own peers. */
  lemma PeersInGrows(s: StoreState, which: set<InfoHash>, h: InfoHash, seeding: bool)
    requires h in s && h !in which
    ensures |PeersIn(s, which + {h}, seeding)| == |PeersIn(s, which, seeding)| + |PeersOf(s[h], seeding)|
  {
    var a, b := PeersIn(s, which, seeding), Tagged(h, PeersOf(s[h], seeding));
    assert PeersIn(s, which + {h}, seeding) == a + b;
    assert a !! b;
    TaggedSize(h, PeersOf(s[h], seeding));
  }
}
