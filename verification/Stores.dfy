/** The sharded torrent store: 1024 maps of torrents, each behind its own lock. A map owns its
    torrents and a torrent its two lists, so a list is borrowed out of its shard, updated in place
    and put back before the lock is released. */
module Stores {
  import opened Bytes
  import opened Core
  import opened Sequences
  import opened Replies
  import opened PeerLists
  import opened StoreSpec

  datatype Totals = Totals(torrents: nat, seeders: nat, leechers: nat)

  /** Counts from the cached seeder numbers, without looking at a peer. */
  method Tally(t: TorrentState) returns (c: Counts)
    requires t.v4.seeders == |Seeds(t.v4.peers)| && t.v6.seeders == |Seeds(t.v6.peers)|
    ensures c == CountsOf(t)
  {
    var complete := t.v4.seeders + t.v6.seeders;
    var incomplete := t.v4.Leechers() + t.v6.Leechers();
    c := Counts(ToU32(complete), ToU32(incomplete), ToU32(t.v4.downloaded + t.v6.downloaded));
  }

  /** `announce` and `write_compact` on the list of a torrent that the shard lends out. */
  method JoinTorrent(t: TorrentState, key: Key, flags: Flags, numwant: nat, now: u32, out: ByteBuf)
    returns (joined: TorrentState, ghost listed: seq<Key>)
    requires t.Valid()
    modifies out
    ensures joined == t.WithList(key, Announced(t.ListOf(key), key, flags, now), now) && joined.Valid()
    ensures MayList(joined.ListOf(key).peers, numwant, listed)
    ensures out.data == old(out.data) + Concat(listed)
  {
    var list := new PeerList(t.ListOf(key), |key|);
    list.Announce(key, flags, now);
    var order := IterationOrder(list.peers.Keys);
    OrderOfPeers(order, list.peers, numwant);
    listed := Compact(order, Leeches(list.peers), Seeds(list.peers), numwant);
    list.WriteCompact(order, numwant, out);
    joined := t.WithList(key, list.Release(), now);
  }

  method SweepLists(t: TorrentState, now: u32) returns (swept: TorrentState)
    requires t.Valid()
    ensures swept == Swept(t, now) && swept.Valid()
  {
    var v4 := new PeerList(t.v4, V4_LEN);
    v4.Expire(now, PEER_TIMEOUT_MINUTES);
    var v6 := new PeerList(t.v6, V6_LEN);
    v6.Expire(now, PEER_TIMEOUT_MINUTES);
    swept := TorrentState(v4.Release(), v6.Release(), t.base);
  }

  /** Adds one shard's torrents to the running sums. */
  method SampleShard(ghost s: StoreState, ghost before: set<InfoHash>, shard: map<InfoHash, TorrentState>, seeders0: nat, leechers0: nat)
    returns (seeders: nat, leechers: nat)
    requires ValidStore(s) && before !! shard.Keys
    requires forall h :: h in shard ==> h in s && shard[h] == s[h]
    requires Population(s, before, seeders0, leechers0)
    ensures Population(s, before + shard.Keys, seeders, leechers)
  {
    hide Population, PeersIn, Seeds, Leeches, ValidStore;
    seeders, leechers := seeders0, leechers0;
    var todo := shard.Keys;
    ghost var done := before;
    while todo != {}
      invariant todo <= shard.Keys && forall h :: h in done <==> h in before || (h in shard && h !in todo)
      invariant Population(s, done, seeders, leechers)
      decreases |todo|
    {
      var h :| h in todo;
      var t := shard[h];
      SampleNext(s, done, h, seeders, leechers);
      seeders := seeders + (t.v4.seeders + t.v6.seeders);
      leechers := leechers + (t.v4.Leechers() + t.v6.Leechers());
      todo, done := todo - {h}, done + {h};
    }
    assert done == before + shard.Keys;
  }

  class Store {
    const shards: array<map<InfoHash, TorrentState>>
    /** Every tracked torrent, whichever shard holds it. */
    ghost var torrents: StoreState

    ghost predicate Valid()
      reads this, shards
    {
      && shards.Length == SHARD_COUNT
      && (forall i :: 0 <= i < SHARD_COUNT ==> shards[i] == ShardOf(torrents, i))
      && ValidStore(torrents)
    }

    /** The store's abstract value. */
    ghost function State(): StoreState
      reads this
    {
      torrents
    }

    constructor ()
      ensures Valid() && fresh(shards) && State() == map[]
    {
      shards := new map<InfoHash, TorrentState>[SHARD_COUNT](_ => map[]);
      torrents := map[];
    }

    /** Puts a torrent into its shard. */
    method Put(hash: InfoHash, t: TorrentState)
      requires Valid() && t.Valid()
      modifies this, shards
      ensures Valid() && State() == old(State())[hash := t]
    {
      var i := ShardIndex(hash);
      ghost var before := torrents;
      shards[i] := shards[i][hash := t];
      torrents := torrents[hash := t];
      ShardsAfterPut(before, hash, t);
    }

    /** Drops a torrent from its shard. */
    method Drop(hash: InfoHash)
      requires Valid()
      modifies this, shards
      ensures Valid() && State() == old(State()) - {hash}
    {
      var i := ShardIndex(hash);
      ghost var before := torrents;
      shards[i] := shards[i] - {hash};
      torrents := torrents - {hash};
      ShardsAfterDrop(before, hash);
    }

    /** `announce_v4` and `announce_v6`, told apart by the width of the key: registers the peer and
        appends up to `numwant` peers of its family. */
    method Announce(hash: InfoHash, key: Key, flags: Flags, numwant: nat, now: u32, out: ByteBuf)
      returns (counts: Counts, ghost listed: seq<Key>)
      requires Valid()
      modifies this, shards, out
      ensures Valid() && State() == AnnounceOp(old(State()), hash, key, flags, now)
      ensures counts == CountsAt(State(), hash)
      ensures MayList(PeersAt(State(), hash, key), numwant, listed)
      ensures out.data == old(out.data) + Concat(listed)
    {
      var shard := shards[ShardIndex(hash)];
      var t := if hash in shard then shard[hash] else NEW_TORRENT;
      NewTorrentValid();
      t, listed := JoinTorrent(t, key, flags, numwant, now, out);
      Put(hash, t);
      counts := Tally(t);
    }

    /** `remove_v4` and `remove_v6`. */
    method Remove(hash: InfoHash, key: Key, now: u32) returns (counts: Counts)
      requires Valid()
      modifies this, shards
      ensures Valid() && State() == RemoveOp(old(State()), hash, key, now)
      ensures counts == CountsAt(State(), hash)
    {
      var shard := shards[ShardIndex(hash)];
      if hash in shard {
        var list := new PeerList(shard[hash].ListOf(key), |key|);
        list.Remove(key);
        var t := shard[hash].WithList(key, list.Release(), now);
        Put(hash, t);
        counts := Tally(t);
      } else {
        counts := NO_COUNTS;
      }
    }

    method Scrape(hash: InfoHash) returns (counts: Counts)
      requires Valid()
      ensures counts == CountsAt(State(), hash)
    {
      var shard := shards[ShardIndex(hash)];
      if hash in shard {
        counts := Tally(shard[hash]);
      } else {
        counts := NO_COUNTS;
      }
    }

    /** The closure that `retain` applies to one torrent of a shard. */
    method SweepTorrent(hash: InfoHash, now: u32)
      requires Valid() && hash in torrents
      modifies this, shards
      ensures Valid() && State() == SweepOp(old(State()), {hash}, now)
    {
      var i := ShardIndex(hash);
      SweepOne(torrents, hash, now);
      var t := SweepLists(shards[i][hash], now);
      if t.IsEmpty() && SatSub(now, t.base) >= TORRENT_TIMEOUT_MINUTES {
        Drop(hash);
      } else {
        Put(hash, t);
      }
    }

    /** One shard's critical section of a collection. */
    method SweepShard(i: nat, now: u32)
      requires Valid() && i < SHARD_COUNT
      modifies this, shards
      ensures Valid() && State() == SweepOp(old(State()), InShard(old(State()), i), now)
    {
      hide ValidStore, SweepOp;
      ghost var start := State();
      var all := shards[i].Keys;
      var todo := all;
      assert all == InShard(start, i);
      SweepNothing(start, now);
      assert all - todo == {};
      while todo != {}
        invariant Valid() && todo <= all && State() == SweepOp(start, all - todo, now)
        decreases |todo|
      {
        var h :| h in todo;
        SweepNext(start, all, todo, h, now);
        SweepTorrent(h, now);
        todo := todo - {h};
      }
      assert all - todo == all;
    }

    /** Expires stale peers and collects empty, long-idle torrents, shard by shard. */
    method Gc(now: u32)
      requires Valid()
      modifies this, shards
      ensures Valid() && State() == GcOp(old(State()), now)
    {
      hide Valid, ShardOf, BelowShard, InShard, SweepOp;
      ghost var start := State();
      SweepNothing(start, now);
      NoShardBelow(start);
      for i := 0 to SHARD_COUNT
        invariant Valid() && State() == SweepOp(start, BelowShard(start, i), now)
      {
        SweepNextShard(start, State(), i, now);
        SweepShard(i, now);
      }
    }

    /** The number of tracked torrents. */
    method TorrentCount() returns (n: nat)
      requires Valid()
      ensures n == |State()|
    {
      hide ShardOf, BelowShard, ValidStore;
      n := 0;
      NoShardBelow(State());
      for i := 0 to SHARD_COUNT
        invariant n == |BelowShard(State(), i)|
      {
        NextShard(State(), i);
        n := n + |shards[i]|;
      }
    }

    /** `totals`: the number of torrents, and the cardinalities of the sets of all seeding
        and all leeching peers. */
    method Sample() returns (totals: Totals)
      requires Valid()
      ensures totals.torrents == |State()|
      ensures totals.seeders == |PeersIn(State(), State().Keys, true)|
      ensures totals.leechers == |PeersIn(State(), State().Keys, false)|
    {
      hide ShardOf, BelowShard, InShard, ValidStore, PeersIn, Population;
      ghost var s := State();
      var found, seeders, leechers := 0, 0, 0;
      NoShardBelow(s);
      for i := 0 to SHARD_COUNT
        invariant found == |BelowShard(s, i)| && Population(s, BelowShard(s, i), seeders, leechers)
      {
        NextShard(s, i);
        ShardHolds(s, i);
        found := found + |shards[i]|;
        seeders, leechers := SampleShard(s, BelowShard(s, i), shards[i], seeders, leechers);
      }
      PopulationIs(s, s.Keys, seeders, leechers);
      totals := Totals(found, seeders, leechers);
    }
  }

  lemma ShardsAfterPut(s: StoreState, hash: InfoHash, t: TorrentState)
    ensures forall j :: ShardOf(s[hash := t], j) ==
                        if j == ShardIndex(hash) then ShardOf(s, j)[hash := t] else ShardOf(s, j)
  {
  }

  lemma ShardsAfterDrop(s: StoreState, hash: InfoHash)
    ensures forall j :: ShardOf(s - {hash}, j) ==
                        if j == ShardIndex(hash) then ShardOf(s, j) - {hash} else ShardOf(s, j)
  {
  }

  lemma OrderOfPeers(order: seq<Key>, p: Peers, numwant: nat)
    requires IsOrder(order, p.Keys)
    ensures MayList(p, numwant, Compact(order, Leeches(p), Seeds(p), numwant))
  {
    assert Leeches(p) + Seeds(p) == p.Keys;
    CompactIsReply(order, Leeches(p), Seeds(p), numwant);
  }

  ghost function BelowShard(s: StoreState, n: nat): set<InfoHash> {
    set h | h in s && ShardIndex(h) < n
  }

  lemma NoShardBelow(s: StoreState)
    ensures BelowShard(s, 0) == {} && BelowShard(s, SHARD_COUNT) == s.Keys && Population(s, {}, 0, 0)
  {
    assert PeersIn(s, {}, true) == {} && PeersIn(s, {}, false) == {};
  }

  lemma NextShard(s: StoreState, i: nat)
    ensures ShardOf(s, i).Keys == InShard(s, i) && BelowShard(s, i) !! InShard(s, i)
    ensures BelowShard(s, i + 1) == BelowShard(s, i) + ShardOf(s, i).Keys
    ensures |BelowShard(s, i + 1)| == |BelowShard(s, i)| + |ShardOf(s, i)|
  {
    assert BelowShard(s, i + 1) == BelowShard(s, i) + InShard(s, i);
    assert ShardOf(s, i).Keys == InShard(s, i);
  }

  /** A shard holds torrents of the store, and none of an earlier shard. */
  lemma ShardHolds(s: StoreState, i: nat)
    ensures forall h :: h in ShardOf(s, i) ==> h in s && ShardOf(s, i)[h] == s[h]
    ensures BelowShard(s, i) !! ShardOf(s, i).Keys
  {
  }

  lemma PopulationIs(s: StoreState, which: set<InfoHash>, seeders: nat, leechers: nat)
    requires Population(s, which, seeders, leechers)
    ensures seeders == |PeersIn(s, which, true)| && leechers == |PeersIn(s, which, false)|
  {
  }

  lemma SweepNothing(s: StoreState, now: u32)
    ensures SweepOp(s, {}, now) == s
  {
  }

  /** Sweeping two disjoint groups one after the other is sweeping their union. */
  lemma SweepMore(s: StoreState, a: set<InfoHash>, b: set<InfoHash>, now: u32)
    requires a !! b
    ensures SweepOp(SweepOp(s, a, now), b, now) == SweepOp(s, a + b, now)
  {
    var once := SweepOp(s, a, now);
    forall h | h in once && h in b ensures once[h] == s[h] {
    }
  }

  lemma SweepOne(s: StoreState, h: InfoHash, now: u32)
    requires h in s
    ensures SweepOp(s, {h}, now) == if Collected(s[h], now) then s - {h} else s[h := Swept(s[h], now)]
  {
  }

  lemma SweepNext(s: StoreState, all: set<InfoHash>, todo: set<InfoHash>, h: InfoHash, now: u32)
    requires h in todo && todo <= all <= s.Keys
    ensures h in SweepOp(s, all - todo, now)
    ensures SweepOp(SweepOp(s, all - todo, now), {h}, now) == SweepOp(s, all - (todo - {h}), now)
  {
    SweepMore(s, all - todo, {h}, now);
    assert all - todo + {h} == all - (todo - {h});
  }

  lemma SampleNext(s: StoreState, done: set<InfoHash>, h: InfoHash, seeders: nat, leechers: nat)
    requires ValidStore(s) && h in s && h !in done && Population(s, done, seeders, leechers)
    ensures s[h].v4.seeders == |Seeds(s[h].v4.peers)| && s[h].v6.seeders == |Seeds(s[h].v6.peers)|
    ensures Population(s, done + {h}, seeders + s[h].v4.seeders + s[h].v6.seeders,
                       leechers + s[h].v4.Leechers() + s[h].v6.Leechers())
  {
    PeersInGrows(s, done, h, true);
    PeersInGrows(s, done, h, false);
    PeersOfSize(s[h]);
  }

  /** Sweeping the next shard of a collection takes "shards below i" to "shards below i + 1". */
  lemma SweepNextShard(s: StoreState, before: StoreState, i: nat, now: u32)
    requires before == SweepOp(s, BelowShard(s, i), now)
    ensures SweepOp(before, InShard(before, i), now) == SweepOp(s, BelowShard(s, i + 1), now)
  {
    assert InShard(before, i) == InShard(s, i);
    SweepMore(s, BelowShard(s, i), InShard(s, i), now);
    assert BelowShard(s, i) + InShard(s, i) == BelowShard(s, i + 1);
  }
}
