/** The store against one flat map of peers: no torrents, no shards, no cached counters, and a
    collection that is nothing but a filter. */
module StoreFlat {
  import opened Bytes
  import opened Core
  import opened PeerLists
  import opened StoreSpec
  import opened StoreRuns

  datatype Flat = Flat(peers: map<Residence, PeerVal>, downloads: map<InfoHash, nat>)

  const FLAT_EMPTY := Flat(map[], map[])

  function DownloadsOf(f: Flat, hash: InfoHash): nat {
    if hash in f.downloads then f.downloads[hash] else 0
  }

  function FlatAfter(f: Flat, step: Step): Flat {
    match step
    case Serve(Join(hash, key, flags, _, now)) =>
      var r := Residence(hash, key);
      var was := r in f.peers && f.peers[r].flags.completed;
      var done := flags.completed && flags.seeding;
      Flat(f.peers[r := PeerVal(Flags(flags.seeding, done || was, flags.others), now)],
           if done && !was then f.downloads[hash := DownloadsOf(f, hash) + 1] else f.downloads)
    case Serve(Leave(hash, key, now)) =>
      f.(peers := f.peers - {Residence(hash, key)})
    case Serve(Look(_)) => f
    case Sweep(i, now) =>
      f.(peers := map r | r in f.peers && !(ShardIndex(r.hash) == i && f.peers[r].seen as int + 45 <= now as int) :: f.peers[r])
  }

  function Swarm(f: Flat, hash: InfoHash, seeding: bool): set<Residence> {
    set r | r in f.peers && r.hash == hash && f.peers[r].flags.seeding == seeding
  }

  function FlatCounts(f: Flat, hash: InfoHash): Counts {
    Counts(|Swarm(f, hash, true)| % 0x1_0000_0000, |Swarm(f, hash, false)| % 0x1_0000_0000,
           DownloadsOf(f, hash) % 0x1_0000_0000)
  }

  /** The residents of a torrent in the family of `key`. */
  function FlatPeers(f: Flat, hash: InfoHash, key: Key): Peers {
    map r | r in f.peers && r.hash == hash && |r.key| == |key| :: r.key := f.peers[r]
  }

  ghost function FlatAnswer(f: Flat, req: Request): Answer {
    var after := FlatAfter(f, Serve(req));
    Answer(FlatCounts(after, req.hash),
           if req.Join? then ListsOf(FlatPeers(after, req.hash, req.key), req.numwant) else iset{[]})
  }

  function FlatRun(f: Flat, steps: seq<Step>): Flat
    decreases |steps|
  {
    if steps == [] then f else FlatRun(FlatAfter(f, steps[0]), steps[1..])
  }

  ghost function FlatAnswers(f: Flat, steps: seq<Step>): seq<(Request, Answer)>
    decreases |steps|
  {
    if steps == [] then [] else
      (if steps[0].Serve? then [(steps[0].req, FlatAnswer(f, steps[0].req))] else [])
      + FlatAnswers(FlatAfter(f, steps[0]), steps[1..])
  }

  // ---------------------------------------------------------------- the correspondence

  /** The same peers with the same values, and the same downloads; torrents without either may be
      there or not. */
  ghost predicate Same(s: StoreState, f: Flat) {
    && (forall h, k :: Residence(h, k) in f.peers <==> k in PeersAt(s, h, k))
    && (forall h, k :: Residence(h, k) in f.peers ==> f.peers[Residence(h, k)] == PeersAt(s, h, k)[k])
    && (forall h :: DownloadsOf(f, h) == DownloadsAt(s, h))
  }

  lemma ExpiredValid(l: ListState, now: u32, timeout: u32, width: nat)
    requires l.Valid(width)
    ensures Expired(l, now, timeout).Valid(width)
  {
  }

  lemma StepKeepsValid(s: StoreState, step: Step)
    requires ValidStore(s)
    ensures ValidStore(After(s, step))
  {
    NewTorrentValid();
    forall h | h in s
      ensures forall now :: Swept(s[h], now).Valid()
    {
      forall now ensures Swept(s[h], now).Valid() {
        ExpiredValid(s[h].v4, now, PEER_TIMEOUT_MINUTES, V4_LEN);
        ExpiredValid(s[h].v6, now, PEER_TIMEOUT_MINUTES, V6_LEN);
      }
    }
  }

  lemma JoinKeepsSame(s: StoreState, f: Flat, hash: InfoHash, key: Key, flags: Flags, numwant: nat, now: u32)
    requires Same(s, f)
    ensures Same(AnnounceOp(s, hash, key, flags, now), FlatAfter(f, Serve(Join(hash, key, flags, numwant, now))))
  {
    hide AnnounceOp, PeersAt, StoredFlags, DownloadsAt, NewlyDone;
    var s', f' := AnnounceOp(s, hash, key, flags, now), FlatAfter(f, Serve(Join(hash, key, flags, numwant, now)));
    JoinFlat(s, f, hash, key, flags, numwant, now);
    forall h, k
      ensures PeersAt(s', h, k) == JoinedPeers(s, hash, key, flags, now, h, k)
      ensures |k| == |key| ==> PeersAt(s, h, k) == PeersAt(s, h, key)
    {
      PeersAfterJoin(s, hash, key, flags, now, h, k);
    }
    forall h ensures DownloadsOf(f', h) == DownloadsAt(s', h) {
      assert DownloadsOf(f, h) == DownloadsAt(s, h);
      PeersAfterJoin(s, hash, key, flags, now, h, key);
    }
  }

  function JoinedPeers(s: StoreState, hash: InfoHash, key: Key, flags: Flags, now: u32, h: InfoHash, k: Key): Peers {
    var p := PeersAt(s, hash, key);
    if h == hash && |k| == |key| then p[key := PeerVal(StoredFlags(p, key, flags), now)] else PeersAt(s, h, k)
  }

  /** An announce touches one family of one torrent. */
  lemma PeersAfterJoin(s: StoreState, hash: InfoHash, key: Key, flags: Flags, now: u32, h: InfoHash, k: Key)
    ensures var s', p := AnnounceOp(s, hash, key, flags, now), PeersAt(s, hash, key);
            && PeersAt(s', h, k) == JoinedPeers(s, hash, key, flags, now, h, k)
            && (|k| == |key| ==> PeersAt(s, h, k) == PeersAt(s, h, key))
            && DownloadsAt(s', h) == DownloadsAt(s, h) + if h == hash && NewlyDone(p, key, flags) then 1 else 0
  {
  }

  lemma JoinFlat(s: StoreState, f: Flat, hash: InfoHash, key: Key, flags: Flags, numwant: nat, now: u32)
    requires Same(s, f)
    ensures var f', p := FlatAfter(f, Serve(Join(hash, key, flags, numwant, now))), PeersAt(s, hash, key);
            && f'.peers == f.peers[Residence(hash, key) := PeerVal(StoredFlags(p, key, flags), now)]
            && forall h :: DownloadsOf(f', h) == DownloadsOf(f, h) + if h == hash && NewlyDone(p, key, flags) then 1 else 0
  {
    hide PeersAt;
    assert Residence(hash, key) in f.peers <==> key in PeersAt(s, hash, key);
  }

  lemma LeaveKeepsSame(s: StoreState, f: Flat, hash: InfoHash, key: Key, now: u32)
    requires Same(s, f)
    ensures Same(RemoveOp(s, hash, key, now), FlatAfter(f, Serve(Leave(hash, key, now))))
  {
    var s', f' := RemoveOp(s, hash, key, now), FlatAfter(f, Serve(Leave(hash, key, now)));
    assert forall h, k :: PeersAt(s', h, k) == if h == hash && |k| == |key| then PeersAt(s, h, k) - {key} else PeersAt(s, h, k);
    forall h ensures DownloadsOf(f', h) == DownloadsAt(s', h) {
      assert DownloadsOf(f, h) == DownloadsAt(s, h);
    }
  }

  lemma SweepKeepsSame(s: StoreState, f: Flat, i: nat, now: u32)
    requires Same(s, f)
    ensures Same(SweepOp(s, InShard(s, i), now), FlatAfter(f, Sweep(i, now)))
  {
    var s', f' := SweepOp(s, InShard(s, i), now), FlatAfter(f, Sweep(i, now));
    forall h, k
      ensures k in PeersAt(s', h, k) <==>
              k in PeersAt(s, h, k) && !(ShardIndex(h) == i && Stale(PeersAt(s, h, k)[k], now, PEER_TIMEOUT_MINUTES))
      ensures k in PeersAt(s', h, k) ==> PeersAt(s', h, k)[k] == PeersAt(s, h, k)[k]
    {
      SweepOfPeer(s, i, now, h, k);
    }
    forall h ensures DownloadsOf(f', h) == DownloadsAt(s', h) {
      assert DownloadsOf(f, h) == DownloadsAt(s, h);
    }
  }

  lemma SweepOfPeer(s: StoreState, i: nat, now: u32, h: InfoHash, k: Key)
    ensures var s' := SweepOp(s, InShard(s, i), now);
            && (k in PeersAt(s', h, k) <==>
                k in PeersAt(s, h, k) && !(ShardIndex(h) == i && Stale(PeersAt(s, h, k)[k], now, PEER_TIMEOUT_MINUTES)))
            && (k in PeersAt(s', h, k) ==> PeersAt(s', h, k)[k] == PeersAt(s, h, k)[k])
  {
    if h in s && ShardIndex(h) == i {
      var swept := Swept(s[h], now).ListOf(k).peers;
      assert k in swept <==> k in PeersAt(s, h, k) && !Stale(PeersAt(s, h, k)[k], now, PEER_TIMEOUT_MINUTES);
      if Collected(s[h], now) {
        assert swept == map[];
      }
    }
  }

  lemma {:induction false} StepKeepsSame(s: StoreState, f: Flat, step: Step)
    requires Same(s, f)
    ensures Same(After(s, step), FlatAfter(f, step))
  {
    match step
    case Serve(Join(hash, key, flags, numwant, now)) => JoinKeepsSame(s, f, hash, key, flags, numwant, now);
    case Serve(Leave(hash, key, now)) => LeaveKeepsSame(s, f, hash, key, now);
    case Serve(Look(_)) =>
    case Sweep(i, now) => SweepKeepsSame(s, f, i, now);
  }

  /** Cached counters are cardinalities over the flat map. */
  lemma SameCounts(s: StoreState, f: Flat, hash: InfoHash)
    requires ValidStore(s) && Same(s, f)
    ensures CountsAt(s, hash) == FlatCounts(f, hash)
  {
    assert DownloadsOf(f, hash) == DownloadsAt(s, hash);
    SwarmSize(s, f, hash, true);
    SwarmSize(s, f, hash, false);
    if hash in s {
      PeersOfSize(s[hash]);
      SplitCounts(s[hash], |Swarm(f, hash, true)|, |Swarm(f, hash, false)|);
    }
  }

  lemma SplitCounts(t: TorrentState, seeders: nat, leechers: nat)
    requires seeders == |Seeds(t.v4.peers)| + |Seeds(t.v6.peers)|
    requires leechers == |Leeches(t.v4.peers)| + |Leeches(t.v6.peers)|
    ensures CountsOf(t) == Counts(ToU32(seeders), ToU32(leechers), ToU32(t.Downloads()))
  {
  }

  lemma SwarmSize(s: StoreState, f: Flat, hash: InfoHash, seeding: bool)
    requires ValidStore(s) && Same(s, f)
    ensures |Swarm(f, hash, seeding)| == if hash in s then |PeersOf(s[hash], seeding)| else 0
  {
    forall r ensures r in Swarm(f, hash, seeding) <==> hash in s && r in Tagged(hash, PeersOf(s[hash], seeding)) {
      SameMember(s, f, hash, r, seeding);
    }
    if hash in s {
      TaggedSize(hash, PeersOf(s[hash], seeding));
      assert Swarm(f, hash, seeding) == Tagged(hash, PeersOf(s[hash], seeding));
    } else {
      assert Swarm(f, hash, seeding) == {};
    }
  }

  lemma SameMember(s: StoreState, f: Flat, hash: InfoHash, r: Residence, seeding: bool)
    requires ValidStore(s) && Same(s, f)
    ensures r in Swarm(f, hash, seeding) <==> hash in s && r in Tagged(hash, PeersOf(s[hash], seeding))
  {
    assert r == Residence(r.hash, r.key);
    assert r in f.peers <==> r.key in PeersAt(s, r.hash, r.key);
    if r.hash == hash && hash in s {
      MemberOf(s[hash], r.key, seeding);
    }
  }

  /** A peer of one of the two families is in the list that its key's width names. */
  lemma MemberOf(t: TorrentState, key: Key, seeding: bool)
    requires t.Valid()
    ensures key in PeersOf(t, seeding) <==>
            key in t.ListOf(key).peers && t.ListOf(key).peers[key].flags.seeding == seeding
  {
    assert key in t.v4.peers ==> |key| == V4_LEN;
    assert key in t.v6.peers ==> |key| == V6_LEN;
    InParts(t.v4.peers, key);
    InParts(t.v6.peers, key);
    hide Seeds, Leeches, t.Valid;
  }

  lemma InParts(p: Peers, key: Key)
    ensures key in Seeds(p) <==> key in p && p[key].flags.seeding
    ensures key in Leeches(p) <==> key in p && !p[key].flags.seeding
  {
  }

  /** The sampled totals are the numbers of seeding and leeching peers of the flat map. */
  lemma TotalsAreFlat(s: StoreState, f: Flat, seeding: bool)
    requires ValidStore(s) && Same(s, f)
    ensures PeersIn(s, s.Keys, seeding) == set r | r in f.peers && f.peers[r].flags.seeding == seeding
  {
    forall r ensures r in PeersIn(s, s.Keys, seeding) <==> r in f.peers && f.peers[r].flags.seeding == seeding {
      SameMember(s, f, r.hash, r, seeding);
      assert r == Residence(r.hash, r.key);
    }
  }

  lemma SamePeers(s: StoreState, f: Flat, hash: InfoHash, key: Key)
    requires ValidStore(s) && Same(s, f)
    ensures PeersAt(s, hash, key) == FlatPeers(f, hash, key)
  {
    var p, q := PeersAt(s, hash, key), FlatPeers(f, hash, key);
    forall k ensures k in p <==> k in q {
      if k in p {
        assert |k| == |key|;
        assert Residence(hash, k) in f.peers;
      }
      if k in q {
        assert Residence(hash, k) in f.peers;
      }
    }
    forall k | k in p ensures p[k] == q[k] {
      assert |k| == |key|;
      assert Residence(hash, k) in f.peers;
    }
  }

  lemma SameAnswer(s: StoreState, f: Flat, req: Request)
    requires ValidStore(s) && Same(s, f)
    ensures AnswerTo(s, req) == FlatAnswer(f, req)
  {
    var step := Serve(req);
    StepKeepsValid(s, step);
    StepKeepsSame(s, f, step);
    SameCounts(After(s, step), FlatAfter(f, step), req.hash);
    if req.Join? {
      SamePeers(After(s, step), FlatAfter(f, step), req.hash, req.key);
    }
  }

  /** In every run, with collections cutting in between any two requests, the sharded store with its
      cached counters answers exactly as the flat map does. */
  lemma {:induction false} FlatRefined(s: StoreState, f: Flat, steps: seq<Step>)
    requires ValidStore(s) && Same(s, f)
    ensures Answers(s, steps) == FlatAnswers(f, steps)
    ensures ValidStore(Run(s, steps)) && Same(Run(s, steps), FlatRun(f, steps))
    decreases |steps|
  {
    if steps != [] {
      StepKeepsValid(s, steps[0]);
      StepKeepsSame(s, f, steps[0]);
      if steps[0].Serve? {
        SameAnswer(s, f, steps[0].req);
      }
      FlatRefined(After(s, steps[0]), FlatAfter(f, steps[0]), steps[1..]);
    }
  }

  /** From start-up on. */
  lemma FlatRefinedFromStart(steps: seq<Step>)
    ensures Answers(map[], steps) == FlatAnswers(FLAT_EMPTY, steps)
    ensures ValidStore(Run(map[], steps)) && Same(Run(map[], steps), FlatRun(FLAT_EMPTY, steps))
  {
    FlatRefined(map[], FLAT_EMPTY, steps);
  }

  // ---------------------------------------------------------------- collected torrents are not missed

  function AllResidences(s: StoreState): set<Residence> {
    set h, k | h in s && k in s[h].v4.peers.Keys + s[h].v6.peers.Keys :: Residence(h, k)
  }

  /** The flat map of a store. */
  ghost function FlatOf(s: StoreState): Flat {
    Flat(map r | r in AllResidences(s) && r.key in PeersAt(s, r.hash, r.key) :: PeersAt(s, r.hash, r.key)[r.key],
         map h | h in s :: s[h].Downloads())
  }

  lemma FlatOfIsSame(s: StoreState)
    ensures Same(s, FlatOf(s))
  {
    forall h, k ensures Residence(h, k) in FlatOf(s).peers <==> k in PeersAt(s, h, k) {
      if k in PeersAt(s, h, k) {
        assert Residence(h, k) in AllResidences(s);
      }
    }
  }

  function ExpireOnly(s: StoreState, now: u32): StoreState {
    map h | h in s :: Swept(s[h], now)
  }

  /** Dropping idle empty torrents is unobservable: after a collection and after a mere expiry of
      peers every possible future is answered alike. */
  lemma CollectionUnobservable(s: StoreState, now: u32, steps: seq<Step>)
    requires ValidStore(s)
    ensures Answers(GcOp(s, now), steps) == Answers(ExpireOnly(s, now), steps)
  {
    var f := FlatOf(ExpireOnly(s, now));
    FlatOfIsSame(ExpireOnly(s, now));
    KeptIsSame(s, f, now);
    SweptStoreValid(s, now);
    FlatRefined(GcOp(s, now), f, steps);
    FlatRefined(ExpireOnly(s, now), f, steps);
  }

  lemma SweptStoreValid(s: StoreState, now: u32)
    requires ValidStore(s)
    ensures ValidStore(GcOp(s, now)) && ValidStore(ExpireOnly(s, now))
  {
    forall h | h in s ensures Swept(s[h], now).Valid() {
      ExpiredValid(s[h].v4, now, PEER_TIMEOUT_MINUTES, V4_LEN);
      ExpiredValid(s[h].v6, now, PEER_TIMEOUT_MINUTES, V6_LEN);
    }
  }

  lemma KeptIsSame(s: StoreState, f: Flat, now: u32)
    requires Same(ExpireOnly(s, now), f)
    ensures Same(GcOp(s, now), f)
  {
    var kept, all := GcOp(s, now), ExpireOnly(s, now);
    forall h ensures DownloadsOf(f, h) == DownloadsAt(kept, h) {
      assert DownloadsOf(f, h) == DownloadsAt(all, h);
    }
    assert forall h, k :: PeersAt(kept, h, k) == PeersAt(all, h, k);
  }
}
