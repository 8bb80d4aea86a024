/** The operations of the store in plain terms: for each step which peers, counters and times of which
    torrents it changes, and for whole runs when a peer is resident. */
module StoreEffects {
  import opened Bytes
  import opened Core
  import opened PeerLists
  import opened StoreSpec
  import opened StoreRuns
  import StoreFlat

  /** What is stored of a peer of a torrent. */
  function Here(s: StoreState, h: InfoHash, k: Key): Option<PeerVal> {
    if h !in s then None
    else if |k| == 6 then (if k in s[h].v4.peers then Some(s[h].v4.peers[k]) else None)
    else if k in s[h].v6.peers then Some(s[h].v6.peers[k]) else None
  }

  /** The shard of a torrent: the top ten bits of its hash. */
  function Top10(h: InfoHash): nat {
    h[0] as int * 4 + h[1] as int / 64
  }

  lemma {:induction false} ShardIsTop10(h: InfoHash)
    ensures ShardIndex(h) == Top10(h) < 1024
  {
    BigEndian(h[..4]);
    assert h[..4][0] == h[0] && h[..4][1] == h[1] && h[..4][2] == h[2] && h[..4][3] == h[3];
  }

  // ---------------------------------------------------------------- one step

  /** An announce registers one peer with its flags and the minute, keeps a completion it had, counts a
      download at a first real one, and marks the torrent as active; nothing else changes. */
  lemma JoinEffect(s: StoreState, hash: InfoHash, key: Key, flags: Flags, numwant: nat, now: u32, h: InfoHash, k: Key)
    ensures var t := After(s, Serve(Join(hash, key, flags, numwant, now)));
            var was := Here(s, hash, key).Some? && Here(s, hash, key).value.flags.completed;
            var done := flags.completed && flags.seeding;
            && t.Keys == s.Keys + {hash} && t[hash].base == now
            && (h != hash && h in s ==> t[h] == s[h])
            && Here(t, h, k) == (if h == hash && k == key
                                 then Some(PeerVal(Flags(flags.seeding, done || was, flags.others), now)) else Here(s, h, k))
            && t[hash].v4.downloaded + t[hash].v6.downloaded ==
               (if hash in s then s[hash].v4.downloaded + s[hash].v6.downloaded else 0) + if done && !was then 1 else 0
  {
  }

  /** A goodbye removes one peer of a known torrent, which it marks as active, and creates nothing. */
  lemma LeaveEffect(s: StoreState, hash: InfoHash, key: Key, now: u32, h: InfoHash, k: Key)
    ensures var t := After(s, Serve(Leave(hash, key, now)));
            && t.Keys == s.Keys && (h != hash && h in s ==> t[h] == s[h])
            && Here(t, h, k) == (if h == hash && k == key then None else Here(s, h, k))
            && (hash in s ==> t[hash].base == now && t[hash].v4.downloaded == s[hash].v4.downloaded
                              && t[hash].v6.downloaded == s[hash].v6.downloaded)
  {
  }

  /** A peer of a torrent is not there, or was last seen forty-five minutes or more before. */
  predicate Outdated(v: Option<PeerVal>, now: u32) {
    v.Some? ==> v.value.seen as int + 45 <= now as int
  }

  /** The collector's visit to a shard, at minute `now`: there a peer stays exactly if it was last seen
      less than forty-five minutes ago, with its value; other shards are as they were. */
  lemma {:induction false} SweepEffect(s: StoreState, i: nat, now: u32, h: InfoHash, k: Key)
    requires ValidStore(s)
    ensures var t := After(s, Sweep(i, now));
            && Here(t, h, k) == (if Top10(h) == i && Outdated(Here(s, h, k), now) then None else Here(s, h, k))
            && (Top10(h) != i ==> (h in t <==> h in s) && (h in s ==> t[h] == s[h]))
            && (h in t ==> h in s && t[h].base == s[h].base && t[h].v4.downloaded == s[h].v4.downloaded
                           && t[h].v6.downloaded == s[h].v6.downloaded)
  {
    ShardIsTop10(h);
    if h in s {
      SweptLists(s[h], now, k);
      SweptNobody(s[h], now);
    }
  }

  lemma SweptLists(t: TorrentState, now: u32, k: Key)
    ensures var w := Swept(t, now);
            && (k in w.v4.peers <==> k in t.v4.peers && t.v4.peers[k].seen as int + 45 > now as int)
            && (k in w.v6.peers <==> k in t.v6.peers && t.v6.peers[k].seen as int + 45 > now as int)
            && (k in w.v4.peers ==> w.v4.peers[k] == t.v4.peers[k]) && (k in w.v6.peers ==> w.v6.peers[k] == t.v6.peers[k])
  {
  }

  lemma SweptNobody(t: TorrentState, now: u32)
    ensures Swept(t, now).base == t.base
    ensures Swept(t, now).v4.downloaded == t.v4.downloaded && Swept(t, now).v6.downloaded == t.v6.downloaded
    ensures Collected(t, now) ==> Swept(t, now).v4.peers == map[] && Swept(t, now).v6.peers == map[]
  {
  }

  /** And a torrent of the shard is dropped exactly if it keeps nobody, never had a download, and was
      last announced to, or left, twenty-four hours ago or more. */
  lemma {:induction false} DroppedIff(s: StoreState, i: nat, now: u32, h: InfoHash)
    requires ValidStore(s) && h in s && Top10(h) == i
    ensures h !in After(s, Sweep(i, now))
            <==> && (forall k :: Outdated(Here(s, h, k), now))
                 && s[h].v4.downloaded == 0 && s[h].v6.downloaded == 0
                 && s[h].base as int + 24 * 60 <= now as int
  {
    ShardIsTop10(h);
    var t, w := s[h], Swept(s[h], now);
    forall k ensures Outdated(Here(s, h, k), now) <==> k !in w.v4.peers && k !in w.v6.peers {
      SweptLists(t, now, k);
    }
    if w.v4.peers != map[] {
      var k :| k in w.v4.peers;
      assert !Outdated(Here(s, h, k), now);
    } else if w.v6.peers != map[] {
      var k :| k in w.v6.peers;
      assert !Outdated(Here(s, h, k), now);
    }
  }

  // ---------------------------------------------------------------- counters

  /** The counters of a torrent count its peers of both families, those seeding and those not, and its
      downloads, each modulo 2^32. */
  lemma {:induction false} CountersCount(s: StoreState, h: InfoHash)
    requires ValidStore(s)
    ensures h !in s ==> CountsAt(s, h) == Counts(0, 0, 0)
    ensures h in s ==>
              var t := s[h];
              var all := t.v4.peers.Keys + t.v6.peers.Keys;
              && CountsAt(s, h).complete == |set k | k in all && Here(s, h, k).value.flags.seeding| % 0x1_0000_0000
              && CountsAt(s, h).incomplete == |set k | k in all && !Here(s, h, k).value.flags.seeding| % 0x1_0000_0000
              && CountsAt(s, h).downloaded == (t.v4.downloaded + t.v6.downloaded) % 0x1_0000_0000
  {
    if h in s {
      PeersOfSize(s[h]);
      SuchPeers(s, h);
      hide Here, PeersOf, Seeds, Leeches, ValidStore;
      assert CountsAt(s, h) == CountsOf(s[h]);
    }
  }

  lemma {:induction false} SuchPeers(s: StoreState, h: InfoHash)
    requires h in s && s[h].Valid()
    ensures var all := s[h].v4.peers.Keys + s[h].v6.peers.Keys;
            && (forall k :: k in all ==> Here(s, h, k).Some?)
            && PeersOf(s[h], true) == (set k | k in all && Here(s, h, k).value.flags.seeding)
            && PeersOf(s[h], false) == (set k | k in all && !Here(s, h, k).value.flags.seeding)
  {
    var t := s[h];
    forall k ensures k in t.v4.peers ==> |k| == 6 {
    }
    forall k ensures k in t.v6.peers ==> |k| == 18 {
    }
  }

  // ---------------------------------------------------------------- residency over runs

  predicate Announces(step: Step, hash: InfoHash, key: Key) {
    step.Serve? && step.req.Join? && step.req.hash == hash && step.req.key == key
  }

  predicate SaysGoodbye(step: Step, hash: InfoHash, key: Key) {
    step.Serve? && step.req.Leave? && step.req.hash == hash && step.req.key == key
  }

  /** The step ends the residency of a peer last seen at minute `seen`: its goodbye, or a visit of the
      collector to its shard forty-five minutes later or more. */
  predicate Ends(step: Step, hash: InfoHash, key: Key, seen: u32) {
    SaysGoodbye(step, hash, key) || (step.Sweep? && step.shard == Top10(hash) && step.at as int >= seen as int + 45)
  }

  lemma {:induction false} StepOnPeer(s: StoreState, step: Step, hash: InfoHash, key: Key)
    requires ValidStore(s) && !Announces(step, hash, key)
    ensures ValidStore(After(s, step))
    ensures var v := Here(s, hash, key);
            Here(After(s, step), hash, key) == if v.Some? && Ends(step, hash, key, v.value.seen) then None else v
  {
    hide After, Here, Top10;
    StoreFlat.StepKeepsValid(s, step);
    match step {
      case Serve(Join(h, k, flags, numwant, now)) => JoinEffect(s, h, k, flags, numwant, now, hash, key);
      case Serve(Leave(h, k, now)) => LeaveEffect(s, h, k, now, hash, key);
      case Serve(Look(h)) => LookEffect(s, h);
      case Sweep(i, now) => SweepEffect(s, i, now, hash, key);
    }
  }

  lemma LookEffect(s: StoreState, h: InfoHash)
    ensures After(s, Serve(Look(h))) == s
  {
  }

  ghost predicate NoAnnounce(steps: seq<Step>, hash: InfoHash, key: Key) {
    forall n :: 0 <= n < |steps| ==> !Announces(steps[n], hash, key)
  }

  ghost predicate SomeEnds(steps: seq<Step>, hash: InfoHash, key: Key, seen: u32) {
    exists n :: 0 <= n < |steps| && Ends(steps[n], hash, key, seen)
  }

  lemma SomeEndsCons(steps: seq<Step>, hash: InfoHash, key: Key, seen: u32)
    requires steps != []
    ensures SomeEnds(steps, hash, key, seen) <==> Ends(steps[0], hash, key, seen) || SomeEnds(steps[1..], hash, key, seen)
  {
    hide Ends;
    if n :| 0 <= n < |steps| && Ends(steps[n], hash, key, seen) {
      if n > 0 {
        assert steps[1..][n - 1] == steps[n];
      }
    }
    if n :| 0 <= n < |steps[1..]| && Ends(steps[1..][n], hash, key, seen) {
      assert steps[n + 1] == steps[1..][n];
    }
  }

  /** A peer that does not announce stays exactly until it says goodbye or the collector comes to its
      shard forty-five minutes after its last announce or later; until then its value is untouched. */
  lemma {:induction false} StaysIff(s: StoreState, steps: seq<Step>, hash: InfoHash, key: Key)
    requires ValidStore(s) && NoAnnounce(steps, hash, key)
    ensures var v := Here(s, hash, key);
            Here(Run(s, steps), hash, key) == if v.Some? && SomeEnds(steps, hash, key, v.value.seen) then None else v
    decreases |steps|
  {
    hide After, Here, Ends, Announces, SomeEnds;
    var v := Here(s, hash, key);
    if steps == [] {
      NothingEnds(hash, key, if v.Some? then v.value.seen else 0);
    } else {
      assert forall n :: 0 <= n < |steps[1..]| ==> steps[1..][n] == steps[n + 1];
      StepOnPeer(s, steps[0], hash, key);
      StaysIff(After(s, steps[0]), steps[1..], hash, key);
      SomeEndsCons(steps, hash, key, if v.Some? then v.value.seen else 0);
    }
  }

  lemma NothingEnds(hash: InfoHash, key: Key, seen: u32)
    ensures !SomeEnds([], hash, key, seen)
  {
  }

  /** Whatever came before, a peer whose last announce was at minute `t` is resident, with that minute,
      exactly if nothing since has ended its residency. */
  lemma {:induction false} ResidentIff(s: StoreState, early: seq<Step>, hash: InfoHash, key: Key, flags: Flags, numwant: nat, t: u32,
                                       late: seq<Step>)
    requires ValidStore(s) && NoAnnounce(late, hash, key)
    ensures var v := Here(Run(s, early + [Serve(Join(hash, key, flags, numwant, t))] + late), hash, key);
            (v.Some? <==> !SomeEnds(late, hash, key, t)) && (v.Some? ==> v.value.seen == t && v.value.flags.seeding == flags.seeding)
  {
    hide After, Here, Ends, Announces, SomeEnds, StoreFlat.Same;
    var join := Serve(Join(hash, key, flags, numwant, t));
    var before := Run(s, early);
    StoreFlat.FlatOfIsSame(s);
    StoreFlat.FlatRefined(s, StoreFlat.FlatOf(s), early);
    StoreFlat.StepKeepsValid(before, join);
    RunAppend(s, early + [join], late);
    RunAppend(s, early, [join]);
    assert Run(before, [join]) == After(before, join) by {
      assert [join][1..] == [];
    }
    JoinEffect(before, hash, key, flags, numwant, t, hash, key);
    StaysIff(After(before, join), late, hash, key);
  }

  /** A peer that keeps announcing is never lost to the collector: while it says no goodbye, announces
      no earlier than `t` and every visit to its shard is before `t + 45`, it stays. */
  lemma {:induction false} ResidentWhileFresh(s: StoreState, steps: seq<Step>, hash: InfoHash, key: Key, t: u32)
    requires ValidStore(s) && Here(s, hash, key).Some? && Here(s, hash, key).value.seen >= t
    requires forall n :: 0 <= n < |steps| ==>
               && !SaysGoodbye(steps[n], hash, key)
               && (Announces(steps[n], hash, key) ==> steps[n].req.now >= t)
               && (steps[n].Sweep? && steps[n].shard == Top10(hash) ==> steps[n].at as int < t as int + 45)
    ensures Here(Run(s, steps), hash, key).Some? && Here(Run(s, steps), hash, key).value.seen >= t
    decreases |steps|
  {
    hide After, Here, Top10;
    if steps != [] {
      var step := steps[0];
      if Announces(step, hash, key) {
        StoreFlat.StepKeepsValid(s, step);
        JoinEffect(s, hash, key, step.req.flags, step.req.numwant, step.req.now, hash, key);
      } else {
        StepOnPeer(s, step, hash, key);
      }
      ResidentWhileFresh(After(s, step), steps[1..], hash, key, t);
    }
  }
}
