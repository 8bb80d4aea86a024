/** One family's peer list of a torrent: the cached counters, the compact reply and expiry. */
module PeerLists {
  import opened Bytes
  import opened Core
  import opened Sequences
  import opened Replies

  datatype PeerVal = PeerVal(flags: Flags, seen: u32)

  type Peers = map<Key, PeerVal>

  function Seeds(p: Peers): set<Key> {
    set k | k in p && p[k].flags.seeding
  }

  function Dones(p: Peers): set<Key> {
    set k | k in p && p[k].flags.completed
  }

  /** The state of a list: who is resident, the cached seeder count, the download counter. */
  datatype ListState = ListState(peers: Peers, seeders: nat, downloaded: nat) {
    /** Every key has the list's width and the cached count is the number of seeding peers. */
    ghost predicate Valid(width: nat) {
      seeders == |Seeds(peers)| && forall k :: k in peers ==> |k| == width
    }

    /** Total peers minus cached seeders: never underflows, and is the number of peers not seeding. */
    function Leechers(): (n: nat)
      requires seeders == |Seeds(peers)|
      ensures n == |Leeches(peers)|
    {
      SeedsAreResident(peers);
      |peers| - seeders
    }
  }

  const EMPTY_LIST := ListState(map[], 0, 0)

  // ---------------------------------------------------------------- what the operations mean

  /** The flag byte a peer is stored with. */
  function StoredFlags(p: Peers, key: Key, flags: Flags): Flags {
    if key in p then KeepCompleted(Sanitize(flags), p[key].flags) else Sanitize(flags)
  }

  /** Whether this announce is the first of the peer's residency that really completes. */
  predicate NewlyDone(p: Peers, key: Key, flags: Flags) {
    flags.completed && flags.seeding && (key in p ==> !p[key].flags.completed)
  }

  lemma AnnouncedIs(s: ListState, key: Key, flags: Flags, now: u32)
    ensures var p := s.peers[key := PeerVal(StoredFlags(s.peers, key, flags), now)];
            Announced(s, key, flags, now) == ListState(p, |Seeds(p)|, s.downloaded + if NewlyDone(s.peers, key, flags) then 1 else 0)
  {
  }

  /** The two in terms of what the announce carries. */
  lemma FlagsStored(p: Peers, key: Key, flags: Flags)
    ensures StoredFlags(p, key, flags) ==
            Flags(flags.seeding, (flags.completed && flags.seeding) || (key in p && p[key].flags.completed), flags.others)
    ensures NewlyDone(p, key, flags) == (flags.completed && flags.seeding && (key in p ==> !p[key].flags.completed))
  {
  }

  function WithPeers(p: Peers, downloaded: nat): ListState {
    ListState(p, |Seeds(p)|, downloaded)
  }

  function Announced(s: ListState, key: Key, flags: Flags, now: u32): ListState {
    WithPeers(s.peers[key := PeerVal(StoredFlags(s.peers, key, flags), now)],
              s.downloaded + if NewlyDone(s.peers, key, flags) then 1 else 0)
  }

  function Removed(s: ListState, key: Key): ListState {
    WithPeers(s.peers - {key}, s.downloaded)
  }

  predicate Stale(v: PeerVal, now: u32, timeout: u32) {
    SatSub(now, v.seen) >= timeout
  }

  function Expired(s: ListState, now: u32, timeout: u32): ListState {
    WithPeers(map k | k in s.peers && !Stale(s.peers[k], now, timeout) :: s.peers[k], s.downloaded)
  }

  lemma {:induction false} SeedsOfUpdate(p: Peers, key: Key, v: PeerVal)
    ensures Seeds(p[key := v]) == if v.flags.seeding then Seeds(p) + {key} else Seeds(p) - {key}
    ensures Dones(p[key := v]) == if v.flags.completed then Dones(p) + {key} else Dones(p) - {key}
    ensures |Seeds(p[key := v])| ==
            |Seeds(p)| + (if v.flags.seeding && key !in Seeds(p) then 1 else 0)
            - (if !v.flags.seeding && key in Seeds(p) then 1 else 0)
  {
    SeedSetOfUpdate(p, key, v);
    SizeAfter(Seeds(p), key);
  }

  /** The same count from the flags before and after. */
  lemma SeederCount(p: Peers, key: Key, v: PeerVal)
    ensures var was := key in p && p[key].flags.seeding;
            && |Seeds(p[key := v])| == |Seeds(p)| + (if v.flags.seeding && !was then 1 else 0) - (if was && !v.flags.seeding then 1 else 0)
            && (was ==> |Seeds(p)| >= 1)
  {
    SeedsOfUpdate(p, key, v);
    if key in p && p[key].flags.seeding {
      assert key in Seeds(p);
    }
  }

  lemma SeedSetOfUpdate(p: Peers, key: Key, v: PeerVal)
    ensures Seeds(p[key := v]) == if v.flags.seeding then Seeds(p) + {key} else Seeds(p) - {key}
    ensures Dones(p[key := v]) == if v.flags.completed then Dones(p) + {key} else Dones(p) - {key}
  {
  }

  lemma SizeAfter<T>(s: set<T>, k: T)
    ensures |s + {k}| == |s| + if k in s then 0 else 1
    ensures |s - {k}| == |s| - if k in s then 1 else 0
  {
    if k in s {
      assert s + {k} == s;
    } else {
      assert s - {k} == s;
    }
  }

  lemma SeedsOfRemoval(p: Peers, key: Key)
    ensures Seeds(p - {key}) == Seeds(p) - {key} && Dones(p - {key}) == Dones(p) - {key}
    ensures |Seeds(p - {key})| == |Seeds(p)| - if key in Seeds(p) then 1 else 0
  {
    SizeAfter(Seeds(p), key);
    assert Seeds(p - {key}) == Seeds(p) - {key};
    assert Dones(p - {key}) == Dones(p) - {key};
  }

  lemma SeedsAreResident(p: Peers)
    ensures Seeds(p) + Leeches(p) == p.Keys && Seeds(p) !! Leeches(p)
    ensures |Seeds(p)| + |Leeches(p)| == |p|
  {
    assert p.Keys == Seeds(p) + Leeches(p);
    assert |p.Keys| == |p|;
  }

  // ---------------------------------------------------------------- the compact reply

  function Leeches(p: Peers): set<Key> {
    set k | k in p && !p[k].flags.seeding
  }

  /** The peer lists an announce may answer with: `numwant` of the residents, leechers first. */
  ghost predicate MayList(p: Peers, numwant: nat, keys: seq<Key>) {
    IsReply(Leeches(p), Seeds(p), numwant, keys)
  }

  /** In plain terms: as many different residents as wanted and possible, nobody who still downloads
      behind somebody who seeds, and nobody who seeds while one who downloads is left out. */
  lemma {:induction false} MayListIff(p: Peers, numwant: nat, keys: seq<Key>)
    ensures MayList(p, numwant, keys)
            <==> && |keys| == (if numwant < |p| then numwant else |p|)
                 && (forall i, j :: 0 <= i < j < |keys| ==> keys[i] != keys[j])
                 && (forall i :: 0 <= i < |keys| ==> keys[i] in p)
                 && (forall i, j :: 0 <= i < j < |keys| && p[keys[i]].flags.seeding ==> p[keys[j]].flags.seeding)
                 && forall i, k :: 0 <= i < |keys| && p[keys[i]].flags.seeding && k in p && !p[k].flags.seeding ==> k in keys
  {
    assert Leeches(p) + Seeds(p) == p.Keys && |p.Keys| == |p|;
  }

  /** What is listed next is resident, and in the group that its flags say. */
  lemma InOrder(order: seq<Key>, p: Peers, i: nat)
    requires IsOrder(order, p.Keys) && i < |order|
    ensures order[i] in p
    ensures order[i] in Seeds(p) <==> p[order[i]].flags.seeding
    ensures order[i] in Leeches(p) <==> !p[order[i]].flags.seeding
  {
    assert order[i] in order;
  }

  lemma NothingWritten(order: seq<Key>, l: set<Key>, s: set<Key>, start: seq<byte>)
    ensures Written(order, l, s, 0, 0) == [] && start + Concat([]) == start
  {
  }

  // ---------------------------------------------------------------- the list itself

  class PeerList {
    /** Bytes in a key: the `N` of the list's type. */
    ghost const width: nat
    var peers: Peers
    var seeders: nat
    var downloaded: nat

    ghost function State(): ListState
      reads this
    {
      ListState(peers, seeders, downloaded)
    }

    ghost predicate Valid()
      reads this
    {
      State().Valid(width)
    }

    /** Borrows the list that a torrent owns. */
    constructor (s: ListState, ghost width: nat)
      requires s.Valid(width)
      ensures Valid() && State() == s && this.width == width
    {
      this.width := width;
      peers, seeders, downloaded := s.peers, s.seeders, s.downloaded;
    }

    /** What the torrent owns again when the borrow ends. */
    function Release(): (s: ListState)
      reads this
      ensures s == State()
    {
      ListState(peers, seeders, downloaded)
    }

    method Announce(key: Key, flags0: Flags, now: u32)
      requires Valid() && |key| == width
      modifies this
      ensures Valid() && State() == Announced(old(State()), key, flags0, now)
    {
      hide Seeds, Dones, StoredFlags, NewlyDone, Announced, WithPeers;
      var flags := flags0;
      ghost var before := State();
      if flags.completed && !flags.seeding {
        flags := flags.(completed := false);
      }
      var isSeed := flags.seeding;
      if key in peers {
        var stored := peers[key];
        var wasSeed := stored.flags.seeding;
        if flags.completed && !stored.flags.completed {
          downloaded := downloaded + 1;
        }
        flags := flags.(completed := flags.completed || stored.flags.completed);
        SeederCount(peers, key, PeerVal(flags, now));
        if isSeed && !wasSeed {
          seeders := seeders + 1;
        } else if !isSeed && wasSeed {
          seeders := seeders - 1;
        }
      } else {
        if flags.completed {
          downloaded := downloaded + 1;
        }
        SeederCount(peers, key, PeerVal(flags, now));
        if isSeed {
          seeders := seeders + 1;
        }
      }
      FlagsStored(peers, key, flags0);
      peers := peers[key := PeerVal(flags, now)];
      AnnouncedIs(before, key, flags0, now);
    }

    method Remove(key: Key)
      requires Valid()
      modifies this
      ensures Valid() && State() == Removed(old(State()), key)
    {
      SeedsOfRemoval(peers, key);
      if key in peers {
        var stored := peers[key];
        peers := peers - {key};
        if stored.flags.seeding {
          seeders := seeders - 1;
        }
      } else {
        assert peers - {key} == peers;
      }
    }

    /** Appends up to `numwant` compact peers, leechers before seeders; `order` is the order in
        which the unmodified map happens to be iterated, the same in both passes. */
    method WriteCompact(order: seq<Key>, numwant: nat, out: ByteBuf)
      requires IsOrder(order, peers.Keys)
      modifies out
      ensures out.data == old(out.data) + Concat(Compact(order, Leeches(peers), Seeds(peers), numwant))
    {
      hide Written, Compact, Concat, Leeches, Seeds, IsOrder;
      var remaining: nat := numwant;
      ghost var l, s, start := Leeches(peers), Seeds(peers), out.data;
      ghost var written: seq<Key> := [];
      NothingWritten(order, l, s, start);
      for pass := 0 to 2
        invariant l == Leeches(peers) && s == Seeds(peers) && remaining + |written| == numwant
        invariant written == Written(order, l, s, pass, 0)
        invariant out.data == start + Concat(written)
      {
        for i := 0 to |order|
          invariant l == Leeches(peers) && s == Seeds(peers) && remaining + |written| == numwant
          invariant written == Written(order, l, s, pass, i)
          invariant out.data == start + Concat(written)
        {
          if remaining == 0 {
            WrittenIsPrefix(order, l, s, pass, i);
            return;
          }
          WrittenNext(order, l, s, pass, i);
          InOrder(order, peers, i);
          if peers[order[i]].flags.seeding == (pass == 1) {
            out.Extend(order[i]);
            ConcatPush(written, order[i]);
            Assoc(start, Concat(written), order[i]);
            written := written + [order[i]];
            remaining := remaining - 1;
          }
        }
        WrittenAll(order, l, s, pass);
      }
      WrittenIsPrefix(order, l, s, 2, 0);
      assert written == Compact(order, l, s, numwant);
    }

    method Expire(now: u32, timeout: u32)
      requires Valid()
      modifies this
      ensures Valid() && State() == Expired(old(State()), now, timeout)
    {
      ghost var kept := Expired(State(), now, timeout).peers;
      peers := map k | k in peers && SatSub(now, peers[k].seen) < timeout :: peers[k];
      assert peers == kept;
      seeders := |set k | k in peers && peers[k].flags.seeding|;
      assert Seeds(peers) == set k | k in peers && peers[k].flags.seeding;
    }
  }

  // ---------------------------------------------------------------- conservation of downloads

  datatype ListStep =
    | DoAnnounce(key: Key, flags: Flags, now: u32)
    | DoRemove(key: Key)
    | DoExpire(now: u32, timeout: u32)

  function ListAfter(s: ListState, step: ListStep): ListState {
    match step
    case DoAnnounce(key, flags, now) => Announced(s, key, flags, now)
    case DoRemove(key) => Removed(s, key)
    case DoExpire(now, timeout) => Expired(s, now, timeout)
  }

  function RunList(steps: seq<ListStep>): ListState {
    if steps == [] then EMPTY_LIST else ListAfter(RunList(steps[..|steps| - 1]), steps[|steps| - 1])
  }

  /** How many completed peers left the list, removed or expired, during the run. */
  function Departed(steps: seq<ListStep>): nat {
    if steps == [] then 0 else
      var before, after := RunList(steps[..|steps| - 1]), RunList(steps);
      Departed(steps[..|steps| - 1]) + |set k | k in Dones(before.peers) && k !in after.peers|
  }

  /** Every recorded download is a completed peer that is still here or has left: a residency
      counts at most once, and nothing that leaves takes its download away. */
  lemma {:induction false} DownloadsConserved(steps: seq<ListStep>)
    ensures RunList(steps).downloaded == |Dones(RunList(steps).peers)| + Departed(steps)
  {
    if steps == [] {
      assert Dones(map[]) == {};
    } else {
      DownloadsConserved(steps[..|steps| - 1]);
      StepConserves(RunList(steps[..|steps| - 1]), steps[|steps| - 1]);
    }
  }

  lemma StepConserves(before: ListState, step: ListStep)
    ensures var after := ListAfter(before, step);
            var gone := set k | k in Dones(before.peers) && k !in after.peers;
            after.downloaded + |Dones(before.peers)| == before.downloaded + |Dones(after.peers)| + |gone|
  {
    if step.DoAnnounce? {
      AnnounceConserves(before, step.key, step.flags, step.now);
    } else {
      KeptConserves(before.peers, ListAfter(before, step).peers);
    }
  }

  lemma AnnounceConserves(before: ListState, key: Key, flags: Flags, now: u32)
    ensures var after := Announced(before, key, flags, now);
            var gone := set k | k in Dones(before.peers) && k !in after.peers;
            after.downloaded + |Dones(before.peers)| == before.downloaded + |Dones(after.peers)| + |gone|
  {
    var after := Announced(before, key, flags, now);
    hide Seeds;
    SeedSetOfUpdate(before.peers, key, after.peers[key]);
    SizeAfter(Dones(before.peers), key);
    assert (set k | k in Dones(before.peers) && k !in after.peers) == {};
    assert key in Dones(before.peers) ==> key in Dones(after.peers);
  }

  /** Peers that stay keep their flags, so what is missing among the completed has left. */
  lemma KeptConserves(before: Peers, after: Peers)
    requires forall k :: k in after ==> k in before && after[k] == before[k]
    ensures var gone := set k | k in Dones(before) && k !in after;
            |Dones(before)| == |Dones(after)| + |gone|
  {
    var gone := set k | k in Dones(before) && k !in after;
    assert Dones(before) == Dones(after) + gone && Dones(after) !! gone;
  }

  // ---------------------------------------------------------------- one residency

  function ListRun(s: ListState, steps: seq<ListStep>): ListState
    decreases |steps|
  {
    if steps == [] then s else ListRun(ListAfter(s, steps[0]), steps[1..])
  }

  /** The peer is resident throughout. */
  predicate Stays(s: ListState, steps: seq<ListStep>, key: Key)
    decreases |steps|
  {
    key in s.peers && (steps == [] || Stays(ListAfter(s, steps[0]), steps[1..], key))
  }

  /** The downloads counted on account of the peer. */
  function Credited(s: ListState, steps: seq<ListStep>, key: Key): nat
    decreases |steps|
  {
    if steps == [] then 0 else
      var after := ListAfter(s, steps[0]);
      (if steps[0].DoAnnounce? && steps[0].key == key then SatSub(after.downloaded, s.downloaded) else 0)
      + Credited(after, steps[1..], key)
  }

  /** As long as a peer stays, it is counted at most once, and never again once it has completed; it
      is marked completed exactly if it was or has been counted, whatever it announces afterwards. */
  lemma {:induction false} OncePerResidency(s: ListState, steps: seq<ListStep>, key: Key)
    requires Stays(s, steps, key)
    ensures key in ListRun(s, steps).peers
    ensures var was, has := s.peers[key].flags.completed, ListRun(s, steps).peers[key].flags.completed;
            Credited(s, steps, key) == if has && !was then 1 else 0
    ensures s.peers[key].flags.completed ==> ListRun(s, steps).peers[key].flags.completed
    decreases |steps|
  {
    if steps != [] {
      OncePerResidency(ListAfter(s, steps[0]), steps[1..], key);
    }
  }
}
