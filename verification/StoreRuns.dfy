/** Runs of the store: requests and the critical sections of a collection, each atomic on one shard,
    in any interleaving. */
module StoreRuns {
  import opened Bytes
  import opened Core
  import opened Sequences
  import opened PeerLists
  import opened StoreSpec
  import opened Stores

  datatype Request =
    | Join(hash: InfoHash, key: Key, flags: Flags, numwant: nat, now: u32)
    | Leave(hash: InfoHash, key: Key, now: u32)
    | Look(hash: InfoHash)

  /** One critical section: a request, or the collector's visit to one shard. */
  datatype Step = Serve(req: Request) | Sweep(shard: nat, at: u32)

  /** What a request may be answered: the counters, and every peer list the map's iteration order
      could make of the residents. */
  datatype Answer = Answer(counts: Counts, lists: iset<seq<Key>>)

  function Target(step: Step): nat {
    match step
    case Serve(req) => ShardIndex(req.hash)
    case Sweep(i, _) => i
  }

  function After(s: StoreState, step: Step): StoreState {
    match step
    case Serve(Join(hash, key, flags, _, now)) => AnnounceOp(s, hash, key, flags, now)
    case Serve(Leave(hash, key, now)) => RemoveOp(s, hash, key, now)
    case Serve(Look(_)) => s
    case Sweep(i, now) => SweepOp(s, InShard(s, i), now)
  }

  ghost function ListsOf(p: Peers, numwant: nat): iset<seq<Key>> {
    iset keys | MayList(p, numwant, keys)
  }

  ghost function AnswerTo(s: StoreState, req: Request): Answer {
    var after := After(s, Serve(req));
    Answer(CountsAt(after, req.hash),
           if req.Join? then ListsOf(PeersAt(after, req.hash, req.key), req.numwant) else iset{[]})
  }

  function Run(s: StoreState, steps: seq<Step>): StoreState
    decreases |steps|
  {
    if steps == [] then s else Run(After(s, steps[0]), steps[1..])
  }

  /** The requests of a run with their answers, in the order they were served. */
  ghost function Answers(s: StoreState, steps: seq<Step>): seq<(Request, Answer)>
    decreases |steps|
  {
    if steps == [] then [] else
      (if steps[0].Serve? then [(steps[0].req, AnswerTo(s, steps[0].req))] else [])
      + Answers(After(s, steps[0]), steps[1..])
  }

  // ---------------------------------------------------------------- shards do not interfere

  function At(i: nat): Step -> bool {
    (step: Step) => Target(step) == i
  }

  function LoggedAt(i: nat): ((Request, Answer)) -> bool {
    (entry: (Request, Answer)) => ShardIndex(entry.0.hash) == i
  }

  function OnShard(steps: seq<Step>, i: nat): seq<Step> {
    Filter(steps, At(i))
  }

  ghost function AnswersOnShard(log: seq<(Request, Answer)>, i: nat): seq<(Request, Answer)> {
    Filter(log, LoggedAt(i))
  }

  lemma JoinIsLocal(s: StoreState, hash: InfoHash, key: Key, flags: Flags, now: u32, i: nat)
    ensures ShardOf(AnnounceOp(s, hash, key, flags, now), i) ==
            if ShardIndex(hash) == i then AnnounceOp(ShardOf(s, i), hash, key, flags, now) else ShardOf(s, i)
  {
    hide Announced;
  }

  lemma LeaveIsLocal(s: StoreState, hash: InfoHash, key: Key, now: u32, i: nat)
    ensures ShardOf(RemoveOp(s, hash, key, now), i) ==
            if ShardIndex(hash) == i then RemoveOp(ShardOf(s, i), hash, key, now) else ShardOf(s, i)
  {
    hide Removed;
  }

  lemma SweepIsLocal(s: StoreState, j: nat, now: u32, i: nat)
    ensures ShardOf(SweepOp(s, InShard(s, j), now), i) ==
            if j == i then SweepOp(ShardOf(s, i), InShard(ShardOf(s, i), i), now) else ShardOf(s, i)
  {
    hide Swept, Collected;
    assert InShard(ShardOf(s, i), i) == InShard(s, i);
  }

  lemma StepIsLocal(s: StoreState, step: Step, i: nat)
    ensures ShardOf(After(s, step), i) == if Target(step) == i then After(ShardOf(s, i), step) else ShardOf(s, i)
  {
    hide AnnounceOp, RemoveOp, SweepOp;
    match step {
      case Serve(Join(hash, key, flags, _, now)) => JoinIsLocal(s, hash, key, flags, now, i);
      case Serve(Leave(hash, key, now)) => LeaveIsLocal(s, hash, key, now, i);
      case Serve(Look(_)) =>
      case Sweep(j, now) => SweepIsLocal(s, j, now, i);
    }
  }

  lemma AnswerIsLocal(s: StoreState, req: Request)
    ensures AnswerTo(ShardOf(s, ShardIndex(req.hash)), req) == AnswerTo(s, req)
  {
    StepIsLocal(s, Serve(req), ShardIndex(req.hash));
    assert forall s' :: CountsAt(ShardOf(s', ShardIndex(req.hash)), req.hash) == CountsAt(s', req.hash);
  }

  lemma RunCons(s: StoreState, step: Step, rest: seq<Step>)
    ensures Run(s, [step] + rest) == Run(After(s, step), rest)
    ensures Answers(s, [step] + rest) ==
            (if step.Serve? then [(step.req, AnswerTo(s, step.req))] else []) + Answers(After(s, step), rest)
  {
    assert ([step] + rest)[1..] == rest;
  }

  /** What happens on one shard is decided by the steps on that shard. */
  lemma {:induction false} RunIsLocal(s: StoreState, steps: seq<Step>, i: nat)
    ensures ShardOf(Run(s, steps), i) == Run(ShardOf(s, i), OnShard(steps, i))
    ensures AnswersOnShard(Answers(s, steps), i) == Answers(ShardOf(s, i), OnShard(steps, i))
    decreases |steps|
  {
    if steps != [] {
      var step, rest := steps[0], steps[1..];
      RunIsLocal(After(s, step), rest, i);
      StepIsLocal(s, step, i);
      assert steps == [step] + rest;
      RunCons(s, step, rest);
      FilterCons(step, rest, At(i));
      if Target(step) == i {
        RunCons(ShardOf(s, i), step, OnShard(rest, i));
      }
      if step.Serve? {
        AnswerIsLocal(s, step.req);
        FilterCons((step.req, AnswerTo(s, step.req)), Answers(After(s, step), rest), LoggedAt(i));
      } else {
        assert [] + Answers(After(s, step), rest) == Answers(After(s, step), rest);
      }
    }
  }

  lemma EqualByShards(a: StoreState, b: StoreState)
    requires forall i :: 0 <= i < SHARD_COUNT ==> ShardOf(a, i) == ShardOf(b, i)
    ensures a == b
  {
    forall h | h in a ensures h in b && b[h] == a[h] {
      assert h in ShardOf(a, ShardIndex(h));
    }
    forall h | h in b ensures h in a {
      assert h in ShardOf(b, ShardIndex(h));
    }
  }

  lemma {:induction false} RunAppend(s: StoreState, a: seq<Step>, b: seq<Step>)
    ensures Run(s, a + b) == Run(Run(s, a), b)
    ensures Answers(s, a + b) == Answers(s, a) + Answers(Run(s, a), b)
    decreases |a|
  {
    if a == [] {
      assert a + b == b;
    } else {
      assert (a + b)[1..] == a[1..] + b;
      RunAppend(After(s, a[0]), a[1..], b);
    }
  }

  // ---------------------------------------------------------------- a collection is serialisable

  /** A run during which the collector, already past the shards below `next`, visits the remaining
      ones in order, with requests in between wherever they fall. */
  predicate IsCollection(steps: seq<Step>, next: nat, now: u32) {
    if steps == [] then next == SHARD_COUNT
    else match steps[0]
      case Serve(_) => IsCollection(steps[1..], next, now)
      case Sweep(i, t) => i == next < SHARD_COUNT && t == now && IsCollection(steps[1..], next + 1, now)
  }

  /** The requests that reached their shard before (for `late` false) or after the collector did. */
  function Served(steps: seq<Step>, next: nat, late: bool): seq<Step> {
    if steps == [] then []
    else match steps[0]
      case Serve(req) => (if (ShardIndex(req.hash) < next) == late then [steps[0]] else []) + Served(steps[1..], next, late)
      case Sweep(_, _) => Served(steps[1..], next + 1, late)
  }

  function Sweeps(next: nat, now: u32): seq<Step>
    requires next <= SHARD_COUNT
    decreases SHARD_COUNT - next
  {
    if next == SHARD_COUNT then [] else [Sweep(next, now)] + Sweeps(next + 1, now)
  }

  lemma {:induction false} SweepsOnShard(next: nat, now: u32, i: nat)
    requires next <= SHARD_COUNT && i < SHARD_COUNT
    ensures OnShard(Sweeps(next, now), i) == if i >= next then [Sweep(i, now)] else []
    decreases SHARD_COUNT - next
  {
    if next < SHARD_COUNT {
      SweepsOnShard(next + 1, now, i);
      FilterCons(Sweep(next, now), Sweeps(next + 1, now), At(i));
    }
  }

  function Serial(steps: seq<Step>, now: u32): seq<Step> {
    Served(steps, 0, false) + Sweeps(0, now) + Served(steps, 0, true)
  }

  /** On one shard a collection is: the early requests, the collector's visit if it is still to
      come, the late requests. */
  lemma {:induction false} CollectionOnShard(steps: seq<Step>, next: nat, now: u32, i: nat)
    requires next <= SHARD_COUNT && i < SHARD_COUNT && IsCollection(steps, next, now)
    ensures i < next ==> OnShard(Served(steps, next, false), i) == []
    ensures OnShard(steps, i) ==
            OnShard(Served(steps, next, false), i) + (if i >= next then [Sweep(i, now)] else [])
            + OnShard(Served(steps, next, true), i)
  {
    hide Filter, Served, ShardIndex, IsCollection;
    if steps == [] {
      NothingServed(next, now, i);
    } else {
      var step, rest := steps[0], steps[1..];
      ServedNext(steps, next, now);
      assert steps == [step] + rest;
      FilterCons(step, rest, At(i));
      if step.Serve? {
        var late := ShardIndex(step.req.hash) < next;
        CollectionOnShard(rest, next, now, i);
        FilterCons(step, Served(rest, next, late), At(i));
        var mid := if i >= next then [Sweep(i, now)] else [];
        Insert([step], OnShard(Served(rest, next, false), i), mid, OnShard(Served(rest, next, true), i));
      } else {
        CollectionOnShard(rest, next + 1, now, i);
        Insert([step], [], [], OnShard(Served(rest, next + 1, true), i));
      }
    }
  }

  lemma NothingServed(next: nat, now: u32, i: nat)
    ensures Served([], next, true) == Served([], next, false) == [] && OnShard([], i) == []
    ensures IsCollection([], next, now) <==> next == SHARD_COUNT
  {
  }

  lemma ServedNext(steps: seq<Step>, next: nat, now: u32)
    requires steps != [] && IsCollection(steps, next, now)
    ensures var step, rest := steps[0], steps[1..];
            if step.Serve? then
              var late := ShardIndex(step.req.hash) < next;
              && IsCollection(rest, next, now)
              && Served(steps, next, late) == [step] + Served(rest, next, late)
              && Served(steps, next, !late) == Served(rest, next, !late)
            else
              && step == Sweep(next, now) && next < SHARD_COUNT && IsCollection(rest, next + 1, now)
              && forall late :: Served(steps, next, late) == Served(rest, next + 1, late)
  {
  }

  lemma Insert<T>(x: seq<T>, a: seq<T>, m: seq<T>, b: seq<T>)
    ensures x + (a + m + b) == (x + a) + m + b
    ensures m == [] ==> x + (a + m + b) == x + a + b && a + m + b == a + b && a + m + (x + b) == a + (x + b)
    ensures a == [] ==> a + m + b == m + b && x + (m + b) == x + m + b
  {
  }

  /** No shard can tell the interleaving from the serial order. */
  lemma SerialOnShard(steps: seq<Step>, now: u32, i: nat)
    requires i < SHARD_COUNT && IsCollection(steps, 0, now)
    ensures OnShard(Serial(steps, now), i) == OnShard(steps, i)
  {
    FilterAppend(Served(steps, 0, false) + Sweeps(0, now), Served(steps, 0, true), At(i));
    FilterAppend(Served(steps, 0, false), Sweeps(0, now), At(i));
    SweepsOnShard(0, now, i);
    CollectionOnShard(steps, 0, now, i);
  }

  lemma {:induction false} SweepsAreGc(s: StoreState, s0: StoreState, next: nat, now: u32)
    requires next <= SHARD_COUNT && s == SweepOp(s0, BelowShard(s0, next), now)
    ensures Run(s, Sweeps(next, now)) == GcOp(s0, now) && Answers(s, Sweeps(next, now)) == []
    decreases SHARD_COUNT - next
  {
    if next == SHARD_COUNT {
      NoShardBelow(s0);
    } else {
      SweepNextShard(s0, s, next, now);
      SweepsAreGc(After(s, Sweep(next, now)), s0, next + 1, now);
      assert Sweeps(next, now)[1..] == Sweeps(next + 1, now);
    }
  }

  /** A collection interleaved with requests ends in the state, and gives every request the answers,
      of a serial run: first the requests that were ahead of the collector, then the whole
      collection at once, then the others, in their original order on each shard. */
  lemma GcSerialisable(s: StoreState, steps: seq<Step>, now: u32)
    requires IsCollection(steps, 0, now)
    ensures var early, late := Served(steps, 0, false), Served(steps, 0, true);
            var collected := GcOp(Run(s, early), now);
            && Run(s, steps) == Run(collected, late)
            && forall i :: 0 <= i < SHARD_COUNT ==>
                 AnswersOnShard(Answers(s, steps), i) == AnswersOnShard(Answers(s, early) + Answers(collected, late), i)
  {
    RunSerial(s, steps, now);
    var serial := Serial(steps, now);
    forall i | 0 <= i < SHARD_COUNT
      ensures ShardOf(Run(s, steps), i) == ShardOf(Run(s, serial), i)
      ensures AnswersOnShard(Answers(s, steps), i) == AnswersOnShard(Answers(s, serial), i)
    {
      SerialOnShard(steps, now, i);
      RunIsLocal(s, steps, i);
      RunIsLocal(s, serial, i);
    }
    EqualByShards(Run(s, steps), Run(s, serial));
  }

  lemma RunSerial(s: StoreState, steps: seq<Step>, now: u32)
    ensures var early, late := Served(steps, 0, false), Served(steps, 0, true);
            var collected := GcOp(Run(s, early), now);
            && Run(s, Serial(steps, now)) == Run(collected, late)
            && Answers(s, Serial(steps, now)) == Answers(s, early) + Answers(collected, late)
  {
    var early, late := Served(steps, 0, false), Served(steps, 0, true);
    var mid := Run(s, early);
    NoShardBelow(mid);
    SweepNothing(mid, now);
    SweepsAreGc(mid, mid, 0, now);
    RunAppend(s, early, Sweeps(0, now));
    RunAppend(s, early + Sweeps(0, now), late);
    assert Answers(s, early) + [] == Answers(s, early);
  }

  // ---------------------------------------------------------------- collections compose

  lemma TorrentAbsorbs(t: TorrentState, t1: u32, t2: u32)
    requires t1 <= t2
    ensures Swept(Swept(t, t1), t2) == Swept(t, t2)
    ensures Collected(t, t1) ==> Collected(t, t2)
    ensures Collected(Swept(t, t1), t2) <==> Collected(t, t2)
  {
    hide Expired;
    ExpiryAbsorbs(t.v4, t1, t2);
    ExpiryAbsorbs(t.v6, t1, t2);
    ExpiryKeepsDownloads(t.v4, t1, t2);
    ExpiryKeepsDownloads(t.v6, t1, t2);
  }

  lemma ExpiryKeepsDownloads(l: ListState, t1: u32, t2: u32)
    ensures Expired(l, t1, PEER_TIMEOUT_MINUTES).downloaded == Expired(l, t2, PEER_TIMEOUT_MINUTES).downloaded == l.downloaded
  {
  }

  /** A later collection makes an earlier one redundant. */
  lemma {:induction false} GcAbsorbs(s: StoreState, t1: u32, t2: u32)
    requires t1 <= t2
    ensures GcOp(GcOp(s, t1), t2) == GcOp(s, t2)
  {
    hide Swept, Collected;
    forall h | h in s
      ensures Swept(Swept(s[h], t1), t2) == Swept(s[h], t2)
      ensures Collected(s[h], t1) ==> Collected(s[h], t2)
      ensures Collected(Swept(s[h], t1), t2) <==> Collected(s[h], t2)
    {
      TorrentAbsorbs(s[h], t1, t2);
    }
  }

  lemma ExpiryAbsorbs(l: ListState, t1: u32, t2: u32)
    requires t1 <= t2
    ensures Expired(Expired(l, t1, PEER_TIMEOUT_MINUTES), t2, PEER_TIMEOUT_MINUTES) == Expired(l, t2, PEER_TIMEOUT_MINUTES)
    ensures Expired(l, t1, PEER_TIMEOUT_MINUTES).peers == map[] ==> Expired(l, t2, PEER_TIMEOUT_MINUTES).peers == map[]
  {
    var p1, p2 := Expired(l, t1, PEER_TIMEOUT_MINUTES).peers, Expired(l, t2, PEER_TIMEOUT_MINUTES).peers;
    assert Expired(WithPeers(p1, l.downloaded), t2, PEER_TIMEOUT_MINUTES).peers == p2;
    if p2 != map[] {
      var k :| k in p2;
      assert k in p1;
    }
  }

  // ---------------------------------------------------------------- downloads never go back

  lemma {:induction false} DownloadsGrow(s: StoreState, steps: seq<Step>, hash: InfoHash)
    ensures DownloadsAt(Run(s, steps), hash) >= DownloadsAt(s, hash)
    decreases |steps|
  {
    if steps != [] {
      StepKeepsDownloads(s, steps[0], hash);
      DownloadsGrow(After(s, steps[0]), steps[1..], hash);
    }
  }

  lemma StepKeepsDownloads(s: StoreState, step: Step, hash: InfoHash)
    ensures DownloadsAt(After(s, step), hash) >= DownloadsAt(s, hash)
  {
  }

  /** The scraped `downloaded` of a torrent never decreases, collections included, as long as the
      total fits the 32 bits it is reported in. */
  lemma ScrapedDownloadsGrow(s: StoreState, steps: seq<Step>, hash: InfoHash)
    requires DownloadsAt(Run(s, steps), hash) <= U32_MAX
    ensures CountsAt(s, hash).downloaded <= CountsAt(Run(s, steps), hash).downloaded
  {
    DownloadsGrow(s, steps, hash);
    ScrapedDownloads(s, Run(s, steps), hash);
  }

  lemma ScrapedDownloads(a: StoreState, b: StoreState, hash: InfoHash)
    requires DownloadsAt(a, hash) <= DownloadsAt(b, hash) <= U32_MAX
    ensures CountsAt(a, hash).downloaded <= CountsAt(b, hash).downloaded
  {
  }
}
