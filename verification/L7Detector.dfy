/** The detector itself: sixteen maps of clients behind their own locks and one registry of
    offenders. A map owns its clients, so an event borrows the client out of its shard, updates it in
    place and puts it back before the lock is released. */
module L7Detector {
  import opened Bytes
  import opened Core
  import opened Sequences
  import opened L7Spec

  class Client {
    var score: u32
    var lastSeen: u32
    var decayAt: u32
    var bannedUntil: u32
    var lastGap: u32
    var breadth: seq<bool>
    var connects: u32
    var emptySwarms: u32
    var ring: seq<Option<Seen>>
    var ringPos: nat

    function State(): ClientState
      reads this
    {
      ClientState(score, lastSeen, decayAt, bannedUntil, lastGap, breadth, connects, emptySwarms, ring, ringPos)
    }

    constructor (c: ClientState)
      ensures State() == c
    {
      score, lastSeen, decayAt, bannedUntil, lastGap := c.score, c.lastSeen, c.decayAt, c.bannedUntil, c.lastGap;
      breadth, connects, emptySwarms, ring, ringPos := c.breadth, c.connects, c.emptySwarms, c.ring, c.ringPos;
    }

    method Decay(cfg: Config, now: u32)
      modifies this
      ensures State() == Decayed(cfg, old(State()), now)
    {
      if DecaySteps(cfg, State(), now) == 0 {
        NoDecay(cfg, State(), now);
      }
      lastGap := SatSub(now, lastSeen);
      var interval := cfg.Interval();
      var steps := SatSub(now, decayAt) / interval;
      if steps > 0 {
        score := SatSub(score, SatMul(steps, cfg.decayAmount));
        decayAt := SatAdd(decayAt, SatMul(steps, interval));
      }
      lastSeen := now;
    }

    /** Records the announce and reports what the remembered announces for the same torrent say. */
    method Observe(a: AnnounceInfo, now: u32, floor: u32, peer: u32)
      returns (interval: bool, keyChurn: bool, peerChurn: bool)
      requires State().Valid()
      modifies this`ring, this`ringPos
      ensures interval == TooSoon(old(ring), a.infoHash, now, floor)
      ensures keyChurn == KeyChurned(old(ring), a.infoHash, a.key)
      ensures peerChurn == PeerChurned(old(ring), a.infoHash, peer)
      ensures ring == old(ring)[old(ringPos) := Some(Seen(a.infoHash, now, a.key, peer))]
      ensures ringPos == (old(ringPos) + 1) % RING
    {
      interval, keyChurn, peerChurn := false, false, false;
      for i := 0 to RING
        invariant ring == old(ring)
        invariant interval == exists j :: 0 <= j < i && Remembers(ring, a.infoHash, j) && SatSub(now, ring[j].value.at) < floor
        invariant keyChurn == exists j :: 0 <= j < i && Remembers(ring, a.infoHash, j) && ring[j].value.key != a.key
        invariant peerChurn == exists j :: 0 <= j < i && Remembers(ring, a.infoHash, j) && ring[j].value.peer != peer
      {
        if ring[i].Some? {
          var seen := ring[i].value;
          if seen.hash == a.infoHash {
            assert Remembers(ring, a.infoHash, i);
            if SatSub(now, seen.at) < floor {
              interval := true;
            }
            if seen.key != a.key {
              keyChurn := true;
            }
            if seen.peer != peer {
              peerChurn := true;
            }
          }
        }
      }
      ring := ring[ringPos := Some(Seen(a.infoHash, now, a.key, peer))];
      ringPos := (ringPos + 1) % RING;
    }

    /** Folds a torrent into the bitmap: its bucket joins the buckets touched so far, and the count is
        how many those are now, one more exactly if the bucket is new. */
    method Widen(hash: InfoHash) returns (count: nat)
      requires State().Valid()
      modifies this`breadth
      ensures breadth == old(breadth)[BreadthBit(hash) := true]
      ensures Ones(breadth) == Ones(old(breadth)) + {BreadthBit(hash)} && count == |Ones(breadth)|
      ensures count == |Ones(old(breadth))| + if BreadthBit(hash) in Ones(old(breadth)) then 0 else 1
    {
      OnesAfter(breadth, BreadthBit(hash));
      breadth := breadth[BreadthBit(hash) := true];
      count := CountOnes(breadth);
    }
  }

  lemma OnesAfter(bits: seq<bool>, i: nat)
    requires i < |bits|
    ensures var after := bits[i := true];
            && Ones(after) == Ones(bits) + {i} && CountOnes(after) == |Ones(after)|
            && |Ones(after)| == |Ones(bits)| + if i in Ones(bits) then 0 else 1
  {
    OnesAreASet(bits[i := true]);
    assert Ones(bits[i := true]) == Ones(bits) + {i};
    assert i in Ones(bits) ==> Ones(bits) + {i} == Ones(bits);
  }

  lemma NoDecay(cfg: Config, c: ClientState, now: u32)
    requires DecaySteps(cfg, c, now) == 0
    ensures Decayed(cfg, c, now) == c.(lastGap := SatSub(now, c.lastSeen), lastSeen := now)
  {
  }

  /** `iter().take(EVICT_SAMPLE).min_by_key(..)`: the least recent of the first few entries in
      whatever order the map has. */
  method Oldest(ages: map<Ip, u32>) returns (victim: Ip)
    requires ages != map[]
    ensures victim in ages && IsVictim(ages, victim)
  {
    hide IsVictim, IsSample, LeastIn;
    var order := IterationOrder(ages.Keys);
    DistinctSize(order, ages.Keys);
    var n := Min(EVICT_SAMPLE, |order|);
    victim := order[0];
    for i := 1 to n
      invariant victim in order[..i]
      invariant forall k :: 0 <= k < i ==> ages[victim] <= ages[order[k]]
    {
      if ages[order[i]] < ages[victim] {
        victim := order[i];
      }
    }
    LeastOfFirst(ages, order, n, victim);
  }

  lemma LeastOfFirst(ages: map<Ip, u32>, order: seq<Ip>, n: nat, victim: Ip)
    requires IsOrder(order, ages.Keys) && n == Min(EVICT_SAMPLE, |ages|) && n <= |order|
    requires victim in order[..n] && victim in ages && forall k :: 0 <= k < n ==> order[k] in ages && ages[victim] <= ages[order[k]]
    ensures IsVictim(ages, victim)
  {
    var sample := set k | k in order[..n];
    DistinctSize(order[..n], sample);
    forall k | k in sample ensures k in ages && ages[victim] <= ages[k] {
      var i :| 0 <= i < n && order[..n][i] == k;
      assert order[i] == k;
    }
    assert IsSample(ages, sample) && LeastIn(ages, sample, victim);
  }

  /** The victim that makes room for `ip`, if room must be made. */
  method MakeRoom(ages: map<Ip, u32>, ip: Ip, cap: nat) returns (victim: Option<Ip>)
    ensures Evicts(ages, ip, cap, victim)
  {
    victim := None;
    if ip !in ages && |ages| >= cap && ages != map[] {
      var oldest := Oldest(ages);
      victim := Some(oldest);
    }
  }

  class Detector {
    const config: Config
    const shards: array<map<Ip, ClientState>>
    var offenders: map<Ip, Offender>
    /** Every tracked client, whichever shard holds it. */
    ghost var clients: map<Ip, ClientState>

    ghost predicate Valid()
      reads this, shards
    {
      && config.WeightsFit() && shards.Length == SHARDS
      && (forall i :: 0 <= i < SHARDS ==> shards[i] == InShard(clients, i) && |shards[i]| <= config.PerShardCap())
      && AllValid(clients)
      && (forall ip :: ip in offenders ==> offenders[ip].offenses >= 1)
      && |offenders| <= (if config.maxOffenders == 0 then 1 else config.maxOffenders)
    }

    constructor (config: Config)
      requires config.WeightsFit()
      ensures Valid() && this.config == config && clients == map[] && offenders == map[] && fresh(shards)
    {
      this.config := config;
      shards := new map<Ip, ClientState>[SHARDS](_ => map[]);
      offenders, clients := map[], map[];
    }

    /** Makes room and finds or creates the client, decayed. The shard stays locked, and the client
        borrowed from it, until `PutBack`. */
    method Touch(ip: Ip, now: u32) returns (c: Client, shard: map<Ip, ClientState>, ghost victim: Option<Ip>)
      requires Valid()
      ensures fresh(c) && c.State() == Touched(config, Get(clients, ip), now)
      ensures Evicts(Ages(InShard(clients, ShardNo(ip))), ip, config.PerShardCap(), victim)
      ensures shard == Without(InShard(clients, ShardNo(ip)), victim)
    {
      hide Evicts, Decayed, NewClient;
      shard := shards[ShardNo(ip)];
      var firstSighting := ip !in shard;
      var evicted := MakeRoom(Ages(shard), ip, config.PerShardCap());
      VictimIsResident(Ages(shard), ip, config.PerShardCap(), evicted);
      victim := evicted;
      if evicted.Some? {
        shard := shard - {evicted.value};
      }
      c := new Client(if ip in shard then shard[ip] else NewClient(now));
      c.Decay(config, now);
      if firstSighting {
        c.lastGap := U32_MAX;
      }
    }

    method PutBack(ip: Ip, c: ClientState, shard: map<Ip, ClientState>, ghost victim: Option<Ip>)
      requires Valid() && c.Valid()
      requires Evicts(Ages(InShard(clients, ShardNo(ip))), ip, config.PerShardCap(), victim)
      requires shard == Without(InShard(clients, ShardNo(ip)), victim)
      modifies this`clients, shards
      ensures Valid() && clients == Without(old(clients), victim)[ip := c]
    {
      hide Evicts, Without, InShard, Ages;
      var i := ShardNo(ip);
      ghost var before := clients;
      RoomWasMade(InShard(before, i), ip, config.PerShardCap(), victim, c);
      forall j | 0 <= j < SHARDS
        ensures InShard(Without(before, victim)[ip := c], j) == if j == i then shard[ip := c] else InShard(before, j)
      {
        VictimIsHere(before, ip, config.PerShardCap(), victim);
        ShardAfter(before, ip, victim, c, j);
      }
      StillValid(before, ip, victim, c);
      shards[i] := shard[ip := c];
      clients := Without(clients, victim)[ip := c];
    }

    /** Whether the client crosses into a ban, which re-arms only once the cooldown is over. */
    method Cross(c: Client, now: u32) returns (ban: bool)
      modifies c`bannedUntil
      ensures ban == Crosses(config, old(c.State()), now)
      ensures c.bannedUntil == if ban then SatAdd(now, config.rebanCooldown) else old(c.bannedUntil)
    {
      if c.score < config.scoreBanThreshold {
        return false;
      }
      if now < c.bannedUntil {
        return false;
      }
      c.bannedUntil := SatAdd(now, config.rebanCooldown);
      return true;
    }

    method StatelessScore(a: AnnounceInfo, fast: bool) returns (score: u32)
      requires config.WeightsFit()
      ensures score == StatelessWeight(config, a, fast)
    {
      score := 0;
      if a.key == 0 || a.key == U32_MAX {
        score := score + config.weightBadKey;
      }
      if a.declaredIp != 0 && a.sourceIsPublic {
        score := score + config.weightDeclaredIp;
      }
      if fast && a.port < 1024 {
        score := score + config.weightBadPort;
      }
      if fast && a.left == 0 && a.downloaded == 0 && a.uploaded == 0 {
        score := score + config.weightFakeSeeder;
      }
      if fast && a.numWant > config.numwantAbuse {
        score := score + config.weightNumwant;
      }
    }

    /** The checks for enumeration, which also keep the run of lonely announces and the bitmap. */
    method EnumerationScore(c: Client, a: AnnounceInfo, fast: bool) returns (add: u32)
      requires config.WeightsFit() && c.State().Valid() && fast == IsFast(config, c.State())
      modifies c`emptySwarms, c`breadth
      ensures add == EnumerationWeight(config, old(c.State()), a)
      ensures c.emptySwarms == if Lonely(config, old(c.State()), a) then SatAdd(old(c.emptySwarms), 1) else 0
      ensures c.breadth == Widened(config, old(c.State()), a)
    {
      add := 0;
      if fast && a.swarmPeers <= 1 {
        c.emptySwarms := SatAdd(c.emptySwarms, 1);
        if c.emptySwarms > config.emptySwarmThreshold {
          add := add + config.weightEmptySwarm;
        }
      } else {
        c.emptySwarms := 0;
      }
      if fast {
        var count := c.Widen(a.infoHash);
        OnesAreASet(c.breadth);
        if count >= config.breadthThreshold {
          add := add + config.weightBreadth;
        }
      }
    }

    /** The checks against what is remembered of the torrent, which also record the announce. */
    method IdentityScore(c: Client, a: AnnounceInfo, now: u32) returns (add: u32)
      requires config.WeightsFit() && c.State().Valid()
      modifies c`ring, c`ringPos
      ensures add == IdentityWeight(config, old(c.State()), a, now)
      ensures c.ring == old(c.ring)[old(c.ringPos) := Some(Seen(a.infoHash, now, a.key, PeerFingerprint(a.peerId)))]
      ensures c.ringPos == (old(c.ringPos) + 1) % RING
    {
      var peer := PeerFingerprint(a.peerId);
      var interval, keyChurn, peerChurn := c.Observe(a, now, config.reannounceMinInterval, peer);
      add := 0;
      if interval {
        add := add + config.weightInterval;
      }
      if keyChurn {
        add := add + config.weightKeyChurn;
      }
      if peerChurn {
        add := add + config.weightPeeridChurn;
      }
      if !config.isKnownClient(a.peerId) {
        add := add + config.weightPeerid;
      }
    }

    method ScoreAnnounce(c: Client, a: AnnounceInfo, now: u32)
      requires config.WeightsFit() && c.State().Valid()
      modifies c
      ensures c.State() == WithScore(config, old(c.State()), Announced(a), now)
    {
      ghost var touched := c.State();
      WeightFits(config, touched, Announced(a), now);
      var identity := IdentityScore(c, a, now);
      var fast := c.lastGap < config.fastAnnounceGap;
      var stateless := StatelessScore(a, fast);
      SameEnumeration(config, touched, c.State(), a);
      var enumeration := EnumerationScore(c, a, fast);
      c.connects := 0;
      c.score := SatAdd(c.score, stateless + identity + enumeration);
    }

    method ScoreScrape(c: Client, hashes: nat, ghost now: u32)
      requires config.WeightsFit() && c.State().Valid()
      modifies c
      ensures c.State() == WithScore(config, old(c.State()), Scraped(hashes), now)
    {
      c.connects := 0;
      if hashes >= config.scrapeVolumeThreshold {
        c.score := SatAdd(c.score, config.weightScrapeVolume);
      }
    }

    method ScoreConnect(c: Client, ghost now: u32)
      requires config.WeightsFit() && c.State().Valid()
      modifies c
      ensures c.State() == WithScore(config, old(c.State()), Connected, now)
    {
      c.connects := SatAdd(c.connects, 1);
      if c.connects > config.connectBurst {
        c.score := SatAdd(c.score, config.weightConnectSpam);
      }
    }

    method ScoreMismatch(c: Client, ghost now: u32)
      requires config.WeightsFit() && c.State().Valid()
      modifies c
      ensures c.State() == WithScore(config, old(c.State()), Mismatched, now)
    {
      c.score := SatAdd(c.score, config.weightConnid);
    }

    /** An announce. */
    method OnAnnounce(ip: Ip, a: AnnounceInfo, now: u32)
      returns (verdict: Verdict, ghost victim: Option<Ip>, ghost forgotten: Option<Ip>)
      requires Valid()
      modifies this, shards
      ensures Valid()
      ensures Handled(config, old(clients), clients, old(offenders), offenders, ip, Announced(a), now, victim, forgotten, verdict)
    {
      var c, shard, gone := Touch(ip, now);
      ScoreAnnounce(c, a, now);
      verdict, forgotten := Finish(ip, Announced(a), now, c, shard, gone);
      victim := gone;
    }

    /** A connection id that failed validation. */
    method OnConnidMismatch(ip: Ip, now: u32)
      returns (verdict: Verdict, ghost victim: Option<Ip>, ghost forgotten: Option<Ip>)
      requires Valid()
      modifies this, shards
      ensures Valid()
      ensures Handled(config, old(clients), clients, old(offenders), offenders, ip, Mismatched, now, victim, forgotten, verdict)
    {
      var c, shard, gone := Touch(ip, now);
      ScoreMismatch(c, now);
      verdict, forgotten := Finish(ip, Mismatched, now, c, shard, gone);
      victim := gone;
    }

    /** A scrape of some number of hashes. */
    method OnScrape(ip: Ip, hashes: nat, now: u32)
      returns (verdict: Verdict, ghost victim: Option<Ip>, ghost forgotten: Option<Ip>)
      requires Valid()
      modifies this, shards
      ensures Valid()
      ensures Handled(config, old(clients), clients, old(offenders), offenders, ip, Scraped(hashes), now, victim, forgotten, verdict)
    {
      var c, shard, gone := Touch(ip, now);
      ScoreScrape(c, hashes, now);
      verdict, forgotten := Finish(ip, Scraped(hashes), now, c, shard, gone);
      victim := gone;
    }

    /** A request for a connection id. */
    method OnConnect(ip: Ip, now: u32)
      returns (verdict: Verdict, ghost victim: Option<Ip>, ghost forgotten: Option<Ip>)
      requires Valid()
      modifies this, shards
      ensures Valid()
      ensures Handled(config, old(clients), clients, old(offenders), offenders, ip, Connected, now, victim, forgotten, verdict)
    {
      var c, shard, gone := Touch(ip, now);
      ScoreConnect(c, now);
      verdict, forgotten := Finish(ip, Connected, now, c, shard, gone);
      victim := gone;
    }

    /** Ends the shard's critical section and, on a ban, enters the registry's. */
    method Finish(ip: Ip, ghost ev: L7Event, now: u32, c: Client, shard: map<Ip, ClientState>, ghost victim: Option<Ip>)
      returns (verdict: Verdict, ghost forgotten: Option<Ip>)
      requires Valid()
      requires Evicts(Ages(InShard(clients, ShardNo(ip))), ip, config.PerShardCap(), victim)
      requires shard == Without(InShard(clients, ShardNo(ip)), victim)
      requires c.State() == Scored(config, Get(clients, ip), ev, now)
      modifies this, shards, c
      ensures Valid()
      ensures Handled(config, old(clients), clients, old(offenders), offenders, ip, ev, now, victim, forgotten, verdict)
    {
      hide Scored, Evicts, Without, Ages, InShard, Crosses;
      ghost var before, stored := clients, Get(clients, ip);
      var ban := Cross(c, now);
      CrossIsNext(config, stored, ev, now, old(c.State()), ban, c.State());
      hide Next, Bans;
      PutBack(ip, c.State(), shard, victim);
      assert Scoring(config, before, clients, ip, ev, now, victim);
      verdict, forgotten := Decide(ip, ban, now);
    }

    /** Turns a ban decision into a verdict, escalating on repeat offences. */
    method Decide(ip: Ip, ban: bool, now: u32) returns (verdict: Verdict, ghost forgotten: Option<Ip>)
      requires Valid()
      modifies this`offenders
      ensures Valid() && Decided(config, ban, old(offenders), offenders, ip, now, forgotten, verdict)
    {
      if !ban {
        return Allow, None;
      }
      var tier, gone := RecordOffence(ip, now);
      return Ban(config.banDuration, tier), gone;
    }

    /** Bumps the source's offences under the registry's lock and returns the tier. */
    method RecordOffence(ip: Ip, now: u32) returns (tier: u32, ghost forgotten: Option<Ip>)
      requires Valid()
      modifies this`offenders
      ensures Valid() && Registering(config, old(offenders), offenders, ip, now, forgotten)
      ensures ip in offenders && offenders[ip].offenses >= 1 && tier == TierOf(config, offenders[ip])
    {
      var evicted := MakeRoom(OffenderAges(offenders), ip, config.maxOffenders);
      forgotten := evicted;
      RoomInRegistry(offenders, ip, config.maxOffenders, evicted, now);
      if evicted.Some? {
        offenders := offenders - {evicted.value};
      }
      var entry := if ip in offenders then offenders[ip] else Offender(0, 0);
      entry := Offender(SatAdd(entry.offenses, 1), now);
      offenders := offenders[ip := entry];
      tier := Min(entry.offenses - 1, SatSub(config.banTiers, 1));
    }

    /** The number of tracked sources. */
    method Tracked() returns (n: nat)
      requires Valid()
      ensures n == |clients|
    {
      hide ShardsBelow, InShard, AllValid;
      n := 0;
      NoClientsBelow(clients);
      for i := 0 to SHARDS
        invariant n == |ShardsBelow(clients, i)|
      {
        ClientsOfShard(clients, i);
        n := n + |shards[i]|;
      }
    }
  }

  lemma CrossIsNext(cfg: Config, stored: Option<ClientState>, ev: L7Event, now: u32, scored: ClientState, ban: bool, c: ClientState)
    requires cfg.WeightsFit() && (stored.Some? ==> stored.value.Valid())
    requires scored == Scored(cfg, stored, ev, now) && ban == Crosses(cfg, scored, now)
    requires c == if ban then scored.(bannedUntil := SatAdd(now, cfg.rebanCooldown)) else scored
    ensures c == Next(cfg, stored, ev, now) && ban == Bans(cfg, stored, ev, now) && c.Valid()
  {
  }

  lemma SameEnumeration(cfg: Config, c: ClientState, d: ClientState, a: AnnounceInfo)
    requires c.Valid() && d.Valid()
    requires c.lastGap == d.lastGap && c.emptySwarms == d.emptySwarms && c.breadth == d.breadth
    ensures EnumerationWeight(cfg, c, a) == EnumerationWeight(cfg, d, a)
    ensures Widened(cfg, c, a) == Widened(cfg, d, a) && Lonely(cfg, c, a) == Lonely(cfg, d, a)
  {
  }

  /** One event, both critical sections. */
  ghost predicate Handled(cfg: Config, before: map<Ip, ClientState>, after: map<Ip, ClientState>,
                          registered: map<Ip, Offender>, registering: map<Ip, Offender>,
                          ip: Ip, ev: L7Event, now: u32, victim: Option<Ip>, forgotten: Option<Ip>, verdict: Verdict)
    requires cfg.WeightsFit() && AllValid(before)
  {
    && Scoring(cfg, before, after, ip, ev, now, victim)
    && Decided(cfg, Bans(cfg, Get(before, ip), ev, now), registered, registering, ip, now, forgotten, verdict)
  }

  /** Without a ban nothing is registered; with one the verdict carries the tier. */
  ghost predicate Decided(cfg: Config, ban: bool, before: map<Ip, Offender>, after: map<Ip, Offender>,
                          ip: Ip, now: u32, forgotten: Option<Ip>, verdict: Verdict)
  {
    if ban
    then && Registering(cfg, before, after, ip, now, forgotten)
         && ip in after && after[ip].offenses >= 1 && verdict == Ban(cfg.banDuration, TierOf(cfg, after[ip]))
    else after == before && forgotten == None && verdict == Allow
  }

  ghost function ShardsBelow(clients: map<Ip, ClientState>, n: nat): set<Ip> {
    set ip | ip in clients && ShardNo(ip) < n
  }

  lemma NoClientsBelow(clients: map<Ip, ClientState>)
    ensures ShardsBelow(clients, 0) == {} && ShardsBelow(clients, SHARDS) == clients.Keys && |clients.Keys| == |clients|
  {
  }

  lemma ClientsOfShard(clients: map<Ip, ClientState>, i: nat)
    ensures |ShardsBelow(clients, i + 1)| == |ShardsBelow(clients, i)| + |InShard(clients, i)|
  {
    var below, shard := ShardsBelow(clients, i), InShard(clients, i);
    assert ShardsBelow(clients, i + 1) == below + shard.Keys;
    assert below !! shard.Keys && |shard.Keys| == |shard|;
  }

  lemma VictimIsResident(ages: map<Ip, u32>, ip: Ip, cap: nat, victim: Option<Ip>)
    requires Evicts(ages, ip, cap, victim)
    ensures victim.Some? ==> victim.value in ages && victim.value != ip
  {
  }

  /** With its victim gone, a shard has room for the newcomer ... */
  lemma RoomWasMade(shard: map<Ip, ClientState>, ip: Ip, cap: nat, victim: Option<Ip>, c: ClientState)
    requires cap >= 1 && |shard| <= cap && Evicts(Ages(shard), ip, cap, victim)
    ensures |Without(shard, victim)[ip := c]| <= cap
    ensures victim.Some? ==> victim.value in shard && victim.value != ip
  {
    VictimIsResident(Ages(shard), ip, cap, victim);
    assert Ages(shard).Keys == shard.Keys;
    RoomFor(shard, ip, cap, victim, c);
  }

  lemma VictimIsHere(clients: map<Ip, ClientState>, ip: Ip, cap: nat, victim: Option<Ip>)
    requires Evicts(Ages(InShard(clients, ShardNo(ip))), ip, cap, victim)
    ensures victim.Some? ==> ShardNo(victim.value) == ShardNo(ip)
  {
    VictimIsResident(Ages(InShard(clients, ShardNo(ip))), ip, cap, victim);
  }

  /** ... and the other shards are untouched. */
  lemma ShardAfter(clients: map<Ip, ClientState>, ip: Ip, victim: Option<Ip>, c: ClientState, j: nat)
    requires victim.Some? ==> ShardNo(victim.value) == ShardNo(ip)
    ensures InShard(Without(clients, victim)[ip := c], j) ==
            if j == ShardNo(ip) then Without(InShard(clients, j), victim)[ip := c] else InShard(clients, j)
  {
  }

  lemma StillValid(clients: map<Ip, ClientState>, ip: Ip, victim: Option<Ip>, c: ClientState)
    requires c.Valid() && AllValid(clients)
    ensures AllValid(Without(clients, victim)[ip := c])
  {
  }

  lemma RoomFor<V>(m: map<Ip, V>, ip: Ip, cap: nat, victim: Option<Ip>, v: V)
    requires cap >= 1 && |m| <= cap
    requires victim.Some? ==> victim.value in m
    requires victim == None ==> ip in m || |m| < cap
    ensures |Without(m, victim)[ip := v]| <= cap
  {
    var kept := Without(m, victim);
    assert kept.Keys == if victim.Some? then m.Keys - {victim.value} else m.Keys;
    assert |kept| <= |m|;
    assert kept[ip := v].Keys == kept.Keys + {ip};
  }

  lemma RoomInRegistry(offenders: map<Ip, Offender>, ip: Ip, cap: nat, forgotten: Option<Ip>, now: u32)
    requires |offenders| <= (if cap == 0 then 1 else cap) && Evicts(OffenderAges(offenders), ip, cap, forgotten)
    ensures |Without(offenders, forgotten)[ip := Offended(Get(offenders, ip), now)]| <= if cap == 0 then 1 else cap
    ensures forgotten.Some? ==> forgotten.value != ip
  {
    VictimIsResident(OffenderAges(offenders), ip, cap, forgotten);
    assert OffenderAges(offenders).Keys == offenders.Keys;
    RoomFor(offenders, ip, if cap == 0 then 1 else cap, forgotten, Offended(Get(offenders, ip), now));
  }
}
