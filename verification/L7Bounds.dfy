/** How much the detector remembers, whom it forgets, and what a ban says: every bound, every choice of
    a victim and every entry of the registry, written out. */
module L7Bounds {
  import opened Bytes
  import opened Core
  import opened Sequences
  import opened L7Spec
  import opened L7Eviction
  import opened L7Runs
  import L7Detector

  // ---------------------------------------------------------------- the bounds, in every run

  /** The sources that share a shard: those whose last byte leaves the same remainder. */
  ghost function Sharing(clients: map<Ip, ClientState>, i: nat): set<Ip> {
    set ip | ip in clients && ip[15] % 16 == i
  }

  lemma SharingIsShard(clients: map<Ip, ClientState>, i: nat)
    ensures Sharing(clients, i) == InShard(clients, i).Keys && |Sharing(clients, i)| == |InShard(clients, i)|
  {
    assert Sharing(clients, i) == InShard(clients, i).Keys;
    assert |InShard(clients, i).Keys| == |InShard(clients, i)|;
  }

  /** An even share of the configured total, and never less than one. */
  lemma CapIsShare(cfg: Config)
    ensures cfg.PerShardCap() == if cfg.maxEntries < 16 then 1 else cfg.maxEntries / 16
    ensures 16 * cfg.PerShardCap() <= if cfg.maxEntries < 16 then 16 else cfg.maxEntries
  {
  }

  lemma {:induction false} SumOfShards(clients: map<Ip, ClientState>, n: nat, cap: nat)
    requires n <= 16 && forall i :: 0 <= i < 16 ==> |InShard(clients, i)| <= cap
    ensures |L7Detector.ShardsBelow(clients, n)| <= n * cap
  {
    hide InShard, L7Detector.ShardsBelow;
    if n == 0 {
      L7Detector.NoClientsBelow(clients);
    } else {
      SumOfShards(clients, n - 1, cap);
      L7Detector.ClientsOfShard(clients, n - 1);
      assert n * cap == (n - 1) * cap + cap;
    }
  }

  /** In every run, whatever the interleaving and whoever is evicted: no shard remembers more than its
      sixteenth of the configured number of sources, all of them together no more than that number,
      and the registry no more than its own; each bound is at least one per map. */
  lemma {:induction false} MemoryIsBounded(cfg: Config, steps: seq<Step>)
    requires cfg.WeightsFit() && IsRun(cfg, steps)
    ensures var s := At(cfg, steps);
            && (forall i :: 0 <= i < 16 ==> |Sharing(s.clients, i)| <= if cfg.maxEntries < 16 then 1 else cfg.maxEntries / 16)
            && |s.clients| <= (if cfg.maxEntries < 16 then 16 else cfg.maxEntries)
            && |s.offenders| <= (if cfg.maxOffenders < 1 then 1 else cfg.maxOffenders)
  {
    hide At, IsRun, InShard, Sharing, LogExplained, ClientExplained, OffenderExplained, BansBalance, L7Detector.ShardsBelow;
    RunExplained(cfg, steps);
    CapIsShare(cfg);
    var s := At(cfg, steps);
    forall i | 0 <= i < 16 ensures |Sharing(s.clients, i)| == |InShard(s.clients, i)| {
      SharingIsShard(s.clients, i);
    }
    SumOfShards(s.clients, 16, cfg.PerShardCap());
    L7Detector.NoClientsBelow(s.clients);
  }

  // ---------------------------------------------------------------- the steps

  /** The ones of a shard seen no earlier than one of them. */
  ghost function AsFresh(clients: map<Ip, ClientState>, shard: set<Ip>, v: Ip): set<Ip>
    requires v in shard && shard <= clients.Keys
  {
    set k | k in shard && clients[k].lastSeen >= clients[v].lastSeen
  }

  lemma {:induction false} VictimInShard(clients: map<Ip, ClientState>, i: nat, v: Ip)
    requires v in Sharing(clients, i)
    ensures Sharing(clients, i) <= clients.Keys && v in Ages(InShard(clients, i))
    ensures IsVictim(Ages(InShard(clients, i)), v) <==>
            |AsFresh(clients, Sharing(clients, i), v)| >= if |Sharing(clients, i)| < 8 then |Sharing(clients, i)| else 8
  {
    hide IsVictim;
    SharingIsShard(clients, i);
    var ages := Ages(InShard(clients, i));
    assert ages.Keys == Sharing(clients, i) && |ages.Keys| == |ages|;
    VictimIff(ages, v);
    assert NoEarlier(ages, v) == AsFresh(clients, Sharing(clients, i), v);
  }

  /** A scoring step displaces somebody exactly when the source is new and its shard holds its share;
      whom, exactly: one of that shard, with at least eight (or all, if they are fewer) seen no
      earlier than it, itself included. */
  lemma {:induction false} ScoreDisplaces(cfg: Config, s: Sys, ip: Ip, ev: L7Event, now: u32, victim: Option<Ip>)
    ensures var shard := Sharing(s.clients, ip[15] % 16);
            shard <= s.clients.Keys &&
            (Enabled(cfg, s, Score(ip, ev, now, victim)) <==>
             if ip !in s.clients && |shard| >= (if cfg.maxEntries < 16 then 1 else cfg.maxEntries / 16)
             then && victim.Some? && victim.value in shard
                  && |AsFresh(s.clients, shard, victim.value)| >= (if |shard| < 8 then |shard| else 8)
             else victim == None)
  {
    hide IsVictim, AsFresh;
    var i := ip[15] % 16;
    SharingIsShard(s.clients, i);
    CapIsShare(cfg);
    var ages := Ages(InShard(s.clients, i));
    assert ages.Keys == Sharing(s.clients, i) && |ages.Keys| == |ages|;
    assert ip in s.clients <==> ip in ages;
    if victim.Some? && victim.value in ages {
      VictimInShard(s.clients, i, victim.value);
    } else if victim.Some? {
      NotAVictim(ages, victim.value);
    }
  }

  lemma NotAVictim(ages: map<Ip, u32>, v: Ip)
    requires v !in ages
    ensures !IsVictim(ages, v)
  {
  }

  /** What a scoring step leaves: the source, just seen, in place of whom it displaced; everyone else,
      and the registry, as they were. */
  lemma {:induction false} ScoreLeaves(cfg: Config, s: Sys, ip: Ip, ev: L7Event, now: u32, victim: Option<Ip>)
    requires cfg.WeightsFit() && AllValid(s.clients) && Enabled(cfg, s, Score(ip, ev, now, victim))
    ensures var t := After(cfg, s, Score(ip, ev, now, victim));
            && ip in t.clients && t.clients[ip].lastSeen == now && t.offenders == s.offenders
            && forall k :: k != ip ==> (if victim == Some(k) then k !in t.clients else Get(t.clients, k) == Get(s.clients, k))
  {
    hide Bans, Evicts, InShard, Ages;
    L7Detector.VictimIsResident(Ages(InShard(s.clients, ShardNo(ip))), ip, cfg.PerShardCap(), victim);
  }

  /** The offenders last banned no earlier than one of them. */
  ghost function AsLate(offenders: map<Ip, Offender>, v: Ip): set<Ip>
    requires v in offenders
  {
    set k | k in offenders && offenders[k].last >= offenders[v].last
  }

  /** Registering a ban forgets somebody exactly when the offender is new and the registry is full and
      not empty; whom, exactly: one with at least eight (or all) last banned no earlier. */
  lemma {:induction false} RegisterForgets(cfg: Config, s: Sys, which: nat, forgotten: Option<Ip>)
    ensures Enabled(cfg, s, Register(which, forgotten)) <==>
            && which < |s.pending|
            && if s.pending[which].0 !in s.offenders && |s.offenders| >= cfg.maxOffenders && |s.offenders| >= 1
               then && forgotten.Some? && forgotten.value in s.offenders
                    && |AsLate(s.offenders, forgotten.value)| >= (if |s.offenders| < 8 then |s.offenders| else 8)
               else forgotten == None
  {
    hide IsVictim;
    var ages := OffenderAges(s.offenders);
    assert ages.Keys == s.offenders.Keys && |ages.Keys| == |ages| && |s.offenders.Keys| == |s.offenders|;
    if forgotten.Some? && forgotten.value in ages {
      VictimIff(ages, forgotten.value);
      assert NoEarlier(ages, forgotten.value) == AsLate(s.offenders, forgotten.value);
    } else if forgotten.Some? {
      NotAVictim(ages, forgotten.value);
    }
  }

  /** The offences of a source, as far as the registry remembers. */
  function Priors(offenders: map<Ip, Offender>, ip: Ip): u32 {
    if ip in offenders then offenders[ip].offenses else 0
  }

  /** One more offence than before, as far as 32 bits count. */
  predicate OneMore(o: Offender, priors: u32, now: u32) {
    o.last == now && o.offenses == if priors == 0xFFFF_FFFF then 0xFFFF_FFFF else priors + 1
  }

  /** The tier of an offence: how many came before it, up to the last tier. */
  function TierAfter(cfg: Config, priors: u32): int {
    var last: int := if cfg.banTiers < 1 then 0 else cfg.banTiers - 1;
    var before: int := if priors == 0xFFFF_FFFF then 0xFFFF_FFFE else priors;
    if before < last then before else last
  }

  /** What a registering step leaves: one more offence, at the time of the ban, in place of whom it
      forgot, with its tier in the log; the ban no longer pending and every other one still. */
  lemma {:induction false} RegisterLeaves(cfg: Config, s: Sys, which: nat, forgotten: Option<Ip>)
    requires cfg.WeightsFit() && AllValid(s.clients) && Enabled(cfg, s, Register(which, forgotten))
    ensures var t, (ip, now) := After(cfg, s, Register(which, forgotten)), s.pending[which];
            && ip in t.offenders && t.clients == s.clients
            && OneMore(t.offenders[ip], Priors(s.offenders, ip), now)
            && t.log != [] && t.log[|t.log| - 1] == Tiered(ip, TierAfter(cfg, Priors(s.offenders, ip)))
            && multiset(t.pending) == multiset(s.pending) - multiset{(ip, now)}
            && forall k :: k != ip ==> (if forgotten == Some(k) then k !in t.offenders else Get(t.offenders, k) == Get(s.offenders, k))
  {
    hide Evicts, OffenderAges, Offended, TierOf, TierAfter, OneMore, Priors, Displaced;
    var (ip, now) := s.pending[which];
    L7Detector.VictimIsResident(OffenderAges(s.offenders), ip, cfg.maxOffenders, forgotten);
    OffendedIs(cfg, s.offenders, ip, now);
    OneGone(s.pending, which);
  }

  lemma OffendedIs(cfg: Config, offenders: map<Ip, Offender>, ip: Ip, now: u32)
    ensures var o := Offended(Get(offenders, ip), now);
            && OneMore(o, Priors(offenders, ip), now) && o.offenses >= 1 && TierOf(cfg, o) == TierAfter(cfg, Priors(offenders, ip))
  {
  }

  lemma OneGone<T>(all: seq<T>, i: nat)
    requires i < |all|
    ensures multiset(all[..i] + all[i + 1..]) == multiset(all) - multiset{all[i]}
  {
    assert all == all[..i] + [all[i]] + all[i + 1..];
  }

  // ---------------------------------------------------------------- the verdict

  /** Until when bans of a source are suppressed. */
  function Quiet(clients: map<Ip, ClientState>, ip: Ip): u32 {
    if ip in clients then clients[ip].bannedUntil else 0
  }

  /** The verdict of one call: a ban exactly when the source's new score has reached the threshold and
      bans of it are no longer suppressed; it carries the configured length and the tier, adds one
      offence and suppresses further bans for the cooldown. Anything else is allowed and leaves the
      registry and the suppression as they were. */
  lemma {:induction false} VerdictSays(cfg: Config, before: map<Ip, ClientState>, after: map<Ip, ClientState>,
                                       registered: map<Ip, Offender>, registering: map<Ip, Offender>, ip: Ip, ev: L7Event,
                                       now: u32, victim: Option<Ip>, forgotten: Option<Ip>, verdict: Verdict)
    requires cfg.WeightsFit() && AllValid(before)
    requires L7Detector.Handled(cfg, before, after, registered, registering, ip, ev, now, victim, forgotten, verdict)
    ensures ip in after
    ensures verdict.Ban? <==> after[ip].score >= cfg.scoreBanThreshold && now >= Quiet(before, ip)
    ensures verdict.Ban? ==>
              && verdict.duration == cfg.banDuration && verdict.tier == TierAfter(cfg, Priors(registered, ip))
              && after[ip].bannedUntil == (if now + cfg.rebanCooldown > 0xFFFF_FFFF then 0xFFFF_FFFF else now + cfg.rebanCooldown)
              && ip in registering && OneMore(registering[ip], Priors(registered, ip), now)
    ensures verdict.Allow? ==> after[ip].bannedUntil == Quiet(before, ip) && registering == registered
  {
    hide Evicts, Weight, Touched, Recorded;
    var stored := Get(before, ip);
    TouchedQuiet(cfg, stored, now);
    RecordedQuiet(cfg, Touched(cfg, stored, now), ev, now);
  }

  lemma TouchedQuiet(cfg: Config, stored: Option<ClientState>, now: u32)
    requires stored.Some? ==> stored.value.Valid()
    ensures Touched(cfg, stored, now).Valid()
    ensures Touched(cfg, stored, now).bannedUntil == if stored.Some? then stored.value.bannedUntil else 0
  {
  }

  lemma RecordedQuiet(cfg: Config, c: ClientState, ev: L7Event, now: u32)
    requires c.Valid()
    ensures Recorded(cfg, c, ev, now).bannedUntil == c.bannedUntil
  {
  }

  // ---------------------------------------------------------------- the shipped settings

  /** As shipped: at most 62,500 sources a shard, a million together and five million offenders; a ban
      lasts an hour and suppresses others for an hour; the tiers are 0, 1, 2 and then 3. */
  lemma {:induction false} ShippedBounds(known: PeerId -> bool, steps: seq<Step>, priors: u32)
    requires IsRun(DefaultConfig(known), steps)
    ensures var cfg := DefaultConfig(known);
            var s := At(cfg, steps);
            && (forall i :: 0 <= i < 16 ==> |Sharing(s.clients, i)| <= 62_500)
            && |s.clients| <= 1_000_000 && |s.offenders| <= 5_000_000
            && cfg.banDuration == 3600 && cfg.rebanCooldown == 3600
            && TierAfter(cfg, priors) == if priors < 3 then priors as int else 3
  {
    hide At, IsRun, Sharing;
    MemoryIsBounded(DefaultConfig(known), steps);
  }
}
