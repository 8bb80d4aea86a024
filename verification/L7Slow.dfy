/** Slow sources and honest ones: what is never flagged, and what the gate on fast announcing really
    looks at. */
module L7Slow {
  import opened Bytes
  import opened Core
  import opened Arith
  import opened L7Spec
  import opened L7Bucket
  import opened L7Bans
  import opened L7History

  // ---------------------------------------------------------------- slow sources

  /** The clock of the source's events never goes back. */
  ghost predicate Ordered(h: History) {
    forall i :: 1 <= i < |h| ==> h[i - 1].now <= h[i].now
  }

  ghost predicate WeighAtMost(cfg: Config, h: History, w: nat)
    requires cfg.WeightsFit()
  {
    forall n :: 1 <= n <= |h| ==> WeightAt(cfg, h[..n]) <= w
  }

  /** The number of the last event that weighed anything, counting from one. */
  function LastHeavy(cfg: Config, h: History): (n: nat)
    requires cfg.WeightsFit()
    ensures n <= |h|
  {
    if h == [] then 0 else if WeightAt(cfg, h) > 0 then |h| else LastHeavy(cfg, Front(h))
  }

  /** Events that weigh anything are at least `g` seconds apart; in between anything weightless may
      happen. */
  ghost predicate HeavySpaced(cfg: Config, h: History, g: nat)
    requires cfg.WeightsFit()
  {
    forall n :: 1 <= n <= |h| ==> HeavyAt(cfg, h[..n], g)
  }

  ghost predicate HeavyAt(cfg: Config, h: History, g: nat)
    requires cfg.WeightsFit() && h != []
  {
    var last := LastHeavy(cfg, Front(h));
    WeightAt(cfg, h) > 0 && last > 0 ==> Last(h).now - h[last - 1].now >= g
  }

  lemma {:induction false} FrontOf(cfg: Config, h: History, g: nat, w: nat)
    requires cfg.WeightsFit() && h != [] && Ordered(h) && HeavySpaced(cfg, h, g) && WeighAtMost(cfg, h, w)
    ensures Ordered(Front(h)) && HeavySpaced(cfg, Front(h), g) && WeighAtMost(cfg, Front(h), w)
    ensures WeightAt(cfg, h) <= w && HeavyAt(cfg, h, g)
  {
    hide WeightAt, HeavyAt;
    assert h[..|h|] == h;
    forall n | 1 <= n < |h| ensures Front(h)[..n] == h[..n] {
    }
  }

  lemma {:induction false} ClockIsNow(h: History)
    requires h != [] && Ordered(h)
    ensures Clock(h) == Last(h).now
  {
    if |h| >= 2 {
      ClockIsNow(Front(h));
    }
  }

  /** What is left of a weight `w` that came with the last heavy event. */
  function Remnant(cfg: Config, h: History, w: nat): int
    requires cfg.WeightsFit() && h != []
  {
    var last := LastHeavy(cfg, h);
    if last == 0 then 0 else w - cfg.decayAmount * (Ticks(cfg, h) - Ticks(cfg, h[..last]))
  }

  /** A weightless event only drains the remnant; a heavy one finds it gone and leaves its own. */
  lemma {:induction false} RemnantStep(cfg: Config, h: History, g: nat, w: nat)
    requires cfg.WeightsFit() && |h| >= 2 && Ordered(h) && HeavyAt(cfg, h, g) && cfg.decayAmount * (g / cfg.Interval()) >= w
    ensures var heavy, before := WeightAt(cfg, h) > 0, LastHeavy(cfg, Front(h));
            var drained := Remnant(cfg, Front(h), w) - cfg.decayAmount * (Ticks(cfg, h) - Ticks(cfg, Front(h)));
            && LastHeavy(cfg, h) == (if heavy then |h| else before)
            && (heavy ==> Remnant(cfg, h, w) == w)
            && (before > 0 ==> if heavy then drained <= 0 else Remnant(cfg, h, w) == drained)
  {
    hide WeightAt, Ticks;
    assert h[..|h|] == h;
    var front, last := Front(h), LastHeavy(cfg, Front(h));
    if last > 0 {
      assert front[..last] == h[..last];
      Telescope(cfg.decayAmount, Ticks(cfg, h), Ticks(cfg, front), Ticks(cfg, h[..last]));
      if WeightAt(cfg, h) > 0 {
        GapDrains(cfg, h, last, g);
      }
    }
  }

  /** When every event weighs at most `w` and the gaps between those that weigh anything decay at
      least `w`, the score never exceeds what is left of one such weight. */
  lemma {:induction false} SlowScore(cfg: Config, h: History, g: nat, w: nat)
    requires cfg.WeightsFit() && h != [] && Ordered(h) && HeavySpaced(cfg, h, g) && WeighAtMost(cfg, h, w)
    requires cfg.decayAmount * (g / cfg.Interval()) >= w
    ensures ScoreAt(cfg, h) <= w
    ensures ScoreAt(cfg, h) == 0 || (LastHeavy(cfg, h) > 0 && ScoreAt(cfg, h) <= Remnant(cfg, h, w))
  {
    hide WeightAt, ScoreAt, Ticks, Ordered, HeavySpaced, HeavyAt, WeighAtMost, Remnant;
    FrontOf(cfg, h, g, w);
    ScoreStep(cfg, h);
    if |h| == 1 {
      if WeightAt(cfg, h) > 0 {
        FirstRemnant(cfg, h, w);
      }
    } else {
      SlowScore(cfg, Front(h), g, w);
      RemnantStep(cfg, h, g, w);
      TicksGrow(cfg, h);
      ProductNonNegative(cfg.decayAmount, Ticks(cfg, h) - Ticks(cfg, Front(h)));
    }
  }

  lemma {:induction false} FirstRemnant(cfg: Config, h: History, w: nat)
    requires cfg.WeightsFit() && |h| == 1 && WeightAt(cfg, h) > 0
    ensures LastHeavy(cfg, h) == 1 && Remnant(cfg, h, w) == w
  {
    assert h[..1] == h;
  }

  /** A gap of `g` seconds since the `last`-th event decays what `g` seconds decay, wherever the grid
      of intervals lies. */
  lemma {:induction false} GapDrains(cfg: Config, h: History, last: nat, g: nat)
    requires Ordered(h) && 1 <= last <= |h| && Last(h).now - h[last - 1].now >= g
    ensures cfg.decayAmount * (Ticks(cfg, h) - Ticks(cfg, h[..last])) >= cfg.decayAmount * (g / cfg.Interval())
  {
    ClockIsNow(h);
    ClockIsNow(h[..last]);
    GapCrosses(h[last - 1].now - h[0].now, Last(h).now - h[0].now, g, cfg.Interval());
    ProductMonotone(cfg.decayAmount, g / cfg.Interval(), Ticks(cfg, h) - Ticks(cfg, h[..last]));
  }

  /** Such a source is never banned if one event alone does not reach the threshold. */
  lemma {:induction false} SlowNeverBanned(cfg: Config, h: History, g: nat, w: nat)
    requires cfg.WeightsFit() && h != [] && Ordered(h) && HeavySpaced(cfg, h, g) && WeighAtMost(cfg, h, w)
    requires cfg.decayAmount * (g / cfg.Interval()) >= w && w < cfg.scoreBanThreshold
    ensures !BannedAt(cfg, h)
  {
    SlowScore(cfg, h, g, w);
    BanLaw(cfg, h);
  }

  // ---------------------------------------------------------------- honest sources

  /** An announce whose identity is in order: a real key, no public source asking to be listed
      elsewhere, a known client, and, for every earlier announce of the torrent, the same key and
      peer id and no less than the minimum interval ago. */
  ghost predicate CleanIdentity(cfg: Config, a: AnnounceInfo, now: u32, before: seq<Seen>) {
    && a.key != 0 && a.key != U32_MAX
    && (a.declaredIp == 0 || !a.sourceIsPublic)
    && cfg.isKnownClient(a.peerId)
    && forall i :: 0 <= i < |before| && before[i].hash == a.infoHash ==>
         && before[i].key == a.key && before[i].peer == PeerFingerprint(a.peerId)
         && SatSub(now, before[i].at) >= cfg.reannounceMinInterval
  }

  /** The last event is what an honest source sends: an announce in order and not fast, a small
      scrape, or one of a few connects. */
  ghost predicate HonestEvent(cfg: Config, h: History)
    requires h != []
  {
    match Last(h).ev
    case Announced(a) => CleanIdentity(cfg, a, Last(h).now, Announces(Front(h))) && Gap(h) >= cfg.fastAnnounceGap
    case Scraped(n) => n < cfg.scrapeVolumeThreshold
    case Connected => UnusedConnects(h) <= cfg.connectBurst
    case Mismatched => false
  }

  ghost predicate Honest(cfg: Config, h: History) {
    forall n :: 1 <= n <= |h| ==> HonestEvent(cfg, h[..n])
  }

  lemma {:induction false} CleanIdentityWeighsNothing(cfg: Config, h: History)
    requires cfg.WeightsFit() && h != [] && Last(h).ev.Announced?
    requires CleanIdentity(cfg, Last(h).ev.a, Last(h).now, Announces(Front(h)))
    ensures IdentityWeight(cfg, TouchedAt(cfg, h), Last(h).ev.a, Last(h).now) == 0
  {
    SignalsScanHistory(cfg, h);
  }

  /** An honest event weighs nothing, whatever the swarm, the port, the bytes left or transferred and
      the number of peers asked for. */
  lemma {:induction false} HonestWeighsNothing(cfg: Config, h: History)
    requires cfg.WeightsFit() && h != [] && HonestEvent(cfg, h)
    ensures WeightAt(cfg, h) == 0
  {
    SummariesAgree(cfg, h);
    if Last(h).ev.Announced? {
      CleanIdentityWeighsNothing(cfg, h);
    }
  }

  lemma {:induction false} HonestScoresNothing(cfg: Config, h: History)
    requires cfg.WeightsFit() && h != [] && Honest(cfg, h)
    ensures ScoreAt(cfg, h) == 0
  {
    hide WeightAt, ScoreAt, HonestEvent, Ticks;
    assert h[..|h|] == h;
    HonestWeighsNothing(cfg, h);
    ScoreStep(cfg, h);
    if |h| >= 2 {
      forall n | 1 <= n < |h| ensures HonestEvent(cfg, Front(h)[..n]) {
        assert Front(h)[..n] == h[..n];
      }
      HonestScoresNothing(cfg, Front(h));
      TicksGrow(cfg, h);
      ProductNonNegative(cfg.decayAmount, Ticks(cfg, h) - Ticks(cfg, Front(h)));
    }
  }

  /** An honest source is never banned. */
  lemma HonestNeverBanned(cfg: Config, h: History)
    requires cfg.WeightsFit() && h != [] && Honest(cfg, h) && cfg.scoreBanThreshold >= 1
    ensures !BannedAt(cfg, h)
  {
    HonestScoresNothing(cfg, h);
    BanLaw(cfg, h);
  }

  // ---------------------------------------------------------------- the gate, exactly

  /** What an announce whose identity is in order weighs once it counts as fast. */
  function ShapeWeight(cfg: Config, a: AnnounceInfo, lonely: nat, others: set<InfoHash>): nat {
    If(a.port < 1024, cfg.weightBadPort)
    + If(a.left == 0 && a.downloaded == 0 && a.uploaded == 0, cfg.weightFakeSeeder)
    + If(a.numWant > cfg.numwantAbuse, cfg.weightNumwant)
    + If(a.swarmPeers <= 1 && SatAdd(Min(U32_MAX, lonely), 1) > cfg.emptySwarmThreshold, cfg.weightEmptySwarm)
    + If(|Buckets(others + {a.infoHash})| >= cfg.breadthThreshold, cfg.weightBreadth)
  }

  lemma {:induction false} CleanWeight(cfg: Config, h: History)
    requires cfg.WeightsFit() && h != [] && Last(h).ev.Announced?
    requires CleanIdentity(cfg, Last(h).ev.a, Last(h).now, Announces(Front(h)))
    ensures WeightAt(cfg, h) ==
            if Gap(h) < cfg.fastAnnounceGap
            then ShapeWeight(cfg, Last(h).ev.a, LonelyRun(cfg, Front(h)), FastHashes(cfg, Front(h))) else 0
  {
    hide CountOnes, TouchedAt, Buckets, IdentityWeight, LonelyRun, FastHashes, Announces, Gap, RingHolds, StateAt;
    SummariesAgree(cfg, h);
    CleanIdentityWeighsNothing(cfg, h);
    var c, a := TouchedAt(cfg, h), Last(h).ev.a;
    if IsFast(cfg, c) {
      WidenBits(cfg, c, FastHashes(cfg, Front(h)), a.infoHash);
      OnesAreBuckets(Widened(cfg, c, a), FastHashes(cfg, Front(h)) + {a.infoHash});
    }
  }

  /** The same announce but for its shape. */
  function Reshaped(a: AnnounceInfo, port: u16, left: u64, downloaded: u64, uploaded: u64, numWant: i32, swarmPeers: u32): AnnounceInfo {
    a.(port := port, left := left, downloaded := downloaded, uploaded := uploaded, numWant := numWant, swarmPeers := swarmPeers)
  }

  /** The history with its last event reshaped. */
  function ReshapedLast(h: History, port: u16, left: u64, downloaded: u64, uploaded: u64, numWant: i32, swarmPeers: u32): (g: History)
    requires h != [] && Last(h).ev.Announced?
    ensures g != []
  {
    Front(h) + [Sighting(Announced(Reshaped(Last(h).ev.a, port, left, downloaded, uploaded, numWant, swarmPeers)), Last(h).now)]
  }

  /** Some gated check could fire now, for some shape. */
  ghost predicate GateArmed(cfg: Config, hash: InfoHash, lonely: nat, others: set<InfoHash>) {
    || cfg.weightBadPort > 0
    || cfg.weightFakeSeeder > 0
    || (cfg.weightNumwant > 0 && cfg.numwantAbuse < 0x7FFF_FFFF)
    || (cfg.weightEmptySwarm > 0 && SatAdd(Min(U32_MAX, lonely), 1) > cfg.emptySwarmThreshold)
    || (cfg.weightBreadth > 0 && |Buckets(others + {hash})| >= cfg.breadthThreshold)
  }

  /** The shape of an announce whose identity is in order is harmless, whatever it is, if and only if
      no event of ANY kind came from the source within the fast gap before it, a connect included, or
      no gated check can fire at all. */
  lemma {:induction false} ShapeHarmlessIff(cfg: Config, h: History)
    requires cfg.WeightsFit() && h != [] && Last(h).ev.Announced?
    requires CleanIdentity(cfg, Last(h).ev.a, Last(h).now, Announces(Front(h)))
    ensures (forall port, left, downloaded, uploaded, numWant, swarmPeers ::
               WeightAt(cfg, ReshapedLast(h, port, left, downloaded, uploaded, numWant, swarmPeers)) == 0)
            <==> Gap(h) >= cfg.fastAnnounceGap
                 || !GateArmed(cfg, Last(h).ev.a.infoHash, LonelyRun(cfg, Front(h)), FastHashes(cfg, Front(h)))
  {
    hide WeightAt, ShapeWeight, GateArmed, LonelyRun, FastHashes, Gap, ReshapedLast, Reshaped;
    var lonely, others := LonelyRun(cfg, Front(h)), FastHashes(cfg, Front(h));
    forall port, left, downloaded, uploaded, numWant, swarmPeers
      ensures WeightAt(cfg, ReshapedLast(h, port, left, downloaded, uploaded, numWant, swarmPeers)) ==
              if Gap(h) < cfg.fastAnnounceGap
              then ShapeWeight(cfg, Reshaped(Last(h).ev.a, port, left, downloaded, uploaded, numWant, swarmPeers), lonely, others) else 0
      ensures !GateArmed(cfg, Last(h).ev.a.infoHash, lonely, others) ==>
                ShapeWeight(cfg, Reshaped(Last(h).ev.a, port, left, downloaded, uploaded, numWant, swarmPeers), lonely, others) == 0
    {
      ReshapedWeight(cfg, h, port, left, downloaded, uploaded, numWant, swarmPeers);
      GateWeighs(cfg, Last(h).ev.a, lonely, others, port, left, downloaded, uploaded, numWant, swarmPeers);
    }
    if Gap(h) < cfg.fastAnnounceGap && GateArmed(cfg, Last(h).ev.a.infoHash, lonely, others) {
      GateWeighs(cfg, Last(h).ev.a, lonely, others, 443, 0, 0, 0, 0x7FFF_FFFF, 0);
      assert WeightAt(cfg, ReshapedLast(h, 443, 0, 0, 0, 0x7FFF_FFFF, 0)) > 0;
    }
  }

  lemma {:induction false} ReshapedWeight(cfg: Config, h: History, port: u16, left: u64, downloaded: u64, uploaded: u64,
                                          numWant: i32, swarmPeers: u32)
    requires cfg.WeightsFit() && h != [] && Last(h).ev.Announced?
    requires CleanIdentity(cfg, Last(h).ev.a, Last(h).now, Announces(Front(h)))
    ensures WeightAt(cfg, ReshapedLast(h, port, left, downloaded, uploaded, numWant, swarmPeers)) ==
            if Gap(h) < cfg.fastAnnounceGap
            then ShapeWeight(cfg, Reshaped(Last(h).ev.a, port, left, downloaded, uploaded, numWant, swarmPeers),
                             LonelyRun(cfg, Front(h)), FastHashes(cfg, Front(h))) else 0
  {
    hide WeightAt, ShapeWeight, LonelyRun, FastHashes, Announces;
    var g := ReshapedLast(h, port, left, downloaded, uploaded, numWant, swarmPeers);
    assert Front(g) == Front(h);
    CleanWeight(cfg, g);
  }

  /** With nothing armed no shape weighs; with something armed the worst shape does. */
  lemma GateWeighs(cfg: Config, a: AnnounceInfo, lonely: nat, others: set<InfoHash>, port: u16, left: u64, downloaded: u64,
                   uploaded: u64, numWant: i32, swarmPeers: u32)
    ensures var w := ShapeWeight(cfg, Reshaped(a, port, left, downloaded, uploaded, numWant, swarmPeers), lonely, others);
            && (!GateArmed(cfg, a.infoHash, lonely, others) ==> w == 0)
            && (port < 1024 && left == downloaded == uploaded == 0 && numWant == 0x7FFF_FFFF && swarmPeers == 0 ==>
                  (GateArmed(cfg, a.infoHash, lonely, others) ==> w > 0))
  {
    hide Buckets;
  }
}
