/** An honest client that reconnects: as its connection id has expired between announces, it sends a
    connect right before each. Whether it is ever banned, exactly, for every shape and period. */
module L7Reconnect {
  import opened Bytes
  import opened Core
  import opened Arith
  import opened L7Spec
  import opened L7Bucket
  import opened L7Bans
  import opened L7History
  import opened L7Slow

  /** `n` periods of `p` seconds fit the clock. */
  predicate Fits(p: nat, n: nat) {
    0 <= p * n <= U32_MAX
  }

  lemma FitsLess(p: nat, m: nat, n: nat)
    requires Fits(p, n) && m <= n
    ensures Fits(p, m) && (m < n ==> p * (m + 1) == p * m + p && Fits(p, m + 1))
  {
    ProductMonotone(p, m, n);
    ProductNonNegative(p, m);
    if m < n {
      ProductMonotone(p, m + 1, n);
      ProductNonNegative(p, m + 1);
      Distribute(p, m, 1);
    }
  }

  /** The same announce every `p` seconds, each time with a connect just before it. */
  function Rounds(a: AnnounceInfo, p: nat, n: nat): (h: History)
    requires Fits(p, n)
    ensures |h| == 2 * n
  {
    if n == 0 then [] else
      FitsLess(p, n - 1, n);
      Rounds(a, p, n - 1) + [Sighting(Connected, p * n), Sighting(Announced(a), p * n)]
  }

  /** The rounds up to the `n`-th connect, without its announce. */
  function Connecting(a: AnnounceInfo, p: nat, n: nat): (h: History)
    requires n >= 1 && Fits(p, n)
    ensures |h| == 2 * n - 1
  {
    FitsLess(p, n - 1, n);
    Rounds(a, p, n - 1) + [Sighting(Connected, p * n)]
  }

  lemma RoundParts(a: AnnounceInfo, p: nat, n: nat)
    requires n >= 1 && Fits(p, n)
    ensures Fits(p, n - 1)
    ensures Front(Rounds(a, p, n)) == Connecting(a, p, n) && Last(Rounds(a, p, n)) == Sighting(Announced(a), p * n)
    ensures Front(Connecting(a, p, n)) == Rounds(a, p, n - 1) && Last(Connecting(a, p, n)) == Sighting(Connected, p * n)
  {
    FitsLess(p, n - 1, n);
  }

  /** A known client with a real key that asks for nothing it must not, at a period the tracker allows,
      under settings by which one fast torrent and one unused connect are nothing yet. */
  predicate Orderly(cfg: Config, a: AnnounceInfo, p: nat) {
    && cfg.WeightsFit() && cfg.isKnownClient(a.peerId) && a.key != 0 && a.key != U32_MAX
    && (a.declaredIp == 0 || !a.sourceIsPublic)
    && p >= cfg.reannounceMinInterval && cfg.fastAnnounceGap >= 1 && cfg.connectBurst >= 1 && cfg.breadthThreshold >= 2
  }

  // ---------------------------------------------------------------- what the detector remembers of it

  ghost predicate OnlySeen(all: seq<Seen>, a: AnnounceInfo, until: nat) {
    forall i :: 0 <= i < |all| ==>
      all[i].hash == a.infoHash && all[i].key == a.key && all[i].peer == PeerFingerprint(a.peerId) && all[i].at <= until
  }

  ghost predicate Memory(cfg: Config, h: History, a: AnnounceInfo, p: nat, n: nat) {
    && OnlySeen(Announces(h), a, p * n)
    && UnusedConnects(h) == 0
    && FastHashes(cfg, h) <= {a.infoHash}
    && LonelyRun(cfg, h) == (if a.swarmPeers <= 1 then n else 0)
    && (n > 0 ==> h != [] && Last(h).now == p * n && Clock(h) == p * n && h[0].now == p)
  }

  /** The clock of the `n`-th round. */
  lemma {:induction false} RoundClock(a: AnnounceInfo, p: nat, n: nat)
    requires n >= 1 && Fits(p, n)
    ensures var h := Connecting(a, p, n); Clock(h) == p * n && h[0].now == p && Last(h).now == p * n
    ensures var h := Rounds(a, p, n); Clock(h) == p * n && h[0].now == p && Last(h).now == p * n
  {
    hide Rounds, Connecting;
    FitsLess(p, n - 1, n);
    RoundParts(a, p, n);
    var mid, h := Connecting(a, p, n), Rounds(a, p, n);
    assert h[0] == Front(h)[0];
    if n > 1 {
      RoundClock(a, p, n - 1);
      assert mid[0] == Front(mid)[0];
    } else {
      assert p * 1 == p;
      assert mid[0] == Last(mid);
    }
    ClockNext(mid, h, p * n);
  }

  lemma ClockNext(mid: History, h: History, now: nat)
    requires |h| >= 2 && Front(h) == mid && Last(h).now == Last(mid).now == now
    requires |mid| == 1 || Clock(Front(mid)) <= now
    ensures Clock(mid) == Clock(h) == now
  {
  }

  /** What a connect changes of it. */
  lemma {:induction false} ConnectMemory(cfg: Config, a: AnnounceInfo, p: nat, n: nat)
    requires n >= 1 && Fits(p, n) && Fits(p, n - 1) && Memory(cfg, Rounds(a, p, n - 1), a, p, n - 1)
    ensures var h := Connecting(a, p, n);
            && OnlySeen(Announces(h), a, p * (n - 1)) && UnusedConnects(h) == 1
            && FastHashes(cfg, h) == FastHashes(cfg, Rounds(a, p, n - 1))
            && LonelyRun(cfg, h) == LonelyRun(cfg, Rounds(a, p, n - 1))
            && Clock(h) == p * n && h[0].now == p && Last(h).now == p * n
  {
    hide Rounds, Connecting, Announces, FastHashes, LonelyRun, UnusedConnects, PeerFingerprint, Clock, OnlySeen;
    RoundParts(a, p, n);
    RoundClock(a, p, n);
    LastSays(cfg, Connecting(a, p, n));
  }

  lemma {:induction false} AnnounceMemory(cfg: Config, a: AnnounceInfo, p: nat, n: nat)
    requires n >= 1 && Fits(p, n) && Fits(p, n - 1) && Memory(cfg, Rounds(a, p, n - 1), a, p, n - 1) && cfg.fastAnnounceGap >= 1
    ensures Memory(cfg, Rounds(a, p, n), a, p, n) && Gap(Rounds(a, p, n)) == 0
  {
    hide Rounds, Connecting, Announces, FastHashes, LonelyRun, UnusedConnects, PeerFingerprint, Clock, OnlySeen;
    FitsLess(p, n - 1, n);
    RoundParts(a, p, n);
    ConnectMemory(cfg, a, p, n);
    RoundClock(a, p, n);
    var mid, h := Connecting(a, p, n), Rounds(a, p, n);
    LastSays(cfg, h);
    OneMoreSeen(Announces(mid), a, p * (n - 1), p * n);
    assert Gap(h) == 0;
  }

  lemma OneMoreSeen(all: seq<Seen>, a: AnnounceInfo, until: nat, now: u32)
    requires OnlySeen(all, a, until) && until <= now
    ensures OnlySeen(all + [Seen(a.infoHash, now, a.key, PeerFingerprint(a.peerId))], a, now)
  {
  }

  lemma {:induction false} RoundsMemory(cfg: Config, a: AnnounceInfo, p: nat, n: nat)
    requires Fits(p, n) && cfg.fastAnnounceGap >= 1
    ensures Memory(cfg, Rounds(a, p, n), a, p, n)
  {
    if n > 0 {
      FitsLess(p, n - 1, n);
      RoundsMemory(cfg, a, p, n - 1);
      AnnounceMemory(cfg, a, p, n);
    }
  }

  // ---------------------------------------------------------------- what a round weighs

  /** What the announce of the `n`-th round weighs. */
  function RoundWeight(cfg: Config, a: AnnounceInfo, n: nat): nat {
    If(a.port < 1024, cfg.weightBadPort)
    + If(a.left == 0 && a.downloaded == 0 && a.uploaded == 0, cfg.weightFakeSeeder)
    + If(a.numWant > cfg.numwantAbuse, cfg.weightNumwant)
    + If(a.swarmPeers <= 1 && n > cfg.emptySwarmThreshold, cfg.weightEmptySwarm)
  }

  lemma {:induction false} RoundWeighs(cfg: Config, a: AnnounceInfo, p: nat, n: nat)
    requires Orderly(cfg, a, p) && n >= 1 && Fits(p, n) && n <= U32_MAX
    ensures WeightAt(cfg, Connecting(a, p, n)) == 0 && WeightAt(cfg, Rounds(a, p, n)) == RoundWeight(cfg, a, n)
  {
    hide WeightAt, Memory, Orderly, Rounds, Connecting;
    FitsLess(p, n - 1, n);
    RoundParts(a, p, n);
    ConnectWeighsNothing(cfg, a, p, n);
    AnnounceWeighs(cfg, a, p, n);
  }

  lemma {:induction false} ConnectWeighsNothing(cfg: Config, a: AnnounceInfo, p: nat, n: nat)
    requires Orderly(cfg, a, p) && n >= 1 && Fits(p, n)
    ensures WeightAt(cfg, Connecting(a, p, n)) == 0
  {
    hide Rounds, Connecting, Announces, FastHashes, LonelyRun;
    FitsLess(p, n - 1, n);
    RoundParts(a, p, n);
    RoundsMemory(cfg, a, p, n - 1);
    ConnectMemory(cfg, a, p, n);
    HonestWeighsNothing(cfg, Connecting(a, p, n));
  }

  lemma {:induction false} AnnounceWeighs(cfg: Config, a: AnnounceInfo, p: nat, n: nat)
    requires Orderly(cfg, a, p) && n >= 1 && Fits(p, n) && n <= U32_MAX
    ensures WeightAt(cfg, Rounds(a, p, n)) == RoundWeight(cfg, a, n)
  {
    hide WeightAt, Rounds, Connecting, Announces, FastHashes, LonelyRun, Gap, Buckets, Clock;
    FitsLess(p, n - 1, n);
    RoundParts(a, p, n);
    RoundsMemory(cfg, a, p, n - 1);
    ConnectMemory(cfg, a, p, n);
    AnnounceMemory(cfg, a, p, n);
    var mid, h := Connecting(a, p, n), Rounds(a, p, n);
    assert CleanIdentity(cfg, a, p * n, Announces(mid));
    CleanWeight(cfg, h);
    OneBucket(FastHashes(cfg, mid), a.infoHash);
  }

  lemma OneBucket(hashes: set<InfoHash>, x: InfoHash)
    requires hashes <= {x}
    ensures |Buckets(hashes + {x})| == 1
  {
    assert Buckets(hashes + {x}) == {BreadthBit(x)};
  }

  // ---------------------------------------------------------------- the score round by round

  /** Decay boundaries crossed between the first connect and the `n`-th. */
  function Crossed(cfg: Config, p: nat, n: nat): int {
    (p * n - p) / cfg.Interval()
  }

  function ScoreAfter(cfg: Config, a: AnnounceInfo, p: nat, n: nat): nat
    requires cfg.WeightsFit() && Fits(p, n)
  {
    if n == 0 then 0 else ScoreAt(cfg, Rounds(a, p, n))
  }

  lemma {:induction false} RoundScores(cfg: Config, a: AnnounceInfo, p: nat, n: nat)
    requires Orderly(cfg, a, p) && n >= 1 && Fits(p, n) && n <= U32_MAX && Fits(p, n - 1)
    ensures var drained := if n == 1 then 0 else
                             ScoreAfter(cfg, a, p, n - 1) - cfg.decayAmount * (Crossed(cfg, p, n) - Crossed(cfg, p, n - 1));
            && ScoreAt(cfg, Connecting(a, p, n)) == (if drained > 0 then drained else 0)
            && ScoreAfter(cfg, a, p, n) == Min(U32_MAX, (if drained > 0 then drained else 0) + RoundWeight(cfg, a, n))
  {
    hide WeightAt, ScoreAt, Rounds, Connecting, Memory, RoundWeight, Ticks, Crossed;
    RoundParts(a, p, n);
    RoundWeighs(cfg, a, p, n);
    RoundTicks(cfg, a, p, n);
    ScoreStep(cfg, Connecting(a, p, n));
    ScoreStep(cfg, Rounds(a, p, n));
    assert cfg.decayAmount * (Crossed(cfg, p, n) - Crossed(cfg, p, n)) == 0;
    if n >= 2 {
      TicksGrow(cfg, Connecting(a, p, n));
      ProductNonNegative(cfg.decayAmount, Crossed(cfg, p, n) - Crossed(cfg, p, n - 1));
    }
  }

  lemma {:induction false} RoundTicks(cfg: Config, a: AnnounceInfo, p: nat, n: nat)
    requires n >= 1 && Fits(p, n) && Fits(p, n - 1) && cfg.fastAnnounceGap >= 1
    ensures Ticks(cfg, Rounds(a, p, n)) == Ticks(cfg, Connecting(a, p, n)) == Crossed(cfg, p, n)
    ensures n >= 2 ==> Ticks(cfg, Rounds(a, p, n - 1)) == Crossed(cfg, p, n - 1)
  {
    hide Rounds, Connecting, Announces, FastHashes, LonelyRun, Clock;
    RoundsMemory(cfg, a, p, n - 1);
    RoundsMemory(cfg, a, p, n);
    ConnectMemory(cfg, a, p, n);
  }

  /** Every prefix of the rounds ends after a connect or after an announce. */
  lemma {:induction false} RoundsPrefix(a: AnnounceInfo, p: nat, n: nat, m: nat)
    requires Fits(p, n) && 1 <= m <= 2 * n
    ensures var k := (m + 1) / 2;
            Fits(p, k) && 1 <= k <= n && Rounds(a, p, n)[..m] == if m % 2 == 0 then Rounds(a, p, k) else Connecting(a, p, k)
    decreases n
  {
    hide Rounds, Connecting;
    FitsLess(p, n - 1, n);
    RoundParts(a, p, n);
    var h := Rounds(a, p, n);
    if m == 2 * n {
      assert h[..m] == h;
    } else if m == 2 * n - 1 {
      assert h[..m] == Front(h);
    } else {
      RoundsPrefix(a, p, n - 1, m);
      Shorter(h, m);
    }
  }

  lemma Shorter(h: History, m: nat)
    requires m + 2 <= |h|
    ensures Front(Front(h))[..m] == h[..m]
  {
  }

  // ---------------------------------------------------------------- never banned

  /** If a period decays what a round weighs, the score never exceeds what a round weighs. */
  lemma {:induction false} ScoreBounded(cfg: Config, a: AnnounceInfo, p: nat, n: nat, w: nat)
    requires Orderly(cfg, a, p) && n >= 1 && Fits(p, n) && n <= U32_MAX
    requires cfg.decayAmount * (p / cfg.Interval()) >= w && forall k :: 1 <= k <= n ==> RoundWeight(cfg, a, k) <= w
    ensures ScoreAfter(cfg, a, p, n) <= w && ScoreAt(cfg, Connecting(a, p, n)) <= w
  {
    hide ScoreAt, ScoreAfter, Rounds, Connecting, RoundWeight, Orderly;
    FitsLess(p, n - 1, n);
    RoundScores(cfg, a, p, n);
    if n >= 2 {
      ScoreBounded(cfg, a, p, n - 1, w);
      GapCrosses(p * (n - 1) - p, p * n - p, p, cfg.Interval());
      ProductMonotone(cfg.decayAmount, p / cfg.Interval(), Crossed(cfg, p, n) - Crossed(cfg, p, n - 1));
    }
  }

  /** And if that is below the threshold, the client is never banned. */
  lemma {:induction false} NeverBanned(cfg: Config, a: AnnounceInfo, p: nat, n: nat, w: nat, m: nat)
    requires Orderly(cfg, a, p) && Fits(p, n) && n <= U32_MAX && w < cfg.scoreBanThreshold
    requires cfg.decayAmount * (p / cfg.Interval()) >= w && forall k :: 1 <= k <= n ==> RoundWeight(cfg, a, k) <= w
    ensures !BanNo(cfg, Rounds(a, p, n), m)
  {
    hide ScoreAt, BannedAt, RoundWeight, Rounds, Connecting;
    var h := Rounds(a, p, n);
    if 1 <= m <= |h| {
      var k := (m + 1) / 2;
      RoundsPrefix(a, p, n, m);
      ScoreBounded(cfg, a, p, k, w);
      BanLaw(cfg, h[..m]);
    }
  }

  // ---------------------------------------------------------------- banned in the end

  /** From the `b`-th round on every round weighs `w`: what has come in less what can have drained. */
  lemma {:induction false} ScoreGrows(cfg: Config, a: AnnounceInfo, p: nat, b: nat, k: nat, w: nat)
    requires Orderly(cfg, a, p) && b >= 1 && Fits(p, b + k) && b + k <= U32_MAX && Fits(p, b)
    requires forall i :: b <= i <= b + k ==> RoundWeight(cfg, a, i) == w
    requires 0 <= w * (k + 1) <= U32_MAX
    ensures ScoreAfter(cfg, a, p, b + k) >= w * (k + 1) - cfg.decayAmount * (Crossed(cfg, p, b + k) - Crossed(cfg, p, b))
    ensures Crossed(cfg, p, b + k) >= Crossed(cfg, p, b)
    decreases k
  {
    hide ScoreAt, ScoreAfter, Rounds, Connecting, RoundWeight, Crossed;
    var n := b + k;
    FitsLess(p, n - 1, n);
    RoundScores(cfg, a, p, n);
    assert RoundWeight(cfg, a, n) == w;
    if k > 0 {
      Distribute(w, k, 1);
      ProductNonNegative(w, k);
      ScoreGrows(cfg, a, p, b, k - 1, w);
      CrossedGrows(cfg, p, n);
      var x, y, z := Crossed(cfg, p, n), Crossed(cfg, p, n - 1), Crossed(cfg, p, b);
      ProductNonNegative(cfg.decayAmount, x - z);
      Telescope(cfg.decayAmount, x, y, z);
      Grown(ScoreAfter(cfg, a, p, n - 1), ScoreAfter(cfg, a, p, n), w, w * k, cfg.decayAmount * (x - y), cfg.decayAmount * (y - z));
    }
  }

  lemma CrossedGrows(cfg: Config, p: nat, n: nat)
    requires n >= 1
    ensures Crossed(cfg, p, n) >= Crossed(cfg, p, n - 1)
  {
    Distribute(p, n, 1);
    DivMonotone(p * (n - 1) - p, p * n - p, cfg.Interval());
  }

  /** One round: `x` drains, `w` comes in, and nothing saturates. */
  lemma Grown(before: nat, after: nat, w: nat, earlier: nat, x: int, y: int)
    requires before >= earlier - y && x + y >= 0 && earlier + w <= U32_MAX
    requires after == Min(U32_MAX, (if before - x > 0 then before - x else 0) + w)
    ensures after >= earlier + w - (x + y)
  {
  }

  /** A score at the threshold means a ban, now or before. */
  lemma {:induction false} CrossedMeansBanned(cfg: Config, h: History)
    requires cfg.WeightsFit() && h != [] && ScoreAt(cfg, h) >= cfg.scoreBanThreshold
    ensures exists m: nat :: BanNo(cfg, h, m)
  {
    hide ScoreAt, BannedAt;
    BanLaw(cfg, h);
    assert h[..|h|] == h;
    if BannedAt(cfg, h) {
      assert BanNo(cfg, h, |h|);
    }
  }

  // ---------------------------------------------------------------- the law, for the shipped settings

  /** Whether the client is banned in some round that the clock can count. */
  ghost predicate EverBanned(cfg: Config, a: AnnounceInfo, p: nat)
    requires cfg.WeightsFit()
  {
    exists n: nat, m: nat :: Fits(p, n) && BanNo(cfg, Rounds(a, p, n), m)
  }

  /** The round from which a client in an empty swarm weighs the most. */
  function SteadyFrom(a: AnnounceInfo): nat {
    if a.swarmPeers <= 1 then 9 else 1
  }

  function SteadyWeight(a: AnnounceInfo): nat {
    If(a.port < 1024, 30) + If(a.left == 0 && a.downloaded == 0 && a.uploaded == 0, 50) + If(a.numWant > 100, 10)
    + If(a.swarmPeers <= 1, 40)
  }

  lemma SteadyRounds(known: PeerId -> bool, a: AnnounceInfo, n: nat)
    ensures var cfg, w := DefaultConfig(known), RoundWeight(DefaultConfig(known), a, n);
            && cfg.WeightsFit() && cfg.Interval() == 60 && cfg.decayAmount == 1 && cfg.scoreBanThreshold == 100
            && w <= SteadyWeight(a) <= 130
            && (n >= SteadyFrom(a) ==> w == SteadyWeight(a))
            && (n < 9 ==> w <= 90)
  {
  }

  /** With the shipped settings a client in order that reconnects before each announce, every `p`
      seconds, is banned in the end if and only if its rounds outweigh the decay of a period, one
      point a minute, or one round alone reaches the threshold, which takes nine lonely rounds. */
  lemma {:induction false} ReconnectingBannedIff(known: PeerId -> bool, a: AnnounceInfo, p: nat)
    requires Orderly(DefaultConfig(known), a, p)
    ensures EverBanned(DefaultConfig(known), a, p)
            <==> p < 60 * SteadyWeight(a) || (SteadyWeight(a) >= 100 && Fits(p, 9))
  {
    hide BanNo, Orderly, Rounds, SteadyWeight;
    var cfg, w := DefaultConfig(known), SteadyWeight(a);
    SteadyRounds(known, a, 1);
    if p < 60 * w {
      HeavyIsBanned(known, a, p);
    } else if w >= 100 && Fits(p, 9) {
      LonelyIsBanned(known, a, p);
    } else {
      forall n: nat, m: nat | Fits(p, n) ensures !BanNo(cfg, Rounds(a, p, n), m) {
        LightIsSafe(known, a, p, n, m);
      }
    }
  }

  lemma {:induction false} LightIsSafe(known: PeerId -> bool, a: AnnounceInfo, p: nat, n: nat, m: nat)
    requires Orderly(DefaultConfig(known), a, p) && Fits(p, n)
    requires p >= 60 * SteadyWeight(a) && (SteadyWeight(a) < 100 || !Fits(p, 9))
    ensures DefaultConfig(known).WeightsFit() && !BanNo(DefaultConfig(known), Rounds(a, p, n), m)
  {
    hide BanNo, Rounds, RoundWeight, SteadyWeight, SteadyFrom;
    var cfg, w := DefaultConfig(known), SteadyWeight(a);
    var bound := if w < 100 then w else 90;
    SteadyRounds(known, a, 1);
    AtLeastOneSecond(p, n);
    if n >= 9 {
      FitsLess(p, 9, n);
    }
    forall k: nat | 1 <= k <= n ensures RoundWeight(cfg, a, k) <= bound {
      SteadyRounds(known, a, k);
    }
    DivMonotone(60 * bound, p, 60);
    DivUnique(60 * bound, 60, bound, 0);
    assert forall k :: 1 <= k <= n ==> RoundWeight(cfg, a, k) <= bound;
    NeverBanned(cfg, a, p, n, bound, m);
  }

  lemma AtLeastOneSecond(p: nat, n: nat)
    requires p >= 1 && Fits(p, n)
    ensures n <= U32_MAX
  {
    ProductMonotone(n, 1, p);
  }

  lemma {:induction false} HeavyIsBanned(known: PeerId -> bool, a: AnnounceInfo, p: nat)
    requires Orderly(DefaultConfig(known), a, p) && p < 60 * SteadyWeight(a)
    ensures DefaultConfig(known).WeightsFit() && EverBanned(DefaultConfig(known), a, p)
  {
    hide BanNo, Rounds, RoundWeight, SteadyWeight, SteadyFrom, ScoreAt;
    var cfg, w, b := DefaultConfig(known), SteadyWeight(a), SteadyFrom(a);
    SteadyRounds(known, a, 1);
    EnoughRounds(a, p);
    forall i: nat | b <= i <= b + 6000 ensures RoundWeight(cfg, a, i) == w {
      SteadyRounds(known, a, i);
    }
    assert forall i :: b <= i <= b + 6000 ==> RoundWeight(cfg, a, i) == w;
    ScoreGrows(cfg, a, p, b, 6000, w);
    Outweighs(p, b, w);
    CrossedMeansBanned(cfg, Rounds(a, p, b + 6000));
  }

  lemma EnoughRounds(a: AnnounceInfo, p: nat)
    requires p < 60 * SteadyWeight(a)
    ensures 1 <= SteadyFrom(a) <= 9 && Fits(p, SteadyFrom(a)) && Fits(p, SteadyFrom(a) + 6000)
  {
    ProductMonotone(SteadyFrom(a) + 6000, p, 60 * 130);
    FitsLess(p, SteadyFrom(a), SteadyFrom(a) + 6000);
  }

  /** In six thousand rounds even the smallest surplus adds up. */
  lemma Outweighs(p: nat, b: nat, w: nat)
    requires p < 60 * w
    ensures w * 6001 - ((p * (b + 6000) - p) / 60 - (p * b - p) / 60) >= 100
  {
    Distribute(p, b, 6000);
    DivBounds(p * (b + 6000) - p, 60);
    DivBounds(p * b - p, 60);
  }

  lemma {:induction false} LonelyIsBanned(known: PeerId -> bool, a: AnnounceInfo, p: nat)
    requires Orderly(DefaultConfig(known), a, p) && SteadyWeight(a) >= 100 && Fits(p, 9)
    ensures DefaultConfig(known).WeightsFit() && EverBanned(DefaultConfig(known), a, p)
  {
    hide BanNo, Rounds, RoundWeight, ScoreAt;
    var cfg := DefaultConfig(known);
    SteadyRounds(known, a, 9);
    ScoreGrows(cfg, a, p, 9, 0, SteadyWeight(a));
    CrossedMeansBanned(cfg, Rounds(a, p, 9));
  }

  // ---------------------------------------------------------------- instances

  /** Known client, real key, ordinary port, modest demands, a populated swarm, nothing left and
      nothing transferred: a seeder of files it already had. */
  predicate IsQuietSeeder(cfg: Config, a: AnnounceInfo) {
    && cfg.isKnownClient(a.peerId) && a.key != 0 && a.key != U32_MAX && a.declaredIp == 0
    && a.port >= 1024 && a.numWant <= 100 && a.swarmPeers >= 2
    && a.left == 0 && a.downloaded == 0 && a.uploaded == 0
  }

  /** Such a seeder is banned in the end exactly if it announces more often than every fifty minutes. */
  lemma {:induction false} QuietSeederBannedIff(known: PeerId -> bool, a: AnnounceInfo, p: nat)
    requires IsQuietSeeder(DefaultConfig(known), a) && p >= 60
    ensures DefaultConfig(known).WeightsFit() && (EverBanned(DefaultConfig(known), a, p) <==> p < 3000)
  {
    hide EverBanned;
    ReconnectingBannedIff(known, a, p);
  }

  /** Announcing every half hour, it is banned on its fourth announce, and not before. */
  lemma {:induction false} SlowSeederBanned(known: PeerId -> bool, a: AnnounceInfo, m: nat)
    requires IsQuietSeeder(DefaultConfig(known), a)
    ensures DefaultConfig(known).WeightsFit() && |Rounds(a, 1800, 4)| == 8
    ensures m <= 8 ==> (BanNo(DefaultConfig(known), Rounds(a, 1800, 4), m) <==> m == 8)
  {
    hide BannedAt, ScoreAt, Rounds, Connecting;
    var cfg, h := DefaultConfig(known), Rounds(a, 1800, 4);
    HalfHourly(known, a);
    forall i: nat | 1 <= i <= 8 ensures h[..i] != [] && (ScoreAt(cfg, h[..i]) >= 100 <==> i == 8) {
      var n := (i + 1) / 2;
      RoundsPrefix(a, 1800, 4, i);
      assert ScoreAfter(cfg, a, 1800, n) == 30 + 20 * n && ScoreAt(cfg, Connecting(a, 1800, n)) == if n == 1 then 0 else 20 * n - 20;
    }
    forall i: nat | 1 <= i < 8 ensures !BanNo(cfg, h, i) {
      BanLaw(cfg, h[..i]);
    }
    assert h[..8] == h;
    BanLaw(cfg, h);
  }

  lemma {:induction false} HalfHourly(known: PeerId -> bool, a: AnnounceInfo)
    requires IsQuietSeeder(DefaultConfig(known), a)
    ensures var cfg := DefaultConfig(known);
            && cfg.WeightsFit()
            && forall n :: 1 <= n <= 4 ==>
                 && ScoreAfter(cfg, a, 1800, n) == 30 + 20 * n && ScoreAt(cfg, Connecting(a, 1800, n)) == if n == 1 then 0 else 20 * n - 20
  {
    hide ScoreAfter, ScoreAt, Rounds, Connecting, RoundWeight;
    var cfg := DefaultConfig(known);
    SteadyRounds(known, a, 1);
    SteadyRounds(known, a, 2);
    SteadyRounds(known, a, 3);
    SteadyRounds(known, a, 4);
    RoundScores(cfg, a, 1800, 1);
    RoundScores(cfg, a, 1800, 2);
    RoundScores(cfg, a, 1800, 3);
    RoundScores(cfg, a, 1800, 4);
  }
}
