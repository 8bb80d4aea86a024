/** Floods: a source that does one thing every `p` seconds, and exactly when the shipped settings ban it,
    for every kind of event and every mixture of what an announce can do wrong. */
module L7Flood {
  import opened Bytes
  import opened Core
  import opened Arith
  import opened L7Spec
  import opened L7Bucket
  import opened L7Bans
  import opened L7History
  import opened L7Reconnect
  import opened L7Slow
  import opened L7Weights

  /** The `n`-th event comes at `p * n`. */
  function Stream(evs: nat -> L7Event, p: nat, n: nat): (h: History)
    requires Fits(p, n)
    ensures |h| == n
  {
    if n == 0 then [] else
      FitsLess(p, n - 1, n);
      Stream(evs, p, n - 1) + [Sighting(evs(n), p * n)]
  }

  lemma StreamParts(evs: nat -> L7Event, p: nat, n: nat)
    requires n >= 1 && Fits(p, n)
    ensures Fits(p, n - 1)
    ensures Front(Stream(evs, p, n)) == Stream(evs, p, n - 1) && Last(Stream(evs, p, n)) == Sighting(evs(n), p * n)
    ensures Stream(evs, p, n)[0].now == p
  {
    FitsLess(p, n - 1, n);
    if n > 1 {
      StreamParts(evs, p, n - 1);
      assert Stream(evs, p, n)[0] == Stream(evs, p, n - 1)[0];
    }
  }

  lemma {:induction false} StreamClock(evs: nat -> L7Event, p: nat, n: nat)
    requires n >= 1 && Fits(p, n)
    ensures Clock(Stream(evs, p, n)) == p * n
  {
    hide Stream;
    StreamParts(evs, p, n);
    FitsLess(p, n - 1, n);
    if n > 1 {
      StreamClock(evs, p, n - 1);
    } else {
      assert Stream(evs, p, 1)[0].now == p;
    }
  }

  lemma {:induction false} StreamTicks(cfg: Config, evs: nat -> L7Event, p: nat, n: nat)
    requires n >= 1 && Fits(p, n)
    ensures Ticks(cfg, Stream(evs, p, n)) == Crossed(cfg, p, n)
  {
    hide Stream, Clock;
    StreamParts(evs, p, n);
    StreamClock(evs, p, n);
  }

  lemma {:induction false} StreamPrefix(evs: nat -> L7Event, p: nat, n: nat, m: nat)
    requires Fits(p, n) && m <= n
    ensures Fits(p, m) && Stream(evs, p, n)[..m] == Stream(evs, p, m)
    decreases n
  {
    FitsLess(p, m, n);
    if m < n {
      StreamParts(evs, p, n);
      StreamPrefix(evs, p, n - 1, m);
      assert Stream(evs, p, n)[..m] == Front(Stream(evs, p, n))[..m];
    } else {
      assert Stream(evs, p, n)[..m] == Stream(evs, p, n);
    }
  }

  // ---------------------------------------------------------------- the score of a stream

  function StreamScore(cfg: Config, evs: nat -> L7Event, p: nat, n: nat): nat
    requires cfg.WeightsFit() && Fits(p, n)
  {
    if n == 0 then 0 else ScoreAt(cfg, Stream(evs, p, n))
  }

  function WeightNo(cfg: Config, evs: nat -> L7Event, p: nat, n: nat): nat
    requires cfg.WeightsFit() && Fits(p, n) && n >= 1
  {
    WeightAt(cfg, Stream(evs, p, n))
  }

  lemma {:induction false} StreamStep(cfg: Config, evs: nat -> L7Event, p: nat, n: nat)
    requires cfg.WeightsFit() && n >= 1 && Fits(p, n) && Fits(p, n - 1)
    ensures var drained := if n == 1 then 0 else
                             StreamScore(cfg, evs, p, n - 1) - cfg.decayAmount * (Crossed(cfg, p, n) - Crossed(cfg, p, n - 1));
            StreamScore(cfg, evs, p, n) == Min(U32_MAX, (if drained > 0 then drained else 0) + WeightNo(cfg, evs, p, n))
  {
    hide WeightAt, ScoreAt, Stream, Ticks, Crossed;
    StreamParts(evs, p, n);
    ScoreStep(cfg, Stream(evs, p, n));
    StreamTicks(cfg, evs, p, n);
    if n > 1 {
      StreamTicks(cfg, evs, p, n - 1);
    } else {
      assert |Stream(evs, p, 1)| == 1;
    }
  }

  lemma {:induction false} StreamBounded(cfg: Config, evs: nat -> L7Event, p: nat, n: nat, w: nat)
    requires cfg.WeightsFit() && n >= 1 && Fits(p, n) && cfg.decayAmount * (p / cfg.Interval()) >= w
    requires forall k: nat :: 1 <= k <= n && Fits(p, k) ==> WeightNo(cfg, evs, p, k) <= w
    ensures StreamScore(cfg, evs, p, n) <= w
  {
    hide StreamScore, WeightNo;
    FitsLess(p, n - 1, n);
    StreamStep(cfg, evs, p, n);
    assert WeightNo(cfg, evs, p, n) <= w;
    if n >= 2 {
      StreamBounded(cfg, evs, p, n - 1, w);
      GapCrosses(p * (n - 1) - p, p * n - p, p, cfg.Interval());
      ProductMonotone(cfg.decayAmount, p / cfg.Interval(), Crossed(cfg, p, n) - Crossed(cfg, p, n - 1));
    }
  }

  lemma {:induction false} StreamGrows(cfg: Config, evs: nat -> L7Event, p: nat, b: nat, k: nat, w: nat)
    requires cfg.WeightsFit() && b >= 1 && Fits(p, b + k)
    requires forall i: nat :: b <= i <= b + k && Fits(p, i) ==> WeightNo(cfg, evs, p, i) == w
    requires 0 <= w * (k + 1) <= U32_MAX
    ensures StreamScore(cfg, evs, p, b + k) >= w * (k + 1) - cfg.decayAmount * (Crossed(cfg, p, b + k) - Crossed(cfg, p, b))
    ensures Crossed(cfg, p, b + k) >= Crossed(cfg, p, b)
    decreases k
  {
    hide StreamScore, WeightNo, Crossed;
    var n := b + k;
    FitsLess(p, n - 1, n);
    StreamStep(cfg, evs, p, n);
    assert WeightNo(cfg, evs, p, n) == w;
    if k > 0 {
      Distribute(w, k, 1);
      ProductNonNegative(w, k);
      StreamGrows(cfg, evs, p, b, k - 1, w);
      CrossedGrows(cfg, p, n);
      var x, y, z := Crossed(cfg, p, n), Crossed(cfg, p, n - 1), Crossed(cfg, p, b);
      ProductNonNegative(cfg.decayAmount, x - z);
      Telescope(cfg.decayAmount, x, y, z);
      Grown(StreamScore(cfg, evs, p, n - 1), StreamScore(cfg, evs, p, n), w, w * k, cfg.decayAmount * (x - y), cfg.decayAmount * (y - z));
    }
  }

  // ---------------------------------------------------------------- when it is banned

  /** Whether the source is banned by some event that the clock can count. */
  ghost predicate EverBannedBy(cfg: Config, evs: nat -> L7Event, p: nat)
    requires cfg.WeightsFit()
  {
    exists n: nat, m: nat :: Fits(p, n) && BanNo(cfg, Stream(evs, p, n), m)
  }

  lemma ShippedDecay(known: PeerId -> bool)
    ensures var cfg := DefaultConfig(known);
            cfg.WeightsFit() && cfg.Interval() == 60 && cfg.decayAmount == 1 && cfg.scoreBanThreshold == 100
  {
  }

  /** Events that each weigh more than a period decays add up to a ban. */
  lemma {:induction false} HeavyStream(known: PeerId -> bool, evs: nat -> L7Event, p: nat, b: nat, w: nat)
    requires DefaultConfig(known).WeightsFit() && 1 <= b <= 10 && w <= 1000 && p < 60 * w
    requires forall i: nat :: b <= i && Fits(p, i) ==> WeightNo(DefaultConfig(known), evs, p, i) == w
    ensures EverBannedBy(DefaultConfig(known), evs, p)
  {
    hide BanNo, Stream, WeightNo, ScoreAt;
    var cfg := DefaultConfig(known);
    ShippedDecay(known);
    ProductMonotone(b + 6000, p, 60000);
    ProductNonNegative(p, b + 6000);
    StreamGrows(cfg, evs, p, b, 6000, w);
    Outweighs(p, b, w);
    CrossedMeansBanned(cfg, Stream(evs, p, b + 6000));
  }

  /** A single event of the threshold's weight is a ban, or comes after one. */
  lemma {:induction false} OneHeavyEvent(known: PeerId -> bool, evs: nat -> L7Event, p: nat, b: nat)
    requires DefaultConfig(known).WeightsFit() && b >= 1 && Fits(p, b)
    requires 100 <= WeightNo(DefaultConfig(known), evs, p, b) <= U32_MAX
    ensures EverBannedBy(DefaultConfig(known), evs, p)
  {
    hide BanNo, Stream, ScoreAt;
    var cfg := DefaultConfig(known);
    ShippedDecay(known);
    FitsLess(p, b - 1, b);
    StreamStep(cfg, evs, p, b);
    CrossedMeansBanned(cfg, Stream(evs, p, b));
  }

  /** Events that weigh less than the threshold and no more than a period decays are never a ban. */
  lemma {:induction false} LightStream(known: PeerId -> bool, evs: nat -> L7Event, p: nat, w: nat)
    requires DefaultConfig(known).WeightsFit() && p >= 60 * w && w < 100
    requires forall i: nat :: 1 <= i && Fits(p, i) ==> WeightNo(DefaultConfig(known), evs, p, i) <= w
    ensures !EverBannedBy(DefaultConfig(known), evs, p)
  {
    hide BannedAt, Stream, WeightNo, ScoreAt;
    var cfg := DefaultConfig(known);
    ShippedDecay(known);
    DivMonotone(60 * w, p, 60);
    DivUnique(60 * w, 60, w, 0);
    forall n: nat, m: nat | Fits(p, n) ensures !BanNo(cfg, Stream(evs, p, n), m) {
      if 1 <= m <= n {
        StreamPrefix(evs, p, n, m);
        StreamBounded(cfg, evs, p, m, w);
        BanLaw(cfg, Stream(evs, p, m));
      }
    }
  }

  // ---------------------------------------------------------------- mismatches, scrapes and connects

  /** Forged connection ids: banned in the end exactly if they come more often than every fifteen minutes. */
  lemma {:induction false} MismatchFloodIff(known: PeerId -> bool, p: nat)
    ensures DefaultConfig(known).WeightsFit()
    ensures EverBannedBy(DefaultConfig(known), (n: nat) => Mismatched, p) <==> p < 900
  {
    hide Stream, EverBannedBy;
    var cfg, evs := DefaultConfig(known), (n: nat) => Mismatched;
    ShippedDecay(known);
    forall i: nat | 1 <= i && Fits(p, i) ensures WeightNo(cfg, evs, p, i) == 15 {
      StreamParts(evs, p, i);
      OthersWeigh(cfg, Stream(evs, p, i));
    }
    if p < 900 {
      HeavyStream(known, evs, p, 1, 15);
    } else {
      LightStream(known, evs, p, 15);
    }
  }

  /** Scrapes: banned in the end exactly if they ask for thirty-two hashes or more, more often than every
      fifteen minutes. */
  lemma {:induction false} ScrapeFloodIff(known: PeerId -> bool, hashes: nat, p: nat)
    ensures DefaultConfig(known).WeightsFit()
    ensures EverBannedBy(DefaultConfig(known), (n: nat) => Scraped(hashes), p) <==> hashes >= 32 && p < 900
  {
    hide Stream, EverBannedBy;
    var cfg, evs, w := DefaultConfig(known), (n: nat) => Scraped(hashes), if hashes >= 32 then 15 else 0;
    ShippedDecay(known);
    forall i: nat | 1 <= i && Fits(p, i) ensures WeightNo(cfg, evs, p, i) == w {
      StreamParts(evs, p, i);
      OthersWeigh(cfg, Stream(evs, p, i));
    }
    if p < 60 * w {
      HeavyStream(known, evs, p, 1, w);
    } else {
      LightStream(known, evs, p, w);
    }
  }

  lemma {:induction false} AllUnused(evs: nat -> L7Event, p: nat, n: nat)
    requires Fits(p, n) && forall i: nat :: evs(i) == Connected
    ensures UnusedConnects(Stream(evs, p, n)) == n
  {
    if n > 0 {
      StreamParts(evs, p, n);
      AllUnused(evs, p, n - 1);
    }
  }

  /** Connects whose ids are never used: banned in the end exactly if they come more often than every
      twenty-five minutes. */
  lemma {:induction false} ConnectFloodIff(known: PeerId -> bool, p: nat)
    ensures DefaultConfig(known).WeightsFit()
    ensures EverBannedBy(DefaultConfig(known), (n: nat) => Connected, p) <==> p < 1500
  {
    hide Stream, EverBannedBy;
    var cfg, evs := DefaultConfig(known), (n: nat) => Connected;
    ShippedDecay(known);
    forall i: nat | 1 <= i && Fits(p, i) ensures WeightNo(cfg, evs, p, i) == if i > 8 then 25 else 0 {
      StreamParts(evs, p, i);
      AllUnused(evs, p, i);
      OthersWeigh(cfg, Stream(evs, p, i));
    }
    if p < 1500 {
      HeavyStream(known, evs, p, 9, 25);
    } else {
      LightStream(known, evs, p, 25);
    }
  }

  // ---------------------------------------------------------------- announces

  /** One torrent announced again and again: what stays the same, and the key and peer id each time. */
  datatype Habit = Habit(a: AnnounceInfo, keys: nat -> u32, ids: nat -> PeerId, freshKeys: bool, freshIds: bool,
                         trivialKeys: bool, stranger: bool)

  function Announcing(f: Habit): nat -> L7Event {
    (n: nat) => Announced(f.a.(key := f.keys(n), peerId := f.ids(n)))
  }

  /** The habit is what its marks say: keys and peer ids each time other than the last time, or always
      the same; all keys trivial or none; all peer ids of known clients or none. */
  ghost predicate Steady(known: PeerId -> bool, f: Habit) {
    && (forall n: nat, m: nat :: !f.freshKeys ==> f.keys(n) == f.keys(m))
    && (forall n: nat :: f.freshKeys ==> f.keys(n + 1) != f.keys(n))
    && (forall n: nat, m: nat :: !f.freshIds ==> PeerFingerprint(f.ids(n)) == PeerFingerprint(f.ids(m)))
    && (forall n: nat :: f.freshIds ==> PeerFingerprint(f.ids(n + 1)) != PeerFingerprint(f.ids(n)))
    && (forall n: nat :: f.trivialKeys <==> f.keys(n) == 0 || f.keys(n) == 0xFFFF_FFFF)
    && (forall n: nat :: f.stranger <==> !known(f.ids(n)))
  }

  /** What weighs from the first announce on. */
  function AlwaysWeighs(f: Habit): nat {
    (if f.stranger then 5 else 0) + (if f.trivialKeys then 40 else 0)
    + (if f.a.declaredIp != 0 && f.a.sourceIsPublic then 60 else 0)
  }

  /** What weighs from the second on, at a period of `p`. */
  function AgainWeighs(f: Habit, p: nat): nat {
    (if f.freshKeys then 35 else 0) + (if f.freshIds then 35 else 0) + (if p < 60 then 20 else 0)
    + (if p < 300 && f.a.port < 1024 then 30 else 0)
    + (if p < 300 && f.a.left == 0 && f.a.downloaded == 0 && f.a.uploaded == 0 then 50 else 0)
    + (if p < 300 && f.a.numWant > 100 then 10 else 0)
  }

  /** What weighs from the tenth on. */
  function LonelyWeighs(f: Habit, p: nat): nat {
    if p < 300 && f.a.swarmPeers <= 1 then 40 else 0
  }

  function HabitWeighs(f: Habit, p: nat, n: nat): nat {
    AlwaysWeighs(f) + (if n >= 2 then AgainWeighs(f, p) else 0) + (if n >= 10 then LonelyWeighs(f, p) else 0)
  }

  ghost predicate Remembered(known: PeerId -> bool, f: Habit, p: nat, n: nat, h: History) {
    && |Announces(h)| == n
    && (forall i :: 0 <= i < n ==>
          && Announces(h)[i].hash == f.a.infoHash && Announces(h)[i].key == f.keys(i + 1)
          && Announces(h)[i].peer == PeerFingerprint(f.ids(i + 1)) && Announces(h)[i].at == p * (i + 1))
    && FastHashes(DefaultConfig(known), h) <= {f.a.infoHash}
    && LonelyRun(DefaultConfig(known), h) == if p < 300 && f.a.swarmPeers <= 1 && n > 0 then n - 1 else 0
  }

  lemma {:induction false} GapOfStream(evs: nat -> L7Event, p: nat, n: nat)
    requires n >= 1 && Fits(p, n)
    ensures Gap(Stream(evs, p, n)) == if n == 1 then U32_MAX else p
    ensures SeenWithin(Stream(evs, p, n), 300) <==> n >= 2 && p < 300
  {
    hide Stream;
    StreamParts(evs, p, n);
    FitsLess(p, n - 1, n);
    if n > 1 {
      StreamParts(evs, p, n - 1);
      var h := Stream(evs, p, n);
      assert h[|h| - 2] == Last(Front(h));
    }
  }

  lemma {:induction false} StreamMemory(known: PeerId -> bool, f: Habit, p: nat, n: nat)
    requires Fits(p, n)
    ensures Remembered(known, f, p, n, Stream(Announcing(f), p, n))
  {
    hide Gap, Stream, Announces, FastHashes, LonelyRun, UnusedConnects, SeenWithin, PeerFingerprint;
    var evs := Announcing(f);
    LastSays(DefaultConfig(known), Stream(evs, p, n));
    if n == 0 {
      assert Stream(evs, p, n) == [];
    } else {
      StreamParts(evs, p, n);
      StreamMemory(known, f, p, n - 1);
      GapOfStream(evs, p, n);
    }
  }

  /** What the identity of the `n`-th announce weighs. */
  lemma {:induction false} ChurnOfHabit(known: PeerId -> bool, f: Habit, p: nat, n: nat, before: seq<Seen>)
    requires Steady(known, f) && n >= 1 && Fits(p, n) && |before| == n - 1
    requires forall i :: 0 <= i < n - 1 ==>
               before[i].hash == f.a.infoHash && before[i].key == f.keys(i + 1)
               && before[i].peer == PeerFingerprint(f.ids(i + 1)) && before[i].at == p * (i + 1)
    ensures var a := f.a.(key := f.keys(n), peerId := f.ids(n));
            ChurnWeighs(DefaultConfig(known), a, p * n, before) ==
            (if f.stranger then 5 else 0)
            + if n >= 2 then (if f.freshKeys then 35 else 0) + (if f.freshIds then 35 else 0) + (if p < 60 then 20 else 0) else 0
  {
    var a := f.a.(key := f.keys(n), peerId := f.ids(n));
    if n >= 2 {
      var last := before[n - 2];
      FitsLess(p, n - 1, n);
      assert last.at == p * (n - 1) && p * n == p * (n - 1) + p;
      assert f.keys(n - 2 + 1) == last.key && f.keys(n - 1 + 1) == a.key;
      assert SameOtherKey(a)(last) <==> f.freshKeys;
      assert SameOtherPeer(a)(last) <==> f.freshIds;
      assert SameSoon(a, p * n, 60)(last) <==> p < 60;
      forall i | 0 <= i < n - 1 ensures SameSoon(a, p * n, 60)(before[i]) ==> p < 60 {
        ProductMonotone(p, i + 1, n - 1);
      }
    }
    assert AmongLastEight(before, SameSoon(a, p * n, 60)) <==> n >= 2 && p < 60;
    assert AmongLastEight(before, SameOtherKey(a)) <==> n >= 2 && f.freshKeys;
    assert AmongLastEight(before, SameOtherPeer(a)) <==> n >= 2 && f.freshIds;
  }

  lemma PacketOfHabit(known: PeerId -> bool, f: Habit, n: nat, fast: bool)
    requires Steady(known, f)
    ensures PacketWeighs(DefaultConfig(known), f.a.(key := f.keys(n), peerId := f.ids(n)), fast) ==
            (if f.trivialKeys then 40 else 0) + (if f.a.declaredIp != 0 && f.a.sourceIsPublic then 60 else 0)
            + if fast then
                (if f.a.port < 1024 then 30 else 0) + (if f.a.left == 0 && f.a.downloaded == 0 && f.a.uploaded == 0 then 50 else 0)
                + (if f.a.numWant > 100 then 10 else 0)
              else 0
  {
  }

  lemma SpreadOfHabit(known: PeerId -> bool, f: Habit, p: nat, n: nat, others: set<InfoHash>)
    requires 1 <= n <= U32_MAX && others <= {f.a.infoHash}
    ensures SpreadWeighs(DefaultConfig(known), f.a.(key := f.keys(n), peerId := f.ids(n)), n >= 2 && p < 300,
                         if p < 300 && f.a.swarmPeers <= 1 && n > 1 then n - 2 else 0, others) ==
            if n >= 10 then LonelyWeighs(f, p) else 0
  {
    hide Buckets;
    OneBucket(others, f.a.infoHash);
  }

  lemma {:induction false} HabitWeight(known: PeerId -> bool, f: Habit, p: nat, n: nat)
    requires Steady(known, f) && n >= 1 && Fits(p, n) && DefaultConfig(known).WeightsFit() && n <= U32_MAX
    ensures WeightNo(DefaultConfig(known), Announcing(f), p, n) == HabitWeighs(f, p, n)
  {
    hide Steady, Stream, WeightAt, Announces, FastHashes, LonelyRun, ChurnWeighs, PacketWeighs, SpreadWeighs, SeenWithin, LonelyWeighs;
    var cfg, evs := DefaultConfig(known), Announcing(f);
    StreamParts(evs, p, n);
    StreamMemory(known, f, p, n - 1);
    GapOfStream(evs, p, n);
    var h := Stream(evs, p, n);
    L7Weights.AnnounceWeighs(cfg, h);
    ChurnOfHabit(known, f, p, n, Announces(Front(h)));
    PacketOfHabit(known, f, n, n >= 2 && p < 300);
    SpreadOfHabit(known, f, p, n, FastHashes(cfg, Front(h)));
  }

  /** A source that announces one torrent every `p` seconds, whatever it does right and wrong each time,
      is banned in the end if and only if an announce weighs more than a period decays, one point a
      minute, or an announce alone weighs the threshold. */
  lemma {:induction false} AnnounceFloodIff(known: PeerId -> bool, f: Habit, p: nat)
    requires Steady(known, f)
    ensures DefaultConfig(known).WeightsFit()
    ensures var w := AlwaysWeighs(f) + AgainWeighs(f, p) + LonelyWeighs(f, p);
            EverBannedBy(DefaultConfig(known), Announcing(f), p)
            <==> p < 60 * w || (w >= 100 && Fits(p, 2)) || (AlwaysWeighs(f) >= 100 && Fits(p, 1))
  {
    hide Steady, EverBannedBy, Announcing, WeightNo, AlwaysWeighs, AgainWeighs, LonelyWeighs, HabitWeighs;
    ShippedDecay(known);
    var w := AlwaysWeighs(f) + AgainWeighs(f, p) + LonelyWeighs(f, p);
    if p < 60 * w {
      BannedHabit(known, f, p, w);
    } else {
      SlowHabit(known, f, p, w);
    }
  }

  lemma HabitBounds(f: Habit, p: nat)
    ensures AlwaysWeighs(f) <= 105 && AgainWeighs(f, p) <= 180 && LonelyWeighs(f, p) <= 40
    ensures p < 60 ==> AgainWeighs(f, p) >= 20
    ensures LonelyWeighs(f, p) > 0 ==> p < 300
    ensures forall n :: HabitWeighs(f, p, n) <= AlwaysWeighs(f) + AgainWeighs(f, p) + LonelyWeighs(f, p)
    ensures forall n :: n >= 10 ==> HabitWeighs(f, p, n) == AlwaysWeighs(f) + AgainWeighs(f, p) + LonelyWeighs(f, p)
    ensures HabitWeighs(f, p, 1) == AlwaysWeighs(f) && HabitWeighs(f, p, 2) == AlwaysWeighs(f) + AgainWeighs(f, p)
  {
  }

  lemma {:induction false} BannedHabit(known: PeerId -> bool, f: Habit, p: nat, w: nat)
    requires Steady(known, f) && DefaultConfig(known).WeightsFit() && p < 60 * w
    requires w == AlwaysWeighs(f) + AgainWeighs(f, p) + LonelyWeighs(f, p)
    ensures EverBannedBy(DefaultConfig(known), Announcing(f), p)
  {
    hide Steady, Stream, WeightAt, Announcing, WeightNo, AlwaysWeighs, AgainWeighs, LonelyWeighs, HabitWeighs, BanNo;
    HabitBounds(f, p);
    HeavyRounds(known, f, p, w);
    var cfg, evs := DefaultConfig(known), Announcing(f);
    ShippedDecay(known);
    ProductMonotone(6010, p, 60000);
    ProductNonNegative(p, 6010);
    StreamGrows(cfg, evs, p, 10, 6000, w);
    Outweighs(p, 10, w);
    CrossedMeansBanned(cfg, Stream(evs, p, 6010));
  }

  lemma {:induction false} HeavyRounds(known: PeerId -> bool, f: Habit, p: nat, w: nat)
    requires Steady(known, f) && DefaultConfig(known).WeightsFit()
    requires w == AlwaysWeighs(f) + AgainWeighs(f, p) + LonelyWeighs(f, p)
    ensures forall i: nat :: 10 <= i <= 6010 && Fits(p, i) ==> WeightNo(DefaultConfig(known), Announcing(f), p, i) == w
  {
    hide Steady, Announcing, WeightNo, AlwaysWeighs, AgainWeighs, LonelyWeighs, HabitWeighs;
    HabitBounds(f, p);
    forall i: nat | 10 <= i <= 6010 && Fits(p, i) ensures WeightNo(DefaultConfig(known), Announcing(f), p, i) == w {
      HabitWeight(known, f, p, i);
    }
  }

  lemma {:induction false} SlowHabit(known: PeerId -> bool, f: Habit, p: nat, w: nat)
    requires Steady(known, f) && DefaultConfig(known).WeightsFit() && p >= 60 * w
    requires w == AlwaysWeighs(f) + AgainWeighs(f, p) + LonelyWeighs(f, p)
    ensures EverBannedBy(DefaultConfig(known), Announcing(f), p)
            <==> (w >= 100 && Fits(p, 2)) || (AlwaysWeighs(f) >= 100 && Fits(p, 1))
  {
    hide Steady, EverBannedBy, Announcing, WeightNo, AlwaysWeighs, AgainWeighs, LonelyWeighs, HabitWeighs;
    var cfg, evs := DefaultConfig(known), Announcing(f);
    HabitBounds(f, p);
    if w >= 100 && Fits(p, 2) {
      HabitWeight(known, f, p, 2);
      OneHeavyEvent(known, evs, p, 2);
    } else if AlwaysWeighs(f) >= 100 && Fits(p, 1) {
      HabitWeight(known, f, p, 1);
      OneHeavyEvent(known, evs, p, 1);
    } else {
      forall i: nat | 1 <= i && Fits(p, i) ensures WeightNo(cfg, evs, p, i) <= w && (w >= 100 ==> WeightNo(cfg, evs, p, i) < 100) {
        AtLeastOneSecond(p, i);
        if i >= 2 {
          FitsLess(p, 2, i);
        }
        HabitWeight(known, f, p, i);
      }
      if w < 100 {
        LightStream(known, evs, p, w);
      } else {
        LightStream(known, evs, p, 99);
      }
    }
  }

  /** A new key each time and nothing else amiss, whatever the shape: banned in the end exactly if the
      announces come more often than every thirty-five minutes. So does a new peer id. */
  lemma {:induction false} ChurnFloodIff(known: PeerId -> bool, f: Habit, p: nat)
    requires Steady(known, f) && f.freshKeys != f.freshIds && !f.trivialKeys && !f.stranger
    requires f.a.declaredIp == 0 || !f.a.sourceIsPublic
    ensures DefaultConfig(known).WeightsFit() && (EverBannedBy(DefaultConfig(known), Announcing(f), p) <==> p < 2100)
  {
    hide EverBannedBy, Announcing, Steady;
    AnnounceFloodIff(known, f, p);
  }
}
