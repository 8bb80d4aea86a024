/** What every event weighs, from the history of its source alone, with each check and each weight
    written out; and the two small fingerprints that the checks use. */
module L7Weights {
  import opened Bytes
  import opened Core
  import opened L7Spec
  import opened L7Bucket
  import opened L7History

  // ---------------------------------------------------------------- the checks, on the history

  /** One of the last eight announces passes a test. */
  ghost predicate AmongLastEight(all: seq<Seen>, test: Seen -> bool) {
    exists i :: 0 <= i < |all| && i + 8 >= |all| && test(all[i])
  }

  function SameSoon(a: AnnounceInfo, now: u32, floor: u32): Seen -> bool {
    (s: Seen) => s.hash == a.infoHash && floor > 0 && now as int < s.at as int + floor as int
  }

  function SameOtherKey(a: AnnounceInfo): Seen -> bool {
    (s: Seen) => s.hash == a.infoHash && s.key != a.key
  }

  function SameOtherPeer(a: AnnounceInfo): Seen -> bool {
    (s: Seen) => s.hash == a.infoHash && s.peer != PeerFingerprint(a.peerId)
  }

  /** The source was seen before, within the fast gap. */
  predicate SeenWithin(h: History, gap: u32) {
    |h| >= 2 && gap > 0 && h[|h| - 1].now as int < h[|h| - 2].now as int + gap as int
  }

  /** What an announce weighs for its key, its declared address and, if fast, its shape. */
  function PacketWeighs(cfg: Config, a: AnnounceInfo, fast: bool): nat {
    (if a.key == 0 || a.key == 0xFFFF_FFFF then cfg.weightBadKey as int else 0)
    + (if a.declaredIp != 0 && a.sourceIsPublic then cfg.weightDeclaredIp as int else 0)
    + (if fast && a.port < 1024 then cfg.weightBadPort as int else 0)
    + (if fast && a.left == 0 && a.downloaded == 0 && a.uploaded == 0 then cfg.weightFakeSeeder as int else 0)
    + (if fast && a.numWant > cfg.numwantAbuse then cfg.weightNumwant as int else 0)
  }

  /** What it weighs against the announces before it, and for its client. */
  ghost function ChurnWeighs(cfg: Config, a: AnnounceInfo, now: u32, before: seq<Seen>): nat {
    (if AmongLastEight(before, SameSoon(a, now, cfg.reannounceMinInterval)) then cfg.weightInterval as int else 0)
    + (if AmongLastEight(before, SameOtherKey(a)) then cfg.weightKeyChurn as int else 0)
    + (if AmongLastEight(before, SameOtherPeer(a)) then cfg.weightPeeridChurn as int else 0)
    + (if !cfg.isKnownClient(a.peerId) then cfg.weightPeerid as int else 0)
  }

  /** What it weighs, if fast, for the run of lonely announces before it and the torrents announced fast. */
  function SpreadWeighs(cfg: Config, a: AnnounceInfo, fast: bool, lonely: nat, others: set<InfoHash>): nat {
    (if fast && a.swarmPeers <= 1 && Min(0xFFFF_FFFF, lonely + 1) > cfg.emptySwarmThreshold then cfg.weightEmptySwarm as int else 0)
    + (if fast && |Buckets(others + {a.infoHash})| >= cfg.breadthThreshold then cfg.weightBreadth as int else 0)
  }

  /** Every announce of every history weighs the three together. */
  lemma {:induction false} AnnounceWeighs(cfg: Config, h: History)
    requires cfg.WeightsFit() && h != [] && Last(h).ev.Announced?
    ensures var a, fast := Last(h).ev.a, SeenWithin(h, cfg.fastAnnounceGap);
            WeightAt(cfg, h) ==
            PacketWeighs(cfg, a, fast)
            + ChurnWeighs(cfg, a, Last(h).now, Announces(Front(h)))
            + SpreadWeighs(cfg, a, fast, LonelyRun(cfg, Front(h)), FastHashes(cfg, Front(h)))
  {
    hide TouchedAt, LonelyRun, FastHashes, Announces, SeenWithin, IdentityWeight, StatelessWeight, EnumerationWeight, IsFast,
         PacketWeighs, ChurnWeighs, SpreadWeighs;
    var a, c := Last(h).ev.a, TouchedAt(cfg, h);
    FastIs(cfg, h);
    IdentityWeighs(cfg, h);
    StatelessWeighs(cfg, a, IsFast(cfg, c));
    EnumerationWeighs(cfg, h);
  }

  lemma {:induction false} FastIs(cfg: Config, h: History)
    requires cfg.WeightsFit() && h != []
    ensures IsFast(cfg, TouchedAt(cfg, h)) <==> SeenWithin(h, cfg.fastAnnounceGap)
  {
    hide TouchedAt, StateAt, RingHolds, Announces, LonelyRun, FastHashes, SeenWithin, Gap;
    SummariesAgree(cfg, h);
    GapIs(cfg, h);
  }

  lemma {:induction false} IdentityWeighs(cfg: Config, h: History)
    requires cfg.WeightsFit() && h != [] && Last(h).ev.Announced?
    ensures IdentityWeight(cfg, TouchedAt(cfg, h), Last(h).ev.a, Last(h).now) ==
            ChurnWeighs(cfg, Last(h).ev.a, Last(h).now, Announces(Front(h)))
  {
    hide TouchedAt, Announces, AmongLastEight, TooSoon, KeyChurned, PeerChurned;
    SignalsAre(cfg, h);
  }

  lemma StatelessWeighs(cfg: Config, a: AnnounceInfo, fast: bool)
    ensures StatelessWeight(cfg, a, fast) == PacketWeighs(cfg, a, fast)
  {
  }

  lemma {:induction false} EnumerationWeighs(cfg: Config, h: History)
    requires cfg.WeightsFit() && h != [] && Last(h).ev.Announced?
    ensures var a, c := Last(h).ev.a, TouchedAt(cfg, h);
            EnumerationWeight(cfg, c, a) == SpreadWeighs(cfg, a, IsFast(cfg, c), LonelyRun(cfg, Front(h)), FastHashes(cfg, Front(h)))
  {
    hide CountOnes, TouchedAt, Buckets, LonelyRun, FastHashes, Announces, Gap, RingHolds, StateAt;
    SummariesAgree(cfg, h);
    var c, a := TouchedAt(cfg, h), Last(h).ev.a;
    if IsFast(cfg, c) {
      WidenBits(cfg, c, FastHashes(cfg, Front(h)), a.infoHash);
      OnesAreBuckets(Widened(cfg, c, a), FastHashes(cfg, Front(h)) + {a.infoHash});
    }
  }

  lemma {:induction false} SignalsAre(cfg: Config, h: History)
    requires cfg.WeightsFit() && h != [] && Last(h).ev.Announced?
    ensures var a, now, c, before := Last(h).ev.a, Last(h).now, TouchedAt(cfg, h), Announces(Front(h));
            && (TooSoon(c.ring, a.infoHash, now, cfg.reannounceMinInterval) <==>
                AmongLastEight(before, SameSoon(a, now, cfg.reannounceMinInterval)))
            && (KeyChurned(c.ring, a.infoHash, a.key) <==> AmongLastEight(before, SameOtherKey(a)))
            && (PeerChurned(c.ring, a.infoHash, PeerFingerprint(a.peerId)) <==> AmongLastEight(before, SameOtherPeer(a)))
  {
    hide TouchedAt, Announces, TooSoon, KeyChurned, PeerChurned;
    SignalsScanHistory(cfg, h);
  }

  lemma GapIs(cfg: Config, h: History)
    requires h != []
    ensures Gap(h) < cfg.fastAnnounceGap <==> SeenWithin(h, cfg.fastAnnounceGap)
  {
  }

  /** So do the other events: a mismatch always, a scrape by its size, a connect by how many went
      unused, itself included. */
  lemma {:induction false} OthersWeigh(cfg: Config, h: History)
    requires cfg.WeightsFit() && h != []
    ensures Last(h).ev.Mismatched? ==> WeightAt(cfg, h) == cfg.weightConnid
    ensures Last(h).ev.Scraped? ==>
              WeightAt(cfg, h) == if Last(h).ev.hashes >= cfg.scrapeVolumeThreshold then cfg.weightScrapeVolume as int else 0
    ensures Last(h).ev.Connected? ==>
              WeightAt(cfg, h) == if Min(0xFFFF_FFFF, UnusedConnects(h)) > cfg.connectBurst then cfg.weightConnectSpam as int else 0
  {
    hide StateAt, Announces, FastHashes, LonelyRun, RingHolds;
    SummariesAgree(cfg, h);
  }

  function ConnectsIn(h: History): nat {
    if h == [] then 0 else ConnectsIn(Front(h)) + if Last(h).ev.Connected? then 1 else 0
  }

  /** The unused connects are those since the last announce or scrape, or since the beginning. */
  lemma {:induction false} UnusedSince(h: History, late: History)
    requires h != [] ==> Last(h).ev.Announced? || Last(h).ev.Scraped?
    requires forall i :: 0 <= i < |late| ==> late[i].ev.Connected? || late[i].ev.Mismatched?
    ensures UnusedConnects(h + late) == ConnectsIn(late)
    decreases |late|
  {
    if late == [] {
      assert h + late == h;
    } else {
      UnusedSince(h, Front(late));
      assert Front(h + late) == h + Front(late) && Last(h + late) == Last(late);
    }
  }

  // ---------------------------------------------------------------- the shipped settings

  function ShippedPacket(a: AnnounceInfo, fast: bool): nat {
    (if a.key == 0 || a.key == 0xFFFF_FFFF then 40 else 0) + (if a.declaredIp != 0 && a.sourceIsPublic then 60 else 0)
    + (if fast && a.port < 1024 then 30 else 0) + (if fast && a.left == 0 && a.downloaded == 0 && a.uploaded == 0 then 50 else 0)
    + (if fast && a.numWant > 100 then 10 else 0)
  }

  ghost function ShippedChurn(a: AnnounceInfo, known: bool, now: u32, before: seq<Seen>): nat {
    (if AmongLastEight(before, SameSoon(a, now, 60)) then 20 else 0) + (if AmongLastEight(before, SameOtherKey(a)) then 35 else 0)
    + (if AmongLastEight(before, SameOtherPeer(a)) then 35 else 0) + (if known then 0 else 5)
  }

  function ShippedSpread(a: AnnounceInfo, fast: bool, lonely: nat, others: set<InfoHash>): nat {
    (if fast && a.swarmPeers <= 1 && lonely >= 8 then 40 else 0) + (if fast && |Buckets(others + {a.infoHash})| >= 32 then 60 else 0)
  }

  lemma {:induction false} ShippedParts(known: PeerId -> bool, a: AnnounceInfo, fast: bool, now: u32, before: seq<Seen>,
                                        lonely: nat, others: set<InfoHash>)
    ensures var cfg := DefaultConfig(known);
            && PacketWeighs(cfg, a, fast) == ShippedPacket(a, fast)
            && ChurnWeighs(cfg, a, now, before) == ShippedChurn(a, known(a.peerId), now, before)
            && SpreadWeighs(cfg, a, fast, lonely, others) == ShippedSpread(a, fast, lonely, others)
  {
    hide AmongLastEight, Buckets;
  }

  /** As shipped: fast is within 300 seconds, soon within 60, and every weight is this number. */
  lemma {:induction false} ShippedWeights(known: PeerId -> bool, h: History)
    requires h != []
    ensures var cfg, ev := DefaultConfig(known), Last(h).ev;
            cfg.WeightsFit() &&
            match ev
            case Announced(a) =>
              var fast := SeenWithin(h, 300);
              WeightAt(cfg, h) ==
              ShippedPacket(a, fast)
              + ShippedChurn(a, known(a.peerId), Last(h).now, Announces(Front(h)))
              + ShippedSpread(a, fast, LonelyRun(cfg, Front(h)), FastHashes(cfg, Front(h)))
            case Mismatched => WeightAt(cfg, h) == 15
            case Scraped(hashes) => WeightAt(cfg, h) == if hashes >= 32 then 15 else 0
            case Connected => WeightAt(cfg, h) == if UnusedConnects(h) > 8 then 25 else 0
  {
    hide WeightAt, LonelyRun, FastHashes, Announces, SeenWithin, UnusedConnects, PacketWeighs, ChurnWeighs, SpreadWeighs,
         ShippedPacket, ShippedChurn, ShippedSpread;
    var cfg := DefaultConfig(known);
    if Last(h).ev.Announced? {
      AnnounceWeighs(cfg, h);
      ShippedParts(known, Last(h).ev.a, SeenWithin(h, 300), Last(h).now, Announces(Front(h)), LonelyRun(cfg, Front(h)),
                   FastHashes(cfg, Front(h)));
    } else {
      OthersWeigh(cfg, h);
    }
  }

  // ---------------------------------------------------------------- the fingerprints

  lemma StepInjective(x: u32, y: u32, b: byte)
    requires (x * 31 + b) % 0x1_0000_0000 == (y * 31 + b) % 0x1_0000_0000
    ensures x == y
  {
    OddStep(x as int - y as int, WrapsOf(x * 31 + b) - WrapsOf(y * 31 + b));
  }

  function WrapsOf(v: nat): (q: int)
    ensures v == q * 0x1_0000_0000 + v % 0x1_0000_0000
  {
    v / 0x1_0000_0000
  }

  /** 31 is odd, so multiplying by it loses nothing modulo 2^32. */
  lemma OddStep(d: int, k: int)
    requires d * 31 == k * 0x1_0000_0000 && -0x1_0000_0000 < d < 0x1_0000_0000
    ensures d == 0
  {
    var e := 8 * (d - 138547332 * k) - k;
    assert k == 31 * e;
  }

  lemma StepSeparates(x: u32, b: byte, c: byte)
    requires (x * 31 + b) % 0x1_0000_0000 == (x * 31 + c) % 0x1_0000_0000
    ensures b == c
  {
    var k := (x * 31 + b) / 0x1_0000_0000 - (x * 31 + c) / 0x1_0000_0000;
    assert b as int - c as int == k * 0x1_0000_0000;
  }

  /** Bytes that differ in one place only fold to different fingerprints. */
  lemma {:induction false} FoldSeparates(x: u32, y: u32, b: seq<byte>, c: seq<byte>, i: nat)
    requires |b| == |c| && i < |b| && b[i] != c[i] && x == y
    requires forall j :: 0 <= j < |b| && j != i ==> b[j] == c[j]
    ensures Fold31(x, b) != Fold31(y, c)
    decreases |b|
  {
    if i == 0 {
      if (x * 31 + b[0]) % 0x1_0000_0000 == (x * 31 + c[0]) % 0x1_0000_0000 {
        StepSeparates(x, b[0], c[0]);
        assert false;
      }
      assert b[1..] == c[1..];
      FoldInjective((x * 31 + b[0]) % 0x1_0000_0000, (x * 31 + c[0]) % 0x1_0000_0000, b[1..]);
    } else {
      FoldSeparates((x * 31 + b[0]) % 0x1_0000_0000, (y * 31 + c[0]) % 0x1_0000_0000, b[1..], c[1..], i - 1);
    }
  }

  lemma {:induction false} FoldInjective(x: u32, y: u32, b: seq<byte>)
    requires x != y
    ensures Fold31(x, b) != Fold31(y, b)
    decreases |b|
  {
    if b != [] {
      if (x * 31 + b[0]) % 0x1_0000_0000 == (y * 31 + b[0]) % 0x1_0000_0000 {
        StepInjective(x, y, b[0]);
      }
      FoldInjective((x * 31 + b[0]) % 0x1_0000_0000, (y * 31 + b[0]) % 0x1_0000_0000, b[1..]);
    }
  }

  /** The fingerprint looks at the last twelve bytes of a peer id and at nothing else, and tells apart
      any two ids that differ in a single one of them. */
  lemma {:induction false} FingerprintLooksAtTail(p: PeerId, q: PeerId, i: nat)
    requires i < 20 && p[i] != q[i] && forall j :: 0 <= j < 20 && j != i ==> p[j] == q[j]
    ensures PeerFingerprint(p) == PeerFingerprint(q) <==> i < 8
  {
    if i < 8 {
      assert p[8..20] == q[8..20];
    } else {
      FoldSeparates(0, 0, p[8..20], q[8..20], i - 8);
    }
  }

  /** The bucket of a torrent: the top six bits of the wrapped product of its first eight bytes, the
      first the least significant, with the golden-ratio constant. */
  lemma {:induction false} BucketIs(hash: InfoHash) returns (wraps: nat, low: nat)
    ensures (hash[0] as int + 0x100 * hash[1] as int + 0x1_0000 * hash[2] as int + 0x100_0000 * hash[3] as int
             + 0x1_0000_0000 * (hash[4] as int + 0x100 * hash[5] as int + 0x1_0000 * hash[6] as int + 0x100_0000 * hash[7] as int))
            * 0x9E37_79B9_7F4A_7C15
            == wraps * 0x1_0000_0000_0000_0000 + BreadthBit(hash) * 0x0400_0000_0000_0000 + low
    ensures low < 0x0400_0000_0000_0000 && BreadthBit(hash) < 64
  {
    var v := FromLe(hash[..8]);
    FirstIsLeast(hash[..8]);
    var x := v * 0x9E37_79B9_7F4A_7C15;
    wraps := x / 0x1_0000_0000_0000_0000;
    low := x % 0x1_0000_0000_0000_0000 % 0x0400_0000_0000_0000;
  }

  lemma {:induction false} FirstIsLeast(b: seq<byte>)
    requires |b| == 8
    ensures FromLe(b) ==
            b[0] as int + 0x100 * b[1] as int + 0x1_0000 * b[2] as int + 0x100_0000 * b[3] as int
            + 0x1_0000_0000 * (b[4] as int + 0x100 * b[5] as int + 0x1_0000 * b[6] as int + 0x100_0000 * b[7] as int)
  {
    LeFirst(b);
    LeFirst(b[1..]);
    LeFirst(b[2..]);
    LeFirst(b[3..]);
    LeFirst(b[4..]);
    LeFirst(b[5..]);
    LeFirst(b[6..]);
    LeFirst(b[7..]);
    hide FromLe;
    assert b[1..][1..] == b[2..] && b[2..][1..] == b[3..] && b[3..][1..] == b[4..] && b[4..][1..] == b[5..];
    assert b[5..][1..] == b[6..] && b[6..][1..] == b[7..] && b[7..][1..] == [];
  }

  lemma LeFirst(b: seq<byte>)
    requires b != []
    ensures FromLe(b) == b[0] as int + 0x100 * FromLe(b[1..]) && FromLe([]) == 0
  {
  }
}
