/** What one event does to what the detector remembers of one source. */
module L7Spec {
  import opened Bytes
  import opened Core

  const SHARDS: nat := 16
  const RING: nat := 8
  const EVICT_SAMPLE: nat := 8
  const BUCKETS: nat := 64

  datatype Config = Config(
    reannounceMinInterval: u32,
    scoreBanThreshold: u32,
    banDuration: u32,
    maxEntries: nat,
    weightInterval: u32,
    weightConnid: u32,
    weightPeerid: u32,
    decayAmount: u32,
    decayInterval: u32,
    weightBadKey: u32,
    weightDeclaredIp: u32,
    weightBadPort: u32,
    weightFakeSeeder: u32,
    weightKeyChurn: u32,
    weightPeeridChurn: u32,
    weightNumwant: u32,
    numwantAbuse: i32,
    weightBreadth: u32,
    breadthThreshold: u32,
    weightEmptySwarm: u32,
    emptySwarmThreshold: u32,
    weightScrapeVolume: u32,
    scrapeVolumeThreshold: nat,
    weightConnectSpam: u32,
    connectBurst: u32,
    maxOffenders: nat,
    banTiers: u32,
    rebanCooldown: u32,
    fastAnnounceGap: u32,
    /** Whether a peer id starts with the prefix of a well-known client. */
    isKnownClient: PeerId -> bool)
  {
    /** The plain additions of one announce's weights stay within 32 bits. */
    predicate WeightsFit() {
      weightBadKey + weightDeclaredIp + weightBadPort + weightFakeSeeder + weightNumwant + weightInterval
      + weightKeyChurn + weightPeeridChurn + weightPeerid + weightEmptySwarm + weightBreadth <= U32_MAX
    }

    /** A zero interval is clamped to one second. */
    function Interval(): nat {
      if decayInterval == 0 then 1 else decayInterval
    }

    function PerShardCap(): nat {
      if maxEntries / SHARDS == 0 then 1 else maxEntries / SHARDS
    }
  }

  /** The settings the detector ships with. */
  function DefaultConfig(known: PeerId -> bool): Config {
    Config(60, 100, 3600, 1_000_000, 20, 15, 5, 1, 60, 40, 60, 30, 50, 35, 35, 10, 100, 60, 32, 40, 8, 15, 32, 25, 8,
           5_000_000, 4, 3600, 300, known)
  }

  datatype AnnounceInfo = AnnounceInfo(
    infoHash: InfoHash, peerId: PeerId, key: u32, declaredIp: u32, port: u16, left: u64, downloaded: u64,
    uploaded: u64, numWant: i32, sourceIsPublic: bool, swarmPeers: u32)

  datatype L7Event = Announced(a: AnnounceInfo) | Mismatched | Scraped(hashes: nat) | Connected

  datatype Verdict = Allow | Ban(duration: u32, tier: u32)

  datatype Seen = Seen(hash: InfoHash, at: u32, key: u32, peer: u32)

  datatype ClientState = ClientState(
    score: u32,
    lastSeen: u32,
    decayAt: u32,
    bannedUntil: u32,
    lastGap: u32,
    breadth: seq<bool>,
    connects: u32,
    emptySwarms: u32,
    ring: seq<Option<Seen>>,
    ringPos: nat)
  {
    predicate Valid() {
      |breadth| == BUCKETS && |ring| == RING && ringPos < RING
    }
  }

  function NewClient(now: u32): (c: ClientState)
    ensures c.Valid()
  {
    ClientState(0, now, now, 0, U32_MAX, seq(BUCKETS, _ => false), 0, 0, seq(RING, _ => None), 0)
  }

  // ---------------------------------------------------------------- pure helpers

  function Fold31(acc: u32, bytes: seq<byte>): u32
    decreases |bytes|
  {
    if bytes == [] then acc else Fold31((acc * 31 + bytes[0]) % 0x1_0000_0000, bytes[1..])
  }

  /** A fingerprint of the random tail of a peer id. */
  function PeerFingerprint(peerId: PeerId): u32 {
    Fold31(0, peerId[8..20])
  }

  function FromLe(b: seq<byte>): nat {
    if b == [] then 0 else b[0] + 256 * FromLe(b[1..])
  }

  /** One of 64 buckets: the top six bits of the wrapped product with a fixed odd number. */
  function BreadthBit(hash: InfoHash): (bit: nat)
    ensures bit < BUCKETS
  {
    FromLe(hash[..8]) * 0x9E37_79B9_7F4A_7C15 % 0x1_0000_0000_0000_0000 / 0x0400_0000_0000_0000
  }

  function CountOnes(bits: seq<bool>): nat {
    if bits == [] then 0 else CountOnes(bits[..|bits| - 1]) + if bits[|bits| - 1] then 1 else 0
  }

  /** The bits that are set. */
  function Ones(bits: seq<bool>): set<nat> {
    set i | 0 <= i < |bits| && bits[i]
  }

  lemma {:induction false} OnesAreASet(bits: seq<bool>)
    ensures CountOnes(bits) == |Ones(bits)|
  {
    if bits != [] {
      var front := bits[..|bits| - 1];
      OnesAreASet(front);
      assert Ones(bits) == Ones(front) + if bits[|bits| - 1] then {|bits| - 1} else {};
    }
  }

  // ---------------------------------------------------------------- decay and sighting

  /** Whole intervals that have passed since the anchor. */
  function DecaySteps(cfg: Config, c: ClientState, now: u32): nat {
    SatSub(now, c.decayAt) / cfg.Interval()
  }

  function Decayed(cfg: Config, c: ClientState, now: u32): ClientState {
    var steps := DecaySteps(cfg, c, now);
    c.(lastGap := SatSub(now, c.lastSeen),
       score := SatSub(c.score, SatMul(steps, cfg.decayAmount)),
       decayAt := SatAdd(c.decayAt, SatMul(steps, cfg.Interval())),
       lastSeen := now)
  }

  /** The client as an event finds it: decayed, or new and with no gap to speak of. */
  function Touched(cfg: Config, stored: Option<ClientState>, now: u32): ClientState {
    match stored
    case Some(c) => Decayed(cfg, c, now)
    case None => Decayed(cfg, NewClient(now), now).(lastGap := U32_MAX)
  }

  // ---------------------------------------------------------------- what an event scores

  /** The announces still remembered for a torrent. */
  predicate Remembers(ring: seq<Option<Seen>>, hash: InfoHash, i: nat) {
    i < |ring| && ring[i].Some? && ring[i].value.hash == hash
  }

  predicate TooSoon(ring: seq<Option<Seen>>, hash: InfoHash, now: u32, floor: u32) {
    exists i :: 0 <= i < |ring| && Remembers(ring, hash, i) && SatSub(now, ring[i].value.at) < floor
  }

  predicate KeyChurned(ring: seq<Option<Seen>>, hash: InfoHash, key: u32) {
    exists i :: 0 <= i < |ring| && Remembers(ring, hash, i) && ring[i].value.key != key
  }

  predicate PeerChurned(ring: seq<Option<Seen>>, hash: InfoHash, peer: u32) {
    exists i :: 0 <= i < |ring| && Remembers(ring, hash, i) && ring[i].value.peer != peer
  }

  predicate IsFast(cfg: Config, c: ClientState) {
    c.lastGap < cfg.fastAnnounceGap
  }

  function If(b: bool, weight: u32): u32 {
    if b then weight else 0
  }

  /** The checks that need no memory of the source. */
  function StatelessWeight(cfg: Config, a: AnnounceInfo, fast: bool): nat {
    If(a.key == 0 || a.key == U32_MAX, cfg.weightBadKey)
    + If(a.declaredIp != 0 && a.sourceIsPublic, cfg.weightDeclaredIp)
    + If(fast && a.port < 1024, cfg.weightBadPort)
    + If(fast && a.left == 0 && a.downloaded == 0 && a.uploaded == 0, cfg.weightFakeSeeder)
    + If(fast && a.numWant > cfg.numwantAbuse, cfg.weightNumwant)
  }

  /** The checks against the remembered announces and the peer id. */
  function IdentityWeight(cfg: Config, c: ClientState, a: AnnounceInfo, now: u32): nat {
    If(TooSoon(c.ring, a.infoHash, now, cfg.reannounceMinInterval), cfg.weightInterval)
    + If(KeyChurned(c.ring, a.infoHash, a.key), cfg.weightKeyChurn)
    + If(PeerChurned(c.ring, a.infoHash, PeerFingerprint(a.peerId)), cfg.weightPeeridChurn)
    + If(!cfg.isKnownClient(a.peerId), cfg.weightPeerid)
  }

  predicate Lonely(cfg: Config, c: ClientState, a: AnnounceInfo) {
    IsFast(cfg, c) && a.swarmPeers <= 1
  }

  /** The breadth bitmap once a fast announce has been folded in. */
  function Widened(cfg: Config, c: ClientState, a: AnnounceInfo): seq<bool>
    requires c.Valid()
  {
    if IsFast(cfg, c) then c.breadth[BreadthBit(a.infoHash) := true] else c.breadth
  }

  /** The checks for enumerating torrents. */
  function EnumerationWeight(cfg: Config, c: ClientState, a: AnnounceInfo): nat
    requires c.Valid()
  {
    If(Lonely(cfg, c, a) && SatAdd(c.emptySwarms, 1) > cfg.emptySwarmThreshold, cfg.weightEmptySwarm)
    + If(IsFast(cfg, c) && CountOnes(Widened(cfg, c, a)) >= cfg.breadthThreshold, cfg.weightBreadth)
  }

  /** What an event adds to the score of the client it touched. */
  function Weight(cfg: Config, c: ClientState, ev: L7Event, now: u32): nat
    requires c.Valid()
  {
    match ev
    case Announced(a) =>
      StatelessWeight(cfg, a, IsFast(cfg, c)) + IdentityWeight(cfg, c, a, now) + EnumerationWeight(cfg, c, a)
    case Mismatched => cfg.weightConnid
    case Scraped(hashes) => If(hashes >= cfg.scrapeVolumeThreshold, cfg.weightScrapeVolume)
    case Connected => If(SatAdd(c.connects, 1) > cfg.connectBurst, cfg.weightConnectSpam)
  }

  lemma WeightFits(cfg: Config, c: ClientState, ev: L7Event, now: u32)
    requires c.Valid() && cfg.WeightsFit()
    ensures Weight(cfg, c, ev, now) <= U32_MAX
  {
  }

  /** What the event leaves in the client besides the score. */
  function Recorded(cfg: Config, c: ClientState, ev: L7Event, now: u32): (r: ClientState)
    requires c.Valid()
    ensures r.Valid()
  {
    match ev
    case Announced(a) =>
      c.(connects := 0,
         ring := c.ring[c.ringPos := Some(Seen(a.infoHash, now, a.key, PeerFingerprint(a.peerId)))],
         ringPos := (c.ringPos + 1) % RING,
         emptySwarms := if Lonely(cfg, c, a) then SatAdd(c.emptySwarms, 1) else 0,
         breadth := Widened(cfg, c, a))
    case Mismatched => c
    case Scraped(_) => c.(connects := 0)
    case Connected => c.(connects := SatAdd(c.connects, 1))
  }

  // ---------------------------------------------------------------- the whole event

  function WithScore(cfg: Config, touched: ClientState, ev: L7Event, now: u32): (c: ClientState)
    requires cfg.WeightsFit() && touched.Valid()
    ensures c.Valid()
  {
    WeightFits(cfg, touched, ev, now);
    Recorded(cfg, touched, ev, now).(score := SatAdd(touched.score, Weight(cfg, touched, ev, now)))
  }

  function Scored(cfg: Config, stored: Option<ClientState>, ev: L7Event, now: u32): (c: ClientState)
    requires cfg.WeightsFit() && (stored.Some? ==> stored.value.Valid())
    ensures c.Valid()
  {
    WithScore(cfg, Touched(cfg, stored, now), ev, now)
  }

  /** Whether the event is a ban: over the threshold and not inside the last ban. */
  predicate Crosses(cfg: Config, c: ClientState, now: u32) {
    c.score >= cfg.scoreBanThreshold && now >= c.bannedUntil
  }

  predicate Bans(cfg: Config, stored: Option<ClientState>, ev: L7Event, now: u32)
    requires cfg.WeightsFit() && (stored.Some? ==> stored.value.Valid())
  {
    Crosses(cfg, Scored(cfg, stored, ev, now), now)
  }

  /** The client after the event. */
  function Next(cfg: Config, stored: Option<ClientState>, ev: L7Event, now: u32): (c: ClientState)
    requires cfg.WeightsFit() && (stored.Some? ==> stored.value.Valid())
    ensures c.Valid()
  {
    var c := Scored(cfg, stored, ev, now);
    if Crosses(cfg, c, now) then c.(bannedUntil := SatAdd(now, cfg.rebanCooldown)) else c
  }

  // ---------------------------------------------------------------- the registry of offenders

  datatype Offender = Offender(offenses: u32, last: u32)

  function Offended(known: Option<Offender>, now: u32): Offender {
    Offender(SatAdd(if known.Some? then known.value.offenses else 0, 1), now)
  }

  function TierOf(cfg: Config, o: Offender): u32
    requires o.offenses >= 1
  {
    Min(o.offenses - 1, SatSub(cfg.banTiers, 1))
  }

  // ---------------------------------------------------------------- eviction

  function Get<K, V>(m: map<K, V>, k: K): Option<V> {
    if k in m then Some(m[k]) else None
  }

  function Without<V>(m: map<Ip, V>, victim: Option<Ip>): map<Ip, V> {
    if victim.Some? then m - {victim.value} else m
  }

  /** The least recent of some sample of at most eight entries. */
  ghost predicate IsVictim(ages: map<Ip, u32>, victim: Ip) {
    exists sample: set<Ip> :: IsSample(ages, sample) && LeastIn(ages, sample, victim)
  }

  ghost predicate LeastIn(ages: map<Ip, u32>, some: set<Ip>, v: Ip)
    requires some <= ages.Keys
  {
    v in some && forall k :: k in some ==> ages[v] <= ages[k]
  }

  ghost predicate IsSample(ages: map<Ip, u32>, sample: set<Ip>) {
    sample <= ages.Keys && |sample| == Min(EVICT_SAMPLE, |ages|)
  }

  /** What is evicted to make room for `ip`: nothing while there is room. */
  ghost predicate Evicts(ages: map<Ip, u32>, ip: Ip, cap: nat, victim: Option<Ip>) {
    if ip !in ages && |ages| >= cap && ages != map[]
    then victim.Some? && IsVictim(ages, victim.value)
    else victim == None
  }

  function ShardNo(ip: Ip): nat {
    ip[15] % SHARDS
  }

  function InShard(clients: map<Ip, ClientState>, i: nat): map<Ip, ClientState> {
    map ip | ip in clients && ShardNo(ip) == i :: clients[ip]
  }

  function Ages(clients: map<Ip, ClientState>): map<Ip, u32> {
    map ip | ip in clients :: clients[ip].lastSeen
  }

  function OffenderAges(offenders: map<Ip, Offender>): map<Ip, u32> {
    map ip | ip in offenders :: offenders[ip].last
  }

  ghost predicate AllValid(clients: map<Ip, ClientState>) {
    forall ip :: ip in clients ==> clients[ip].Valid()
  }

  // ---------------------------------------------------------------- the two critical sections

  /** An event under its shard's lock: room is made, one client changes. */
  ghost predicate Scoring(cfg: Config, before: map<Ip, ClientState>, after: map<Ip, ClientState>,
                          ip: Ip, ev: L7Event, now: u32, victim: Option<Ip>)
    requires cfg.WeightsFit() && AllValid(before)
  {
    && Evicts(Ages(InShard(before, ShardNo(ip))), ip, cfg.PerShardCap(), victim)
    && after == Without(before, victim)[ip := Next(cfg, Get(before, ip), ev, now)]
  }

  /** A ban under the registry's lock: room is made, one offender changes. */
  ghost predicate Registering(cfg: Config, before: map<Ip, Offender>, after: map<Ip, Offender>,
                              ip: Ip, now: u32, forgotten: Option<Ip>)
  {
    && Evicts(OffenderAges(before), ip, cfg.maxOffenders, forgotten)
    && after == Without(before, forgotten)[ip := Offended(Get(before, ip), now)]
  }
}
