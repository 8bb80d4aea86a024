/** Sources do not influence one another: in a crowd where nobody is evicted, each source gets the
    verdicts it would get from a detector of its own. */
module L7Alone {
  import opened Bytes
  import opened Core
  import opened Sequences
  import opened L7Spec
  import L7Detector

  datatype Det = Det(clients: map<Ip, ClientState>, offenders: map<Ip, Offender>)

  datatype Packet = Packet(ip: Ip, ev: L7Event, now: u32)

  const FRESH := Det(map[], map[])

  function VerdictOn(cfg: Config, d: Det, p: Packet): Verdict
    requires cfg.WeightsFit() && AllValid(d.clients)
  {
    if Bans(cfg, Get(d.clients, p.ip), p.ev, p.now)
    then Ban(cfg.banDuration, TierOf(cfg, Offended(Get(d.offenders, p.ip), p.now)))
    else Allow
  }

  /** The detector after a packet for which nobody had to make room. */
  function Handle(cfg: Config, d: Det, p: Packet): (e: Det)
    requires cfg.WeightsFit() && AllValid(d.clients)
    ensures AllValid(e.clients)
  {
    Det(d.clients[p.ip := Next(cfg, Get(d.clients, p.ip), p.ev, p.now)],
        if Bans(cfg, Get(d.clients, p.ip), p.ev, p.now)
        then d.offenders[p.ip := Offended(Get(d.offenders, p.ip), p.now)] else d.offenders)
  }

  /** There is room for whatever the packet adds. */
  ghost predicate HasRoom(cfg: Config, d: Det, p: Packet)
    requires cfg.WeightsFit() && AllValid(d.clients)
  {
    && (p.ip in d.clients || |InShard(d.clients, ShardNo(p.ip))| < cfg.PerShardCap())
    && (Bans(cfg, Get(d.clients, p.ip), p.ev, p.now) ==>
          p.ip in d.offenders || |d.offenders| < cfg.maxOffenders || d.offenders == map[])
  }

  /** With room, the detector's own call is `Handle`. */
  lemma HandledWithRoom(cfg: Config, d: Det, e: Det, p: Packet, victim: Option<Ip>, forgotten: Option<Ip>, verdict: Verdict)
    requires cfg.WeightsFit() && AllValid(d.clients) && HasRoom(cfg, d, p)
    requires L7Detector.Handled(cfg, d.clients, e.clients, d.offenders, e.offenders, p.ip, p.ev, p.now, victim, forgotten, verdict)
    ensures victim == None && forgotten == None && e == Handle(cfg, d, p) && verdict == VerdictOn(cfg, d, p)
  {
    hide Next, Bans;
    var shard := InShard(d.clients, ShardNo(p.ip));
    assert Ages(shard).Keys == shard.Keys;
    assert OffenderAges(d.offenders).Keys == d.offenders.Keys;
    assert d.offenders == map[] ==> OffenderAges(d.offenders) == map[];
  }

  ghost predicate RunHasRoom(cfg: Config, d: Det, packets: seq<Packet>)
    requires cfg.WeightsFit() && AllValid(d.clients)
    decreases |packets|
  {
    packets == [] || (HasRoom(cfg, d, packets[0]) && RunHasRoom(cfg, Handle(cfg, d, packets[0]), packets[1..]))
  }

  /** The verdicts of a run, each with the source it is about. */
  function Verdicts(cfg: Config, d: Det, packets: seq<Packet>): seq<(Ip, Verdict)>
    requires cfg.WeightsFit() && AllValid(d.clients)
    decreases |packets|
  {
    if packets == [] then [] else
      [(packets[0].ip, VerdictOn(cfg, d, packets[0]))] + Verdicts(cfg, Handle(cfg, d, packets[0]), packets[1..])
  }

  function From(ip: Ip): Packet -> bool {
    (p: Packet) => p.ip == ip
  }

  function About(ip: Ip): ((Ip, Verdict)) -> bool {
    (v: (Ip, Verdict)) => v.0 == ip
  }

  /** Two detectors remember the same of one source, and the second knows no other. */
  ghost predicate SameOf(d: Det, e: Det, ip: Ip) {
    && Get(d.clients, ip) == Get(e.clients, ip) && Get(d.offenders, ip) == Get(e.offenders, ip)
    && e.clients.Keys <= {ip} && e.offenders.Keys <= {ip}
  }

  lemma AloneHasRoom(cfg: Config, d: Det, e: Det, p: Packet)
    requires cfg.WeightsFit() && AllValid(d.clients) && AllValid(e.clients) && SameOf(d, e, p.ip)
    ensures HasRoom(cfg, e, p) && VerdictOn(cfg, d, p) == VerdictOn(cfg, e, p)
    ensures SameOf(Handle(cfg, d, p), Handle(cfg, e, p), p.ip)
  {
    hide Next, Bans;
    var shard := InShard(e.clients, ShardNo(p.ip));
    if p.ip !in e.clients {
      assert e.clients.Keys == {};
      assert shard == map[];
    }
    if p.ip !in e.offenders {
      assert e.offenders.Keys == {};
      assert e.offenders == map[];
    }
  }

  lemma OthersDoNotMatter(cfg: Config, d: Det, e: Det, p: Packet, ip: Ip)
    requires cfg.WeightsFit() && AllValid(d.clients) && SameOf(d, e, ip) && p.ip != ip
    ensures SameOf(Handle(cfg, d, p), e, ip)
  {
    hide Next, Bans;
  }

  lemma {:induction false} IndependentFrom(cfg: Config, d: Det, e: Det, packets: seq<Packet>, ip: Ip)
    requires cfg.WeightsFit() && AllValid(d.clients) && AllValid(e.clients) && SameOf(d, e, ip)
    ensures RunHasRoom(cfg, e, Filter(packets, From(ip)))
    ensures Filter(Verdicts(cfg, d, packets), About(ip)) == Verdicts(cfg, e, Filter(packets, From(ip)))
    decreases |packets|
  {
    hide Next, Bans, HasRoom;
    if packets != [] {
      var p, rest := packets[0], packets[1..];
      var d' := Handle(cfg, d, p);
      assert packets == [p] + rest;
      FilterCons(p, rest, From(ip));
      FilterCons((p.ip, VerdictOn(cfg, d, p)), Verdicts(cfg, d', rest), About(ip));
      if p.ip == ip {
        AloneHasRoom(cfg, d, e, p);
        IndependentFrom(cfg, d', Handle(cfg, e, p), rest, ip);
        assert ([p] + Filter(rest, From(ip)))[1..] == Filter(rest, From(ip));
      } else {
        OthersDoNotMatter(cfg, d, e, p, ip);
        IndependentFrom(cfg, d', e, rest, ip);
      }
    }
  }

  /** The verdicts a source gets in a crowd are those of a fresh detector fed only its packets, and
      that detector never has to evict anyone. */
  lemma {:induction false} SourcesIndependent(cfg: Config, packets: seq<Packet>, ip: Ip)
    requires cfg.WeightsFit() && RunHasRoom(cfg, FRESH, packets)
    ensures RunHasRoom(cfg, FRESH, Filter(packets, From(ip)))
    ensures Filter(Verdicts(cfg, FRESH, packets), About(ip)) == Verdicts(cfg, FRESH, Filter(packets, From(ip)))
  {
    IndependentFrom(cfg, FRESH, FRESH, packets, ip);
  }
}
