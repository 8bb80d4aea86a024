/** The detector as a shared object: every event is two critical sections, the scoring under its
    shard's lock and, for a ban, the registering under the registry's lock, interleaved with those of
    all other events in any way, with evictions from both maps. */
module L7Runs {
  import opened Bytes
  import opened Core
  import opened Sequences
  import opened L7Spec
  import opened L7Bucket
  import opened L7Eviction
  import opened L7Slow
  import L7Detector

  datatype Entry =
    | Sighted(ip: Ip, ev: L7Event, now: u32, ban: bool)
    | Evicted(ip: Ip)
    | Tiered(ip: Ip, tier: u32)
    | Forgotten(ip: Ip)

  /** The two maps, the bans decided but not yet registered, and a log of what has happened. */
  datatype Sys = Sys(clients: map<Ip, ClientState>, offenders: map<Ip, Offender>, pending: seq<(Ip, u32)>, log: seq<Entry>)

  const START := Sys(map[], map[], [], [])

  /** Scoring an event, or registering the `which`-th pending ban; each with whom it displaces. */
  datatype Step =
    | Score(ip: Ip, ev: L7Event, now: u32, victim: Option<Ip>)
    | Register(which: nat, forgotten: Option<Ip>)

  /** A step can happen if it displaces whom the eviction rule allows, and only decided bans are
      registered. */
  ghost predicate Enabled(cfg: Config, s: Sys, step: Step) {
    match step
    case Score(ip, _, _, victim) => Evicts(Ages(InShard(s.clients, ShardNo(ip))), ip, cfg.PerShardCap(), victim)
    case Register(which, forgotten) =>
      which < |s.pending| && Evicts(OffenderAges(s.offenders), s.pending[which].0, cfg.maxOffenders, forgotten)
  }

  function Displaced(victim: Option<Ip>, clients: bool): seq<Entry> {
    if victim == None then [] else if clients then [Evicted(victim.value)] else [Forgotten(victim.value)]
  }

  ghost function After(cfg: Config, s: Sys, step: Step): (t: Sys)
    requires cfg.WeightsFit() && AllValid(s.clients)
    ensures AllValid(t.clients)
  {
    match step
    case Score(ip, ev, now, victim) =>
      var stored := Get(s.clients, ip);
      var ban := Bans(cfg, stored, ev, now);
      Sys(Without(s.clients, victim)[ip := Next(cfg, stored, ev, now)],
          s.offenders,
          if ban then s.pending + [(ip, now)] else s.pending,
          s.log + Displaced(victim, true) + [Sighted(ip, ev, now, ban)])
    case Register(which, forgotten) =>
      if which >= |s.pending| then s else
        var (ip, now) := s.pending[which];
        var o := Offended(Get(s.offenders, ip), now);
        Sys(s.clients,
            Without(s.offenders, forgotten)[ip := o],
            s.pending[..which] + s.pending[which + 1..],
            s.log + Displaced(forgotten, false) + [Tiered(ip, TierOf(cfg, o))])
  }

  /** The state after a run. */
  ghost function At(cfg: Config, steps: seq<Step>): (s: Sys)
    requires cfg.WeightsFit()
    ensures AllValid(s.clients)
  {
    if steps == [] then START else After(cfg, At(cfg, steps[..|steps| - 1]), steps[|steps| - 1])
  }

  ghost predicate IsRun(cfg: Config, steps: seq<Step>)
    requires cfg.WeightsFit()
  {
    steps == [] || (IsRun(cfg, steps[..|steps| - 1]) && Enabled(cfg, At(cfg, steps[..|steps| - 1]), steps[|steps| - 1]))
  }

  // ---------------------------------------------------------------- what the log says

  /** A source's residency: its sightings since it was last evicted. */
  function HistoryOf(log: seq<Entry>, ip: Ip): History {
    if log == [] then [] else HistoryNext(HistoryOf(log[..|log| - 1], ip), log[|log| - 1], ip)
  }

  function HistoryNext(before: History, e: Entry, ip: Ip): History {
    if e.ip != ip then before
    else if e.Sighted? then before + [Sighting(e.ev, e.now)]
    else if e.Evicted? then []
    else before
  }

  /** Bans of a source decided so far. */
  function Crossings(log: seq<Entry>, ip: Ip): nat {
    if log == [] then 0 else
      Crossings(log[..|log| - 1], ip)
      + if log[|log| - 1].Sighted? && log[|log| - 1].ip == ip && log[|log| - 1].ban then 1 else 0
  }

  /** Tiers handed out to a source, in order. */
  function TiersOf(log: seq<Entry>, ip: Ip): seq<u32> {
    if log == [] then [] else
      TiersOf(log[..|log| - 1], ip)
      + if log[|log| - 1].Tiered? && log[|log| - 1].ip == ip then [log[|log| - 1].tier] else []
  }

  /** Offences since the registry last forgot the source. */
  function OffencesOf(log: seq<Entry>, ip: Ip): nat {
    if log == [] then 0 else OffencesNext(OffencesOf(log[..|log| - 1], ip), log[|log| - 1], ip)
  }

  function OffencesNext(before: nat, e: Entry, ip: Ip): nat {
    if e.ip != ip then before else if e.Tiered? then before + 1 else if e.Forgotten? then 0 else before
  }

  function IsFor(ip: Ip): ((Ip, u32)) -> bool {
    (p: (Ip, u32)) => p.0 == ip
  }

  function PendingFor(pending: seq<(Ip, u32)>, ip: Ip): nat {
    |Filter(pending, IsFor(ip))|
  }

  lemma LogPush(log: seq<Entry>, e: Entry, ip: Ip)
    ensures HistoryOf(log + [e], ip) == HistoryNext(HistoryOf(log, ip), e, ip)
    ensures OffencesOf(log + [e], ip) == OffencesNext(OffencesOf(log, ip), e, ip)
    ensures Crossings(log + [e], ip) == Crossings(log, ip) + if e.Sighted? && e.ip == ip && e.ban then 1 else 0
    ensures TiersOf(log + [e], ip) == TiersOf(log, ip) + if e.Tiered? && e.ip == ip then [e.tier] else []
  {
    assert (log + [e])[..|log|] == log;
  }

  // ---------------------------------------------------------------- the invariant

  /** The last entry of the log is accounted for: a ban by the source's own residency, a tier by the
      offences since the registry last forgot the source. */
  ghost predicate EntryExplained(cfg: Config, log: seq<Entry>)
    requires cfg.WeightsFit() && log != []
  {
    match log[|log| - 1]
    case Sighted(ip, _, _, ban) => HistoryOf(log, ip) != [] && ban == BannedAt(cfg, HistoryOf(log, ip))
    case Tiered(ip, tier) => tier == Min(OffencesOf(log[..|log| - 1], ip), SatSub(cfg.banTiers, 1))
    case _ => true
  }

  ghost predicate LogExplained(cfg: Config, log: seq<Entry>)
    requires cfg.WeightsFit()
  {
    log == [] || (LogExplained(cfg, log[..|log| - 1]) && EntryExplained(cfg, log))
  }

  /** What is remembered of a source is a function of its residency alone. */
  ghost predicate ClientExplained(cfg: Config, s: Sys, ip: Ip)
    requires cfg.WeightsFit()
  {
    Get(s.clients, ip) == StateAt(cfg, HistoryOf(s.log, ip))
  }

  /** The registry counts the offences since it last forgot the source. */
  ghost predicate OffenderExplained(s: Sys, ip: Ip) {
    && (ip in s.offenders <==> OffencesOf(s.log, ip) > 0)
    && (ip in s.offenders ==> s.offenders[ip].offenses == Min(U32_MAX, OffencesOf(s.log, ip)))
  }

  /** No ban decision is lost or invented between the two critical sections. */
  ghost predicate BansBalance(s: Sys, ip: Ip) {
    Crossings(s.log, ip) == |TiersOf(s.log, ip)| + PendingFor(s.pending, ip)
  }

  ghost predicate Bounded(cfg: Config, s: Sys) {
    && (forall i :: 0 <= i < SHARDS ==> |InShard(s.clients, i)| <= cfg.PerShardCap())
    && |s.offenders| <= if cfg.maxOffenders == 0 then 1 else cfg.maxOffenders
  }

  lemma {:induction false} LogExplainedPush(cfg: Config, log: seq<Entry>, e: Entry)
    requires cfg.WeightsFit() && LogExplained(cfg, log) && EntryExplained(cfg, log + [e])
    ensures LogExplained(cfg, log + [e])
  {
    assert (log + [e])[..|log|] == log;
  }

  lemma DisplacedLog(cfg: Config, log: seq<Entry>, victim: Option<Ip>, clients: bool, ip: Ip)
    requires cfg.WeightsFit() && LogExplained(cfg, log)
    ensures var after := log + Displaced(victim, clients);
            && LogExplained(cfg, after)
            && Crossings(after, ip) == Crossings(log, ip) && TiersOf(after, ip) == TiersOf(log, ip)
            && HistoryOf(after, ip) == (if clients && victim == Some(ip) then [] else HistoryOf(log, ip))
            && OffencesOf(after, ip) == (if !clients && victim == Some(ip) then 0 else OffencesOf(log, ip))
  {
    hide HistoryOf, OffencesOf, Crossings, TiersOf, LogExplained;
    if victim.Some? {
      var e := if clients then Evicted(victim.value) else Forgotten(victim.value);
      LogPush(log, e, ip);
      LogExplainedPush(cfg, log, e);
    } else {
      assert log + [] == log;
    }
  }

  /** What a scoring step does to the maps and to the pending bans of a source. */
  lemma {:induction false} ScoreEffect(cfg: Config, s: Sys, ip: Ip, ev: L7Event, now: u32, victim: Option<Ip>, who: Ip)
    requires cfg.WeightsFit() && AllValid(s.clients) && Enabled(cfg, s, Score(ip, ev, now, victim))
    ensures var t, ban := After(cfg, s, Score(ip, ev, now, victim)), Bans(cfg, Get(s.clients, ip), ev, now);
            && t.log == s.log + Displaced(victim, true) + [Sighted(ip, ev, now, ban)] && t.offenders == s.offenders
            && victim != Some(ip)
            && Get(t.clients, who) == (if who == ip then Some(Next(cfg, Get(s.clients, ip), ev, now))
                                       else if victim == Some(who) then None else Get(s.clients, who))
            && PendingFor(t.pending, who) == PendingFor(s.pending, who) + if ban && ip == who then 1 else 0
  {
    hide Next, Bans, Evicts, Filter, Displaced, Ages, InShard;
    L7Detector.VictimIsResident(Ages(InShard(s.clients, ShardNo(ip))), ip, cfg.PerShardCap(), victim);
    PendingPush(s.pending, ip, now, who);
  }

  /** What it does to what the log says of a source. */
  lemma {:induction false} ScoreLogged(cfg: Config, log: seq<Entry>, victim: Option<Ip>, e: Entry, who: Ip)
    requires cfg.WeightsFit() && LogExplained(cfg, log) && e.Sighted?
    ensures var after := log + Displaced(victim, true) + [e];
            && HistoryOf(after, who) == HistoryNext(if victim == Some(who) then [] else HistoryOf(log, who), e, who)
            && OffencesOf(after, who) == OffencesOf(log, who)
            && Crossings(after, who) == Crossings(log, who) + (if e.ip == who && e.ban then 1 else 0)
            && TiersOf(after, who) == TiersOf(log, who)
            && (EntryExplained(cfg, after) ==> LogExplained(cfg, after))
            && after[|after| - 1] == e
  {
    hide HistoryOf, OffencesOf, Crossings, TiersOf, LogExplained, Displaced, EntryExplained;
    var mid := log + Displaced(victim, true);
    DisplacedLog(cfg, log, victim, true, who);
    LogPush(mid, e, who);
    assert mid + [e] == log + Displaced(victim, true) + [e];
    if EntryExplained(cfg, mid + [e]) {
      LogExplainedPush(cfg, mid, e);
    }
  }

  /** The residency that ends with an event explains the client after it and the ban decided. */
  lemma {:induction false} SightingExplained(cfg: Config, before: History, ev: L7Event, now: u32)
    requires cfg.WeightsFit()
    ensures var h := before + [Sighting(ev, now)];
            && StateAt(cfg, h) == Some(Next(cfg, StateAt(cfg, before), ev, now))
            && BannedAt(cfg, h) == Bans(cfg, StateAt(cfg, before), ev, now)
  {
    hide Next, Bans;
    var h := before + [Sighting(ev, now)];
    assert Front(h) == before && Last(h) == Sighting(ev, now);
  }

  lemma {:induction false} ScoreExplains(cfg: Config, s: Sys, ip: Ip, ev: L7Event, now: u32, victim: Option<Ip>, who: Ip)
    requires cfg.WeightsFit() && AllValid(s.clients) && Enabled(cfg, s, Score(ip, ev, now, victim))
    requires LogExplained(cfg, s.log) && ClientExplained(cfg, s, ip)
    requires ClientExplained(cfg, s, who) && OffenderExplained(s, who) && BansBalance(s, who)
    ensures var t := After(cfg, s, Score(ip, ev, now, victim));
            LogExplained(cfg, t.log) && ClientExplained(cfg, t, who) && OffenderExplained(t, who) && BansBalance(t, who)
  {
    hide Next, Bans, HistoryOf, OffencesOf, Crossings, TiersOf, Enabled, After, LogExplained, Displaced, StateAt, BannedAt, PendingFor;
    ScoreEffect(cfg, s, ip, ev, now, victim, who);
    var e := Sighted(ip, ev, now, Bans(cfg, Get(s.clients, ip), ev, now));
    ScoreLogged(cfg, s.log, victim, e, ip);
    ScoreLogged(cfg, s.log, victim, e, who);
    SightingExplained(cfg, HistoryOf(s.log, ip), ev, now);
    NothingSeen(cfg);
  }

  lemma NothingSeen(cfg: Config)
    requires cfg.WeightsFit()
    ensures StateAt(cfg, []) == None
  {
  }

  lemma PendingPush(pending: seq<(Ip, u32)>, ip: Ip, now: u32, who: Ip)
    ensures PendingFor(pending + [(ip, now)], who) == PendingFor(pending, who) + if ip == who then 1 else 0
  {
    FilterAppend(pending, [(ip, now)], IsFor(who));
  }

  /** What a registering step does to the registry and to the pending bans of a source. */
  lemma {:induction false} RegisterEffect(cfg: Config, s: Sys, which: nat, forgotten: Option<Ip>, who: Ip)
    requires cfg.WeightsFit() && AllValid(s.clients) && Enabled(cfg, s, Register(which, forgotten))
    ensures var t, ip := After(cfg, s, Register(which, forgotten)), s.pending[which].0;
            var o := Offended(Get(s.offenders, ip), s.pending[which].1);
            && t.log == s.log + Displaced(forgotten, false) + [Tiered(ip, TierOf(cfg, o))] && t.clients == s.clients
            && forgotten != Some(ip)
            && Get(t.offenders, who) == (if who == ip then Some(o) else if forgotten == Some(who) then None else Get(s.offenders, who))
            && PendingFor(s.pending, who) == PendingFor(t.pending, who) + if ip == who then 1 else 0
  {
    hide Evicts, Filter, Displaced, OffenderAges;
    L7Detector.VictimIsResident(OffenderAges(s.offenders), s.pending[which].0, cfg.maxOffenders, forgotten);
    PendingWithout(s.pending, which, who);
  }

  /** What it does to what the log says of a source. */
  lemma {:induction false} RegisterLogged(cfg: Config, log: seq<Entry>, forgotten: Option<Ip>, e: Entry, who: Ip)
    requires cfg.WeightsFit() && LogExplained(cfg, log) && e.Tiered? && forgotten != Some(e.ip)
    ensures var after := log + Displaced(forgotten, false) + [e];
            && HistoryOf(after, who) == HistoryOf(log, who)
            && OffencesOf(after, who) == (if e.ip == who then OffencesOf(log, who) + 1
                                          else if forgotten == Some(who) then 0 else OffencesOf(log, who))
            && Crossings(after, who) == Crossings(log, who)
            && TiersOf(after, who) == TiersOf(log, who) + (if e.ip == who then [e.tier] else [])
            && (e.tier == Min(OffencesOf(log, e.ip), SatSub(cfg.banTiers, 1)) ==> LogExplained(cfg, after))
  {
    hide HistoryOf, OffencesOf, Crossings, TiersOf, LogExplained, Displaced;
    var mid := log + Displaced(forgotten, false);
    DisplacedLog(cfg, log, forgotten, false, who);
    DisplacedLog(cfg, log, forgotten, false, e.ip);
    LogPush(mid, e, who);
    assert mid + [e] == log + Displaced(forgotten, false) + [e];
    assert (mid + [e])[..|mid|] == mid && (mid + [e])[|mid|] == e;
    if e.tier == Min(OffencesOf(log, e.ip), SatSub(cfg.banTiers, 1)) {
      LogExplainedPush(cfg, mid, e);
    }
  }

  lemma {:induction false} RegisterExplains(cfg: Config, s: Sys, which: nat, forgotten: Option<Ip>, who: Ip)
    requires cfg.WeightsFit() && AllValid(s.clients) && Enabled(cfg, s, Register(which, forgotten))
    requires LogExplained(cfg, s.log) && OffenderExplained(s, s.pending[which].0)
    requires ClientExplained(cfg, s, who) && OffenderExplained(s, who) && BansBalance(s, who)
    ensures var t := After(cfg, s, Register(which, forgotten));
            LogExplained(cfg, t.log) && ClientExplained(cfg, t, who) && OffenderExplained(t, who) && BansBalance(t, who)
  {
    hide StateAt, HistoryOf, OffencesOf, Crossings, TiersOf, LogExplained, Displaced, PendingFor, After;
    RegisterEffect(cfg, s, which, forgotten, who);
    var ip := s.pending[which].0;
    var o := Offended(Get(s.offenders, ip), s.pending[which].1);
    assert o.offenses == Min(U32_MAX, OffencesOf(s.log, ip) + 1);
    RegisterLogged(cfg, s.log, forgotten, Tiered(ip, TierOf(cfg, o)), who);
  }

  lemma PendingWithout(pending: seq<(Ip, u32)>, which: nat, who: Ip)
    requires which < |pending|
    ensures PendingFor(pending, who) ==
            PendingFor(pending[..which] + pending[which + 1..], who) + if pending[which].0 == who then 1 else 0
  {
    var a, x, b := pending[..which], pending[which], pending[which + 1..];
    assert pending == a + ([x] + b);
    FilterAppend(a, [x] + b, IsFor(who));
    FilterCons(x, b, IsFor(who));
    FilterAppend(a, b, IsFor(who));
  }

  lemma StepBounded(cfg: Config, s: Sys, step: Step)
    requires cfg.WeightsFit() && AllValid(s.clients) && Enabled(cfg, s, step) && Bounded(cfg, s)
    ensures Bounded(cfg, After(cfg, s, step))
  {
    match step {
      case Score(ip, ev, now, victim) =>
        var c := Next(cfg, Get(s.clients, ip), ev, now);
        L7Detector.VictimIsHere(s.clients, ip, cfg.PerShardCap(), victim);
        L7Detector.RoomWasMade(InShard(s.clients, ShardNo(ip)), ip, cfg.PerShardCap(), victim, c);
        forall j | 0 <= j < SHARDS ensures |InShard(After(cfg, s, step).clients, j)| <= cfg.PerShardCap() {
          L7Detector.ShardAfter(s.clients, ip, victim, c, j);
        }
      case Register(which, forgotten) =>
        L7Detector.RoomInRegistry(s.offenders, s.pending[which].0, cfg.maxOffenders, forgotten, s.pending[which].1);
    }
  }

  lemma NothingYet()
    ensures forall ip :: HistoryOf([], ip) == [] && OffencesOf([], ip) == 0 && Crossings([], ip) == 0 && TiersOf([], ip) == []
    ensures forall cfg: Config :: cfg.WeightsFit() ==> StateAt(cfg, []) == None
    ensures forall ip :: PendingFor([], ip) == 0
  {
  }

  /** In every run, under every interleaving and with every eviction the rule allows: each remembered
      client is what its own residency makes it; the registry counts offences; bans decided are bans
      registered plus bans pending; each ban and each tier in the log is explained; both maps stay
      within their caps. */
  lemma {:induction false} RunExplained(cfg: Config, steps: seq<Step>)
    requires cfg.WeightsFit() && IsRun(cfg, steps)
    ensures var s := At(cfg, steps);
            && LogExplained(cfg, s.log) && Bounded(cfg, s)
            && forall ip :: ClientExplained(cfg, s, ip) && OffenderExplained(s, ip) && BansBalance(s, ip)
  {
    hide HistoryOf, OffencesOf, Crossings, TiersOf, Filter, StateAt, Evicts;
    if steps == [] {
      NothingYet();
      assert forall i :: InShard(map[], i) == map[];
    } else {
      var front, step := steps[..|steps| - 1], steps[|steps| - 1];
      RunExplained(cfg, front);
      var s, t := At(cfg, front), At(cfg, steps);
      StepBounded(cfg, s, step);
      forall ip
        ensures LogExplained(cfg, t.log) && ClientExplained(cfg, t, ip) && OffenderExplained(t, ip) && BansBalance(t, ip)
      {
        if step.Score? {
          ScoreExplains(cfg, s, step.ip, step.ev, step.now, step.victim, ip);
        } else {
          RegisterExplains(cfg, s, step.which, step.forgotten, ip);
        }
      }
      assert LogExplained(cfg, t.log) by {
        var ip: Ip := seq(16, _ => 0);
        assert ClientExplained(cfg, t, ip);
      }
    }
  }

  /** One call of the detector is one scoring and, for a ban, one registering. */
  lemma HandledIsTwoSteps(cfg: Config, s: Sys, clients: map<Ip, ClientState>, offenders: map<Ip, Offender>,
                          ip: Ip, ev: L7Event, now: u32, victim: Option<Ip>, forgotten: Option<Ip>, verdict: Verdict)
    requires cfg.WeightsFit() && AllValid(s.clients) && s.pending == []
    requires L7Detector.Handled(cfg, s.clients, clients, s.offenders, offenders, ip, ev, now, victim, forgotten, verdict)
    ensures var score, register := Score(ip, ev, now, victim), Register(0, forgotten);
            var mid := After(cfg, s, score);
            && Enabled(cfg, s, score)
            && mid.clients == clients
            && (verdict.Ban? <==> mid.pending == [(ip, now)])
            && (verdict.Ban? ==> Enabled(cfg, mid, register) && After(cfg, mid, register).offenders == offenders
                                 && After(cfg, mid, register).clients == clients
                                 && After(cfg, mid, register).log[|After(cfg, mid, register).log| - 1] == Tiered(ip, verdict.tier))
            && (verdict.Allow? ==> mid.pending == [] && mid.offenders == offenders)
  {
    hide Next, Bans, Evicts;
  }

  // ---------------------------------------------------------------- what follows for every run

  lemma {:induction false} ExplainedPrefix(cfg: Config, log: seq<Entry>, n: nat)
    requires cfg.WeightsFit() && LogExplained(cfg, log) && n <= |log|
    ensures LogExplained(cfg, log[..n])
  {
    if n < |log| {
      ExplainedPrefix(cfg, log[..|log| - 1], n);
      assert log[..|log| - 1][..n] == log[..n];
    } else {
      assert log[..n] == log;
    }
  }

  /** While the registry does not forget a source, the tiers it is given are 0, 1, 2, ... up to the
      cap, in order, whatever happens to its client meanwhile. */
  lemma {:induction false} TiersEscalate(cfg: Config, log: seq<Entry>, ip: Ip)
    requires cfg.WeightsFit() && LogExplained(cfg, log)
    requires forall n :: 0 <= n < |log| ==> log[n] != Forgotten(ip)
    ensures |TiersOf(log, ip)| == OffencesOf(log, ip)
    ensures forall i :: 0 <= i < |TiersOf(log, ip)| ==> TiersOf(log, ip)[i] == Min(i, SatSub(cfg.banTiers, 1))
  {
    if log != [] {
      TiersEscalate(cfg, log[..|log| - 1], ip);
    }
  }

  /** Without forgetting, bans decided, tiers given and bans pending always balance, and the tiers are
      exactly the escalation sequence. */
  lemma {:induction false} EscalationUnderConcurrency(cfg: Config, steps: seq<Step>, ip: Ip)
    requires cfg.WeightsFit() && IsRun(cfg, steps)
    requires forall n :: 0 <= n < |At(cfg, steps).log| ==> At(cfg, steps).log[n] != Forgotten(ip)
    ensures var s := At(cfg, steps);
            var tiers := TiersOf(s.log, ip);
            && Crossings(s.log, ip) == |tiers| + PendingFor(s.pending, ip)
            && (if ip in s.offenders then s.offenders[ip].offenses else 0) == Min(U32_MAX, |tiers|)
            && forall i :: 0 <= i < |tiers| ==> tiers[i] == Min(i, SatSub(cfg.banTiers, 1))
  {
    RunExplained(cfg, steps);
    var s := At(cfg, steps);
    assert BansBalance(s, ip) && OffenderExplained(s, ip);
    TiersEscalate(cfg, s.log, ip);
  }

  /** In an explained log, a ban is accounted for by its own source's events since it was last evicted. */
  lemma {:induction false} BanInLogWitnessed(cfg: Config, log: seq<Entry>, n: nat)
    requires cfg.WeightsFit() && LogExplained(cfg, log)
    requires n < |log| && log[n].Sighted? && log[n].ban
    ensures Witnessed(cfg, HistoryOf(log[..n + 1], log[n].ip))
  {
    hide BannedAt, Suffix, HistoryOf;
    var upTo := log[..n + 1];
    ExplainedPrefix(cfg, log, n + 1);
    assert upTo[|upTo| - 1] == log[n];
    BanWitness(cfg, HistoryOf(upTo, log[n].ip));
  }

  /** Some suffix of the events weighs the threshold or more after all the decay in between. */
  ghost predicate Witnessed(cfg: Config, h: History)
    requires cfg.WeightsFit()
  {
    exists j :: 0 <= j < |h| && Suffix(cfg, h, j) >= cfg.scoreBanThreshold
  }

  /** Every ban in every run is accounted for by events of that very source, since it was last
      evicted, whose weights reach the threshold after all the decay in between. */
  lemma {:induction false} BansWitnessed(cfg: Config, steps: seq<Step>)
    requires cfg.WeightsFit() && IsRun(cfg, steps)
    ensures var log := At(cfg, steps).log;
            forall n: nat :: n < |log| && log[n].Sighted? && log[n].ban ==> Witnessed(cfg, HistoryOf(log[..n + 1], log[n].ip))
  {
    hide HistoryOf, LogExplained, At, Witnessed;
    RunExplained(cfg, steps);
    var log := At(cfg, steps).log;
    forall n: nat | n < |log| && log[n].Sighted? && log[n].ban
      ensures Witnessed(cfg, HistoryOf(log[..n + 1], log[n].ip))
    {
      BanInLogWitnessed(cfg, log, n);
    }
  }

  /** A source is honest throughout a log if its residency is, at every point. */
  ghost predicate HonestThroughout(cfg: Config, log: seq<Entry>, ip: Ip) {
    forall n :: 0 <= n <= |log| ==> Honest(cfg, HistoryOf(log[..n], ip))
  }

  lemma {:induction false} HonestLog(cfg: Config, log: seq<Entry>, ip: Ip)
    requires cfg.WeightsFit() && cfg.scoreBanThreshold >= 1 && LogExplained(cfg, log) && HonestThroughout(cfg, log, ip)
    ensures Crossings(log, ip) == 0
  {
    if log != [] {
      var front := log[..|log| - 1];
      forall n | 0 <= n <= |front| ensures Honest(cfg, HistoryOf(front[..n], ip)) {
        assert front[..n] == log[..n];
      }
      HonestLog(cfg, front, ip);
      assert log[..|log|] == log;
      if log[|log| - 1].Sighted? && log[|log| - 1].ip == ip {
        HonestNeverBanned(cfg, HistoryOf(log, ip));
      }
    }
  }

  /** An honest source is never banned, whatever any other source does, however the critical sections
      interleave and whoever is evicted. */
  lemma {:induction false} HonestInAnyCrowd(cfg: Config, steps: seq<Step>, ip: Ip)
    requires cfg.WeightsFit() && cfg.scoreBanThreshold >= 1 && IsRun(cfg, steps)
    requires HonestThroughout(cfg, At(cfg, steps).log, ip)
    ensures Crossings(At(cfg, steps).log, ip) == 0 && TiersOf(At(cfg, steps).log, ip) == []
  {
    RunExplained(cfg, steps);
    HonestLog(cfg, At(cfg, steps).log, ip);
    assert BansBalance(At(cfg, steps), ip);
  }

  // ---------------------------------------------------------------- a fresher entry can go

  /** Ten sources of one shard. */
  function Visitor(i: byte): Ip {
    seq(16, j => if j == 0 then i else 0)
  }

  /** The first of them arrive, one a second. */
  function Arrivals(n: nat): seq<Step>
    requires n <= 9
  {
    if n == 0 then [] else Arrivals(n - 1) + [Score(Visitor(n), Connected, n, None)]
  }

  function Visitors(n: nat): set<Ip>
    requires n <= 9
  {
    if n == 0 then {} else Visitors(n - 1) + {Visitor(n)}
  }

  lemma {:induction false} VisitorsAre(n: nat, k: Ip)
    requires n <= 9
    ensures k in Visitors(n) <==> 1 <= k[0] <= n && k == Visitor(k[0])
  {
    if n > 0 {
      VisitorsAre(n - 1, k);
      assert Visitor(n)[0] == n;
    }
  }

  ghost predicate Arrived(clients: map<Ip, ClientState>, n: nat)
    requires n <= 9
  {
    clients.Keys == Visitors(n) && |clients| == n && forall ip :: ip in clients ==> clients[ip].lastSeen == ip[0]
  }

  lemma AllInOneShard(clients: map<Ip, ClientState>, n: nat)
    requires n <= 9 && Arrived(clients, n)
    ensures InShard(clients, 0) == clients && |Ages(clients)| == n
  {
    hide Visitor, Visitors;
    forall ip | ip in clients ensures ShardNo(ip) == 0 {
      VisitorsAre(n, ip);
      VisitorsShard(ip[0]);
    }
    assert Ages(clients).Keys == clients.Keys;
    assert |Ages(clients).Keys| == |Ages(clients)| && |clients.Keys| == |clients|;
  }

  lemma NewKey<K, V>(m: map<K, V>, k: K, v: V)
    requires k !in m
    ensures m[k := v].Keys == m.Keys + {k} && |m[k := v]| == |m| + 1
  {
    assert m[k := v].Keys == m.Keys + {k};
    assert |m[k := v].Keys| == |m[k := v]| && |m.Keys| == |m|;
  }

  lemma NextVisitors(n: nat)
    requires 1 <= n <= 9
    ensures Visitors(n) == Visitors(n - 1) + {Visitor(n)}
  {
  }

  lemma ArrivesNext(clients: map<Ip, ClientState>, n: nat, c: ClientState)
    requires 1 <= n <= 9 && Arrived(clients, n - 1) && c.lastSeen == n
    ensures Arrived(clients[Visitor(n) := c], n)
  {
    hide Visitor, Visitors;
    var v := Visitor(n);
    VisitorsShard(n);
    VisitorsAre(n - 1, v);
    NextVisitors(n);
    NewKey(clients, v, c);
    forall ip | ip in clients[v := c] ensures clients[v := c][ip].lastSeen == ip[0] {
    }
  }

  lemma {:induction false} RunPush(cfg: Config, steps: seq<Step>, step: Step)
    requires cfg.WeightsFit() && IsRun(cfg, steps) && Enabled(cfg, At(cfg, steps), step)
    ensures IsRun(cfg, steps + [step]) && At(cfg, steps + [step]) == After(cfg, At(cfg, steps), step)
  {
    hide Enabled, After;
    assert (steps + [step])[..|steps|] == steps;
  }

  lemma {:induction false} NextArrival(cfg: Config, s: Sys, n: nat)
    requires cfg.WeightsFit() && AllValid(s.clients) && cfg.PerShardCap() == 9 && 1 <= n <= 9 && Arrived(s.clients, n - 1)
    ensures Enabled(cfg, s, Score(Visitor(n), Connected, n, None))
    ensures Arrived(After(cfg, s, Score(Visitor(n), Connected, n, None)).clients, n)
  {
    hide Next, Bans, Arrived, Visitor, Visitors, InShard, Ages;
    AllInOneShard(s.clients, n - 1);
    VisitorsShard(n);
    var stored := Get(s.clients, Visitor(n));
    SeenNow(cfg, stored, n);
    ArrivesNext(s.clients, n, Next(cfg, stored, Connected, n));
  }

  lemma VisitorsShard(i: byte)
    ensures ShardNo(Visitor(i)) == 0 && Visitor(i)[0] == i
  {
  }

  lemma {:induction false} ArrivalsRun(cfg: Config, n: nat)
    requires cfg.WeightsFit() && cfg.PerShardCap() == 9 && n <= 9
    ensures IsRun(cfg, Arrivals(n)) && Arrived(At(cfg, Arrivals(n)).clients, n)
  {
    hide Enabled, After, Visitor, Arrived;
    if n == 0 {
      NobodyYet(cfg);
    } else {
      ArrivalsRun(cfg, n - 1);
      NextArrival(cfg, At(cfg, Arrivals(n - 1)), n);
      RunPush(cfg, Arrivals(n - 1), Score(Visitor(n), Connected, n, None));
    }
  }

  lemma NobodyYet(cfg: Config)
    requires cfg.WeightsFit()
    ensures IsRun(cfg, []) && At(cfg, []) == START && Arrived(START.clients, 0)
  {
  }

  lemma SeenNow(cfg: Config, stored: Option<ClientState>, now: u32)
    requires cfg.WeightsFit() && (stored.Some? ==> stored.value.Valid())
    ensures Next(cfg, stored, Connected, now).lastSeen == now
  {
  }

  /** With nine sources in a full shard, the tenth can displace the second oldest and leave the oldest:
      a reachable case in which the least recently seen entry is not the one evicted. */
  lemma {:induction false} FresherVictim(cfg: Config)
    requires cfg.WeightsFit() && cfg.PerShardCap() == 9
    ensures IsRun(cfg, Arrivals(9))
    ensures var s, step := At(cfg, Arrivals(9)), Score(Visitor(10), Connected, 10, Some(Visitor(2)));
            && Visitor(1) in s.clients && Visitor(2) in s.clients
            && s.clients[Visitor(1)].lastSeen < s.clients[Visitor(2)].lastSeen
            && Enabled(cfg, s, step)
            && Visitor(1) in After(cfg, s, step).clients && Visitor(2) !in After(cfg, s, step).clients
  {
    hide Next, Bans, IsRun, At, Visitor, Visitors, Arrivals, InShard, Ages;
    ArrivalsRun(cfg, 9);
    var s := At(cfg, Arrivals(9));
    AllInOneShard(s.clients, 9);
    SecondOldest(s.clients);
    VisitorsShard(1);
    VisitorsShard(2);
    VisitorsShard(10);
    VisitorsAre(9, Visitor(1));
    VisitorsAre(9, Visitor(2));
    VisitorsAre(9, Visitor(10));
    assert |Ages(s.clients)| == 9 && Visitor(10) !in Ages(s.clients).Keys;
  }

  lemma SecondOldest(clients: map<Ip, ClientState>)
    requires Arrived(clients, 9)
    ensures IsVictim(Ages(clients), Visitor(2)) && Ages(clients).Keys == clients.Keys
  {
    hide IsVictim, Visitor, Visitors;
    var ages := Ages(clients);
    assert ages.Keys == clients.Keys && |ages.Keys| == |ages| && |clients.Keys| == |clients|;
    VisitorsShard(1);
    VisitorsShard(2);
    VisitorsAre(9, Visitor(1));
    VisitorsAre(9, Visitor(2));
    forall k | k in ages && k != Visitor(1) ensures ages[k] >= 2 {
      VisitorsAre(9, k);
    }
    assert NoEarlier(ages, Visitor(2)) == ages.Keys - {Visitor(1)};
    VictimIff(ages, Visitor(2));
  }
}
