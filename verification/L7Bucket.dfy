/** One source from its first sighting on: the lazily decayed score against an eager leaky bucket and
    against its closed form. Nothing here assumes that the clock is monotone. */
module L7Bucket {
  import opened Bytes
  import opened Arith
  import opened L7Spec

  datatype Sighting = Sighting(ev: L7Event, now: u32)

  type History = seq<Sighting>

  function Front(h: History): History
    requires h != []
  {
    h[..|h| - 1]
  }

  function Last(h: History): Sighting
    requires h != []
  {
    h[|h| - 1]
  }

  /** What is remembered of a source that was sighted exactly like this since it was last unknown. */
  function StateAt(cfg: Config, h: History): (c: Option<ClientState>)
    requires cfg.WeightsFit()
    ensures c.Some? <==> h != []
    ensures c.Some? ==> c.value.Valid()
  {
    if h == [] then None else Some(Next(cfg, StateAt(cfg, Front(h)), Last(h).ev, Last(h).now))
  }

  function TouchedAt(cfg: Config, h: History): (c: ClientState)
    requires cfg.WeightsFit() && h != []
    ensures c.Valid()
  {
    Touched(cfg, StateAt(cfg, Front(h)), Last(h).now)
  }

  /** What the last event of the history adds. */
  function WeightAt(cfg: Config, h: History): nat
    requires cfg.WeightsFit() && h != []
  {
    Weight(cfg, TouchedAt(cfg, h), Last(h).ev, Last(h).now)
  }

  function ScoreAt(cfg: Config, h: History): u32
    requires cfg.WeightsFit() && h != []
  {
    StateAt(cfg, h).value.score
  }

  predicate BannedAt(cfg: Config, h: History)
    requires cfg.WeightsFit() && h != []
  {
    Bans(cfg, StateAt(cfg, Front(h)), Last(h).ev, Last(h).now)
  }

  /** The latest time seen so far. */
  function Clock(h: History): u32
    requires h != []
  {
    if |h| == 1 then h[0].now else if Last(h).now > Clock(Front(h)) then Last(h).now else Clock(Front(h))
  }

  /** Whole decay intervals since the first sighting. */
  function Ticks(cfg: Config, h: History): int
    requires h != []
  {
    (Clock(h) - h[0].now) / cfg.Interval()
  }

  lemma {:induction false} ClockFromStart(h: History)
    requires h != []
    ensures Clock(h) >= h[0].now
  {
    if |h| > 1 {
      ClockFromStart(Front(h));
    }
  }

  lemma {:induction false} TicksGrow(cfg: Config, h: History)
    requires |h| >= 2
    ensures Clock(h) >= Clock(Front(h)) && Ticks(cfg, h) >= Ticks(cfg, Front(h)) >= 0
  {
    ClockFromStart(Front(h));
    DivMonotone(0, Clock(Front(h)) - h[0].now, cfg.Interval());
    DivMonotone(Clock(Front(h)) - h[0].now, Clock(h) - h[0].now, cfg.Interval());
  }

  /** The decay anchor is always on the grid of whole intervals from the first sighting. */
  lemma {:induction false} AnchorOnGrid(cfg: Config, h: History)
    requires cfg.WeightsFit() && h != []
    ensures StateAt(cfg, h).value.decayAt == GridPoint(h[0].now, Clock(h), cfg.Interval())
  {
    hide Next, Touched;
    if |h| == 1 {
      assert StateAt(cfg, Front(h)) == None;
      FirstAnchor(cfg, h[0].ev, h[0].now);
      FirstPoint(h[0].now, cfg.Interval());
    } else {
      AnchorOnGrid(cfg, Front(h));
      ClockFromStart(Front(h));
      StepsOnGrid(h[0].now, Clock(Front(h)), Last(h).now, cfg.Interval());
      AnchorStep(cfg, StateAt(cfg, Front(h)).value, Last(h).ev, Last(h).now);
    }
  }

  lemma {:induction false} StepsAreTicks(cfg: Config, h: History)
    requires cfg.WeightsFit() && |h| >= 2
    ensures DecaySteps(cfg, StateAt(cfg, Front(h)).value, Last(h).now) == Ticks(cfg, h) - Ticks(cfg, Front(h))
  {
    hide StateAt, Next, Touched;
    AnchorOnGrid(cfg, Front(h));
    ClockFromStart(Front(h));
    StepsOnGrid(h[0].now, Clock(Front(h)), Last(h).now, cfg.Interval());
  }

  function GridPoint(start: int, clock: int, d: int): int
    requires d > 0
  {
    start + d * ((clock - start) / d)
  }

  lemma FirstPoint(start: int, d: int)
    requires d > 0
    ensures GridPoint(start, start, d) == start
  {
    DivUnique(0, d, 0, 0);
  }

  lemma AnchorStep(cfg: Config, c: ClientState, ev: L7Event, now: u32)
    requires cfg.WeightsFit() && c.Valid()
    ensures Next(cfg, Some(c), ev, now).decayAt == c.decayAt + cfg.Interval() * (SatSub(now, c.decayAt) / cfg.Interval())
  {
    AnchorMoves(cfg, c, now);
  }

  lemma FirstAnchor(cfg: Config, ev: L7Event, now: u32)
    requires cfg.WeightsFit()
    ensures Touched(cfg, None, now).decayAt == now && Touched(cfg, None, now).score == 0
    ensures Next(cfg, None, ev, now).decayAt == now
  {
    assert DecaySteps(cfg, NewClient(now), now) == 0;
  }

  lemma AnchorMoves(cfg: Config, c: ClientState, now: u32)
    ensures Decayed(cfg, c, now).decayAt == c.decayAt + cfg.Interval() * DecaySteps(cfg, c, now)
  {
    DivBounds(SatSub(now, c.decayAt), cfg.Interval());
  }

  lemma {:induction false} StepsOnGrid(start: int, clock: int, now: int, d: int)
    requires d > 0 && 0 <= start <= clock && now >= 0
    ensures var anchor := GridPoint(start, clock, d);
            var later := if now > clock then now else clock;
            && anchor >= 0
            && SatSub(now, anchor) / d == (later - start) / d - (clock - start) / d
            && anchor + d * (SatSub(now, anchor) / d) == GridPoint(start, later, d)
  {
    var k := (clock - start) / d;
    var later := if now > clock then now else clock;
    DivBounds(clock - start, d);
    DivMonotone(0, clock - start, d);
    ProductNonNegative(d, k);
    if now >= start + d * k {
      DivShift(now - start, d, k);
      if now <= clock {
        DivMonotone(now - start, clock - start, d);
        DivMonotone(d * k, now - start, d);
        DivUnique(d * k, d, k, 0);
      }
    }
    Distribute(d, k, (later - start) / d - k);
  }

  /** One event: drain what the grid says, add the weight, saturate. */
  lemma {:induction false} ScoreStep(cfg: Config, h: History)
    requires cfg.WeightsFit() && h != []
    ensures |h| == 1 ==> ScoreAt(cfg, h) == WeightAt(cfg, h)
    ensures |h| >= 2 ==>
              var drained := ScoreAt(cfg, Front(h)) - cfg.decayAmount * (Ticks(cfg, h) - Ticks(cfg, Front(h)));
              ScoreAt(cfg, h) == Min(U32_MAX, (if drained > 0 then drained else 0) + WeightAt(cfg, h))
  {
    hide Weight, Recorded;
    WeightFits(cfg, TouchedAt(cfg, h), Last(h).ev, Last(h).now);
    assert ScoreAt(cfg, h) == SatAdd(TouchedAt(cfg, h).score, WeightAt(cfg, h));
    if |h| == 1 {
      FirstAnchor(cfg, h[0].ev, h[0].now);
    } else {
      StepsAreTicks(cfg, h);
      DrainedScore(cfg, StateAt(cfg, Front(h)).value, Last(h).now);
    }
  }

  lemma DrainedScore(cfg: Config, c: ClientState, now: u32)
    ensures Decayed(cfg, c, now).score == SatSub(c.score, cfg.decayAmount * DecaySteps(cfg, c, now))
  {
    var steps := DecaySteps(cfg, c, now);
    assert steps * cfg.decayAmount == cfg.decayAmount * steps;
  }

  // ---------------------------------------------------------------- the eager bucket

  /** A bucket that leaks once at every boundary, second by second, until `until`. */
  function Leak(score: nat, start: int, d: int, amount: nat, since: int, until: int): nat
    requires d > 0
    decreases until - since
  {
    if until <= since then score
    else
      var before := Leak(score, start, d, amount, since, until - 1);
      if (until - start) % d == 0 then SatSub(before, amount) else before
  }

  /** The score of such a bucket: it leaks the decay amount at every whole interval after the first
      sighting, a zero interval counting as a second, and holds 32 bits at most. */
  function EagerScore(cfg: Config, h: History): nat
    requires cfg.WeightsFit() && h != []
  {
    if |h| == 1 then WeightAt(cfg, h)
    else
      var interval := if cfg.decayInterval == 0 then 1 else cfg.decayInterval as int;
      Min(0xFFFF_FFFF, Leak(EagerScore(cfg, Front(h)), h[0].now, interval, cfg.decayAmount, Clock(Front(h)), Clock(h))
                       + WeightAt(cfg, h))
  }

  lemma {:induction false} LeakTotal(score: nat, start: int, d: int, amount: nat, since: int, until: int)
    requires d > 0 && since <= until
    ensures var k := (until - start) / d - (since - start) / d;
            k >= 0 && amount * k >= 0 && Leak(score, start, d, amount, since, until) == SatSub(score, amount * k)
    decreases until - since
  {
    if since < until {
      LeakTotal(score, start, d, amount, since, until - 1);
      var k, k' := (until - 1 - start) / d - (since - start) / d, (until - start) / d - (since - start) / d;
      Boundary(until - start, d);
      Distribute(amount, k, k' - k);
      ProductNonNegative(amount, k');
    }
  }

  lemma {:induction false} Boundary(x: int, d: int)
    requires d > 0
    ensures x / d == (x - 1) / d + if x % d == 0 then 1 else 0
  {
    var q, r := (x - 1) / d, (x - 1) % d;
    if r == d - 1 {
      Distribute(d, q, 1);
      DivUnique(x, d, q + 1, 0);
    } else {
      DivUnique(x, d, q, r + 1);
    }
  }

  lemma {:induction false} LeakBetween(cfg: Config, h: History, score: nat)
    requires |h| >= 2
    ensures var drained := cfg.decayAmount * (Ticks(cfg, h) - Ticks(cfg, Front(h)));
            && drained >= 0
            && Leak(score, h[0].now, cfg.Interval(), cfg.decayAmount, Clock(Front(h)), Clock(h)) == SatSub(score, drained)
  {
    hide Clock, Leak;
    TicksGrow(cfg, h);
    LeakTotal(score, h[0].now, cfg.Interval(), cfg.decayAmount, Clock(Front(h)), Clock(h));
  }

  /** Decaying lazily, whenever the source happens to be seen, is leaking eagerly, every second. */
  lemma {:induction false} LazyIsEager(cfg: Config, h: History)
    requires cfg.WeightsFit() && h != []
    ensures ScoreAt(cfg, h) == EagerScore(cfg, h)
  {
    hide WeightAt, ScoreAt, Clock, Leak, Ticks;
    ScoreStep(cfg, h);
    if |h| >= 2 {
      LazyIsEager(cfg, Front(h));
      LeakBetween(cfg, h, ScoreAt(cfg, Front(h)));
    }
  }

  // ---------------------------------------------------------------- the closed form

  /** The weights of the events from the `j`-th on. */
  function WeightSum(cfg: Config, h: History, j: nat): nat
    requires cfg.WeightsFit()
  {
    if |h| <= j then 0 else WeightSum(cfg, Front(h), j) + WeightAt(cfg, h)
  }

  /** What would be left if the bucket had been empty when the `j`-th event came. */
  function Suffix(cfg: Config, h: History, j: nat): int
    requires cfg.WeightsFit() && j < |h|
  {
    WeightSum(cfg, h, j) - cfg.decayAmount * (Ticks(cfg, h) - Ticks(cfg, h[..j + 1]))
  }

  lemma {:induction false} SuffixStep(cfg: Config, h: History, j: nat)
    requires cfg.WeightsFit() && j < |h|
    ensures j == |h| - 1 ==> Suffix(cfg, h, j) == WeightAt(cfg, h)
    ensures j < |h| - 1 ==>
              Suffix(cfg, h, j) ==
              Suffix(cfg, Front(h), j) - cfg.decayAmount * (Ticks(cfg, h) - Ticks(cfg, Front(h))) + WeightAt(cfg, h)
  {
    hide WeightAt, Ticks;
    if j == |h| - 1 {
      assert h[..j + 1] == h;
    } else {
      assert Front(h)[..j + 1] == h[..j + 1];
      Telescope(cfg.decayAmount, Ticks(cfg, h), Ticks(cfg, Front(h)), Ticks(cfg, h[..j + 1]));
    }
  }

  lemma Telescope(amount: int, a: int, b: int, c: int)
    ensures amount * (a - c) == amount * (a - b) + amount * (b - c)
  {
    assert a - c == (a - b) + (b - c);
    Distribute(amount, a - b, b - c);
  }

  /** The score never exceeds what some suffix of the history accounts for. */
  lemma {:induction false} ScoreWitness(cfg: Config, h: History)
    requires cfg.WeightsFit() && h != []
    ensures exists j :: 0 <= j < |h| && ScoreAt(cfg, h) <= Suffix(cfg, h, j)
  {
    hide WeightAt, ScoreAt, Suffix, Ticks;
    ScoreStep(cfg, h);
    SuffixStep(cfg, h, |h| - 1);
    if |h| >= 2 && ScoreAt(cfg, Front(h)) - cfg.decayAmount * (Ticks(cfg, h) - Ticks(cfg, Front(h))) > 0 {
      ScoreWitness(cfg, Front(h));
      var j :| 0 <= j < |Front(h)| && ScoreAt(cfg, Front(h)) <= Suffix(cfg, Front(h), j);
      SuffixStep(cfg, h, j);
      assert ScoreAt(cfg, h) <= Suffix(cfg, h, j);
    } else {
      assert ScoreAt(cfg, h) <= Suffix(cfg, h, |h| - 1);
    }
  }

  /** The score is the largest of the suffixes. */
  ghost predicate IsPeak(cfg: Config, h: History)
    requires cfg.WeightsFit() && h != []
  {
    && (exists j :: 0 <= j < |h| && ScoreAt(cfg, h) == Suffix(cfg, h, j))
    && forall j :: 0 <= j < |h| ==> Suffix(cfg, h, j) <= ScoreAt(cfg, h)
  }

  ghost predicate SuffixesFit(cfg: Config, h: History)
    requires cfg.WeightsFit()
  {
    forall j :: 0 <= j < |h| ==> Suffix(cfg, h, j) <= U32_MAX
  }

  /** The closed form: the score is the maximum over all suffixes, at every point of the history, if
      and only if no suffix ever outgrows the 32 bits of the score. */
  lemma {:induction false} ClosedForm(cfg: Config, h: History)
    requires cfg.WeightsFit()
    ensures (forall n :: 1 <= n <= |h| ==> IsPeak(cfg, h[..n])) <==> (forall n :: 1 <= n <= |h| ==> SuffixesFit(cfg, h[..n]))
  {
    if forall n :: 1 <= n <= |h| ==> SuffixesFit(cfg, h[..n]) {
      forall n | 1 <= n <= |h| ensures IsPeak(cfg, h[..n]) {
        assert forall m :: 1 <= m <= n ==> h[..n][..m] == h[..m];
        PeakWhenFits(cfg, h[..n]);
      }
    }
    forall n | 1 <= n <= |h| && IsPeak(cfg, h[..n]) ensures SuffixesFit(cfg, h[..n]) {
    }
  }

  lemma {:induction false} PeakWhenFits(cfg: Config, h: History)
    requires cfg.WeightsFit() && h != []
    requires forall n :: 1 <= n <= |h| ==> SuffixesFit(cfg, h[..n])
    ensures IsPeak(cfg, h)
  {
    hide WeightAt, ScoreAt, Suffix, Ticks;
    assert h[..|h|] == h;
    ScoreWitness(cfg, h);
    if |h| >= 2 {
      assert forall n :: 1 <= n < |h| ==> Front(h)[..n] == h[..n];
      PeakWhenFits(cfg, Front(h));
    }
    forall j | 0 <= j < |h| ensures Suffix(cfg, h, j) <= ScoreAt(cfg, h) {
      ScoreStep(cfg, h);
      SuffixStep(cfg, h, j);
      assert Suffix(cfg, h, j) <= U32_MAX;
    }
  }

  /** Every ban is accounted for: some run of events up to it weighs, after all the decay in between,
      at least the threshold. */
  lemma BanWitness(cfg: Config, h: History)
    requires cfg.WeightsFit() && h != [] && BannedAt(cfg, h)
    ensures exists j :: 0 <= j < |h| && Suffix(cfg, h, j) >= cfg.scoreBanThreshold
  {
    ScoreWitness(cfg, h);
    var j :| 0 <= j < |h| && ScoreAt(cfg, h) <= Suffix(cfg, h, j);
    assert ScoreAt(cfg, h) >= cfg.scoreBanThreshold;
    assert Suffix(cfg, h, j) >= cfg.scoreBanThreshold;
  }
}
