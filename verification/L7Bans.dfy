/** When a source is banned, and how often it can be. */
module L7Bans {
  import opened Bytes
  import opened Arith
  import opened L7Spec
  import opened L7Bucket

  /** The `m`-th event (counting from one) was a ban. */
  predicate BanNo(cfg: Config, h: History, m: nat)
    requires cfg.WeightsFit()
  {
    1 <= m <= |h| && BannedAt(cfg, h[..m])
  }

  lemma NextBan(cfg: Config, h: History)
    requires cfg.WeightsFit() && h != []
    ensures BannedAt(cfg, h) <==> ScoreAt(cfg, h) >= cfg.scoreBanThreshold && Last(h).now >= TouchedAt(cfg, h).bannedUntil
    ensures StateAt(cfg, h).value.bannedUntil ==
            if BannedAt(cfg, h) then SatAdd(Last(h).now, cfg.rebanCooldown) else TouchedAt(cfg, h).bannedUntil
    ensures TouchedAt(cfg, h).bannedUntil == if |h| == 1 then 0 else StateAt(cfg, Front(h)).value.bannedUntil
  {
    if |h| == 1 {
      assert StateAt(cfg, Front(h)) == None;
    }
  }

  /** The suppression time is that of the latest ban, and no earlier ban's lies beyond it. */
  lemma {:induction false} SuppressedUntil(cfg: Config, h: History)
    requires cfg.WeightsFit() && h != []
    ensures var until := StateAt(cfg, h).value.bannedUntil;
            && (forall m: nat :: BanNo(cfg, h, m) ==> until >= SatAdd(h[m - 1].now, cfg.rebanCooldown))
            && (until == 0 || exists m: nat :: BanNo(cfg, h, m) && until == SatAdd(h[m - 1].now, cfg.rebanCooldown))
  {
    hide BannedAt, ScoreAt, TouchedAt, StateAt;
    NextBan(cfg, h);
    assert h[..|h|] == h;
    if |h| >= 2 {
      SuppressedUntil(cfg, Front(h));
      forall m | 1 <= m < |h| ensures BanNo(cfg, h, m) == BanNo(cfg, Front(h), m) && h[m - 1] == Front(h)[m - 1] {
        assert Front(h)[..m] == h[..m];
      }
    }
    if BannedAt(cfg, h) {
      assert BanNo(cfg, h, |h|);
    } else if |h| >= 2 {
      var before := StateAt(cfg, Front(h)).value.bannedUntil;
      if m: nat :| BanNo(cfg, Front(h), m) && before == SatAdd(Front(h)[m - 1].now, cfg.rebanCooldown) {
        assert BanNo(cfg, h, m);
      }
    }
  }

  /** The ban law: an event is a ban exactly when the score has reached the threshold and every
      earlier ban of this residency is at least the cooldown ago (a time past the end of the 32-bit
      clock counting as its last second). */
  lemma {:induction false} BanLaw(cfg: Config, h: History)
    requires cfg.WeightsFit() && h != []
    ensures BannedAt(cfg, h) <==>
            && ScoreAt(cfg, h) >= cfg.scoreBanThreshold
            && forall m: nat :: 1 <= m < |h| && BanNo(cfg, h, m) ==> Last(h).now >= SatAdd(h[m - 1].now, cfg.rebanCooldown)
  {
    hide BannedAt, ScoreAt, TouchedAt, StateAt;
    NextBan(cfg, h);
    if |h| >= 2 {
      SuppressedUntil(cfg, Front(h));
      forall m | 1 <= m < |h| ensures BanNo(cfg, h, m) == BanNo(cfg, Front(h), m) && h[m - 1] == Front(h)[m - 1] {
        assert Front(h)[..m] == h[..m];
      }
      var before := StateAt(cfg, Front(h)).value.bannedUntil;
      if m: nat :| BanNo(cfg, Front(h), m) && before == SatAdd(Front(h)[m - 1].now, cfg.rebanCooldown) {
        assert 1 <= m < |h| && BanNo(cfg, h, m);
      }
    }
  }

  /** The bans that fell between two times. */
  function BansBetween(cfg: Config, h: History, a: int, b: int): nat
    requires cfg.WeightsFit()
  {
    if h == [] then 0
    else BansBetween(cfg, Front(h), a, b) + if BannedAt(cfg, h) && a <= Last(h).now <= b then 1 else 0
  }

  lemma {:induction false} BansAreSpaced(cfg: Config, h: History, a: int, b: int)
    requires cfg.WeightsFit() && b < U32_MAX
    ensures var n := BansBetween(cfg, h, a, b);
            n > 0 ==> exists m: nat :: BanNo(cfg, h, m) && a <= h[m - 1].now <= b && cfg.rebanCooldown * (n - 1) <= h[m - 1].now - a
  {
    hide BannedAt;
    if h != [] {
      BansAreSpaced(cfg, Front(h), a, b);
      assert h[..|h|] == h;
      var n := BansBetween(cfg, Front(h), a, b);
      var here := BannedAt(cfg, h) && a <= Last(h).now <= b;
      if n > 0 {
        var m: nat :| BanNo(cfg, Front(h), m) && a <= Front(h)[m - 1].now <= b && cfg.rebanCooldown * (n - 1) <= Front(h)[m - 1].now - a;
        assert Front(h)[..m] == h[..m] && Front(h)[m - 1] == h[m - 1];
        assert BanNo(cfg, h, m);
        if here {
          BanLaw(cfg, h);
          assert Last(h).now >= h[m - 1].now + cfg.rebanCooldown;
          Distribute(cfg.rebanCooldown, n - 1, 1);
        }
      }
      if here {
        assert BanNo(cfg, h, |h|);
      }
    }
  }

  /** In any window of the clock there are at most (length / cooldown) + 1 bans. */
  lemma {:induction false} BanRate(cfg: Config, h: History, a: int, b: int)
    requires cfg.WeightsFit() && cfg.rebanCooldown > 0 && a <= b < U32_MAX
    ensures BansBetween(cfg, h, a, b) <= (b - a) / cfg.rebanCooldown + 1
  {
    hide BannedAt;
    BansAreSpaced(cfg, h, a, b);
    FitsBetween(cfg.rebanCooldown, BansBetween(cfg, h, a, b), b - a);
  }

  lemma {:induction false} FitsBetween(d: int, n: nat, length: int)
    requires d > 0 && length >= 0 && (n > 0 ==> d * (n - 1) <= length)
    ensures n <= length / d + 1
  {
    DivMonotone(0, length, d);
    if n > 0 {
      DivMonotone(d * (n - 1), length, d);
      DivUnique(d * (n - 1), d, n - 1, 0);
    }
  }
}
