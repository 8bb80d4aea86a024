/** What the fixed-size summaries of a client say about its whole history. */
module L7History {
  import opened Bytes
  import opened Core
  import opened L7Spec
  import opened L7Bucket

  /** Every announce of the history, as the ring would remember it. */
  function Announces(h: History): seq<Seen> {
    if h == [] then [] else
      Announces(Front(h))
      + match Last(h).ev
        case Announced(a) => [Seen(a.infoHash, Last(h).now, a.key, PeerFingerprint(a.peerId))]
        case _ => []
  }

  /** The seconds since the previous event of any kind. */
  function Gap(h: History): u32
    requires h != []
  {
    if |h| == 1 then U32_MAX else SatSub(Last(h).now, Last(Front(h)).now)
  }

  /** The ring holds exactly the last eight announces, each at its number modulo eight. */
  ghost predicate RingHolds(c: ClientState, all: seq<Seen>) {
    && c.Valid() && c.ringPos == |all| % RING
    && (forall m :: 0 <= m < |all| && |all| - RING <= m ==> c.ring[m % RING] == Some(all[m]))
    && (forall i :: |all| <= i < RING ==> c.ring[i] == None)
  }

  /** The length of the trailing run of fast announces into swarms with nobody else. */
  function LonelyRun(cfg: Config, h: History): nat {
    if h == [] then 0 else
      match Last(h).ev
      case Announced(a) =>
        if Gap(h) < cfg.fastAnnounceGap && a.swarmPeers <= 1 then LonelyRun(cfg, Front(h)) + 1 else 0
      case _ => LonelyRun(cfg, Front(h))
  }

  /** Connects since the last announce or scrape. */
  function UnusedConnects(h: History): nat {
    if h == [] then 0 else
      match Last(h).ev
      case Announced(_) => 0
      case Scraped(_) => 0
      case Connected => UnusedConnects(Front(h)) + 1
      case Mismatched => UnusedConnects(Front(h))
  }

  /** The torrents announced fast. */
  function FastHashes(cfg: Config, h: History): set<InfoHash> {
    if h == [] then {} else
      FastHashes(cfg, Front(h))
      + if Last(h).ev.Announced? && Gap(h) < cfg.fastAnnounceGap then {Last(h).ev.a.infoHash} else {}
  }

  /** What each event adds to what a history says. */
  lemma {:induction false} LastSays(cfg: Config, h: History)
    ensures h == [] ==> Announces(h) == [] && UnusedConnects(h) == 0 && FastHashes(cfg, h) == {} && LonelyRun(cfg, h) == 0
    ensures h != [] && Last(h).ev.Announced? ==>
              var a, fast := Last(h).ev.a, Gap(h) < cfg.fastAnnounceGap;
              && Announces(h) == Announces(Front(h)) + [Seen(a.infoHash, Last(h).now, a.key, PeerFingerprint(a.peerId))]
              && UnusedConnects(h) == 0
              && FastHashes(cfg, h) == FastHashes(cfg, Front(h)) + (if fast then {a.infoHash} else {})
              && LonelyRun(cfg, h) == if fast && a.swarmPeers <= 1 then LonelyRun(cfg, Front(h)) + 1 else 0
    ensures h != [] && Last(h).ev.Connected? ==>
              && Announces(h) == Announces(Front(h)) && UnusedConnects(h) == UnusedConnects(Front(h)) + 1
              && FastHashes(cfg, h) == FastHashes(cfg, Front(h)) && LonelyRun(cfg, h) == LonelyRun(cfg, Front(h))
  {
    hide Gap;
  }

  ghost predicate BitsOf(bits: seq<bool>, hashes: set<InfoHash>) {
    |bits| == BUCKETS && forall i :: 0 <= i < BUCKETS ==> (bits[i] <==> exists x :: x in hashes && BreadthBit(x) == i)
  }

  /** A client's summaries are those of its history. */
  ghost predicate Summarises(cfg: Config, c: ClientState, h: History)
    requires h != []
  {
    && c.lastSeen == Last(h).now
    && RingHolds(c, Announces(h))
    && c.emptySwarms == Min(U32_MAX, LonelyRun(cfg, h))
    && c.connects == Min(U32_MAX, UnusedConnects(h))
    && BitsOf(c.breadth, FastHashes(cfg, h))
  }

  /** What the last event found: the summaries of the history before it, and the gap. */
  ghost predicate FoundBefore(cfg: Config, c: ClientState, h: History)
    requires h != []
  {
    && c.lastGap == Gap(h)
    && RingHolds(c, Announces(Front(h)))
    && c.emptySwarms == Min(U32_MAX, LonelyRun(cfg, Front(h)))
    && c.connects == Min(U32_MAX, UnusedConnects(Front(h)))
    && BitsOf(c.breadth, FastHashes(cfg, Front(h)))
  }

  lemma TouchFinds(cfg: Config, h: History)
    requires cfg.WeightsFit() && h != []
    requires |h| >= 2 ==> Summarises(cfg, StateAt(cfg, Front(h)).value, Front(h))
    ensures FoundBefore(cfg, TouchedAt(cfg, h), h)
  {
    if |h| == 1 {
      assert Front(h) == [];
      assert StateAt(cfg, Front(h)) == None;
    }
  }

  lemma RingPush(c: ClientState, all: seq<Seen>, s: Seen, d: ClientState)
    requires RingHolds(c, all)
    requires d.ring == c.ring[c.ringPos := Some(s)] && d.ringPos == (c.ringPos + 1) % RING && |d.breadth| == BUCKETS
    ensures RingHolds(d, all + [s])
  {
    var n, after := |all|, all + [s];
    forall m | 0 <= m < |after| && |after| - RING <= m ensures d.ring[m % RING] == Some(after[m]) {
      if m < n {
        OtherSlot(m, n);
        assert c.ring[m % RING] == Some(all[m]);
      }
    }
    if n < RING {
      assert n % RING == n;
    }
    NextSlot(n);
  }

  /** The last seven announces before the next lie in other slots than it. */
  lemma OtherSlot(m: int, n: int)
    requires 0 <= m < n && n + 1 - RING <= m
    ensures m % RING != n % RING
  {
  }

  lemma NextSlot(n: nat)
    ensures (n % RING + 1) % RING == (n + 1) % RING
  {
  }

  lemma WidenBits(cfg: Config, c: ClientState, hashes: set<InfoHash>, x: InfoHash)
    requires BitsOf(c.breadth, hashes)
    ensures BitsOf(c.breadth[BreadthBit(x) := true], hashes + {x})
  {
    var bits := c.breadth[BreadthBit(x) := true];
    forall i | 0 <= i < BUCKETS ensures bits[i] <==> exists y :: y in hashes + {x} && BreadthBit(y) == i {
      if i == BreadthBit(x) {
        assert x in hashes + {x};
      } else if y :| y in hashes && BreadthBit(y) == i {
        assert y in hashes + {x};
      }
    }
  }

  lemma RecordSummarises(cfg: Config, h: History, c: ClientState, d: ClientState)
    requires h != [] && c.Valid() && FoundBefore(cfg, c, h)
    requires d.lastSeen == Last(h).now
    requires var r := Recorded(cfg, c, Last(h).ev, Last(h).now);
             d.ring == r.ring && d.ringPos == r.ringPos && d.emptySwarms == r.emptySwarms
             && d.connects == r.connects && d.breadth == r.breadth
    ensures Summarises(cfg, d, h)
  {
    match Last(h).ev {
      case Announced(a) =>
        RingPush(c, Announces(Front(h)), Seen(a.infoHash, Last(h).now, a.key, PeerFingerprint(a.peerId)), d);
        WidenBits(cfg, c, FastHashes(cfg, Front(h)), a.infoHash);
        assert FastHashes(cfg, Front(h)) + {} == FastHashes(cfg, Front(h));
      case _ =>
        assert Announces(Front(h)) + [] == Announces(Front(h));
        assert FastHashes(cfg, Front(h)) + {} == FastHashes(cfg, Front(h));
    }
  }

  /** The summaries agree with the full history, at every point of it. */
  lemma {:induction false} SummariesAgree(cfg: Config, h: History)
    requires cfg.WeightsFit() && h != []
    ensures Summarises(cfg, StateAt(cfg, h).value, h)
    ensures FoundBefore(cfg, TouchedAt(cfg, h), h)
  {
    if |h| >= 2 {
      SummariesAgree(cfg, Front(h));
    }
    TouchFinds(cfg, h);
    RecordedFields(cfg, h);
    RecordSummarises(cfg, h, TouchedAt(cfg, h), StateAt(cfg, h).value);
  }

  lemma RecordedFields(cfg: Config, h: History)
    requires cfg.WeightsFit() && h != []
    ensures var d := StateAt(cfg, h).value;
            var r := Recorded(cfg, TouchedAt(cfg, h), Last(h).ev, Last(h).now);
            && d.lastSeen == Last(h).now && d.ring == r.ring && d.ringPos == r.ringPos
            && d.emptySwarms == r.emptySwarms && d.connects == r.connects && d.breadth == r.breadth
  {
  }

  // ---------------------------------------------------------------- what that means for the signals

  /** Whether one of the last eight announces before this one satisfies a test. */
  ghost predicate SomeRecent(all: seq<Seen>, test: Seen -> bool) {
    exists m :: 0 <= m < |all| && |all| - RING <= m && test(all[m])
  }

  /** A slot of the ring is that of one of the last eight announces, or of none. */
  lemma SlotOf(n: nat, i: nat) returns (m: int)
    requires i < RING
    ensures i < n ==> 0 <= m < n && n - RING <= m && m % RING == i
  {
    m := n - 1 - (n - 1 - i) % RING;
  }

  lemma {:induction false} RecentInRing(c: ClientState, all: seq<Seen>, test: Seen -> bool)
    requires RingHolds(c, all)
    ensures SomeRecent(all, test) <==> exists i :: 0 <= i < RING && c.ring[i].Some? && test(c.ring[i].value)
  {
    if m :| 0 <= m < |all| && |all| - RING <= m && test(all[m]) {
      assert c.ring[m % RING] == Some(all[m]);
    }
    if i :| 0 <= i < RING && c.ring[i].Some? && test(c.ring[i].value) {
      var m := SlotOf(|all|, i);
      assert i < |all|;
      assert c.ring[m % RING] == Some(all[m]);
    }
  }

  /** The three identity signals are scans of the last eight announces. */
  lemma {:induction false} SignalsScanHistory(cfg: Config, h: History)
    requires cfg.WeightsFit() && h != [] && Last(h).ev.Announced?
    ensures var a, now, c, before := Last(h).ev.a, Last(h).now, TouchedAt(cfg, h), Announces(Front(h));
            && (TooSoon(c.ring, a.infoHash, now, cfg.reannounceMinInterval) <==>
                SomeRecent(before, (s: Seen) => s.hash == a.infoHash && SatSub(now, s.at) < cfg.reannounceMinInterval))
            && (KeyChurned(c.ring, a.infoHash, a.key) <==>
                SomeRecent(before, (s: Seen) => s.hash == a.infoHash && s.key != a.key))
            && (PeerChurned(c.ring, a.infoHash, PeerFingerprint(a.peerId)) <==>
                SomeRecent(before, (s: Seen) => s.hash == a.infoHash && s.peer != PeerFingerprint(a.peerId)))
  {
    SummariesAgree(cfg, h);
    var a, now, c, before := Last(h).ev.a, Last(h).now, TouchedAt(cfg, h), Announces(Front(h));
    RingTests(c.ring, a, now, cfg.reannounceMinInterval);
    RecentInRing(c, before, (s: Seen) => s.hash == a.infoHash && SatSub(now, s.at) < cfg.reannounceMinInterval);
    RecentInRing(c, before, (s: Seen) => s.hash == a.infoHash && s.key != a.key);
    RecentInRing(c, before, (s: Seen) => s.hash == a.infoHash && s.peer != PeerFingerprint(a.peerId));
  }

  lemma RingTests(ring: seq<Option<Seen>>, a: AnnounceInfo, now: u32, floor: u32)
    requires |ring| == RING
    ensures TooSoon(ring, a.infoHash, now, floor) <==>
            exists i :: 0 <= i < RING && ring[i].Some? && ring[i].value.hash == a.infoHash && SatSub(now, ring[i].value.at) < floor
    ensures KeyChurned(ring, a.infoHash, a.key) <==>
            exists i :: 0 <= i < RING && ring[i].Some? && ring[i].value.hash == a.infoHash && ring[i].value.key != a.key
    ensures PeerChurned(ring, a.infoHash, PeerFingerprint(a.peerId)) <==>
            exists i :: 0 <= i < RING && ring[i].Some? && ring[i].value.hash == a.infoHash
                        && ring[i].value.peer != PeerFingerprint(a.peerId)
  {
    assert forall i :: 0 <= i < RING && ring[i].Some? && ring[i].value.hash == a.infoHash ==> Remembers(ring, a.infoHash, i);
  }

  // ---------------------------------------------------------------- breadth

  lemma {:induction false} ImageSize(hashes: set<InfoHash>)
    ensures |set x | x in hashes :: BreadthBit(x)| <= |hashes|
  {
    var image := set x | x in hashes :: BreadthBit(x);
    if x :| x in hashes {
      ImageSize(hashes - {x});
      assert image == (set y | y in hashes - {x} :: BreadthBit(y)) + {BreadthBit(x)};
    }
  }

  /** The buckets that some torrents fall into. */
  function Buckets(hashes: set<InfoHash>): set<nat> {
    set x | x in hashes :: BreadthBit(x)
  }

  lemma OnesAreBuckets(bits: seq<bool>, hashes: set<InfoHash>)
    requires BitsOf(bits, hashes)
    ensures CountOnes(bits) == |Buckets(hashes)|
  {
    OnesAreASet(bits);
    assert Ones(bits) == Buckets(hashes);
  }

  /** The breadth estimate is the number of buckets of the torrents announced fast, and so never
      exceeds their number. */
  lemma BreadthUnderestimates(cfg: Config, h: History)
    requires cfg.WeightsFit() && h != []
    ensures CountOnes(StateAt(cfg, h).value.breadth) == |Buckets(FastHashes(cfg, h))| <= |FastHashes(cfg, h)|
  {
    SummariesAgree(cfg, h);
    OnesAreBuckets(StateAt(cfg, h).value.breadth, FastHashes(cfg, h));
    ImageSize(FastHashes(cfg, h));
  }
}
