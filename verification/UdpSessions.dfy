/** A client's session with the UDP handler: what it reads out of the replies, and for how long the
    connection id it was given opens the tracker to it. */
module UdpSessions {
  import opened Bytes
  import opened Core
  import opened ConnIds
  import opened PeerLists
  import opened Replies
  import opened StoreSpec
  import opened UdpWire
  import opened UdpHandlers
  import StoreFlat
  import StoreRuns
  import UdpLayout

  /** A request that carries a connection id. */
  datatype ClientRequest =
    | Announcing(a: Announce, code: u32, extension: seq<byte>)
    | Scraping(transactionId: u32, hashes: seq<InfoHash>, tail: seq<byte>)

  predicate WellFormed(r: ClientRequest) {
    match r
    case Announcing(a, code, _) => EventFromUdp(code) == a.event
    case Scraping(_, _, tail) => |tail| < HASH_LEN
  }

  /** The datagram, with the id in its first field. */
  function Carrying(id: u64, r: ClientRequest): seq<byte> {
    match r
    case Announcing(a, code, extension) => PrintAnnounce(a.(connectionId := id), code) + extension
    case Scraping(tx, hashes, tail) => PrintScrape(id, tx, hashes) + tail
  }

  /** What the client means by it. */
  function Intended(r: ClientRequest, ip: Ip, isV4: bool, now: u64): Meaning {
    match r
    case Announcing(a, _, _) => Submitted(a.transactionId, Submission(a, ip, isV4, now))
    case Scraping(tx, hashes, _) => Asked(tx, hashes[..Min(MAX_SCRAPE_HASHES, |hashes|)])
  }

  /** A well-formed request is taken for what it is meant to be exactly if its id is valid. */
  lemma IdOpens(c: ConnId, id: u64, r: ClientRequest, ip: Ip, isV4: bool, now: u64)
    requires c.Valid() && WellFormed(r)
    ensures Means(c, Carrying(id, r), ip, isV4, now) ==
            if c.Validate(id, ip, now) then Intended(r, ip, isV4, now) else Forged
  {
    hide PrintAnnounce, PrintScrape, Parse, IterHashes;
    match r
    case Announcing(a, code, extension) => AnnounceParses(a.(connectionId := id), code, extension);
    case Scraping(tx, hashes, tail) => ScrapeParses(id, tx, hashes, tail);
  }

  /** A connect datagram from `ip` at `t` was handled, and its reply is in the buffer. */
  ghost predicate Greeted(c: ConnId, s: StoreState, tx: u32, rest: seq<byte>, ip: Ip, isV4: bool, t: u64, interval: u32,
                          action: Action, was: seq<byte>, out: seq<byte>)
    requires c.windowSecs >= 1
  {
    Returned(c, s, Means(c, PrintConnect(tx) + rest, ip, isV4, t), ip, t, interval, [], action, was, out)
  }

  lemma {:induction false} IdInReply(c: ConnId, s: StoreState, tx: u32, rest: seq<byte>, ip: Ip, isV4: bool, t: u64, interval: u32,
                  action: Action, was: seq<byte>, out: seq<byte>)
    requires c.Valid() && Greeted(c, s, tx, rest, ip, isV4, t, interval, action, was, out)
    ensures action == Reply(16) && |out| == 16
    ensures Be32(out[4..8]) == tx && Be64(out[8..16]) == c.Generate(ip, t)
  {
    hide PrintConnect, Parse;
    ConnectParses(tx, rest);
    ReplySizes(tx, c.Generate(ip, t), []);
    ReplyDecodes(ConnectReply(tx, c.Generate(ip, t)));
  }

  /** The handshake: the id read out of a connect reply, put into any well-formed announce or scrape
      from the same address within the next whole window, is honoured. */
  lemma {:induction false} Handshake(c: ConnId, s: StoreState, tx: u32, rest: seq<byte>, ip: Ip, isV4: bool, t: u64, interval: u32,
                  action: Action, was: seq<byte>, out: seq<byte>, r: ClientRequest, now: u64)
    requires c.Valid() && Greeted(c, s, tx, rest, ip, isV4, t, interval, action, was, out)
    requires WellFormed(r) && t <= now <= t + c.windowSecs
    ensures |out| == 16
    ensures Means(c, Carrying(Be64(out[8..16]), r), ip, isV4, now) == Intended(r, ip, isV4, now)
  {
    hide Greeted, Carrying, Intended, Means;
    IdInReply(c, s, tx, rest, ip, isV4, t, interval, action, was, out);
    AcceptedForAWindow(c, ip, t, now);
    IdOpens(c, c.Generate(ip, t), r, ip, isV4, now);
  }

  /** How long the handshake lasts and for whom, exactly, unless the MAC collides on the windows
      checked: for the same address, until its expiry; and from then on, or from elsewhere, the
      request always is a mismatch. */
  lemma {:induction false} HandshakeLasts(c: ConnId, s: StoreState, tx: u32, rest: seq<byte>, ip: Ip, isV4: bool, t: u64, interval: u32,
                       action: Action, was: seq<byte>, out: seq<byte>, r: ClientRequest, who: Ip, whoV4: bool, now: u64)
    requires c.Valid() && Greeted(c, s, tx, rest, ip, isV4, t, interval, action, was, out)
    requires WellFormed(r) && t <= now && c.NoCollision(ip, t, who, now)
    ensures |out| == 16
    ensures Means(c, Carrying(Be64(out[8..16]), r), who, whoV4, now) ==
            if who == ip && now < Expiry(c, t) then Intended(r, who, whoV4, now) else Forged
    ensures t + c.windowSecs < Expiry(c, t) <= t + 2 * c.windowSecs
  {
    hide Greeted, Carrying, Intended, Means;
    IdInReply(c, s, tx, rest, ip, isV4, t, interval, action, was, out);
    InWindow(t, c.windowSecs, t / c.windowSecs);
    AcceptedIff(c, ip, t, who, now);
    IdOpens(c, c.Generate(ip, t), r, who, whoV4, now);
  }

  // ---------------------------------------------------------------- the fate of any datagram

  /** Too short for a header, a connect with another protocol id, an announce cut short, or an unknown
      action. */
  predicate Garbled(buf: seq<byte>) {
    || |buf| < 16
    || (Be32(buf[8..12]) == 0 && Be64(buf[0..8]) != 0x0417_2710_1980)
    || (Be32(buf[8..12]) == 1 && |buf| < 98)
    || Be32(buf[8..12]) > 2
  }

  /** Whatever the bytes: a garbled datagram is dropped; an announce or a scrape whose first field is no
      valid id for its address is a mismatch; neither writes a byte or touches the store. Any other is
      answered with its own action and transaction, and only an announce changes the store. */
  lemma {:induction false} DatagramFate(c: ConnId, s: StoreState, buf: seq<byte>, ip: Ip, isV4: bool, now: u64, interval: u32,
                                        listed: seq<Key>, action: Action, was: seq<byte>, out: seq<byte>)
    requires c.Valid() && Returned(c, s, Means(c, buf, ip, isV4, now), ip, now, interval, listed, action, was, out)
    ensures action == Drop <==> Garbled(buf)
    ensures action == ConnidMismatch <==> !Garbled(buf) && Be32(buf[8..12]) != 0 && !c.Validate(Be64(buf[0..8]), ip, now)
    ensures !action.Reply? ==> out == was && Handled(s, Means(c, buf, ip, isV4, now)) == s
    ensures action.Reply? ==> action.len == |out| >= 8 && Be32(out[0..4]) == Be32(buf[8..12]) && Be32(out[4..8]) == Be32(buf[12..16])
    ensures Handled(s, Means(c, buf, ip, isV4, now)) != s ==> Be32(buf[8..12]) == 1
  {
    hide ReplyBytes, Concat, EntriesAt, IterHashes, FromBe, Submission, c.Validate, c.Generate, StoreRuns.AnswerTo, StoreRuns.After;
    if |buf| >= 16 {
      var tx := Be32(buf[12..16]);
      UdpLayout.RefusedIff(buf);
      UdpLayout.ConnectReplyLayout(tx, c.Generate(ip, now));
      match Means(c, buf, ip, isV4, now)
      case Submitted(_, req) =>
        var counts := StoreRuns.AnswerTo(s, req).counts;
        UdpLayout.AnnounceReplyLayout(tx, interval, counts.incomplete, counts.complete, Concat(listed));
      case Asked(_, hashes) => ScrapeReplyHeader(tx, EntriesAt(s, hashes));
      case _ =>
    }
  }

  lemma ScrapeReplyHeader(tx: u32, entries: seq<Entry>)
    ensures var b := ReplyBytes(ScrapeReply(tx, entries)); |b| >= 8 && Be32(b[0..4]) == 2 && Be32(b[4..8]) == tx
  {
    hide ToBe, FromBe, ReplyHeader, EntriesBytes;
    ReplyHeaderFields(2, tx, EntriesBytes(entries));
  }

  // ---------------------------------------------------------------- reading the replies

  /** How many peers a client may have: what it asks for, if that is a number up to the cap. */
  function Entitled(requested: i32, cap: nat): nat {
    if 0 <= requested <= cap then requested else cap
  }

  /** The client reads an announce reply: transaction, interval, the two counters of the torrent over
      both families (the runtime reads the same eight bytes back), and the peers of its own family:
      distinct, exactly as many as it may have and exist, leechers first. The reply fits a packet. */
  lemma {:induction false} AnnounceReplyRead(c: ConnId, s: StoreState, a: Announce, tx: u32, ip: Ip, isV4: bool, now: u64, interval: u32,
                          listed: seq<Key>, action: Action, was: seq<byte>, out: seq<byte>)
    requires c.Valid() && ValidStore(s) && a.event != Stopped
    requires Returned(c, s, Submitted(tx, Submission(a, ip, isV4, now)), ip, now, interval, listed, action, was, out)
    ensures ReadsAs(StoreRuns.After(s, StoreRuns.Serve(Submission(a, ip, isV4, now))), a.infoHash, PeerKey(ip, isV4, a.port),
                    Entitled(a.numWant, if isV4 then 200 else 66), tx, interval, out)
    ensures PeerKey(ip, isV4, a.port) in
            PeersAt(StoreRuns.After(s, StoreRuns.Serve(Submission(a, ip, isV4, now))), a.infoHash, PeerKey(ip, isV4, a.port))
    ensures action == Reply(|out|) && 20 <= |out| <= if isV4 then 1220 else 1208
  {
    hide ReplyBytes, Decode, Concat, Records, ReadsAs, MayList, CountsAt, PeersAt, NumWant;
    var req := Submission(a, ip, isV4, now);
    var after := StoreRuns.After(s, StoreRuns.Serve(req));
    StoreFlat.StepKeepsValid(s, StoreRuns.Serve(req));
    JoinerIsListed(s, a, ip, isV4, now, listed);
    ListReplyRead(after, a.infoHash, req.key, req.numwant, tx, interval, listed);
    Bound(|listed|, req.numwant, |req.key|);
    PeerKeyReads(ip, isV4, a.port);
  }

  /** What an announce submits, and what may be listed to it. */
  lemma JoinerIsListed(s: StoreState, a: Announce, ip: Ip, isV4: bool, now: u64, listed: seq<Key>)
    requires a.event != Stopped && listed in StoreRuns.AnswerTo(s, Submission(a, ip, isV4, now)).lists
    ensures var req := Submission(a, ip, isV4, now);
            var after := StoreRuns.After(s, StoreRuns.Serve(req));
            && req.Join? && req.hash == a.infoHash && req.key == PeerKey(ip, isV4, a.port)
            && req.numwant == NumWant(a.numWant, isV4) == Entitled(a.numWant, if isV4 then 200 else 66)
            && MayList(PeersAt(after, a.infoHash, req.key), req.numwant, listed)
            && req.key in PeersAt(after, a.infoHash, req.key)
  {
  }

  /** What an announce leaves behind: the peer is resident, seen this minute and seeding exactly if
      nothing is left to fetch; the torrent has one more download exactly if the peer reports
      completion, really seeds, and had not completed in this residency before. */
  lemma AnnounceRegisters(s: StoreState, a: Announce, ip: Ip, isV4: bool, now: u64)
    requires a.event != Stopped
    ensures var key := PeerKey(ip, isV4, a.port);
            var before := PeersAt(s, a.infoHash, key);
            var after := StoreRuns.After(s, StoreRuns.Serve(Submission(a, ip, isV4, now)));
            var peers := PeersAt(after, a.infoHash, key);
            && peers.Keys == before.Keys + {key}
            && peers[key].seen == now / 60 % 0x1_0000_0000
            && (peers[key].flags.seeding <==> a.left == 0)
            && (forall k :: k in before && k != key ==> peers[k] == before[k])
            && after - {a.infoHash} == s - {a.infoHash}
            && var first := a.event == Completed && a.left == 0 && (key in before ==> !before[key].flags.completed);
            DownloadsAt(after, a.infoHash) == DownloadsAt(s, a.infoHash) + if first then 1 else 0
  {
  }

  lemma Bound(n: nat, max: nat, width: nat)
    requires n <= max
    ensures n * width <= width * max
  {
  }

  /** A reply that tells a client of the store `s` for its torrent and family. */
  ghost predicate ReadsAs(s: StoreState, hash: InfoHash, key: Key, numwant: nat, tx: u32, interval: u32, out: seq<byte>) {
    var counts, peers := CountsAt(s, hash), PeersAt(s, hash, key);
    && Decode(out).Some? && Decode(out).value.AnnounceReply?
    && var r := Decode(out).value;
    && r.transactionId == tx && r.interval == interval
    && r.leechers == counts.incomplete && r.seeders == counts.complete
    && |out| >= 20 && Be32(out[12..16]) == counts.incomplete && Be32(out[16..20]) == counts.complete
    && var keys: seq<Key> := Records(r.peers, |key|);
    && Concat(keys) == r.peers && MayList(peers, numwant, keys) && |keys| == Min(numwant, |peers|)
  }

  lemma ListReplyRead(s: StoreState, hash: InfoHash, key: Key, numwant: nat, tx: u32, interval: u32, listed: seq<Key>)
    requires ValidStore(s) && MayList(PeersAt(s, hash, key), numwant, listed)
    ensures var out := ReplyBytes(AnnounceReply(tx, interval, CountsAt(s, hash).incomplete, CountsAt(s, hash).complete, Concat(listed)));
            ReadsAs(s, hash, key, numwant, tx, interval, out) && |out| == 20 + |listed| * |key| && |listed| <= numwant
  {
    hide ReplyBytes, Decode, Concat, Records, MayList, CountsAt, PeersAt;
    var counts := CountsAt(s, hash);
    ReplyDecodes(AnnounceReply(tx, interval, counts.incomplete, counts.complete, Concat(listed)));
    ListedWidths(s, hash, key, numwant, listed);
    RecordsOfConcat(listed, [], |key|);
    assert Concat(listed) + [] == Concat(listed);
    ConcatSize(listed, |key|);
    UdpLayout.AnnounceReplyLayout(tx, interval, counts.incomplete, counts.complete, Concat(listed));
  }

  lemma ListedWidths(s: StoreState, hash: InfoHash, key: Key, numwant: nat, listed: seq<Key>)
    requires ValidStore(s) && MayList(PeersAt(s, hash, key), numwant, listed)
    ensures forall i :: 0 <= i < |listed| ==> |listed[i]| == |key|
    ensures |listed| == Min(numwant, |PeersAt(s, hash, key)|)
  {
    var p := PeersAt(s, hash, key);
    SeedsAreResident(p);
    assert Leeches(p) + Seeds(p) == p.Keys;
  }

  /** A client that says goodbye is no longer listed, and is listed nobody. */
  lemma StopReplyRead(c: ConnId, s: StoreState, a: Announce, tx: u32, ip: Ip, isV4: bool, now: u64, interval: u32,
                      listed: seq<Key>, action: Action, was: seq<byte>, out: seq<byte>)
    requires c.Valid() && a.event == Stopped
    requires Returned(c, s, Submitted(tx, Submission(a, ip, isV4, now)), ip, now, interval, listed, action, was, out)
    ensures var req := Submission(a, ip, isV4, now);
            var after := StoreRuns.After(s, StoreRuns.Serve(req));
            && Decode(out) == Some(AnnounceReply(tx, interval, CountsAt(after, a.infoHash).incomplete,
                                                 CountsAt(after, a.infoHash).complete, []))
            && req.key !in PeersAt(after, a.infoHash, req.key)
  {
    hide ReplyBytes, Decode;
    var after := StoreRuns.After(s, StoreRuns.Serve(Submission(a, ip, isV4, now)));
    ReplyDecodes(AnnounceReply(tx, interval, CountsAt(after, a.infoHash).incomplete, CountsAt(after, a.infoHash).complete, []));
  }

  /** The client reads a scrape reply: one entry per hash asked for, in order, each with the torrent's
      counters by cardinality over the flat map of peers. */
  lemma {:induction false} ScrapeReplyRead(c: ConnId, s: StoreState, f: StoreFlat.Flat, tx: u32, hashes: seq<InfoHash>,
                                           ip: Ip, now: u64, interval: u32, listed: seq<Key>, action: Action, was: seq<byte>,
                                           out: seq<byte>)
    requires c.Valid() && ValidStore(s) && StoreFlat.Same(s, f)
    requires Returned(c, s, Asked(tx, hashes), ip, now, interval, listed, action, was, out)
    ensures action == Reply(|out|) && |out| == 8 + 12 * |hashes|
    ensures Decode(out).Some? && Decode(out).value.ScrapeReply? && Decode(out).value.transactionId == tx
    ensures |Decode(out).value.entries| == |hashes|
    ensures forall i :: 0 <= i < |hashes| ==>
              var counts := StoreFlat.FlatCounts(f, hashes[i]);
              Decode(out).value.entries[i] == Entry(counts.complete, counts.downloaded, counts.incomplete)
  {
    hide ReplyBytes, Decode, StoreFlat.Same, StoreFlat.FlatCounts, CountsAt;
    ReplyDecodes(ScrapeReply(tx, EntriesAt(s, hashes)));
    ReplySizes(tx, 0, EntriesAt(s, hashes));
    forall i | 0 <= i < |hashes|
      ensures EntriesAt(s, hashes)[i] == Entry(StoreFlat.FlatCounts(f, hashes[i]).complete,
                                               StoreFlat.FlatCounts(f, hashes[i]).downloaded,
                                               StoreFlat.FlatCounts(f, hashes[i]).incomplete)
    {
      StoreFlat.SameCounts(s, f, hashes[i]);
    }
  }
}
