/** The two front ends side by side: an announce means the same to the store whichever protocol carries
    it, a client reads the same facts out of both replies, and a refused request leaves no trace. */
module FrontEnds {
  import opened Bytes
  import opened Core
  import opened ConnIds
  import opened HttpQuery
  import opened HttpParams
  import opened PeerLists
  import opened Replies
  import opened StoreSpec
  import Bencode
  import Bodies
  import H = HttpHandlers
  import StoreEffects
  import StoreFlat
  import StoreRuns
  import U = UdpHandlers
  import UdpSessions
  import UdpWire

  // ---------------------------------------------------------------- the same announce over HTTP

  /** The pairs say what the announce says: its hash in any spelling, its numbers in decimal and its
      event by name, each in the last pair with its key, in any order and among any other pairs that
      the handler does not refuse. */
  ghost predicate SaysTheSame(pairs: seq<Pair>, a: UdpWire.Announce) {
    && (forall i :: 0 <= i < |pairs| ==> PairOk(pairs[i]))
    && !SomeBad(pairs)
    && LastRaw(pairs, Ascii("info_hash")).Some?
    && Decoded(LastRaw(pairs, Ascii("info_hash")).value) == Some(a.infoHash)
    && LastRaw(pairs, Ascii("port")) == Some(Decimal(a.port))
    && LastRaw(pairs, Ascii("left")) == Some(Decimal(a.left))
    && (a.event == Completed <==> LastRaw(pairs, Ascii("event")) == Some(Ascii("completed")))
    && (a.event == Stopped <==> LastRaw(pairs, Ascii("event")) == Some(Ascii("stopped")))
  }

  /** The clock the runtime hands to the HTTP handler: minutes, saturated where the UDP handler's cast
      wraps. */
  function HttpMinute(now: u64): u32 {
    if now / 60 <= U32_MAX then now / 60 else U32_MAX
  }

  lemma MinutesAgreeIff(now: u64)
    ensures HttpMinute(now) == ToU32(now / 60) <==> now / 60 <= U32_MAX || now / 60 % 0x1_0000_0000 == U32_MAX
  {
  }

  function AnnounceTarget(pairs: seq<Pair>): seq<byte> {
    Ascii("/announce") + [QUESTION] + QueryText(pairs)
  }

  lemma PathNames()
    ensures QUESTION !in Ascii("/announce") && Ascii("/announce") != Ascii("/")
    ensures Ascii("completed") != Ascii("stopped") && Ascii("completed") != [] && Ascii("stopped") != []
    ensures Ascii("started") != Ascii("completed") && Ascii("started") != Ascii("stopped")
  {
    assert Ascii("started")[2] == 97 && Ascii("stopped")[2] == 111;
    assert forall i :: 0 <= i < 9 ==> Ascii("/announce")[i] != QUESTION;
    assert |Ascii("completed")| == 9 && |Ascii("stopped")| == 7;
  }

  /** A request that reaches the store as `a`, from that address in that minute. */
  ghost predicate Reaches(m: H.Meaning, a: UdpWire.Announce, ip: Ip, isV4: bool, minute: u32) {
    && m.Submitted? && !m.req.Look?
    && m.req.hash == a.infoHash && m.req.key == PeerKey(ip, isV4, a.port) && m.req.now == minute
    && (m.req.Leave? <==> a.event == Stopped)
    && (m.req.Join? ==> m.req.flags == AnnounceFlags(a.left, a.event == Completed))
  }

  /** What such a target means to the HTTP handler. */
  lemma AnnounceTargetMeans(pairs: seq<Pair>, a: UdpWire.Announce, ip: Ip, isV4: bool, minute: u32)
    requires SaysTheSame(pairs, a)
    ensures Reaches(H.Means(AnnounceTarget(pairs), ip, isV4, minute), a, ip, isV4, minute)
  {
    hide Scanned, Decoded, LastRaw, LastNumwant, QueryText, SplitOnce, ParseUnsigned, QueryPairs, Decimal, Ascii;
    PathNames();
    SplitOnceAt(Ascii("/announce"), QUESTION, QueryText(pairs));
    QueryReads(pairs);
    ScanSays(pairs);
    ParseDecimal(a.port, U16_MAX);
    ParseDecimal(a.left, U64_MAX);
  }

  /** A scrape target asks for the hashes its pairs spell, seventy-five at most. */
  lemma {:induction false} ScrapeTargetMeans(pairs: seq<Pair>, hashes: seq<InfoHash>, ip: Ip, isV4: bool, minute: u32)
    requires forall i :: 0 <= i < |pairs| ==> PairOk(pairs[i])
    requires |hashes| == Min(|Mentioned(pairs)|, 75)
    requires forall i :: 0 <= i < |hashes| ==> Decoded(Mentioned(pairs)[i]) == Some(hashes[i])
    ensures H.Means(Ascii("/scrape") + [QUESTION] + QueryText(pairs), ip, isV4, minute) == H.Asked(hashes)
  {
    hide Decoded, Mentioned, QueryText, SplitOnce, QueryPairs, Wanted, Ascii;
    ScrapeName();
    SplitOnceAt(Ascii("/scrape"), QUESTION, QueryText(pairs));
    QueryReads(pairs);
    WantedIs(pairs, hashes);
  }

  lemma ScrapeName()
    ensures QUESTION !in Ascii("/scrape") && Ascii("/scrape") != Ascii("/") && Ascii("/scrape") != Ascii("/announce")
  {
    assert forall i :: 0 <= i < 7 ==> Ascii("/scrape")[i] != QUESTION;
    assert |Ascii("/scrape")| == 7 && |Ascii("/announce")| == 9 && |Ascii("/")| == 1;
  }

  /** How many peers a request wants does not matter to the store, only to the answer. */
  lemma NumwantIsHarmless(s: StoreState, a: StoreRuns.Request, b: StoreRuns.Request)
    requires !a.Look? && !b.Look? && a.hash == b.hash && a.key == b.key && a.now == b.now
    requires (a.Join? <==> b.Join?) && (a.Join? ==> a.flags == b.flags)
    ensures StoreRuns.After(s, StoreRuns.Serve(a)) == StoreRuns.After(s, StoreRuns.Serve(b))
    ensures StoreRuns.AnswerTo(s, a).counts == StoreRuns.AnswerTo(s, b).counts
  {
  }

  /** The same announce, as a UDP datagram with a valid connection id or as an HTTP target with any
      spelling of the hash, from the same address at the same time, takes any store to the same store
      and is answered with the same counters. */
  lemma {:induction false} SameEffect(c: ConnId, s: StoreState, id: u64, a: UdpWire.Announce, code: u32,
                                      extension: seq<byte>, pairs: seq<Pair>, ip: Ip, isV4: bool, now: u64)
    requires c.Valid() && c.Validate(id, ip, now) && EventFromUdp(code) == a.event
    requires SaysTheSame(pairs, a) && now / 60 <= U32_MAX
    ensures var u := U.Means(c, UdpSessions.Carrying(id, UdpSessions.Announcing(a, code, extension)), ip, isV4, now);
            var h := H.Means(AnnounceTarget(pairs), ip, isV4, HttpMinute(now));
            && u.Submitted? && h.Submitted?
            && U.Handled(s, u) == H.Handled(s, h)
            && StoreRuns.AnswerTo(s, u.req).counts == StoreRuns.AnswerTo(s, h.req).counts
  {
    hide UdpSessions.Carrying, SaysTheSame, AnnounceTarget, H.Means, U.Means, StoreRuns.After, StoreRuns.AnswerTo;
    MinutesAgreeIff(now);
    UdpSessions.IdOpens(c, id, UdpSessions.Announcing(a, code, extension), ip, isV4, now);
    AnnounceTargetMeans(pairs, a, ip, isV4, HttpMinute(now));
    NumwantIsHarmless(s, U.Submission(a, ip, isV4, now), H.Means(AnnounceTarget(pairs), ip, isV4, HttpMinute(now)).req);
  }

  // ---------------------------------------------------------------- every announce has such a target

  /** Tokens a client may use in a query value: anything but a raw `&`. */
  predicate QuerySafe(ts: seq<Token>) {
    forall i :: 0 <= i < |ts| ==> TokenOk(ts[i]) && ts[i] != Raw(AMPERSAND)
  }

  function EventName(event: Event): seq<byte> {
    match event
    case NoEvent => Ascii("started")
    case Completed => Ascii("completed")
    case Stopped => Ascii("stopped")
  }

  /** The usual four pairs, with the hash spelled as the client likes. */
  function UsualPairs(a: UdpWire.Announce, spelling: seq<Token>): seq<Pair> {
    [Pair(Ascii("info_hash"), Text(spelling)), Pair(Ascii("port"), Decimal(a.port)),
     Pair(Ascii("left"), Decimal(a.left)), Pair(Ascii("event"), EventName(a.event))]
  }

  lemma {:induction false} NoAmpersand(ts: seq<Token>)
    requires QuerySafe(ts)
    ensures AMPERSAND !in Text(ts)
  {
    if ts != [] {
      NoAmpersand(ts[1..]);
      assert TokenOk(ts[0]);
    }
  }

  lemma UsualPairsOk(a: UdpWire.Announce, spelling: seq<Token>)
    requires QuerySafe(spelling)
    ensures forall i :: 0 <= i < 4 ==> PairOk(UsualPairs(a, spelling)[i])
  {
    hide Decimal, Ascii, Text;
    NoAmpersand(spelling);
    DigitsAreSafe(a.port);
    DigitsAreSafe(a.left);
    NamesAreSafe();
  }

  lemma DigitsAreSafe(n: nat)
    ensures AMPERSAND !in Decimal(n)
  {
    hide Decimal;
    assert !IsDigit(AMPERSAND);
  }

  lemma NamesAreSafe()
    ensures forall name :: name in {Ascii("info_hash"), Ascii("port"), Ascii("left"), Ascii("event")}
                           ==> AMPERSAND !in name && EQUALS !in name
    ensures forall event :: AMPERSAND !in EventName(event)
  {
    NameBytes("info_hash");
    NameBytes("port");
    NameBytes("left");
    NameBytes("event");
    NameBytes("started");
    NameBytes("completed");
    NameBytes("stopped");
  }

  lemma NameBytes(name: string)
    requires forall i :: 0 <= i < |name| ==> name[i] != '&' && name[i] != '=' && name[i] as int < 0x80
    ensures AMPERSAND !in Ascii(name) && EQUALS !in Ascii(name)
  {
    forall i | 0 <= i < |name| ensures Ascii(name)[i] != AMPERSAND && Ascii(name)[i] != EQUALS {
      assert Ascii(name)[i] == name[i] as int;
    }
  }

  /** They say the same as the announce, for every announce and every spelling of its hash. */
  lemma UsualPairsSayTheSame(a: UdpWire.Announce, spelling: seq<Token>)
    requires QuerySafe(spelling) && Plain(spelling) == a.infoHash
    ensures SaysTheSame(UsualPairs(a, spelling), a)
  {
    hide Decimal, Decoded, Text, Plain, ParseUnsigned;
    var pairs := UsualPairs(a, spelling);
    UsualPairsOk(a, spelling);
    SpellingDecodes(spelling);
    ParseDecimal(a.port, U16_MAX);
    NamesDiffer();
    PathNames();
    assert pairs[..3][..2][..1] == pairs[..1] && pairs[..3][..2] == pairs[..2];
    UsualLast(pairs);
  }

  lemma UsualLast(pairs: seq<Pair>)
    requires |pairs| == 4
    requires pairs[0].key == Ascii("info_hash") && pairs[1].key == Ascii("port")
    requires pairs[2].key == Ascii("left") && pairs[3].key == Ascii("event")
    ensures LastRaw(pairs, Ascii("info_hash")) == Some(pairs[0].raw) && LastRaw(pairs, Ascii("port")) == Some(pairs[1].raw)
    ensures LastRaw(pairs, Ascii("left")) == Some(pairs[2].raw) && LastRaw(pairs, Ascii("event")) == Some(pairs[3].raw)
  {
    hide LastRaw;
    NamesDiffer();
    var none: seq<Pair> := [];
    assert pairs == none + [pairs[0]] + [pairs[1]] + [pairs[2]] + [pairs[3]];
    LastPush(none, pairs[0]);
    LastPush(none + [pairs[0]], pairs[1]);
    LastPush(none + [pairs[0]] + [pairs[1]], pairs[2]);
    LastPush(none + [pairs[0]] + [pairs[1]] + [pairs[2]], pairs[3]);
  }

  // ---------------------------------------------------------------- reading the HTTP replies

  /** A body that tells a client of the store `s` for its torrent and family: the counters of the
      torrent over both families, the interval and half of it, the peers of its own family, distinct
      and as many as it may have and exist, leechers first, and none of the other family. */
  ghost predicate TellsOf(s: StoreState, hash: InfoHash, key: Key, numwant: nat, interval: u32, isV4: bool, body: seq<byte>) {
    var counts, peers := CountsAt(s, hash), PeersAt(s, hash, key);
    var r := Bencode.Decode(body);
    && r.Got? && r.rest == [] && r.value.Dict? && Bodies.Canonical(r.value)
    && var d := r.value.entries;
    && Bodies.Lookup(d, Ascii("complete")) == Some(Bencode.Int(counts.complete))
    && Bodies.Lookup(d, Ascii("incomplete")) == Some(Bencode.Int(counts.incomplete))
    && Bodies.Lookup(d, Ascii("downloaded")) == Some(Bencode.Int(counts.downloaded))
    && Bodies.Lookup(d, Ascii("interval")) == Some(Bencode.Int(interval))
    && Bodies.Lookup(d, Ascii("min interval")) == Some(Bencode.Int(interval / 2))
    && Bodies.Lookup(d, if isV4 then Ascii("peers6") else Ascii("peers")) == Some(Bencode.Str([]))
    && var own := Bodies.Lookup(d, if isV4 then Ascii("peers") else Ascii("peers6"));
    && own.Some? && own.value.Str?
    && var keys: seq<Key> := Records(own.value.b, |key|);
    && Concat(keys) == own.value.b && MayList(peers, numwant, keys) && |keys| == Min(numwant, |peers|)
  }

  /** The client reads an HTTP announce reply. */
  lemma HttpAnnounceRead(s: StoreState, req: StoreRuns.Request, isV4: bool, interval: u32, listed: seq<Key>, r: H.Response)
    requires ValidStore(s) && req.Join?
    requires H.Returned(s, H.Submitted(req), isV4, interval, listed, r)
    ensures r.Body?
    ensures TellsOf(StoreRuns.After(s, StoreRuns.Serve(req)), req.hash, req.key, req.numwant, interval, isV4, r.body)
  {
    hide Bencode.Enc, TellsOf, Concat, CountsAt, PeersAt;
    var after := StoreRuns.After(s, StoreRuns.Serve(req));
    StoreFlat.StepKeepsValid(s, StoreRuns.Serve(req));
    ListBodyRead(after, req.hash, req.key, req.numwant, interval, isV4, listed);
  }

  lemma ListBodyRead(s: StoreState, hash: InfoHash, key: Key, numwant: nat, interval: u32, isV4: bool, listed: seq<Key>)
    requires ValidStore(s) && MayList(PeersAt(s, hash, key), numwant, listed)
    ensures TellsOf(s, hash, key, numwant, interval, isV4,
                    Bencode.Enc(Bodies.AnnounceBody(CountsAt(s, hash), interval, if isV4 then Concat(listed) else [],
                                                    if isV4 then [] else Concat(listed))))
  {
    hide Bencode.Enc, Bencode.Decode, Concat, Records, CountsAt, PeersAt, MayList, Bodies.Lookup, Bodies.Canonical, Bodies.AnnounceBody;
    var peers := Concat(listed);
    var body := Bencode.Enc(Bodies.AnnounceBody(CountsAt(s, hash), interval, if isV4 then peers else [], if isV4 then [] else peers));
    Bodies.AnnounceBodyRead(CountsAt(s, hash), interval, if isV4 then peers else [], if isV4 then [] else peers, []);
    assert body + [] == body;
    UdpSessions.ListedWidths(s, hash, key, numwant, listed);
    RecordsOfConcat(listed, [], |key|);
    assert peers + [] == peers;
  }

  /** The client reads an HTTP scrape reply: under every hash asked for, and honoured, the torrent's
      counters by cardinality over the flat map of peers. The dictionary of files is a canonical one
      exactly if the client asked in strictly ascending order. */
  lemma {:induction false} HttpScrapeRead(s: StoreState, f: StoreFlat.Flat, hashes: seq<InfoHash>, isV4: bool, interval: u32,
                       listed: seq<Key>, r: H.Response, i: nat)
    requires ValidStore(s) && StoreFlat.Same(s, f) && i < |hashes|
    requires H.Returned(s, H.Asked(hashes), isV4, interval, listed, r)
    ensures r.Body?
    ensures var b, files := Bencode.Decode(r.body), Bodies.FileEntries(H.FilesAt(s, hashes));
            && b == Bencode.Got(Bencode.Dict(Bencode.Entry(Ascii("files"), Bencode.Dict(files), Bencode.NoEntries)), [])
            && var file, counts := Bodies.Lookup(files, hashes[i]), StoreFlat.FlatCounts(f, hashes[i]);
            && file.Some? && file.value.Dict?
            && Bodies.Lookup(file.value.entries, Ascii("complete")) == Some(Bencode.Int(counts.complete))
            && Bodies.Lookup(file.value.entries, Ascii("downloaded")) == Some(Bencode.Int(counts.downloaded))
            && Bodies.Lookup(file.value.entries, Ascii("incomplete")) == Some(Bencode.Int(counts.incomplete))
            && (Bodies.Canonical(b.value) <==> forall j :: 0 <= j < |hashes| - 1 ==> Before(hashes[j], hashes[j + 1]))
  {
    hide Bencode.Enc, Bencode.Decode, Bodies.Lookup, Bodies.Canonical, Bodies.FileEntries, CountsAt, StoreFlat.Same,
         StoreFlat.FlatCounts, Before, Bodies.CountEntries;
    var files := H.FilesAt(s, hashes);
    CanonicalIfAscending(s, hashes);
    assert r.body + [] == r.body;
    Bodies.FileFound(files, i);
    Bodies.CountsRead(StoreFlat.FlatCounts(f, hashes[i]));
    StoreFlat.SameCounts(s, f, hashes[i]);
  }

  lemma CanonicalIfAscending(s: StoreState, hashes: seq<InfoHash>)
    ensures var body := Bodies.ScrapeBody(H.FilesAt(s, hashes));
            && Bencode.Decode(Bencode.Enc(body) + []) == Bencode.Got(body, [])
            && (Bodies.Canonical(body) <==> forall j :: 0 <= j < |hashes| - 1 ==> Before(hashes[j], hashes[j + 1]))
  {
    hide Bencode.Enc, Bencode.Decode, Bodies.Canonical, CountsAt, Before;
    var files := H.FilesAt(s, hashes);
    Bodies.ScrapeBodyRead(files, []);
    forall j | 0 <= j < |hashes| - 1
      ensures Before(files[j].hash, files[j + 1].hash) <==> Before(hashes[j], hashes[j + 1])
    {
    }
  }

  // ---------------------------------------------------------------- from the target to the reply

  /** The target's pairs can be read, none is refused, and they give a hash and a port. */
  ghost predicate IsAnnounce(pairs: seq<Pair>, hash: InfoHash, port: u16) {
    && (forall i :: 0 <= i < |pairs| ==> PairOk(pairs[i]) && !Refusable(pairs[i]))
    && LastRaw(pairs, Ascii("info_hash")).Some? && Decoded(LastRaw(pairs, Ascii("info_hash")).value) == Some(hash)
    && LastRaw(pairs, Ascii("port")).Some? && ParseUnsigned(LastRaw(pairs, Ascii("port")).value, 65535) == Some(port)
  }

  /** How many peers a query may be given: the last number it asks for, two hundred at most, or fifty. */
  function Wants(pairs: seq<Pair>): nat {
    var n := LastNumber(pairs, Ascii("numwant"));
    if n.None? then 50 else if n.value < 200 then n.value else 200
  }

  /** Whether a query says that nothing is left to fetch. */
  predicate NothingLeft(pairs: seq<Pair>) {
    var left := LastRaw(pairs, Ascii("left"));
    left.Some? && ParseUnsigned(left.value, 0xFFFF_FFFF_FFFF_FFFF) == Some(0)
  }

  lemma {:induction false} TargetScanned(pairs: seq<Pair>, hash: InfoHash, port: u16, ip: Ip, isV4: bool, minute: u32)
    requires IsAnnounce(pairs, hash, port)
    ensures var m, key := H.Means(AnnounceTarget(pairs), ip, isV4, minute), PeerKey(ip, isV4, port);
            && m.Submitted?
            && m.req == if LastRaw(pairs, Ascii("event")) == Some(Ascii("stopped")) then StoreRuns.Leave(hash, key, minute)
                        else StoreRuns.Join(hash, key,
                                            Flags(NothingLeft(pairs), LastRaw(pairs, Ascii("event")) == Some(Ascii("completed")), 0),
                                            Wants(pairs), minute)
  {
    hide Scanned, Decoded, LastRaw, LastNumber, QueryText, SplitOnce, ParseUnsigned, QueryPairs, Ascii, Refusable;
    PathNames();
    SplitOnceAt(Ascii("/announce"), QUESTION, QueryText(pairs));
    QueryReads(pairs);
    QuerySays(pairs);
  }

  /** An HTTP announce that is not a goodbye, from the target to what the client reads: the store then
      has the peer, seen this minute and seeding exactly if nothing is left, and the reply tells of
      that store, with as many peers as the query may be given. */
  lemma {:induction false} AnnounceTold(s: StoreState, pairs: seq<Pair>, hash: InfoHash, port: u16, ip: Ip, isV4: bool, minute: u32,
                                        interval: u32, listed: seq<Key>, r: H.Response)
    requires ValidStore(s) && IsAnnounce(pairs, hash, port) && LastRaw(pairs, Ascii("event")) != Some(Ascii("stopped"))
    requires H.Returned(s, H.Means(AnnounceTarget(pairs), ip, isV4, minute), isV4, interval, listed, r)
    ensures var after := H.Handled(s, H.Means(AnnounceTarget(pairs), ip, isV4, minute));
            var peer := StoreEffects.Here(after, hash, PeerKey(ip, isV4, port));
            && r.Body? && TellsOf(after, hash, PeerKey(ip, isV4, port), Wants(pairs), interval, isV4, r.body)
            && peer.Some? && peer.value.seen == minute && (peer.value.flags.seeding <==> NothingLeft(pairs))
  {
    hide H.Means, IsAnnounce, AnnounceTarget, Wants, NothingLeft, TellsOf, LastRaw, Bencode.Enc, Concat, StoreRuns.AnswerTo;
    TargetScanned(pairs, hash, port, ip, isV4, minute);
    var m := H.Means(AnnounceTarget(pairs), ip, isV4, minute);
    HttpAnnounceRead(s, m.req, isV4, interval, listed, r);
    StoreEffects.JoinEffect(s, hash, m.req.key, m.req.flags, m.req.numwant, minute, hash, m.req.key);
  }

  /** And a goodbye: the peer is gone, and nobody is listed. */
  lemma {:induction false} GoodbyeTold(s: StoreState, pairs: seq<Pair>, hash: InfoHash, port: u16, ip: Ip, isV4: bool, minute: u32,
                                       interval: u32, listed: seq<Key>, r: H.Response)
    requires IsAnnounce(pairs, hash, port) && LastRaw(pairs, Ascii("event")) == Some(Ascii("stopped"))
    requires H.Returned(s, H.Means(AnnounceTarget(pairs), ip, isV4, minute), isV4, interval, listed, r)
    ensures var after := H.Handled(s, H.Means(AnnounceTarget(pairs), ip, isV4, minute));
            && StoreEffects.Here(after, hash, PeerKey(ip, isV4, port)) == None
            && r == H.Body(Bencode.Enc(Bodies.AnnounceBody(CountsAt(after, hash), interval, [], [])))
  {
    hide H.Means, IsAnnounce, AnnounceTarget, LastRaw, Bencode.Enc;
    TargetScanned(pairs, hash, port, ip, isV4, minute);
    StoreEffects.LeaveEffect(s, hash, PeerKey(ip, isV4, port), minute, hash, PeerKey(ip, isV4, port));
  }

  /** Where the other paths lead. */
  lemma {:induction false} Routes(path: seq<byte>, query: seq<byte>, ip: Ip, isV4: bool, minute: u32)
    requires QUESTION !in path
    ensures var m := H.Means(path + Ascii("?") + query, ip, isV4, minute);
            && (path == Ascii("/") ==> m == H.Home)
            && (path !in {Ascii("/"), Ascii("/announce"), Ascii("/scrape")} ==> m == H.Elsewhere)
  {
    hide H.AnnounceMeans, H.ScrapeMeans, SplitOnce, Ascii;
    PathNames();
    ScrapeName();
    Separators();
    SplitOnceAt(path, QUESTION, query);
  }

  /** An announce is refused exactly for a pair that is, and otherwise incomplete exactly without a hash
      or without a port. */
  lemma {:induction false} AnnounceRefusedIff(pairs: seq<Pair>, ip: Ip, isV4: bool, minute: u32)
    requires forall i :: 0 <= i < |pairs| ==> PairOk(pairs[i])
    ensures var m := H.Means(Ascii("/announce") + Ascii("?") + QueryText(pairs), ip, isV4, minute);
            && (m == H.Malformed <==> SomeRefusable(pairs))
            && (m == H.Incomplete <==>
                !SomeRefusable(pairs) && (LastRaw(pairs, Ascii("info_hash")) == None || LastRaw(pairs, Ascii("port")) == None))
  {
    hide Scanned, Decoded, LastRaw, LastNumber, QueryText, SplitOnce, ParseUnsigned, QueryPairs, Ascii, Refusable;
    PathNames();
    Separators();
    SplitOnceAt(Ascii("/announce"), QUESTION, QueryText(pairs));
    QueryReads(pairs);
    QuerySays(pairs);
  }

  predicate SomeRefusable(pairs: seq<Pair>) {
    exists i :: 0 <= i < |pairs| && Refusable(pairs[i])
  }

  /** A scrape is refused exactly for a hash, among the first seventy-five, that does not decode to
      twenty bytes. */
  lemma {:induction false} ScrapeRefusedIff(pairs: seq<Pair>, ip: Ip, isV4: bool, minute: u32)
    requires forall i :: 0 <= i < |pairs| ==> PairOk(pairs[i])
    ensures H.Means(Ascii("/scrape") + Ascii("?") + QueryText(pairs), ip, isV4, minute) == H.Malformed <==> SomeNoHash(Mentioned(pairs))
  {
    hide SomeNoHash, Mentioned, QueryText, SplitOnce, QueryPairs, Wanted, Ascii;
    ScrapeName();
    Separators();
    SplitOnceAt(Ascii("/scrape"), QUESTION, QueryText(pairs));
    QueryReads(pairs);
    WantedNoneIff(pairs);
  }

  /** A path without a query is taken for one with an empty query. */
  lemma NoQuery(path: seq<byte>, ip: Ip, isV4: bool, minute: u32)
    requires QUESTION !in path
    ensures H.Means(path, ip, isV4, minute) == H.Means(path + Ascii("?"), ip, isV4, minute)
  {
    hide H.AnnounceMeans, H.ScrapeMeans, SplitOnce, Ascii;
    Separators();
    SplitOnceAt(path, QUESTION, []);
    assert path + Ascii("?") + [] == path + Ascii("?");
  }

  /** What comes back when there is nothing to serve: a redirect from the root, not found from an unknown
      path, a rejection of a refused query, and a failure that names the reason when the hash or the
      port is missing. */
  lemma {:induction false} TurnedAway(s: StoreState, path: seq<byte>, pairs: seq<Pair>, ip: Ip, isV4: bool, minute: u32,
                                      interval: u32, listed: seq<Key>, r: H.Response)
    requires QUESTION !in path && forall i :: 0 <= i < |pairs| ==> PairOk(pairs[i])
    requires H.Returned(s, H.Means(path + Ascii("?") + QueryText(pairs), ip, isV4, minute), isV4, interval, listed, r)
    ensures path == Ascii("/") ==> r == H.Redirect
    ensures path !in {Ascii("/"), Ascii("/announce"), Ascii("/scrape")} ==> r == H.NotFound
    ensures path == Ascii("/announce") && SomeRefusable(pairs) ==> r == H.BadRequest
    ensures path == Ascii("/scrape") && SomeNoHash(Mentioned(pairs)) ==> r == H.BadRequest
    ensures path == Ascii("/announce") && !SomeRefusable(pairs) ==>
              LastRaw(pairs, Ascii("info_hash")) == None || LastRaw(pairs, Ascii("port")) == None ==> TellsForgotten(r)
  {
    hide H.Means, SomeRefusable, SomeNoHash, Mentioned, LastRaw, QueryText, Ascii, Bencode.Enc, Concat, TellsForgotten, Bodies.FailureBody;
    Routes(path, QueryText(pairs), ip, isV4, minute);
    AnnounceRefusedIff(pairs, ip, isV4, minute);
    ScrapeRefusedIff(pairs, ip, isV4, minute);
    ForgottenIsTold(r);
  }

  /** A failure body that gives the source's one reason. */
  ghost predicate TellsForgotten(r: H.Response) {
    && r.Body? && Bencode.Decode(r.body).Got? && Bencode.Decode(r.body).value.Dict?
    && Bodies.Lookup(Bencode.Decode(r.body).value.entries, Ascii("failure reason"))
       == Some(Bencode.Str(Ascii("Your client forgot to send your torrent's info_hash.")))
  }

  lemma ForgottenIsTold(r: H.Response)
    ensures r == H.Body(Bencode.Enc(Bodies.FailureBody(Ascii(H.MISSING)))) ==> TellsForgotten(r)
  {
    hide Bencode.Enc, Bencode.Decode, Bodies.Lookup, Bodies.FailureBody, Bodies.Canonical, Ascii;
    Bodies.FailureBodyRead(Ascii(H.MISSING), []);
    if r.Body? {
      assert r.body + [] == r.body;
    }
  }

  /** Whether a client is told of a failure. */
  ghost predicate Refused(r: H.Response) {
    || !r.Body?
    || (Bencode.Decode(r.body).Got? && Bencode.Decode(r.body).value.Dict?
        && Bodies.Lookup(Bencode.Decode(r.body).value.entries, Ascii("failure reason")).Some?)
  }

  /** An announce that has reached the store is never reported as a failure. */
  lemma AnnouncedIsNotRefused(s: StoreState, req: StoreRuns.Request, isV4: bool, interval: u32, listed: seq<Key>, r: H.Response)
    requires H.Returned(s, H.Submitted(req), isV4, interval, listed, r)
    ensures !Refused(r)
  {
    hide Bencode.Enc, Bencode.Decode, Bodies.Lookup, Concat, StoreRuns.AnswerTo;
    var counts := StoreRuns.AnswerTo(s, req).counts;
    Bodies.AnnounceBodyRead(counts, interval, if isV4 then Concat(listed) else [], if isV4 then [] else Concat(listed), []);
    assert r.body + [] == r.body;
  }

  /** A request that is redirected, not found, rejected or told a failure reason has not touched the
      store. */
  lemma RefusedLeavesNoTrace(s: StoreState, m: H.Meaning, isV4: bool, interval: u32, listed: seq<Key>, r: H.Response)
    requires H.Returned(s, m, isV4, interval, listed, r) && Refused(r)
    ensures !m.Submitted? && H.Handled(s, m) == s
  {
    hide Refused;
    if m.Submitted? {
      AnnouncedIsNotRefused(s, m.req, isV4, interval, listed, r);
    }
  }
}
