/** The UDP tracker protocol (BEP 15) on the wire: requests are parsed out of a datagram, replies are
    written in place over a caller's buffer. A client's side of both is the reference: it prints the
    requests and decodes the replies. */
module UdpWire {
  import opened Arith
  import opened Bytes
  import opened Core
  import opened Replies

  const PROTOCOL_ID: u64 := 0x417_2710_1980
  const MIN_PACKET: nat := 16
  const ANNOUNCE_MIN: nat := 98
  const MAX_SCRAPE_HASHES: nat := 75

  datatype Announce = Announce(
    connectionId: u64, transactionId: u32, infoHash: InfoHash, peerId: PeerId, downloaded: u64, left: u64, uploaded: u64,
    event: Event, declaredIp: u32, key: u32, numWant: i32, port: u16)

  datatype Request =
    | Connect(transactionId: u32)
    | AnnounceRequest(announce: Announce)
    | Scrape(connectionId: u64, transactionId: u32, hashes: seq<byte>)

  datatype ParseError = TooShort | BadProtocolId | AnnounceTooShort | UnknownAction(action: u32)

  datatype Parsed = Ok(request: Request) | Err(error: ParseError)

  /** `as i32`: two's complement. */
  function AsI32(v: u32): i32 {
    if v < 0x8000_0000 then v else v - 0x1_0000_0000
  }

  function Parse(buf: seq<byte>): Parsed {
    if |buf| < MIN_PACKET then Err(TooShort) else
      var connectionId, action, transactionId := Be64(buf[0..8]), Be32(buf[8..12]), Be32(buf[12..16]);
      if action == 0 then
        if connectionId != PROTOCOL_ID then Err(BadProtocolId) else Ok(Connect(transactionId))
      else if action == 1 then
        if |buf| < ANNOUNCE_MIN then Err(AnnounceTooShort) else
          Ok(AnnounceRequest(Announce(
            connectionId, transactionId, buf[16..36], buf[36..56],
            Be64(buf[56..64]), Be64(buf[64..72]), Be64(buf[72..80]),
            EventFromUdp(Be32(buf[80..84])), Be32(buf[84..88]), Be32(buf[88..92]),
            AsI32(Be32(buf[92..96])), Be16(buf[96..98]))))
      else if action == 2 then
        var full := Min((|buf| - MIN_PACKET) / HASH_LEN, MAX_SCRAPE_HASHES);
        Ok(Scrape(connectionId, transactionId, buf[MIN_PACKET..MIN_PACKET + full * HASH_LEN]))
      else Err(UnknownAction(action))
  }

  /** The hashes of a parsed scrape. */
  function IterHashes(hashes: seq<byte>): seq<InfoHash> {
    Records(hashes, HASH_LEN)
  }

  // ---------------------------------------------------------------- the client prints requests

  /** Two's complement the other way. */
  function OfI32(v: i32): u32 {
    if v >= 0 then v else v + 0x1_0000_0000
  }

  function Header(connectionId: u64, action: u32, transactionId: u32): (b: seq<byte>)
    ensures |b| == MIN_PACKET
  {
    ToBe(8, connectionId) + ToBe(4, action) + ToBe(4, transactionId)
  }

  function PrintConnect(transactionId: u32): seq<byte> {
    Header(PROTOCOL_ID, 0, transactionId)
  }

  /** The statistics of an announce, offsets 56 to 98. */
  function PrintStats(a: Announce, code: u32): (b: seq<byte>)
    ensures |b| == 42
  {
    ToBe(8, a.downloaded) + ToBe(8, a.left) + ToBe(8, a.uploaded) + ToBe(4, code)
    + ToBe(4, a.declaredIp) + ToBe(4, a.key) + ToBe(4, OfI32(a.numWant)) + ToBe(2, a.port)
  }

  /** `code` is the event as the client spells it: 0 and 2 both mean none. */
  function PrintAnnounce(a: Announce, code: u32): (b: seq<byte>)
    ensures |b| == ANNOUNCE_MIN
  {
    Header(a.connectionId, 1, a.transactionId) + (a.infoHash + a.peerId) + PrintStats(a, code)
  }

  function PrintScrape(connectionId: u64, transactionId: u32, hashes: seq<InfoHash>): seq<byte> {
    Header(connectionId, 2, transactionId) + Concat(hashes)
  }

  lemma HeaderFields(connectionId: u64, action: u32, transactionId: u32, rest: seq<byte>)
    ensures var buf := Header(connectionId, action, transactionId) + rest;
            && Be64(buf[0..8]) == connectionId && Be32(buf[8..12]) == action && Be32(buf[12..16]) == transactionId
            && buf[16..] == rest
  {
    hide ToBe, FromBe;
    var buf := Header(connectionId, action, transactionId) + rest;
    BeRoundTrips(0, action, connectionId);
    BeRoundTrips(0, transactionId, 0);
    assert buf[0..8] == ToBe(8, connectionId);
    assert buf[8..12] == ToBe(4, action);
    assert buf[12..16] == ToBe(4, transactionId);
  }

  lemma StatsFields(a: Announce, code: u32)
    ensures var b := PrintStats(a, code);
            && Be64(b[0..8]) == a.downloaded && Be64(b[8..16]) == a.left && Be64(b[16..24]) == a.uploaded
            && Be32(b[24..28]) == code && Be32(b[28..32]) == a.declaredIp && Be32(b[32..36]) == a.key
            && Be32(b[36..40]) == OfI32(a.numWant) && Be16(b[40..42]) == a.port
  {
    hide ToBe, FromBe;
    var b := PrintStats(a, code);
    BeRoundTrips(a.port, code, a.downloaded);
    BeRoundTrips(0, a.declaredIp, a.left);
    BeRoundTrips(0, a.key, a.uploaded);
    BeRoundTrips(0, OfI32(a.numWant), 0);
    assert b[0..8] == ToBe(8, a.downloaded);
    assert b[8..16] == ToBe(8, a.left);
    assert b[16..24] == ToBe(8, a.uploaded);
    assert b[24..28] == ToBe(4, code);
    assert b[28..32] == ToBe(4, a.declaredIp);
    assert b[32..36] == ToBe(4, a.key);
    assert b[36..40] == ToBe(4, OfI32(a.numWant));
    assert b[40..42] == ToBe(2, a.port);
  }

  lemma ConnectParses(transactionId: u32, rest: seq<byte>)
    ensures Parse(PrintConnect(transactionId) + rest) == Ok(Connect(transactionId))
  {
    HeaderFields(PROTOCOL_ID, 0, transactionId, rest);
  }

  /** An announce is read back field by field, whatever event code the client chose for the event and
      whatever extensions follow. */
  lemma AnnounceParses(a: Announce, code: u32, rest: seq<byte>)
    requires EventFromUdp(code) == a.event
    ensures Parse(PrintAnnounce(a, code) + rest) == Ok(AnnounceRequest(a))
  {
    hide ToBe, FromBe, PrintStats;
    var buf := PrintAnnounce(a, code) + rest;
    var b := PrintStats(a, code);
    HeaderFields(a.connectionId, 1, a.transactionId, a.infoHash + a.peerId + b + rest);
    assert buf == Header(a.connectionId, 1, a.transactionId) + (a.infoHash + a.peerId + b + rest);
    StatsFields(a, code);
    assert buf[16..36] == a.infoHash && buf[36..56] == a.peerId;
    SliceOf(buf, b, 56);
    assert AsI32(OfI32(a.numWant)) == a.numWant;
  }

  /** Fields of a slice are fields of the whole. */
  lemma SliceOf(buf: seq<byte>, b: seq<byte>, at: nat)
    requires at + |b| <= |buf| && buf[at..at + |b|] == b
    ensures forall i, j :: 0 <= i <= j <= |b| ==> b[i..j] == buf[at + i..at + j]
  {
    forall i, j | 0 <= i <= j <= |b| ensures b[i..j] == buf[at + i..at + j] {
      forall k | 0 <= k < j - i ensures b[i..j][k] == buf[at + i..at + j][k] {
        assert b[i + k] == buf[at..at + |b|][i + k];
      }
    }
  }

  /** What is parsed as an announce is that announce as printed, followed by anything: no other
      ninety-eight bytes are accepted for it. */
  lemma ParsedAnnounceIff(buf: seq<byte>, a: Announce)
    ensures Parse(buf) == Ok(AnnounceRequest(a))
            <==> |buf| >= ANNOUNCE_MIN
                 && EventFromUdp(Be32(buf[80..84])) == a.event
                 && buf[..ANNOUNCE_MIN] == PrintAnnounce(a, Be32(buf[80..84]))
  {
    if |buf| >= ANNOUNCE_MIN {
      var code := Be32(buf[80..84]);
      if EventFromUdp(code) == a.event && buf[..ANNOUNCE_MIN] == PrintAnnounce(a, code) {
        assert buf == PrintAnnounce(a, code) + buf[ANNOUNCE_MIN..];
        AnnounceParses(a, code, buf[ANNOUNCE_MIN..]);
      }
      if Parse(buf) == Ok(AnnounceRequest(a)) {
        PrintOfParsed(buf, a);
      }
    }
  }

  lemma PrintOfParsed(buf: seq<byte>, a: Announce)
    requires |buf| >= ANNOUNCE_MIN && Parse(buf) == Ok(AnnounceRequest(a))
    ensures buf[..ANNOUNCE_MIN] == PrintAnnounce(a, Be32(buf[80..84]))
  {
    hide ToBe, FromBe;
    var code := Be32(buf[80..84]);
    ToFromBe(buf[0..8]);
    ToFromBe(buf[8..12]);
    ToFromBe(buf[12..16]);
    assert buf[..16] == buf[0..8] + buf[8..12] + buf[12..16];
    assert buf[16..56] == buf[16..36] + buf[36..56];
    StatsOfParsed(buf[56..64], buf[64..72], buf[72..80], buf[80..84], buf[84..88], buf[88..92], buf[92..96], buf[96..98], a, code);
    NineFields(buf);
    assert buf[..ANNOUNCE_MIN] == buf[..16] + buf[16..56] + buf[56..98];
  }

  lemma NineFields(buf: seq<byte>)
    requires |buf| >= ANNOUNCE_MIN
    ensures buf[56..98] == buf[56..64] + buf[64..72] + buf[72..80] + buf[80..84] + buf[84..88] + buf[88..92] + buf[92..96] + buf[96..98]
  {
  }

  lemma StatsOfParsed(b0: seq<byte>, b1: seq<byte>, b2: seq<byte>, b3: seq<byte>, b4: seq<byte>, b5: seq<byte>, b6: seq<byte>,
                      b7: seq<byte>, a: Announce, code: u32)
    requires |b0| == 8 && |b1| == 8 && |b2| == 8 && |b3| == 4 && |b4| == 4 && |b5| == 4 && |b6| == 4 && |b7| == 2
    requires Be64(b0) == a.downloaded && Be64(b1) == a.left && Be64(b2) == a.uploaded && Be32(b3) == code
    requires Be32(b4) == a.declaredIp && Be32(b5) == a.key && AsI32(Be32(b6)) == a.numWant && Be16(b7) == a.port
    ensures PrintStats(a, code) == b0 + b1 + b2 + b3 + b4 + b5 + b6 + b7
  {
    hide ToBe, FromBe;
    ToFromBe(b0);
    ToFromBe(b1);
    ToFromBe(b2);
    ToFromBe(b3);
    ToFromBe(b4);
    ToFromBe(b5);
    ToFromBe(b6);
    ToFromBe(b7);
    assert OfI32(AsI32(Be32(b6))) == Be32(b6);
  }

  /** Whatever a datagram with the scrape action holds, its hashes are the consecutive whole strides
      after the header, seventy-five at most. */
  lemma ScrapeStrides(buf: seq<byte>)
    requires Parse(buf).Ok? && Parse(buf).request.Scrape?
    ensures var hashes := IterHashes(Parse(buf).request.hashes);
            && |hashes| == Min(MAX_SCRAPE_HASHES, (|buf| - MIN_PACKET) / HASH_LEN)
            && forall i :: 0 <= i < |hashes| ==> hashes[i] == buf[MIN_PACKET + i * HASH_LEN..MIN_PACKET + i * HASH_LEN + HASH_LEN]
  {
    var full := Min((|buf| - MIN_PACKET) / HASH_LEN, MAX_SCRAPE_HASHES);
    var hashes := Parse(buf).request.hashes;
    RecordsAt(hashes, HASH_LEN);
    assert |hashes| == full * HASH_LEN;
    SliceOf(buf, hashes, MIN_PACKET);
    forall i | 0 <= i < full
      ensures IterHashes(hashes)[i] == buf[MIN_PACKET + i * HASH_LEN..MIN_PACKET + i * HASH_LEN + HASH_LEN]
    {
      assert hashes[i * HASH_LEN..i * HASH_LEN + HASH_LEN] ==
             buf[MIN_PACKET + i * HASH_LEN..MIN_PACKET + (i * HASH_LEN + HASH_LEN)];
    }
  }

  /** A scrape is read back hash by hash; those past the seventy-fifth, and a partial one at the end,
      are ignored. */
  lemma ScrapeParses(connectionId: u64, transactionId: u32, hashes: seq<InfoHash>, tail: seq<byte>)
    requires |tail| < HASH_LEN
    ensures var p := Parse(PrintScrape(connectionId, transactionId, hashes) + tail);
            && p.Ok? && p.request.Scrape?
            && p.request.connectionId == connectionId && p.request.transactionId == transactionId
            && IterHashes(p.request.hashes) == hashes[..Min(MAX_SCRAPE_HASHES, |hashes|)]
  {
    hide ToBe, FromBe, Concat, Records;
    var body := Concat(hashes) + tail;
    var buf := PrintScrape(connectionId, transactionId, hashes) + tail;
    assert buf == Header(connectionId, 2, transactionId) + body;
    HeaderFields(connectionId, 2, transactionId, body);
    ScrapeStrides(buf);
    ConcatSize(hashes, HASH_LEN);
    RecordsOfConcat(hashes, tail, HASH_LEN);
    RecordsAt(body, HASH_LEN);
    var found := IterHashes(Parse(buf).request.hashes);
    assert |found| == Min(MAX_SCRAPE_HASHES, |hashes|) by {
      DivUnique(|body|, HASH_LEN, |hashes|, |tail|);
    }
    forall i | 0 <= i < |found| ensures found[i] == hashes[i] {
      assert found[i] == buf[MIN_PACKET + i * HASH_LEN..MIN_PACKET + i * HASH_LEN + HASH_LEN];
      assert body[i * HASH_LEN..i * HASH_LEN + HASH_LEN] == buf[MIN_PACKET + i * HASH_LEN..MIN_PACKET + i * HASH_LEN + HASH_LEN];
    }
  }

  // ---------------------------------------------------------------- the client decodes replies

  datatype Entry = Entry(seeders: u32, downloaded: u32, leechers: u32)

  datatype Reply =
    | ConnectReply(transactionId: u32, connectionId: u64)
    | AnnounceReply(transactionId: u32, interval: u32, leechers: u32, seeders: u32, peers: seq<byte>)
    | ScrapeReply(transactionId: u32, entries: seq<Entry>)
    | ErrorReply(transactionId: u32, message: seq<byte>)

  function DecodeEntry(b: seq<byte>): Entry
    requires |b| == 12
  {
    Entry(Be32(b[0..4]), Be32(b[4..8]), Be32(b[8..12]))
  }

  function DecodeEntries(b: seq<byte>): (entries: seq<Entry>) {
    if |b| < 12 then [] else [DecodeEntry(b[..12])] + DecodeEntries(b[12..])
  }

  function Decode(b: seq<byte>): Option<Reply> {
    if |b| < 8 then None else
      var action, transactionId := Be32(b[0..4]), Be32(b[4..8]);
      if action == 0 && |b| >= 16 then Some(ConnectReply(transactionId, Be64(b[8..16])))
      else if action == 1 && |b| >= 20 then
        Some(AnnounceReply(transactionId, Be32(b[8..12]), Be32(b[12..16]), Be32(b[16..20]), b[20..]))
      else if action == 2 then Some(ScrapeReply(transactionId, DecodeEntries(b[8..])))
      else if action == 3 then Some(ErrorReply(transactionId, b[8..]))
      else None
  }

  // ---------------------------------------------------------------- the tracker writes replies

  function ReplyHeader(action: u32, transactionId: u32): (b: seq<byte>)
    ensures |b| == 8
  {
    ToBe(4, action) + ToBe(4, transactionId)
  }

  function EntryBytes(e: Entry): (b: seq<byte>)
    ensures |b| == 12
  {
    ToBe(4, e.seeders) + ToBe(4, e.downloaded) + ToBe(4, e.leechers)
  }

  function EntriesBytes(entries: seq<Entry>): (b: seq<byte>)
    ensures |b| == 12 * |entries|
  {
    if entries == [] then [] else EntriesBytes(entries[..|entries| - 1]) + EntryBytes(entries[|entries| - 1])
  }

  /** A reply's bytes. */
  function ReplyBytes(r: Reply): (b: seq<byte>)
    ensures |b| >= 8
  {
    match r
    case ConnectReply(tx, id) => ReplyHeader(0, tx) + ToBe(8, id)
    case AnnounceReply(tx, interval, leechers, seeders, peers) =>
      ReplyHeader(1, tx) + (ToBe(4, interval) + ToBe(4, leechers) + ToBe(4, seeders)) + peers
    case ScrapeReply(tx, entries) => ReplyHeader(2, tx) + EntriesBytes(entries)
    case ErrorReply(tx, message) => ReplyHeader(3, tx) + message
  }

  lemma ReplyHeaderFields(action: u32, transactionId: u32, rest: seq<byte>)
    ensures var b := ReplyHeader(action, transactionId) + rest;
            Be32(b[0..4]) == action && Be32(b[4..8]) == transactionId && b[8..] == rest
  {
    hide ToBe, FromBe;
    var b := ReplyHeader(action, transactionId) + rest;
    BeRoundTrips(0, action, 0);
    BeRoundTrips(0, transactionId, 0);
    assert b[0..4] == ToBe(4, action) && b[4..8] == ToBe(4, transactionId);
  }

  lemma ThreeFields(x: u32, y: u32, z: u32)
    ensures var b := ToBe(4, x) + ToBe(4, y) + ToBe(4, z);
            Be32(b[0..4]) == x && Be32(b[4..8]) == y && Be32(b[8..12]) == z
  {
    hide ToBe, FromBe, Be32;
    var b := ToBe(4, x) + ToBe(4, y) + ToBe(4, z);
    BeRoundTrips(0, x, 0);
    BeRoundTrips(0, y, 0);
    BeRoundTrips(0, z, 0);
    ThreeParts(ToBe(4, x), ToBe(4, y), ToBe(4, z));
  }

  lemma ThreeParts(x: seq<byte>, y: seq<byte>, z: seq<byte>)
    requires |x| == |y| == |z| == 4
    ensures (x + y + z)[0..4] == x && (x + y + z)[4..8] == y && (x + y + z)[8..12] == z
  {
  }

  lemma {:induction false} EntriesBytesCons(e: Entry, rest: seq<Entry>)
    ensures EntriesBytes([e] + rest) == EntryBytes(e) + EntriesBytes(rest)
    decreases |rest|
  {
    var all := [e] + rest;
    if rest == [] {
      assert all[..0] == [] && all[0] == e;
    } else {
      assert all[..|all| - 1] == [e] + rest[..|rest| - 1];
      EntriesBytesCons(e, rest[..|rest| - 1]);
    }
  }

  lemma {:induction false} EntriesDecode(entries: seq<Entry>)
    ensures DecodeEntries(EntriesBytes(entries)) == entries
    decreases |entries|
  {
    if entries != [] {
      var e, rest := entries[0], entries[1..];
      assert entries == [e] + rest;
      EntriesBytesCons(e, rest);
      EntriesDecode(rest);
      ThreeFields(e.seeders, e.downloaded, e.leechers);
      var b := EntriesBytes(entries);
      assert b[..12] == EntryBytes(e) && b[12..] == EntriesBytes(rest);
    }
  }

  /** A client decodes every reply to what the tracker wrote. */
  lemma ReplyDecodes(r: Reply)
    ensures Decode(ReplyBytes(r)) == Some(r)
  {
    hide ToBe, FromBe, DecodeEntries, EntriesBytes, ReplyHeader;
    match r
    case ConnectReply(tx, id) =>
      ReplyHeaderFields(0, tx, ToBe(8, id));
      BeRoundTrips(0, 0, id);
      var b := ReplyBytes(r);
      assert b[8..16] == b[8..];
    case AnnounceReply(tx, interval, leechers, seeders, peers) =>
      AnnounceDecodes(tx, interval, leechers, seeders, peers);
    case ScrapeReply(tx, entries) =>
      ReplyHeaderFields(2, tx, EntriesBytes(entries));
      EntriesDecode(entries);
    case ErrorReply(tx, message) =>
      ReplyHeaderFields(3, tx, message);
  }

  lemma AnnounceDecodes(tx: u32, interval: u32, leechers: u32, seeders: u32, peers: seq<byte>)
    ensures Decode(ReplyBytes(AnnounceReply(tx, interval, leechers, seeders, peers))) ==
            Some(AnnounceReply(tx, interval, leechers, seeders, peers))
  {
    hide ToBe, FromBe, DecodeEntries, EntriesBytes, ReplyHeader;
    var b := ReplyBytes(AnnounceReply(tx, interval, leechers, seeders, peers));
    var three := ToBe(4, interval) + ToBe(4, leechers) + ToBe(4, seeders);
    assert b == ReplyHeader(1, tx) + (three + peers);
    ReplyHeaderFields(1, tx, three + peers);
    ThreeFields(interval, leechers, seeders);
    SliceOf(b, three, 8);
    assert b[20..] == peers;
  }

  /** Overwriting the bytes after a prefix. */
  lemma Overwrite(p: seq<byte>, f: seq<byte>, rest: seq<byte>)
    requires |rest| >= |f|
    ensures (p + rest)[..|p|] + f + (p + rest)[|p| + |f|..] == p + f + rest[|f|..]
  {
  }

  /** Writes the next field behind what has been written. */
  method WriteField(out: ByteBuf, at: nat, f: seq<byte>, ghost written: seq<byte>, ghost rest: seq<byte>)
    requires out.data == written + rest && |written| == at && |rest| >= |f|
    modifies out
    ensures out.data == written + f + rest[|f|..]
  {
    Overwrite(written, f, rest);
    out.CopyAt(at, f);
  }

  /** Writes the action and the transaction id. */
  method WriteHeader(out: ByteBuf, action: u32, transactionId: u32)
    requires |out.data| >= 8
    modifies out
    ensures out.data == ReplyHeader(action, transactionId) + old(out.data)[8..]
  {
    hide ToBe;
    ghost var start := out.data;
    assert start == [] + start;
    WriteField(out, 0, ToBe(4, action), [], start);
    WriteField(out, 4, ToBe(4, transactionId), ToBe(4, action), start[4..]);
    assert start[4..][4..] == start[8..];
  }

  /** Writes three 32-bit fields behind what has been written. */
  method WriteThree(out: ByteBuf, at: nat, x: u32, y: u32, z: u32, ghost written: seq<byte>, ghost rest: seq<byte>)
    requires out.data == written + rest && |written| == at && |rest| >= 12
    modifies out
    ensures out.data == written + (ToBe(4, x) + ToBe(4, y) + ToBe(4, z)) + rest[12..]
  {
    hide ToBe;
    WriteField(out, at, ToBe(4, x), written, rest);
    WriteField(out, at + 4, ToBe(4, y), written + ToBe(4, x), rest[4..]);
    WriteField(out, at + 8, ToBe(4, z), written + ToBe(4, x) + ToBe(4, y), rest[4..][4..]);
    assert rest[4..][4..][4..] == rest[12..];
    assert written + ToBe(4, x) + ToBe(4, y) + ToBe(4, z) == written + (ToBe(4, x) + ToBe(4, y) + ToBe(4, z));
  }

  /** Writes a 16-byte connect reply over the first 16 bytes of `out`. */
  method WriteConnect(out: ByteBuf, transactionId: u32, connectionId: u64)
    requires |out.data| >= 16
    modifies out
    ensures out.data == ReplyBytes(ConnectReply(transactionId, connectionId)) + old(out.data)[16..]
  {
    hide ToBe, ReplyHeader;
    ghost var start := out.data;
    WriteHeader(out, 0, transactionId);
    WriteField(out, 8, ToBe(8, connectionId), ReplyHeader(0, transactionId), start[8..]);
    assert start[8..][8..] == start[16..];
  }

  /** Writes the 20-byte header and the peers, and leaves what lies behind them. */
  method WriteAnnounce(out: ByteBuf, transactionId: u32, interval: u32, leechers: u32, seeders: u32, peers: seq<byte>)
    returns (n: nat)
    requires |out.data| >= 20 + |peers|
    modifies out
    ensures n == 20 + |peers|
    ensures out.data == ReplyBytes(AnnounceReply(transactionId, interval, leechers, seeders, peers)) + old(out.data)[n..]
  {
    hide ToBe, ReplyHeader;
    ghost var start, head := out.data, ReplyHeader(1, transactionId);
    WriteHeader(out, 1, transactionId);
    WriteThree(out, 8, interval, leechers, seeders, head, start[8..]);
    WriteField(out, 20, peers, head + (ToBe(4, interval) + ToBe(4, leechers) + ToBe(4, seeders)), start[8..][12..]);
    n := 20 + |peers|;
    assert start[8..][12..][|peers|..] == start[n..];
  }

  method WriteScrape(out: ByteBuf, transactionId: u32, entries: seq<Entry>) returns (n: nat)
    requires |out.data| >= 8 + 12 * |entries|
    modifies out
    ensures n == 8 + 12 * |entries|
    ensures out.data == ReplyBytes(ScrapeReply(transactionId, entries)) + old(out.data)[n..]
  {
    hide EntriesBytes, ReplyHeader;
    ghost var start, head := out.data, ReplyHeader(2, transactionId);
    WriteHeader(out, 2, transactionId);
    var off := 8;
    ghost var done := EntriesBytes([]);
    NextEntry([], 0, start, off);
    assert head + done == head;
    for i := 0 to |entries|
      invariant off == 8 + 12 * i
      invariant done == EntriesBytes(entries[..i])
      invariant out.data == head + done + start[off..]
    {
      WriteThree(out, off, entries[i].seeders, entries[i].downloaded, entries[i].leechers, head + done, start[off..]);
      NextEntry(entries, i, start, off);
      Associate(head, done, EntryBytes(entries[i]), start[off..][12..]);
      done := done + EntryBytes(entries[i]);
      off := off + 12;
    }
    assert entries[..|entries|] == entries;
    n := off;
  }

  lemma NextEntry(entries: seq<Entry>, i: nat, start: seq<byte>, off: nat)
    requires off <= |start|
    ensures EntriesBytes([]) == []
    ensures i < |entries| ==> EntriesBytes(entries[..i + 1]) == EntriesBytes(entries[..i]) + EntryBytes(entries[i])
    ensures off + 12 <= |start| ==> start[off..][12..] == start[off + 12..]
  {
    if i < |entries| {
      assert entries[..i + 1][..i] == entries[..i];
    }
  }

  lemma Associate(a: seq<byte>, b: seq<byte>, c: seq<byte>, d: seq<byte>)
    ensures a + b + c + d == a + (b + c) + d
  {
  }

  method WriteError(out: ByteBuf, transactionId: u32, message: seq<byte>) returns (n: nat)
    requires |out.data| >= 8 + |message|
    modifies out
    ensures n == 8 + |message|
    ensures out.data == ReplyBytes(ErrorReply(transactionId, message)) + old(out.data)[n..]
  {
    hide ReplyHeader;
    ghost var start := out.data;
    WriteHeader(out, 3, transactionId);
    WriteField(out, 8, message, ReplyHeader(3, transactionId), start[8..]);
    n := 8 + |message|;
    assert start[8..][|message|..] == start[n..];
  }
}
