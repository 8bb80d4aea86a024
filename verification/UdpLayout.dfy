/** The UDP protocol's packets byte by byte, as the tables of BEP 15 give them: which datagrams are
    taken for what, which are refused and why, and where each field of a reply stands. */
module UdpLayout {
  import opened Bytes
  import opened Core
  import opened Replies
  import opened UdpWire

  /** Action and protocol id: a connect is nothing but the magic number, action 0 and a transaction. */
  lemma ConnectLayout(buf: seq<byte>, tx: u32)
    ensures Parse(buf) == Ok(Connect(tx))
            <==> |buf| >= 16 && Be64(buf[0..8]) == 0x0417_2710_1980 && Be32(buf[8..12]) == 0 && Be32(buf[12..16]) == tx
  {
  }

  /** A datagram is refused exactly if it is shorter than a header, a connect with another protocol id,
      an announce shorter than 98 bytes, or of an action other than 0, 1 and 2; and for that reason. */
  lemma RefusedIff(buf: seq<byte>)
    ensures Parse(buf) == Err(TooShort) <==> |buf| < 16
    ensures Parse(buf) == Err(BadProtocolId) <==> |buf| >= 16 && Be32(buf[8..12]) == 0 && Be64(buf[0..8]) != 0x0417_2710_1980
    ensures Parse(buf) == Err(AnnounceTooShort) <==> 16 <= |buf| < 98 && Be32(buf[8..12]) == 1
    ensures forall action :: Parse(buf) == Err(UnknownAction(action)) <==> |buf| >= 16 && Be32(buf[8..12]) == action > 2
  {
  }

  /** The two's complement reading of 32 bits. */
  function Signed(v: u32): int {
    (v + 0x8000_0000) % 0x1_0000_0000 - 0x8000_0000
  }

  /** Where each field of an announce stands. */
  lemma AnnounceLayout(buf: seq<byte>, a: Announce)
    ensures Parse(buf) == Ok(AnnounceRequest(a))
            <==> && |buf| >= 98
                 && a.connectionId == Be64(buf[0..8]) && Be32(buf[8..12]) == 1 && a.transactionId == Be32(buf[12..16])
                 && a.infoHash == buf[16..36] && a.peerId == buf[36..56]
                 && a.downloaded == Be64(buf[56..64]) && a.left == Be64(buf[64..72]) && a.uploaded == Be64(buf[72..80])
                 && (a.event == Completed <==> Be32(buf[80..84]) == 1) && (a.event == Stopped <==> Be32(buf[80..84]) == 3)
                 && a.declaredIp == Be32(buf[84..88]) && a.key == Be32(buf[88..92])
                 && a.numWant == Signed(Be32(buf[92..96])) && a.port == Be16(buf[96..98])
  {
    hide FromBe;
    if |buf| >= 98 {
      EventCodes(Be32(buf[80..84]));
    }
  }

  /** A scrape's header, and its hashes: the whole 20-byte strides after it, seventy-five at most. */
  lemma {:induction false} ScrapeLayout(buf: seq<byte>)
    ensures Parse(buf).Ok? && Parse(buf).request.Scrape? <==> |buf| >= 16 && Be32(buf[8..12]) == 2
    ensures |buf| >= 16 && Be32(buf[8..12]) == 2 ==>
              var r := Parse(buf).request;
              var hashes, n := IterHashes(r.hashes), (|buf| - 16) / 20;
              && r.connectionId == Be64(buf[0..8]) && r.transactionId == Be32(buf[12..16])
              && |hashes| == (if n > 75 then 75 else n)
              && forall i :: 0 <= i < |hashes| ==> hashes[i] == buf[16 + i * 20..16 + i * 20 + 20]
  {
    hide FromBe;
    if |buf| >= 16 && Be32(buf[8..12]) == 2 {
      hide IterHashes;
      ScrapeStrides(buf);
    }
  }

  /** Where each field of a reply stands. */
  lemma {:induction false} ConnectReplyLayout(tx: u32, id: u64)
    ensures var b := ReplyBytes(ConnectReply(tx, id));
            |b| == 16 && Be32(b[0..4]) == 0 && Be32(b[4..8]) == tx && Be64(b[8..16]) == id
  {
    hide ToBe, FromBe, ReplyHeader;
    ReplyHeaderFields(0, tx, ToBe(8, id));
    BeRoundTrips(0, 0, id);
    var b := ReplyBytes(ConnectReply(tx, id));
    assert b[8..16] == b[8..];
  }

  lemma {:induction false} AnnounceReplyLayout(tx: u32, interval: u32, leechers: u32, seeders: u32, peers: seq<byte>)
    ensures var b := ReplyBytes(AnnounceReply(tx, interval, leechers, seeders, peers));
            && |b| == 20 + |peers|
            && Be32(b[0..4]) == 1 && Be32(b[4..8]) == tx && Be32(b[8..12]) == interval
            && Be32(b[12..16]) == leechers && Be32(b[16..20]) == seeders && b[20..] == peers
  {
    hide ToBe, FromBe, ReplyHeader;
    var three := ToBe(4, interval) + ToBe(4, leechers) + ToBe(4, seeders);
    var b := ReplyBytes(AnnounceReply(tx, interval, leechers, seeders, peers));
    assert b == ReplyHeader(1, tx) + (three + peers);
    ReplyHeaderFields(1, tx, three + peers);
    ThreeFields(interval, leechers, seeders);
    SliceOf(b, three, 8);
  }

  lemma {:induction false} ScrapeReplyLayout(tx: u32, entries: seq<Entry>, i: nat)
    requires i < |entries|
    ensures var b := ReplyBytes(ScrapeReply(tx, entries));
            && |b| == 8 + 12 * |entries| && Be32(b[0..4]) == 2 && Be32(b[4..8]) == tx
            && Be32(b[8 + 12 * i..12 + 12 * i]) == entries[i].seeders
            && Be32(b[12 + 12 * i..16 + 12 * i]) == entries[i].downloaded
            && Be32(b[16 + 12 * i..20 + 12 * i]) == entries[i].leechers
  {
    hide ToBe, FromBe, ReplyHeader, EntriesBytes, EntryBytes;
    var body := EntriesBytes(entries);
    ReplyHeaderFields(2, tx, body);
    EntryStands(entries, i);
    EntryFields(entries[i]);
    var b := ReplyBytes(ScrapeReply(tx, entries));
    SliceOf(b, body, 8);
    SliceOf(b, EntryBytes(entries[i]), 8 + 12 * i);
  }

  lemma EntryFields(e: Entry)
    ensures var b := EntryBytes(e);
            Be32(b[0..4]) == e.seeders && Be32(b[4..8]) == e.downloaded && Be32(b[8..12]) == e.leechers
  {
    ThreeFields(e.seeders, e.downloaded, e.leechers);
  }

  lemma {:induction false} EntryStands(entries: seq<Entry>, i: nat)
    requires i < |entries|
    ensures EntriesBytes(entries)[12 * i..12 * i + 12] == EntryBytes(entries[i])
    decreases |entries|
  {
    hide EntryBytes;
    var front, last := entries[..|entries| - 1], entries[|entries| - 1];
    assert EntriesBytes(entries) == EntriesBytes(front) + EntryBytes(last);
    if i < |front| {
      EntryStands(front, i);
      assert entries[i] == front[i];
    }
  }

  lemma {:induction false} ErrorReplyLayout(tx: u32, message: seq<byte>)
    ensures var b := ReplyBytes(ErrorReply(tx, message));
            |b| == 8 + |message| && Be32(b[0..4]) == 3 && Be32(b[4..8]) == tx && b[8..] == message
  {
    hide ToBe, FromBe, ReplyHeader;
    ReplyHeaderFields(3, tx, message);
  }
}
