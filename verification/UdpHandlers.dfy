/** The UDP request handler: a datagram becomes a drop or a reply by driving the store, the
    connection-id scheme and the codec. */
module UdpHandlers {
  import opened Bytes
  import opened Core
  import opened ConnIds
  import opened Replies
  import opened StoreSpec
  import opened Stores
  import opened UdpWire
  import StoreRuns

  const NUMWANT_MAX_V4: nat := 200
  const NUMWANT_MAX_V6: nat := 66

  datatype Action = Reply(len: nat) | Drop | ConnidMismatch

  function NumWant(requested: i32, isV4: bool): nat {
    var max := if isV4 then NUMWANT_MAX_V4 else NUMWANT_MAX_V6;
    if requested < 0 then max else Min(requested, max)
  }

  // ---------------------------------------------------------------- what a datagram means

  /** What an announce asks of the store. */
  function Submission(a: Announce, ip: Ip, isV4: bool, now: u64): StoreRuns.Request {
    var key := PeerKey(ip, isV4, a.port);
    if a.event == Stopped then StoreRuns.Leave(a.infoHash, key, ToU32(now / 60))
    else StoreRuns.Join(a.infoHash, key, AnnounceFlags(a.left, a.event == Completed), NumWant(a.numWant, isV4), ToU32(now / 60))
  }

  datatype Meaning =
    | Garbage
    | Forged
    | Greeting(transactionId: u32)
    | Submitted(transactionId: u32, req: StoreRuns.Request)
    | Asked(transactionId: u32, hashes: seq<InfoHash>)

  /** A datagram from `ip` at `now`, by what it is entitled to. */
  function Means(c: ConnId, buf: seq<byte>, ip: Ip, isV4: bool, now: u64): Meaning
    requires c.windowSecs >= 1
  {
    match Parse(buf)
    case Err(_) => Garbage
    case Ok(Connect(tx)) => Greeting(tx)
    case Ok(AnnounceRequest(a)) =>
      if c.Validate(a.connectionId, ip, now) then Submitted(a.transactionId, Submission(a, ip, isV4, now)) else Forged
    case Ok(Scrape(id, tx, hashes)) =>
      if c.Validate(id, ip, now) then Asked(tx, IterHashes(hashes)) else Forged
  }

  function EntryAt(s: StoreState, hash: InfoHash): Entry {
    var c := CountsAt(s, hash);
    Entry(c.complete, c.downloaded, c.incomplete)
  }

  function EntriesAt(s: StoreState, hashes: seq<InfoHash>): (entries: seq<Entry>)
    ensures |entries| == |hashes|
    ensures forall i :: 0 <= i < |hashes| ==> entries[i] == EntryAt(s, hashes[i])
  {
    if hashes == [] then [] else EntriesAt(s, hashes[..|hashes| - 1]) + [EntryAt(s, hashes[|hashes| - 1])]
  }

  /** The store after a datagram. */
  function Handled(s: StoreState, m: Meaning): StoreState {
    if m.Submitted? then StoreRuns.After(s, StoreRuns.Serve(m.req)) else s
  }

  /** What comes back for a datagram that meant `m` to a store that was `s`: nothing, with the buffer
      as it was, or one reply that fills the buffer. `listed` is any of the peer lists that the
      store may answer with. */
  ghost predicate Returned(c: ConnId, s: StoreState, m: Meaning, ip: Ip, now: u64, interval: u32, listed: seq<Key>,
                           action: Action, was: seq<byte>, out: seq<byte>)
    requires c.windowSecs >= 1
  {
    match m
    case Garbage => action == Drop && out == was
    case Forged => action == ConnidMismatch && out == was
    case Greeting(tx) =>
      action == Reply(|out|) && out == ReplyBytes(ConnectReply(tx, c.Generate(ip, now)))
    case Submitted(tx, req) =>
      var answer := StoreRuns.AnswerTo(s, req);
      && listed in answer.lists
      && action == Reply(|out|)
      && out == ReplyBytes(AnnounceReply(tx, interval, answer.counts.incomplete, answer.counts.complete, Concat(listed)))
    case Asked(tx, hashes) =>
      action == Reply(|out|) && out == ReplyBytes(ScrapeReply(tx, EntriesAt(s, hashes)))
  }

  // ---------------------------------------------------------------- the handler

  class Handler {
    const store: Store
    const connid: ConnId

    ghost predicate Valid()
      reads store, store.shards
    {
      store.Valid() && connid.Valid()
    }

    constructor (store: Store, connid: ConnId)
      requires store.Valid() && connid.Valid()
      ensures Valid() && this.store == store && this.connid == connid
    {
      this.store, this.connid := store, connid;
    }

    method Handle(buf: seq<byte>, ip: Ip, isV4: bool, now: u64, interval: u32, out: ByteBuf)
      returns (action: Action, ghost listed: seq<Key>)
      requires Valid()
      modifies store, store.shards, out
      ensures Valid()
      ensures store.State() == Handled(old(store.State()), Means(connid, buf, ip, isV4, now))
      ensures Returned(connid, old(store.State()), Means(connid, buf, ip, isV4, now), ip, now, interval, listed,
                       action, old(out.data), out.data)
    {
      hide Parse, Submission, IterHashes, ReplyBytes, StoreRuns.AnswerTo, StoreRuns.After;
      listed := [];
      var parsed := Parse(buf);
      if parsed.Err? {
        return Drop, listed;
      }
      match parsed.request {
        case Connect(tx) =>
          var cid := connid.Generate(ip, now);
          out.Clear();
          out.Resize(16);
          WriteConnect(out, tx, cid);
          ReplySizes(tx, cid, []);
          assert out.data == ReplyBytes(ConnectReply(tx, cid));
          action := Reply(16);
        case AnnounceRequest(a) =>
          if !connid.Validate(a.connectionId, ip, now) {
            return ConnidMismatch, listed;
          }
          out.Clear();
          out.Resize(20);
          var counts;
          counts, listed := ApplyAnnounce(a, ip, isV4, now, out);
          assert out.data[20..] == Concat(listed);
          var n := WriteAnnounce(out, a.transactionId, interval, counts.incomplete, counts.complete, []);
          HeaderThenPeers(a.transactionId, interval, counts.incomplete, counts.complete, Concat(listed));
          action := Reply(|out.data|);
        case Scrape(id, tx, hashes) =>
          if !connid.Validate(id, ip, now) {
            return ConnidMismatch, listed;
          }
          var entries := Collect(IterHashes(hashes));
          out.Clear();
          out.Resize(8 + |entries| * 12);
          var n := WriteScrape(out, tx, entries);
          ReplySizes(tx, 0, entries);
          assert out.data == ReplyBytes(ScrapeReply(tx, entries));
          action := Reply(n);
      }
    }

    /** Applies an announce to the store, which appends the peers it lists behind the header. */
    method ApplyAnnounce(a: Announce, ip: Ip, isV4: bool, now: u64, out: ByteBuf) returns (counts: Counts, ghost listed: seq<Key>)
      requires Valid()
      modifies store, store.shards, out
      ensures Valid()
      ensures store.State() == StoreRuns.After(old(store.State()), StoreRuns.Serve(Submission(a, ip, isV4, now)))
      ensures counts == StoreRuns.AnswerTo(old(store.State()), Submission(a, ip, isV4, now)).counts
      ensures listed in StoreRuns.AnswerTo(old(store.State()), Submission(a, ip, isV4, now)).lists
      ensures out.data == old(out.data) + Concat(listed)
    {
      var nowMin := ToU32(now / 60);
      var flags := Flags(a.left == 0, a.event == Completed, 0);
      var key := PeerKey(ip, isV4, a.port);
      if a.event == Stopped {
        counts := store.Remove(a.infoHash, key, nowMin);
        listed := [];
      } else {
        counts, listed := store.Announce(a.infoHash, key, flags, NumWant(a.numWant, isV4), nowMin, out);
      }
    }

    /** The entries of a scrape, one hash after the other. */
    method Collect(hashes: seq<InfoHash>) returns (entries: seq<Entry>)
      requires Valid()
      ensures entries == EntriesAt(store.State(), hashes)
    {
      entries := [];
      for i := 0 to |hashes|
        invariant entries == EntriesAt(store.State(), hashes[..i])
      {
        var c := store.Scrape(hashes[i]);
        entries := entries + [Entry(c.complete, c.downloaded, c.incomplete)];
        assert hashes[..i + 1][..i] == hashes[..i];
      }
      assert hashes[..|hashes|] == hashes;
    }
  }

  lemma ReplySizes(tx: u32, id: u64, entries: seq<Entry>)
    ensures |ReplyBytes(ConnectReply(tx, id))| == 16
    ensures |ReplyBytes(ScrapeReply(tx, entries))| == 8 + 12 * |entries|
  {
  }

  /** The store's peers stand where `write_announce` would have put them. */
  lemma HeaderThenPeers(tx: u32, interval: u32, leechers: u32, seeders: u32, peers: seq<byte>)
    ensures |ReplyBytes(AnnounceReply(tx, interval, leechers, seeders, []))| == 20
    ensures ReplyBytes(AnnounceReply(tx, interval, leechers, seeders, [])) + peers ==
            ReplyBytes(AnnounceReply(tx, interval, leechers, seeders, peers))
  {
  }
}
