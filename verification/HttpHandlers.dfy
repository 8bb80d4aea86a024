/** The HTTP request handler: a request target becomes a response by driving the store and the bencode
    bodies. */
module HttpHandlers {
  import opened Bytes
  import opened Core
  import opened HttpQuery
  import opened HttpParams
  import opened Replies
  import opened StoreSpec
  import opened Stores
  import Bencode
  import Bodies
  import StoreRuns

  datatype Response = Body(body: seq<byte>) | Redirect | BadRequest | NotFound

  // ---------------------------------------------------------------- what a target means

  datatype Meaning =
    | Home
    | Elsewhere
    | Malformed
    | Incomplete
    | Submitted(req: StoreRuns.Request)
    | Asked(hashes: seq<InfoHash>)

  /** What an announce with these parameters asks of the store. */
  function Submission(hash: InfoHash, port: u16, ps: Params, ip: Ip, isV4: bool, now: u32): StoreRuns.Request {
    var key := PeerKey(ip, isV4, port);
    if ps.event == Ascii("stopped") then StoreRuns.Leave(hash, key, now)
    else StoreRuns.Join(hash, key, AnnounceFlags(ps.left, ps.event == Ascii("completed")), ps.numwant, now)
  }

  function AnnounceMeans(query: seq<byte>, ip: Ip, isV4: bool, now: u32): Meaning {
    var scanned := Scanned(QueryPairs(query));
    if scanned.None? then Malformed
    else if scanned.value.hash.None? || scanned.value.port.None? then Incomplete
    else Submitted(Submission(scanned.value.hash.value, scanned.value.port.value, scanned.value, ip, isV4, now))
  }

  function ScrapeMeans(query: seq<byte>): Meaning {
    var wanted := Wanted(QueryPairs(query));
    if wanted.None? then Malformed else Asked(wanted.value)
  }

  function Means(target: seq<byte>, ip: Ip, isV4: bool, now: u32): Meaning {
    var (path, query) := SplitOnce(target, QUESTION);
    if path == Ascii("/") then Home
    else if path == Ascii("/announce") then AnnounceMeans(query, ip, isV4, now)
    else if path == Ascii("/scrape") then ScrapeMeans(query)
    else Elsewhere
  }

  function FilesAt(s: StoreState, hashes: seq<InfoHash>): (files: seq<Bodies.File>)
    ensures |files| == |hashes|
    ensures forall i :: 0 <= i < |hashes| ==> files[i] == Bodies.File(hashes[i], CountsAt(s, hashes[i]))
  {
    if hashes == [] then [] else
      FilesAt(s, hashes[..|hashes| - 1]) + [Bodies.File(hashes[|hashes| - 1], CountsAt(s, hashes[|hashes| - 1]))]
  }

  /** The store after a request. */
  function Handled(s: StoreState, m: Meaning): StoreState {
    if m.Submitted? then StoreRuns.After(s, StoreRuns.Serve(m.req)) else s
  }

  const MISSING := "Your client forgot to send your torrent's info_hash."

  /** What a store that was `s` answers to a target that means `m`. */
  ghost predicate Returned(s: StoreState, m: Meaning, isV4: bool, interval: u32, listed: seq<Key>, r: Response) {
    match m
    case Home => r == Redirect
    case Elsewhere => r == NotFound
    case Malformed => r == BadRequest
    case Incomplete => r == Body(Bencode.Enc(Bodies.FailureBody(Ascii(MISSING))))
    case Submitted(req) =>
      var answer := StoreRuns.AnswerTo(s, req);
      && listed in answer.lists
      && r == Body(Bencode.Enc(Bodies.AnnounceBody(answer.counts, interval, if isV4 then Concat(listed) else [],
                                                   if isV4 then [] else Concat(listed))))
    case Asked(hashes) => r == Body(Bencode.Enc(Bodies.ScrapeBody(FilesAt(s, hashes))))
  }

  // ---------------------------------------------------------------- the handler

  class HttpHandler {
    const store: Store

    constructor (store: Store)
      ensures this.store == store
    {
      this.store := store;
    }

    method Handle(target: seq<byte>, ip: Ip, isV4: bool, now: u32, interval: u32)
      returns (r: Response, ghost listed: seq<Key>)
      requires store.Valid()
      modifies store, store.shards
      ensures store.Valid()
      ensures store.State() == Handled(old(store.State()), Means(target, ip, isV4, now))
      ensures Returned(old(store.State()), Means(target, ip, isV4, now), isV4, interval, listed, r)
    {
      hide AnnounceMeans, StoreRuns.AnswerTo, StoreRuns.After, SplitOnce, Bencode.Enc;
      listed := [];
      var (path, query) := SplitOnce(target, QUESTION);
      if path == Ascii("/") {
        r := Redirect;
      } else if path == Ascii("/announce") {
        r, listed := Announce(query, ip, isV4, now, interval);
      } else if path == Ascii("/scrape") {
        r := Scrape(query, isV4, interval);
      } else {
        r := NotFound;
      }
    }

    method Announce(query: seq<byte>, ip: Ip, isV4: bool, now: u32, interval: u32)
      returns (r: Response, ghost listed: seq<Key>)
      requires store.Valid()
      modifies store, store.shards
      ensures store.Valid()
      ensures store.State() == Handled(old(store.State()), AnnounceMeans(query, ip, isV4, now))
      ensures Returned(old(store.State()), AnnounceMeans(query, ip, isV4, now), isV4, interval, listed, r)
    {
      hide StoreRuns.AnswerTo, StoreRuns.After, Bencode.Enc, Concat, Scanned;
      listed := [];
      var scanned := Scan(QueryPairs(query));
      if scanned.None? {
        return BadRequest, listed;
      }
      var ps := scanned.value;
      var body := new ByteBuf();
      if ps.hash.None? || ps.port.None? {
        Bodies.Failure(body, Ascii(MISSING));
        assert body.data == Bencode.Enc(Bodies.FailureBody(Ascii(MISSING)));
        return Body(body.data), listed;
      }
      var peers := new ByteBuf();
      var counts;
      counts, listed := Submit(ps.hash.value, ps.port.value, ps, ip, isV4, now, peers);
      assert peers.data == Concat(listed);
      PeersFit(old(store.State()), Submission(ps.hash.value, ps.port.value, ps, ip, isV4, now), ps.numwant, listed);
      ScannedNumwant(QueryPairs(query));
      Bodies.AnnounceResponse(body, counts, interval, if isV4 then peers.data else [], if isV4 then [] else peers.data);
      assert body.data == Bencode.Enc(Bodies.AnnounceBody(counts, interval, if isV4 then Concat(listed) else [],
                                                          if isV4 then [] else Concat(listed)));
      r := Body(body.data);
    }

    /** Applies an announce to the store, which writes the peers it lists. */
    method Submit(hash: InfoHash, port: u16, ps: Params, ip: Ip, isV4: bool, now: u32, peers: ByteBuf)
      returns (counts: Counts, ghost listed: seq<Key>)
      requires store.Valid()
      modifies store, store.shards, peers
      ensures store.Valid()
      ensures store.State() == StoreRuns.After(old(store.State()), StoreRuns.Serve(Submission(hash, port, ps, ip, isV4, now)))
      ensures counts == StoreRuns.AnswerTo(old(store.State()), Submission(hash, port, ps, ip, isV4, now)).counts
      ensures listed in StoreRuns.AnswerTo(old(store.State()), Submission(hash, port, ps, ip, isV4, now)).lists
      ensures peers.data == old(peers.data) + Concat(listed)
    {
      var flags := Flags(ps.left == 0, ps.event == Ascii("completed"), 0);
      var key := PeerKey(ip, isV4, port);
      if ps.event == Ascii("stopped") {
        counts := store.Remove(hash, key, now);
        listed := [];
      } else {
        counts, listed := store.Announce(hash, key, flags, ps.numwant, now, peers);
      }
    }

    method Scrape(query: seq<byte>, ghost isV4: bool, ghost interval: u32) returns (r: Response)
      requires store.Valid()
      ensures Returned(store.State(), ScrapeMeans(query), isV4, interval, [], r)
    {
      hide Bencode.Enc, StoreRuns.AnswerTo;
      var files := Collect(QueryPairs(query));
      if files.None? {
        return BadRequest;
      }
      var body := new ByteBuf();
      Bodies.ScrapeResponse(body, files.value);
      assert body.data == Bencode.Enc(Bodies.ScrapeBody(files.value));
      r := Body(body.data);
    }

    /** The loop of `scrape`: the counters of the hashes mentioned, up to the cap. */
    method Collect(pairs: seq<Pair>) returns (files: Option<seq<Bodies.File>>)
      requires store.Valid()
      ensures files == if Wanted(pairs).None? then None else Some(FilesAt(store.State(), Wanted(pairs).value))
    {
      hide Decoded, AllHashes, FilesAt, Mentioned, CountsAt;
      var found: seq<Bodies.File> := [];
      var buf := new ByteBuf();
      ghost var hashes: seq<InfoHash> := [];
      ghost var s := store.State();
      NothingMentioned(s, pairs);
      for i := 0 to |pairs|
        invariant s == store.State() && store.Valid() && |hashes| <= MAX_SCRAPE_HASHES
        invariant AllHashes(Mentioned(pairs[..i])) == Some(hashes) && found == FilesAt(s, hashes)
        modifies buf
      {
        ghost var raws := Mentioned(pairs[..i]);
        MentionedNext(pairs, i);
        if pairs[i].key == Ascii("info_hash") {
          if |found| >= MAX_SCRAPE_HASHES {
            assert raws == Mentioned(pairs)[..MAX_SCRAPE_HASHES];
            return Some(found);
          }
          buf.Clear();
          var ok := PercentDecode(pairs[i].raw, buf);
          assert ok ==> buf.data == Decoded(pairs[i].raw).value;
          if !ok || |buf.data| != HASH_LEN {
            BadMention(Mentioned(pairs), raws + [pairs[i].raw]);
            return None;
          }
          var hash: InfoHash := buf.data;
          GoodMention(s, raws, hashes, pairs[i].raw, hash);
          var c := store.Scrape(hash);
          found := found + [Bodies.File(hash, c)];
          hashes := hashes + [hash];
        }
      }
      assert pairs[..|pairs|] == pairs;
      assert Mentioned(pairs)[..|hashes|] == Mentioned(pairs);
      files := Some(found);
    }
  }

  lemma NothingMentioned(s: StoreState, pairs: seq<Pair>)
    ensures AllHashes(Mentioned(pairs[..0])) == Some([]) && FilesAt(s, []) == []
  {
  }

  lemma MentionedNext(pairs: seq<Pair>, i: nat)
    requires i < |pairs|
    ensures Mentioned(pairs[..i + 1]) ==
            if pairs[i].key == Ascii("info_hash") then Mentioned(pairs[..i]) + [pairs[i].raw] else Mentioned(pairs[..i])
    ensures Mentioned(pairs[..i + 1]) <= Mentioned(pairs)
  {
    assert pairs[..i + 1][..i] == pairs[..i];
    MentionedPrefix(pairs, i + 1);
  }

  lemma GoodMention(s: StoreState, raws: seq<seq<byte>>, hashes: seq<InfoHash>, raw: seq<byte>, hash: InfoHash)
    requires AllHashes(raws) == Some(hashes) && HashOf(raw) == Some(hash)
    ensures AllHashes(raws + [raw]) == Some(hashes + [hash])
    ensures FilesAt(s, hashes + [hash]) == FilesAt(s, hashes) + [Bodies.File(hash, CountsAt(s, hash))]
  {
    hide HashOf, CountsAt;
    assert (raws + [raw])[..|raws|] == raws && (hashes + [hash])[..|hashes|] == hashes;
  }

  /** A malformed hash among the first seventy-five spoils the scrape. */
  lemma BadMention(all: seq<seq<byte>>, next: seq<seq<byte>>)
    requires next <= all && 0 < |next| <= MAX_SCRAPE_HASHES && HashOf(next[|next| - 1]) == None
    ensures AllHashes(all[..Min(|all|, MAX_SCRAPE_HASHES)]) == None
  {
    var cut := all[..Min(|all|, MAX_SCRAPE_HASHES)];
    assert cut[|next| - 1] == next[|next| - 1];
  }

  lemma ScannedNumwant(pairs: seq<Pair>)
    ensures Scanned(pairs).Some? ==> 0 <= Scanned(pairs).value.numwant <= NUMWANT_MAX
  {
    hide Scanned, LastRaw, LastNumwant;
    ScanSays(pairs);
  }

  /** A listed peer string is far shorter than a length that would not fit. */
  lemma PeersFit(s: StoreState, req: StoreRuns.Request, numwant: nat, listed: seq<Key>)
    requires listed in StoreRuns.AnswerTo(s, req).lists && (req.Join? ==> req.numwant == numwant)
    ensures |Concat(listed)| <= V6_LEN * numwant
  {
    assert |listed| <= numwant;
    ConcatBound(listed);
  }

  lemma {:induction false} ConcatBound(keys: seq<Key>)
    ensures |Concat(keys)| <= V6_LEN * |keys|
  {
    if keys != [] {
      ConcatBound(keys[..|keys| - 1]);
    }
  }
}
