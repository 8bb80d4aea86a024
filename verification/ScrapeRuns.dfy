/** A scrape among other requests. Each hash is looked up under the lock of its own shard, so other
    threads, and the collector, may be served between two hashes of one scrape. */
module ScrapeRuns {
  import opened Bytes
  import opened Core
  import opened StoreSpec
  import opened StoreRuns
  import opened UdpWire
  import opened UdpHandlers
  import StoreFlat

  /** The look-ups of a scrape stand at these points of a run, in order; all other steps are whatever
      else goes on. */
  ghost predicate LooksUp(steps: seq<Step>, hashes: seq<InfoHash>, points: seq<nat>) {
    && |points| == |hashes|
    && (forall i :: 0 <= i < |points| ==> points[i] < |steps| && steps[points[i]] == Serve(Look(hashes[i])))
    && (forall i, j :: 0 <= i < j < |points| ==> points[i] < points[j])
  }

  /** The entries such a scrape collects, each from the store as its own look-up finds it. */
  function EntriesDuring(s: StoreState, steps: seq<Step>, hashes: seq<InfoHash>, points: seq<nat>): (entries: seq<Entry>)
    requires |points| == |hashes| && forall i :: 0 <= i < |points| ==> points[i] < |steps|
    ensures |entries| == |hashes|
    ensures forall i :: 0 <= i < |hashes| ==> entries[i] == EntryAt(Run(s, steps[..points[i]]), hashes[i])
  {
    if hashes == [] then [] else
      var last := |hashes| - 1;
      EntriesDuring(s, steps, hashes[..last], points[..last]) + [EntryAt(Run(s, steps[..points[last]]), hashes[last])]
  }

  function EntryOf(c: Counts): Entry {
    Entry(c.complete, c.downloaded, c.incomplete)
  }

  lemma {:induction false} RunStart(s: StoreState, f: StoreFlat.Flat, steps: seq<Step>, n: nat)
    requires ValidStore(s) && StoreFlat.Same(s, f) && n <= |steps|
    ensures ValidStore(Run(s, steps[..n])) && StoreFlat.Same(Run(s, steps[..n]), StoreFlat.FlatRun(f, steps[..n]))
  {
    StoreFlat.FlatRefined(s, f, steps[..n]);
  }

  /** What a client reads of a scrape that others were served in the middle of: one entry per hash, in
      order; each is the answer its look-up is given at its own point of the run, the torrent's
      counters by cardinality over the flat map at that moment, and is decided by the steps that had
      reached its shard by then. */
  lemma {:induction false} ScrapeAmongOthers(s: StoreState, f: StoreFlat.Flat, steps: seq<Step>, hashes: seq<InfoHash>,
                                             points: seq<nat>, tx: u32, i: nat)
    requires ValidStore(s) && StoreFlat.Same(s, f) && LooksUp(steps, hashes, points) && i < |hashes|
    ensures var reply := Decode(ReplyBytes(ScrapeReply(tx, EntriesDuring(s, steps, hashes, points))));
            var before, shard := steps[..points[i]], ShardIndex(hashes[i]);
            && reply.Some? && reply.value.ScrapeReply? && reply.value.transactionId == tx && |reply.value.entries| == |hashes|
            && reply.value.entries[i] == EntryOf(AnswerTo(Run(s, before), Look(hashes[i])).counts)
            && reply.value.entries[i] == EntryOf(StoreFlat.FlatCounts(StoreFlat.FlatRun(f, before), hashes[i]))
            && reply.value.entries[i] == EntryOf(CountsAt(Run(ShardOf(s, shard), OnShard(before, shard)), hashes[i]))
  {
    hide ReplyBytes, Decode, StoreFlat.Same, StoreFlat.FlatRun, StoreFlat.FlatCounts, Run, OnShard, ShardOf, CountsAt;
    ReplyDecodes(ScrapeReply(tx, EntriesDuring(s, steps, hashes, points)));
    var before, shard := steps[..points[i]], ShardIndex(hashes[i]);
    RunStart(s, f, steps, points[i]);
    StoreFlat.SameCounts(Run(s, before), StoreFlat.FlatRun(f, before), hashes[i]);
    RunIsLocal(s, before, shard);
    CountsOfShard(Run(s, before), hashes[i]);
  }

  lemma CountsOfShard(s: StoreState, hash: InfoHash)
    ensures CountsAt(ShardOf(s, ShardIndex(hash)), hash) == CountsAt(s, hash)
  {
  }

  /** If nothing but look-ups is served between the first and the last hash, all entries are those of
      one state of the store: the case that the handlers' contracts describe. */
  lemma {:induction false} UndisturbedScrape(s: StoreState, steps: seq<Step>, hashes: seq<InfoHash>, points: seq<nat>)
    requires LooksUp(steps, hashes, points) && hashes != []
    requires forall n :: points[0] <= n < points[|points| - 1] ==> steps[n].Serve? && steps[n].req.Look?
    ensures EntriesDuring(s, steps, hashes, points) == EntriesAt(Run(s, steps[..points[0]]), hashes)
  {
    hide Run, EntryAt;
    forall i | 0 <= i < |hashes| ensures Run(s, steps[..points[i]]) == Run(s, steps[..points[0]]) {
      OnlyLooks(s, steps, points[0], points[i]);
    }
  }

  lemma {:induction false} OnlyLooks(s: StoreState, steps: seq<Step>, a: nat, b: nat)
    requires a <= b <= |steps| && forall n :: a <= n < b ==> steps[n].Serve? && steps[n].req.Look?
    ensures Run(s, steps[..b]) == Run(s, steps[..a])
    decreases b - a
  {
    if a < b {
      OnlyLooks(s, steps, a, b - 1);
      assert steps[..b] == steps[..b - 1] + [steps[b - 1]];
      RunAppend(s, steps[..b - 1], [steps[b - 1]]);
      OneLook(Run(s, steps[..b - 1]), steps[b - 1]);
    }
  }

  lemma OneLook(s: StoreState, step: Step)
    requires step.Serve? && step.req.Look?
    ensures Run(s, [step]) == s
  {
    assert [step][1..] == [];
  }

  /** Asked twice in one scrape, a torrent never shows fewer downloads the second time. */
  lemma {:induction false} DownloadsDuringScrape(s: StoreState, steps: seq<Step>, hashes: seq<InfoHash>, points: seq<nat>, i: nat, j: nat)
    requires LooksUp(steps, hashes, points) && i < j < |hashes| && hashes[i] == hashes[j]
    requires DownloadsAt(Run(s, steps[..points[j]]), hashes[j]) <= U32_MAX
    ensures EntriesDuring(s, steps, hashes, points)[i].downloaded <= EntriesDuring(s, steps, hashes, points)[j].downloaded
  {
    hide Run, CountsAt, DownloadsAt;
    var early, late := steps[..points[i]], steps[..points[j]];
    assert late == early + steps[points[i]..points[j]];
    RunAppend(s, early, steps[points[i]..points[j]]);
    ScrapedDownloadsGrow(Run(s, early), steps[points[i]..points[j]], hashes[i]);
  }
}
