# Verification model of the bluefrog BitTorrent tracker

A Dafny 4.11 model of the logic of bluefrog, a BitTorrent tracker that answers over UDP (BEP 15) and
HTTP, and proofs about it. Check it with `dafny verify dfyconfig.toml`.

The tracker is modelled as two stateful machines and the codecs that drive them.

**The abuse detector** (`L7*.dfy`). Sixteen maps of clients behind their own locks and one registry of
offenders. `L7Detector` holds the methods, field by field as in the source; `L7Spec` says what one event
does to what is remembered of one source. On top of that:

- `L7Bucket`: decaying lazily, whenever the source is seen, is the same as a bucket that leaks every
  second; the score is the maximum over all suffixes of the history exactly as long as nothing
  saturates; every ban is accounted for by a suffix that reaches the threshold. No monotone clock is
  assumed anywhere in it.
- `L7Bans`: exactly when an event is a ban, and how many fit into a window of time.
- `L7History`: ring, run counters and bitmap against the whole history.
- `L7Slow`: what is never banned, and exactly when the shape of an announce is harmless.
- `L7Weights`: what every event weighs, from the history of its source alone, check by check, in general
  and with the shipped numbers; and what the two fingerprints look at.
- `L7Flood`: the four kinds of flood, each banned exactly below a period.
- `L7Reconnect`: a client that reconnects before each announce, and exactly when it is banned, for every
  shape of announce and every period.
- `L7Eviction`: which entries can be the victim of sampled eviction, both ways.
- `L7Alone`: sources do not influence one another.
- `L7Runs`: the detector as a shared object. Each event is a scoring step and, for a ban, a later
  registering step, in any interleaving, with evictions from both maps; the invariant of all runs.
- `L7Bounds`: how much is remembered in every run, whom a newcomer displaces, and what a ban says, each
  bound and choice written out.

**The peer store** (`PeerLists`, `StoreSpec`, `Stores`, `StoreRuns`, `StoreFlat`, `StoreEffects`). 1024 maps of torrents with
two peer lists each, cached counters, and a collector that visits shard after shard between requests.
It is proved serialisable, local to shards, and a refinement of one flat map of peers in which counters
are cardinalities and a collection is a filter. `StoreEffects` says in minutes and peers what each step
does, and over whole runs exactly when a peer is resident.

**The front ends.** `UdpWire`, `UdpLayout`, `ConnIds`, `UdpHandlers` and `UdpSessions` for UDP; `HttpQuery`,
`HttpParams`, `HttpHandlers`, `Bencode` and `Bodies` for HTTP; `ScrapeRuns` for scrapes that others are
served in the middle of; `FrontEnds` for the two protocols side by side. Every codec is
proved against the client's side of it: a printer of requests and a decoder of replies.

`Bytes`, `Core`, `Sequences`, `Replies` and `Arith` hold what these share.

## What was found

- *An honest slow seeder can be banned.* The comments and a test of the detector promise that an honest
  low-activity seeder is never flagged, because the behavioural checks look only at fast sources. But
  every event refreshes the time of the last sighting, and a client whose connection id has expired
  must send a connect right before its announce, which then looks fast. With the shipped settings such
  a client, announcing every `p` seconds, is banned in the end if and only if its announce outweighs
  the decay of a period (`p` is less than sixty times its weight), or weighs the whole threshold, which
  takes nine rounds in an empty swarm (`L7Reconnect.ReconnectingBannedIff`). A seeder of files it already
  had is banned exactly if it announces more often than every fifty minutes
  (`L7Reconnect.QuietSeederBannedIff`): at half an hour, on its fourth announce and not before
  (`L7Reconnect.SlowSeederBanned`). The shape of one announce is harmless exactly if no event of any kind
  came within the fast gap before it, or no gated check can fire at all (`L7Slow.ShapeHarmlessIff`);
  sources for which the former always holds are never banned (`L7Slow.HonestNeverBanned`,
  `L7Runs.HonestInAnyCrowd`).
- *Eviction does not always take the least recently seen entry*, as the comment on `touch` says. It does
  exactly if fewer than eight entries are more recent than the least recent one
  (`L7Eviction.EvictsOldestIff`); a run of ten sources in which it does not is `L7Runs.FresherVictim`.
- *HTTP scrape bodies need not be canonical bencode.* Keys stand in the order asked, repetitions
  included; the dictionary is canonical exactly if the hashes were asked for in strictly ascending
  order (`Bodies.ScrapeBodyRead`, `Bodies.RepeatedHashNotCanonical`).
- *The two clocks of the front ends part* at minute 2^32: the UDP handler wraps, the HTTP one saturates
  (`FrontEnds.MinutesAgreeIff`).

## Model

| member | source | states |
|---|---|---|
| PeerLists.SeedsAreResident | crates/bf-core/src/store.rs:65-67 | Seeders and leechers partition the residents, so the difference that counts leechers never underflows and is the number of peers not seeding. |
| PeerLists.PeerList.Announce | crates/bf-core/src/store.rs:71-101 | The cached seeder count stays the number of seeding residents, a download is counted exactly at the first real completion of a residency, and a completed peer stays completed. |
| PeerLists.OncePerResidency | crates/bf-core/src/store.rs:71-101 | As long as a peer stays, whatever it and others announce, it is counted at most once and never after it has completed, and it is marked completed exactly if it was or has been counted. |
| PeerLists.PeerList.Remove | crates/bf-core/src/store.rs:104-110 | Removes one peer, keeps the count right, and never touches the downloads. |
| PeerLists.PeerList.WriteCompact | crates/bf-core/src/store.rs:113-126 | For any iteration order of the map, appends exactly the leechers then the seeders in that order, cut at the number wanted. |
| PeerLists.MayListIff | crates/bf-core/src/store.rs:113-126 | A list may be answered if and only if it is as many different residents as wanted and possible, nobody still downloading stands behind somebody seeding, and nobody seeding is listed while one still downloading is left out. |
| PeerLists.PeerList.Expire | crates/bf-core/src/store.rs:129-137 | Keeps exactly the peers seen within the timeout, with saturating subtraction, and recounts the seeders. |
| PeerLists.DownloadsConserved | crates/bf-core/src/store.rs:71-137 | In every run of a list, downloads equal completed residents plus completed peers that have left, removed or expired. |
| Replies.CompactIsReply | crates/bf-core/src/store.rs:113-126 | Whatever the iteration order, the list is duplicate-free, as long as wanted and possible, leechers first, and has no seeder unless every leecher is there. |
| Replies.ReplyIsCompact | crates/bf-core/src/store.rs:113-126 | Conversely every such list is produced by some iteration order, so the description is exact. |
| Stores.Tally | crates/bf-core/src/store.rs:155-161 | Counters computed from the cached numbers equal the cardinalities over both families, truncated to 32 bits. |
| Stores.Store.Announce | crates/bf-core/src/store.rs:223-256 | One torrent changes and all others stay; the counters are those of the new state and the bytes appended are a list the new residents allow. |
| Stores.Store.Remove | crates/bf-core/src/store.rs:259-282 | Only the peer leaves, an unknown torrent is not created, and the counters are those of the new state. |
| Stores.Store.Scrape | crates/bf-core/src/store.rs:286-289 | Counters by cardinality, zeros for an unknown torrent. |
| Stores.Store.SweepTorrent | crates/bf-core/src/store.rs:295-299 | The closure of `retain`: expires both lists and drops the torrent exactly if it is then empty and long idle. |
| Stores.Store.SweepShard | crates/bf-core/src/store.rs:293-299 | One critical section of the collector changes the torrents of its shard and no other. |
| Stores.Store.Gc | crates/bf-core/src/store.rs:292-301 | A whole collection, shard by shard, is one collection of the whole map. |
| Stores.Store.TorrentCount | crates/bf-core/src/store.rs:201-203 | The sum over shards is the number of tracked torrents. |
| Stores.Store.Sample | crates/bf-core/src/store.rs:208-219 | The sums of cached numbers are the cardinalities of the sets of all seeding and all leeching peers. |
| Stores.SampleShard | crates/bf-core/src/store.rs:210-217 | The inner loop of `totals` adds exactly the peers of one shard. |
| StoreRuns.RunIsLocal | crates/bf-core/src/store.rs:194-301 | In every run the state of a shard and the answers given there depend only on the steps that hit it. |
| StoreRuns.GcSerialisable | crates/bf-core/src/store.rs:292-301 | A collection interleaved with requests at every shard boundary ends in the state, and gives the answers, of a serial run: early requests, an atomic collection, late requests. |
| StoreRuns.SweepsAreGc | crates/bf-core/src/store.rs:292-301 | Visiting the remaining shards one after the other completes a collection of the whole store. |
| StoreRuns.GcAbsorbs | crates/bf-core/src/store.rs:129-168 | A later collection makes an earlier one redundant. |
| StoreRuns.DownloadsGrow | crates/bf-core/src/store.rs:71-168 | No run, collections included, ever loses a recorded download of a torrent. |
| StoreRuns.ScrapedDownloadsGrow | crates/bf-core/src/store.rs:155-168 | The scraped number never decreases as long as it fits the 32 bits it is reported in. |
| StoreFlat.FlatRefined | crates/bf-core/src/store.rs:194-301 | In every run, with collections cutting in anywhere, the sharded store gives exactly the answers of one flat map of peers that never drops a torrent. |
| StoreFlat.FlatRefinedFromStart | crates/bf-core/src/store.rs:187-192 | The same for every run from start-up. |
| StoreFlat.SameCounts | crates/bf-core/src/store.rs:155-161 | The cached counters of a torrent are cardinalities over the flat map. |
| StoreFlat.TotalsAreFlat | crates/bf-core/src/store.rs:208-219 | The sampled totals are cardinalities over the flat map. |
| StoreFlat.CollectionUnobservable | crates/bf-core/src/store.rs:292-301 | After a collection and after a mere expiry of peers, every future run is answered alike: dropping idle torrents cannot be observed. |
| StoreEffects.ShardIsTop10 | crates/bf-core/src/store.rs:194-197 | The shard of a torrent is the first byte and the top two bits of the second. |
| StoreEffects.JoinEffect | crates/bf-core/src/store.rs:223-256 | An announce registers one peer with its flags and the minute, keeps a completion it had, counts a download exactly at a first real one and makes the torrent active that minute; every other peer and torrent is as it was. |
| StoreEffects.LeaveEffect | crates/bf-core/src/store.rs:259-282 | A goodbye removes one peer, makes a known torrent active that minute, keeps its downloads and creates nothing. |
| StoreEffects.SweepEffect | crates/bf-core/src/store.rs:129-137 | At minute `at`, a peer of the shard stays, with its value, if and only if it was resident and `at` is less than 45 minutes after it was last seen; other shards are as they were. |
| StoreEffects.DroppedIff | crates/bf-core/src/store.rs:163-168 | The collector drops a torrent if and only if it keeps nobody, never had a download and was last announced to or left 24 hours ago or more. |
| StoreEffects.CountersCount | crates/bf-core/src/store.rs:155-161 | Complete and incomplete count the seeding and the other peers of both families, downloads add up, each modulo 2^32; zeros for an unknown torrent. |
| StoreEffects.StaysIff | crates/bf-core/src/store.rs:71-137 | Over any run without its announce, a resident peer stays, untouched, if and only if it says no goodbye and the collector does not come to its shard 45 minutes or more after it was last seen. |
| StoreEffects.ResidentIff | crates/bf-core/src/store.rs:71-137 | Whatever came before, a peer whose last announce was at minute t is resident if and only if there was no goodbye since and no visit to its shard at t + 45 or later. |
| StoreEffects.ResidentWhileFresh | crates/bf-core/src/store.rs:71-137 | A peer that keeps announcing in time is never lost, whatever else is served and collected. |
| L7Detector.Client.Decay | crates/bf-l7/src/lib.rs:265-274 | Gap, score, anchor and last sighting after whole intervals of decay, saturations included. |
| L7Detector.Client.Observe | crates/bf-l7/src/lib.rs:278-302 | The loop over the ring reports exactly whether some remembered announce of the torrent is too recent, has another key, or another peer id, and then overwrites the oldest slot. |
| L7Detector.Client.Widen | crates/bf-l7/src/lib.rs:305-308 | The torrent's bucket joins the set of buckets touched; the count is the size of that set, one more exactly if the bucket is new. |
| L7Detector.Oldest | crates/bf-l7/src/lib.rs:431-436 | The minimum over some sample of at most eight entries. |
| L7Detector.Detector.Touch | crates/bf-l7/src/lib.rs:425-443 | Room is made by the eviction rule only for a newcomer to a full shard; the source is decayed, or new with no gap to speak of. |
| L7Detector.Detector.Cross | crates/bf-l7/src/lib.rs:380-389 | Over the threshold and outside the last ban, and then the cooldown starts. |
| L7Detector.Detector.StatelessScore | crates/bf-l7/src/lib.rs:349-375 | The weights of the single-packet checks, without overflow. |
| L7Detector.Detector.IdentityScore | crates/bf-l7/src/lib.rs:454-474 | The weights of the interval, churn and client checks, and the announce recorded. |
| L7Detector.Detector.EnumerationScore | crates/bf-l7/src/lib.rs:477-488 | The weights of the lonely-swarm and breadth checks, with the run and the bitmap updated. |
| L7Detector.Detector.OnAnnounce | crates/bf-l7/src/lib.rs:447-493 | One client changes as one event changes it, a ban decision registers one offence, and the verdict carries its tier. |
| L7Detector.Detector.OnConnidMismatch | crates/bf-l7/src/lib.rs:497-505 | The same for a mismatch. |
| L7Detector.Detector.OnScrape | crates/bf-l7/src/lib.rs:510-523 | The same for a scrape. |
| L7Detector.Detector.OnConnect | crates/bf-l7/src/lib.rs:530-541 | The same for a connect. |
| L7Detector.Detector.Decide | crates/bf-l7/src/lib.rs:392-400 | No ban leaves the registry alone; a ban is one offence and its tier. |
| L7Detector.Detector.RecordOffence | crates/bf-l7/src/lib.rs:405-421 | Counts one offence of one source, making room by the eviction rule, and returns the capped tier. |
| L7Detector.Detector.Tracked | crates/bf-l7/src/lib.rs:545-547 | The sum over shards is the number of tracked sources. |
| L7Bucket.AnchorOnGrid | crates/bf-l7/src/lib.rs:265-274 | The decay anchor is always a whole number of intervals after the first sighting, the last one the clock has reached. |
| L7Bucket.ScoreStep | crates/bf-l7/src/lib.rs:265-274 | One event drains what the intervals crossed are worth, adds its weight and saturates. |
| L7Bucket.LazyIsEager | crates/bf-l7/src/lib.rs:265-274 | For every history the lazily decayed score equals that of a bucket that leaks at every boundary, second by second. |
| L7Bucket.ScoreWitness | crates/bf-l7/src/lib.rs:265-274 | The score never exceeds what some suffix of the history accounts for. |
| L7Bucket.ClosedForm | crates/bf-l7/src/lib.rs:265-274 | The score is the maximum over all suffixes, at every point, if and only if no suffix outgrows 32 bits. |
| L7Bucket.BanWitness | crates/bf-l7/src/lib.rs:380-389 | Every ban has a suffix of events whose weight reaches the threshold after decay. |
| L7Bans.SuppressedUntil | crates/bf-l7/src/lib.rs:380-389 | The suppression time is that of the latest ban and bounds all earlier ones. |
| L7Bans.BanLaw | crates/bf-l7/src/lib.rs:380-389 | An event is a ban if and only if the score has reached the threshold and every earlier ban of the residency is at least the cooldown ago. |
| L7Bans.BansAreSpaced | crates/bf-l7/src/lib.rs:380-389 | Bans inside a window are spread over it at least a cooldown apart. |
| L7Bans.BanRate | crates/bf-l7/src/lib.rs:380-389 | A window of length L holds at most L / cooldown + 1 bans. |
| L7History.SummariesAgree | crates/bf-l7/src/lib.rs:278-308 | At every point of every history the ring is the last eight announces, the counters are the lengths of the runs they stand for, and the bitmap is the image of the torrents announced fast. |
| L7History.SignalsScanHistory | crates/bf-l7/src/lib.rs:278-302 | The three identity signals are scans of the last eight announces of the history. |
| L7History.BreadthUnderestimates | crates/bf-l7/src/lib.rs:305-308 | The breadth estimate is the number of buckets of the torrents announced fast, and never exceeds their number. |
| L7Weights.AnnounceWeighs | crates/bf-l7/src/lib.rs:454-489 | Every announce weighs exactly the checks that fire, summed: trivial key, declared address, the gated shape, and, as scans of the last eight announces before it, too soon, key churned, peer id churned, besides an unknown client, the run of lonely announces and the buckets announced fast. |
| L7Weights.OthersWeigh | crates/bf-l7/src/lib.rs:497-541 | A mismatch always weighs, a scrape by its size, a connect exactly if more than the burst went unused since the last announce or scrape, itself included. |
| L7Weights.UnusedSince | crates/bf-l7/src/lib.rs:510-541 | The unused connects are those since the last announce or scrape; mismatches do not count and do not reset. |
| L7Weights.ShippedWeights | crates/bf-l7/src/lib.rs:153-188 | The same with every shipped weight, gap and threshold as a number. |
| L7Weights.FingerprintLooksAtTail | crates/bf-l7/src/lib.rs:234-239 | The peer-id fingerprint ignores the first eight bytes and tells apart any two ids that differ in one of the last twelve. |
| L7Weights.BucketIs | crates/bf-l7/src/lib.rs:241-247 | The breadth bucket is the top six bits of the wrapped product of the first eight bytes, little-endian, with the golden-ratio constant. |
| L7Flood.MismatchFloodIff | crates/bf-l7/src/lib.rs:497-505 | As shipped, forged ids every p seconds are banned in the end if and only if p is under 900. |
| L7Flood.ScrapeFloodIff | crates/bf-l7/src/lib.rs:510-523 | Scrapes are banned in the end if and only if they ask for 32 hashes or more every p seconds with p under 900. |
| L7Flood.ConnectFloodIff | crates/bf-l7/src/lib.rs:530-541 | Unused connects are banned in the end if and only if they come every p seconds with p under 1500. |
| L7Flood.AnnounceFloodIff | crates/bf-l7/src/lib.rs:447-493 | For every habit of announcing one torrent (keys and ids fresh or not, keys trivial, client unknown, any shape) and every period: banned in the end if and only if an announce weighs more than a period decays, or its weight alone reaches the threshold within the clock. |
| L7Flood.ChurnFloodIff | crates/bf-l7/src/lib.rs:463-471 | A new key each time, or a new peer id, and nothing else amiss: banned in the end if and only if the period is under 2100 seconds. |
| L7Slow.SlowScore | crates/bf-l7/src/lib.rs:265-274 | If every event weighs at most w and the gaps between those that weigh anything decay at least w, the score never exceeds what is left of one such weight, whatever weightless events come in between. |
| L7Slow.SlowNeverBanned | crates/bf-l7/src/lib.rs:380-389 | Such a source is never banned when w is below the threshold. |
| L7Slow.HonestScoresNothing | crates/bf-l7/src/lib.rs:447-541 | A source whose announces are in order and not fast, whose scrapes are small and connects few, keeps a score of zero, whatever the swarm, port, bytes or peers wanted. |
| L7Slow.HonestNeverBanned | crates/bf-l7/src/lib.rs:145-149 | Such a source is never banned. |
| L7Slow.CleanWeight | crates/bf-l7/src/lib.rs:454-489 | What an announce whose identity is in order weighs, from the history: nothing unless it counts as fast, else the gated checks for its shape, the lonely run and the buckets so far. |
| L7Slow.ShapeHarmlessIff | crates/bf-l7/src/lib.rs:457-461 | The shape of an announce is harmless if and only if no event of any kind came from the source within the fast gap before it or no gated check can fire, for every configuration. |
| L7Reconnect.RoundScores | crates/bf-l7/src/lib.rs:265-274 | Round by round, the score of a client that reconnects before each announce: the connect drains and adds nothing, the announce adds the weight of its shape. |
| L7Reconnect.ScoreGrows | crates/bf-l7/src/lib.rs:265-274 | For every configuration, from the round on from which its rounds weigh w, the score is at least what has come in less what has drained. |
| L7Reconnect.NeverBanned | crates/bf-l7/src/lib.rs:380-389 | For every configuration, if a period decays what a round weighs and that is below the threshold, such a client is never banned. |
| L7Reconnect.ReconnectingBannedIff | crates/bf-l7/src/lib.rs:143-149 | With the shipped settings, for every shape of announce in order and every period the tracker allows, such a client is banned in some round if and only if the period is shorter than sixty times its weight or nine rounds fit the clock and it weighs the threshold. |
| L7Reconnect.QuietSeederBannedIff | crates/bf-l7/src/lib.rs:143-149 | A quiet seeder of files it already had is banned in some round if and only if its period is under 3000 seconds. |
| L7Reconnect.SlowSeederBanned | crates/bf-l7/src/lib.rs:143-149 | Announcing every half hour it is banned on its fourth announce and by no event before. |
| L7Eviction.VictimIff | crates/bf-l7/src/lib.rs:431-436 | An entry can be evicted if and only if at least as many entries as the sample holds, itself included, were seen no earlier. |
| L7Eviction.EvictsOldestIff | crates/bf-l7/src/lib.rs:423-438 | Eviction always takes a least recent entry if and only if fewer than eight entries are more recent than the least recent one. |
| L7Alone.HandledWithRoom | crates/bf-l7/src/lib.rs:425-443 | With room for the newcomer nobody is evicted and the outcome is determined. |
| L7Alone.SourcesIndependent | crates/bf-l7/src/lib.rs:343-345 | In any run without evictions the verdicts of a source are those of a fresh detector fed only its events. |
| L7Runs.RunExplained | crates/bf-l7/src/lib.rs:405-541 | In every run of the two critical sections, under every interleaving and with every allowed eviction: each client is a function of its own residency, the registry counts offences, bans decided are bans registered plus bans pending, and both maps stay within their caps. |
| L7Runs.HandledIsTwoSteps | crates/bf-l7/src/lib.rs:447-493 | One call of the detector is one scoring step and, exactly for a ban, one registering step. |
| L7Runs.TiersEscalate | crates/bf-l7/src/lib.rs:405-421 | While the registry does not forget a source its tiers are 0, 1, 2 and so on up to the cap, in order, whatever happens to its client. |
| L7Runs.EscalationUnderConcurrency | crates/bf-l7/src/lib.rs:392-421 | Then bans decided equal tiers given plus bans pending, and the tiers are exactly the escalation sequence. |
| L7Runs.BansWitnessed | crates/bf-l7/src/lib.rs:380-389 | Every ban in every concurrent run is accounted for by events of that very source since it was last evicted. |
| L7Runs.HonestInAnyCrowd | crates/bf-l7/src/lib.rs:145-149 | An honest source is never banned, whatever all others do, however the sections interleave and whoever is evicted. |
| L7Runs.FresherVictim | crates/bf-l7/src/lib.rs:423-438 | A reachable full shard of nine sources in which the tenth can displace the second oldest and leave the oldest. |
| L7Bounds.MemoryIsBounded | crates/bf-l7/src/lib.rs:332-341 | In every run no shard, by last address byte modulo 16, remembers more than max(1, entries / 16) sources, all together no more than max(16, entries), and the registry no more than its own maximum. |
| L7Bounds.ScoreDisplaces | crates/bf-l7/src/lib.rs:425-438 | A scoring step can displace somebody if and only if the source is new and its shard holds its share; and exactly one of that shard with at least eight, or all, seen no earlier. |
| L7Bounds.ScoreLeaves | crates/bf-l7/src/lib.rs:425-443 | The source is just seen, in place of whom it displaced; everyone else and the registry are as they were. |
| L7Bounds.RegisterForgets | crates/bf-l7/src/lib.rs:405-416 | Registering a ban forgets somebody if and only if the offender is new and the registry full and not empty; and exactly one with at least eight, or all, last banned no earlier. |
| L7Bounds.RegisterLeaves | crates/bf-l7/src/lib.rs:417-421 | One more offence at the time of the ban, the tier that the earlier ones give, one pending ban fewer, everyone else as they were. |
| L7Bounds.VerdictSays | crates/bf-l7/src/lib.rs:380-400 | A call is a ban if and only if the new score has reached the threshold and bans are no longer suppressed; it carries the configured length and the tier, counts one offence and suppresses further bans for the cooldown; otherwise registry and suppression stay. |
| L7Bounds.ShippedBounds | crates/bf-l7/src/lib.rs:153-188 | As shipped: 62,500 sources a shard, a million together, five million offenders, bans of an hour, an hour apart, and tiers 0, 1, 2 and then 3. |
| ConnIds.NewConnId | crates/bf-core/src/connid.rs:20-25 | A zero window is clamped, any other is kept. |
| ConnIds.ValidIff | crates/bf-core/src/connid.rs:27-47 | An id is the MAC under the secret key of the address and the window number; it is valid if and only if it is that of the current or, past the first window, the previous one. |
| ConnIds.AcceptedForAWindow | crates/bf-core/src/connid.rs:38-47 | An id is accepted from its address for at least a whole window after it was issued. |
| ConnIds.AcceptedIff | crates/bf-core/src/connid.rs:38-47 | Unless the MAC collides on the windows checked, an id is accepted if and only if it comes from its own address between the start of its window and its expiry, which is more than one window and at most two after it was issued. |
| Core.EventCodes | crates/bf-core/src/lib.rs:53-59 | Code 1 alone is completed and code 3 alone is stopped; every other code is no event. |
| Core.PeerKeyReads | crates/bf-udp/src/lib.rs:46-58 | Address and port are read back out of a listed key. |
| Bytes.BeRoundTrips | crates/bf-proto/src/udp.rs:100-113 | Big-endian fields of 2, 4 and 8 bytes are read back as written. |
| Bytes.BigEndian | crates/bf-proto/src/udp.rs:100-113 | Fields of 2 and 4 bytes, byte by byte, most significant first. |
| Bytes.BigEndianHalves | crates/bf-proto/src/udp.rs:100-113 | A field of 8 bytes is two of 4, the higher first. |
| UdpLayout.ConnectLayout | crates/bf-proto/src/udp.rs:134-140 | Exactly the magic number, action 0 and a transaction are taken for a connect. |
| UdpLayout.RefusedIff | crates/bf-proto/src/udp.rs:126-169 | A datagram is refused for each of the four reasons exactly when it is too short, a connect with another protocol id, an announce cut short, or of an action above 2. |
| UdpLayout.AnnounceLayout | crates/bf-proto/src/udp.rs:141-159 | A datagram is an announce if and only if it has 98 bytes and action 1, and every field is at its offset, the number wanted in two's complement. |
| UdpLayout.ScrapeLayout | crates/bf-proto/src/udp.rs:160-167 | Action 2 is a scrape of the whole 20-byte strides from byte 16 on, seventy-five at most. |
| UdpLayout.ConnectReplyLayout | crates/bf-proto/src/udp.rs:173-177 | Each field of the reply at its offset. |
| UdpLayout.AnnounceReplyLayout | crates/bf-proto/src/udp.rs:182-197 | The same for an announce: leechers at 12, seeders at 16, peers from 20. |
| UdpLayout.ScrapeReplyLayout | crates/bf-proto/src/udp.rs:201-212 | The same for each entry of a scrape: seeders, downloads, leechers. |
| UdpLayout.ErrorReplyLayout | crates/bf-proto/src/udp.rs:216-221 | The same for an error. |
| UdpWire.ConnectParses | crates/bf-proto/src/udp.rs:126-140 | A printed connect is parsed, whatever follows it. |
| UdpWire.AnnounceParses | crates/bf-proto/src/udp.rs:141-159 | A printed announce is parsed field by field, negative peer counts included, whatever follows its 98 bytes. |
| UdpWire.ParsedAnnounceIff | crates/bf-proto/src/udp.rs:141-159 | A datagram is parsed as an announce if and only if its first 98 bytes are that announce as printed. |
| UdpWire.ScrapeStrides | crates/bf-proto/src/udp.rs:80-84 | The hashes of any parsed scrape are the consecutive whole 20-byte strides, seventy-five at most. |
| UdpWire.ScrapeParses | crates/bf-proto/src/udp.rs:160-167 | A printed scrape is parsed hash by hash, cut at the cap, a partial hash at the end ignored. |
| UdpWire.ReplyDecodes | crates/bf-proto/src/udp.rs:173-221 | A client decodes each of the four replies to what the tracker wrote. |
| UdpWire.WriteConnect | crates/bf-proto/src/udp.rs:173-177 | Writes the reply's bytes over the front of the buffer and leaves the rest. |
| UdpWire.WriteAnnounce | crates/bf-proto/src/udp.rs:182-197 | The same for an announce, with the length written. |
| UdpWire.WriteScrape | crates/bf-proto/src/udp.rs:201-212 | The same for a scrape, entry by entry. |
| UdpWire.WriteError | crates/bf-proto/src/udp.rs:216-221 | The same for an error. |
| UdpHandlers.Handler.Handle | crates/bf-udp/src/lib.rs:70-124 | Garbage and forged ids leave store and buffer alone and are told apart; anything else gets one reply that fills the buffer, from the store as it was or as the announce left it. |
| UdpHandlers.Handler.ApplyAnnounce | crates/bf-udp/src/lib.rs:127-163 | The announce takes the store to the state its submission means; counters and appended peers are answers of the store. |
| UdpHandlers.Handler.Collect | crates/bf-udp/src/lib.rs:108-115 | One entry per hash, in order. |
| UdpSessions.IdOpens | crates/bf-udp/src/lib.rs:90-110 | A well-formed announce or scrape is taken for what it is meant to be if its id is valid and for a mismatch if not. |
| UdpSessions.DatagramFate | crates/bf-udp/src/lib.rs:70-124 | Whatever the bytes: dropped if and only if garbled, a mismatch if and only if an announce or scrape carries no valid id, neither touching buffer or store; anything else is answered with its own action and transaction, and only an announce changes the store. |
| UdpSessions.Handshake | crates/bf-udp/src/lib.rs:82-110 | The id read out of a connect reply, put into any well-formed request from the same address within the next whole window, is honoured. |
| UdpSessions.HandshakeLasts | crates/bf-udp/src/lib.rs:82-110 | Unless the MAC collides, it is honoured for the same address until its expiry, and is a mismatch from then on or from elsewhere. |
| UdpSessions.AnnounceReplyRead | crates/bf-udp/src/lib.rs:90-107 | What a client reads: the torrent's counters over both families (at the bytes the runtime reads back), and exactly as many distinct peers of its family as it may have and exist, leechers first, itself resident, in at most 1220 or 1208 bytes. |
| UdpSessions.AnnounceRegisters | crates/bf-udp/src/lib.rs:127-163 | The peer is resident, seen this minute and seeding exactly if nothing is left; all others are untouched; one more download exactly at a first real completion. |
| UdpSessions.StopReplyRead | crates/bf-udp/src/lib.rs:145-151 | A client that stops is no longer listed and is listed nobody. |
| UdpSessions.ScrapeReplyRead | crates/bf-udp/src/lib.rs:108-122 | One entry per hash asked for, in order, with the torrent's counters by cardinality over the flat map. |
| ScrapeRuns.ScrapeAmongOthers | crates/bf-udp/src/lib.rs:108-122 | In any interleaved run each entry a client reads is the answer to its own look-up at its own point, the counters by cardinality over the flat map at that moment, and decided by the steps that had reached its shard. |
| ScrapeRuns.UndisturbedScrape | crates/bf-udp/src/lib.rs:108-122 | If only look-ups are served meanwhile, all entries are those of one state of the store. |
| ScrapeRuns.DownloadsDuringScrape | crates/bf-core/src/store.rs:286-301 | A torrent asked for twice in one scrape never shows fewer downloads the second time, collections included. |
| Bencode.DecodeEnc | crates/bf-proto/src/bencode.rs:13-57 | A recursive decoder recovers every value and leaves what follows untouched. |
| Bencode.EncDecode | crates/bf-proto/src/bencode.rs:13-57 | What the decoder accepts is the encoding of what it returns. |
| Bencode.DecodeIff | crates/bf-proto/src/bencode.rs:13-57 | Decoding is the exact inverse of encoding: one encoding per value, none a prefix of another. |
| Bencode.Forms | crates/bf-proto/src/bencode.rs:13-57 | The four forms with their letters, lengths and terminators. |
| Bencode.DecimalText | crates/bf-proto/src/bencode.rs:53-56 | Numbers in base ten, most significant digit first, without leading zeros. |
| Bytes.ParseDecimal | crates/bf-proto/src/bencode.rs:53-56 | A number printed in decimal is read back, and refused exactly if it does not fit. |
| Bytes.ParseUnsignedIff | crates/bf-http/src/lib.rs:130-137 | A text is a number if and only if it is a plus sign or nothing, then digits alone, of a value that fits. |
| Bodies.Encoder.Int | crates/bf-proto/src/bencode.rs:20-25 | Appends the encoding of an integer. |
| Bodies.Encoder.Bytes | crates/bf-proto/src/bencode.rs:28-33 | Appends the encoding of a byte string. |
| Bodies.AnnounceResponse | crates/bf-proto/src/bencode.rs:62-86 | The streamed body is the encoding of the intended dictionary. |
| Bodies.ScrapeResponse | crates/bf-proto/src/bencode.rs:89-104 | The loop streams the encoding of the intended nested dictionaries. |
| Bodies.Failure | crates/bf-proto/src/bencode.rs:107-113 | The streamed body is the encoding of a failure. |
| Bodies.AnnounceBodyRead | crates/bf-proto/src/bencode.rs:62-86 | A client decodes it, whatever bytes the peer strings hold, to a canonical dictionary with each value under its own key and no failure reason. |
| Bodies.ScrapeBodyRead | crates/bf-proto/src/bencode.rs:89-104 | A client decodes it to one file per hash asked for; it is canonical if and only if the hashes ascend strictly. |
| Bodies.FileFound | crates/bf-proto/src/bencode.rs:92-102 | Under a hash the client finds its counters, however often it was asked for. |
| Bodies.CountsRead | crates/bf-proto/src/bencode.rs:92-102 | Each counter of a file stands under its own name. |
| Bodies.RepeatedHashNotCanonical | crates/bf-proto/src/bencode.rs:92-102 | Asking for one hash twice gets a dictionary that is not canonical. |
| Bodies.FailureBodyRead | crates/bf-proto/src/bencode.rs:107-113 | A client decodes a failure to its reason. |
| HttpQuery.PercentDecode | crates/bf-http/src/lib.rs:47-72 | The index loop accepts exactly the texts with well-formed escapes and appends what they decode to, or what stands before the first malformed escape. |
| HttpQuery.SpellingDecodes | crates/bf-http/src/lib.rs:47-72 | Decoding inverts every spelling of every byte string: raw bytes, plus for space, escapes in either case. |
| HttpQuery.DecodedIsSpelling | crates/bf-http/src/lib.rs:47-72 | And accepts nothing but spellings. |
| HttpQuery.EscapeAllSpells | crates/bf-http/src/lib.rs:37-44 | Every byte string has a spelling, in digits of either case. |
| HttpQuery.QueryReads | crates/bf-http/src/lib.rs:75-80 | Pairs joined into a query are read back pair by pair. |
| HttpQuery.Spellings | crates/bf-http/src/lib.rs:47-72 | A byte stands for itself, plus for a space, and percent with two hexadecimal digits for their value; anything else after percent is refused. |
| HttpQuery.HexDigits | crates/bf-http/src/lib.rs:37-44 | Which characters are digits, and their values. |
| HttpQuery.PartedByAmpersand | crates/bf-http/src/lib.rs:75-80 | Pairs are parted by ampersands, empty ones left out. |
| HttpQuery.KeyEndsAtEquals | crates/bf-http/src/lib.rs:75-80 | A key ends at the first equals sign, and has an empty value without one. |
| HttpParams.Scan | crates/bf-http/src/lib.rs:116-152 | The loop over the pairs computes the fold that the next row characterises. |
| HttpParams.ScanSays | crates/bf-http/src/lib.rs:116-152 | A query is rejected if and only if some pair in it is bad; otherwise each parameter is what its own last mention says, in whatever order and company. |
| HttpParams.QuerySays | crates/bf-http/src/lib.rs:116-152 | A query is refused if and only if a hash does not decode to 20 bytes, a port is no number up to 65535, or compact is 0; otherwise a missing or malformed left makes a leecher, and the number wanted is the last number given, 200 at most, or 50. |
| HttpParams.WantedIs | crates/bf-http/src/lib.rs:202-217 | A scrape asks for what its pairs mention up to the cap; what lies behind the cap may even be malformed. |
| HttpHandlers.HttpHandler.Handle | crates/bf-http/src/lib.rs:91-106 | Redirect, not found, rejection and failure leave the store alone; an announce takes it to the state its submission means; bodies encode the store's answers. |
| HttpHandlers.HttpHandler.Announce | crates/bf-http/src/lib.rs:108-200 | The same for an announce query, with the peers in the field of the client's family and the other field empty. |
| HttpHandlers.HttpHandler.Submit | crates/bf-http/src/lib.rs:162-195 | The store's part of it: flags, key and whether it is a removal. |
| HttpHandlers.HttpHandler.Collect | crates/bf-http/src/lib.rs:202-218 | The loop of a scrape finds the counters of the hashes mentioned, up to the cap, or refuses. |
| FrontEnds.AnnounceTargetMeans | crates/bf-http/src/lib.rs:91-200 | Any target whose pairs say what an announce says reaches the store as that announce. |
| FrontEnds.UsualPairsSayTheSame | crates/bf-http/src/lib.rs:108-200 | Every announce has such a target, with its hash in any spelling. |
| FrontEnds.SameEffect | crates/bf-http/src/lib.rs:108-200 | A UDP announce with a valid id and an HTTP announce saying the same, at the same time from the same address, take any store to the same store and are answered with the same counters. |
| FrontEnds.MinutesAgreeIff | crates/bluefrog/src/main.rs:250-255 | The two front ends' minutes agree exactly until 2^32 minutes, and again at each last minute of a wrapped cycle. |
| FrontEnds.ScrapeTargetMeans | crates/bf-http/src/lib.rs:202-222 | A scrape target asks for the hashes its pairs spell, seventy-five at most. |
| FrontEnds.HttpAnnounceRead | crates/bf-http/src/lib.rs:162-200 | What a client reads: counters, interval and half of it, exactly as many distinct peers of its family as it may have and exist, leechers first, and none of the other. |
| FrontEnds.AnnounceTold | crates/bf-http/src/lib.rs:108-200 | From the target to the reply: for any query with a hash and a port that refuses nothing and says no goodbye, the peer is resident, seen that minute and seeding exactly if nothing is left, and the client reads that store, with min(n, 200) peers for the last number wanted n, or 50. |
| FrontEnds.GoodbyeTold | crates/bf-http/src/lib.rs:165-170 | A goodbye removes the peer and is told the counters and nobody. |
| FrontEnds.AnnounceRefusedIff | crates/bf-http/src/lib.rs:116-160 | An announce target is rejected if and only if a pair is refused, and otherwise incomplete if and only if the hash or the port is missing. |
| FrontEnds.ScrapeRefusedIff | crates/bf-http/src/lib.rs:202-217 | A scrape target is rejected if and only if one of the first 75 hashes does not decode to 20 bytes. |
| FrontEnds.TurnedAway | crates/bf-http/src/lib.rs:91-160 | The root redirects, an unknown path is not found, a refused query is a bad request, and an incomplete announce is told the failure reason. |
| FrontEnds.HttpScrapeRead | crates/bf-http/src/lib.rs:202-222 | What a client reads: under each hash the torrent's counters by cardinality over the flat map. |
| FrontEnds.RefusedLeavesNoTrace | crates/bf-http/src/lib.rs:91-200 | A request answered by a redirect, an error or a failure reason has not touched the store. |

## Left out

- Sockets, tasks, signals, the clock task, jitter and OS randomness of `crates/bluefrog/src/main.rs`: the clock, the interval and the source address are parameters.
- `crates/bf-nft`, `crates/bf-config`, `crates/bf-metrics` and the deployment files: foreign state, a flat match and independent counters would add only easy members.
- The inside of BLAKE3: the MAC is an arbitrary function of key, address and window, and collisions are excluded only on the windows checked and only where that is stated.
- The list of known client prefixes: an arbitrary predicate of the configuration.
- Ownership: a torrent owns its lists and a map owns its torrents and clients, so these are values in the maps, borrowed into an object, updated in place and put back under the lock; aliasing and moves are not modelled.
- Iteration orders of hash maps are arbitrary, and so are the samples taken for eviction.
- Counters of type `usize` and `u64` inside the store are unbounded; the casts that report them truncate as in the source.
- The peer flag byte is modelled bit by bit and the breadth bitmap as 64 booleans.
- UdpHandlers.Handler.Handle: describes a scrape that nobody is served in the middle of; what its entries are otherwise is stated by `ScrapeRuns.ScrapeAmongOthers` over runs, not by the method.
- HttpHandlers.HttpHandler.Handle: the same for an HTTP scrape, which looks its hashes up in the same way.
- L7Slow.HonestNeverBanned: a sufficient condition; for clients that reconnect before each announce, `L7Reconnect.ReconnectingBannedIff` is the exact one.
- L7Reconnect.ReconnectingBannedIff: one torrent at a fixed period under the shipped settings; for other settings `L7Reconnect.NeverBanned` and `L7Reconnect.ScoreGrows` give the two bounds.
- L7Bucket.ClosedForm: needs the weights of one announce to sum to at most 32 bits, as everything about the detector does, because the source adds them without saturation.
- Text is modelled as bytes: that request targets are valid UTF-8 is not used.
