/** The streaming bencode writer, and the announce, scrape and failure bodies written with it. */
module Bodies {
  import opened Bytes
  import opened Core
  import opened StoreSpec
  import opened Bencode

  // ---------------------------------------------------------------- the intended dictionaries

  function CountEntries(c: Counts): Entries {
    Entry(Ascii("complete"), Int(c.complete),
    Entry(Ascii("downloaded"), Int(c.downloaded),
    Entry(Ascii("incomplete"), Int(c.incomplete), NoEntries)))
  }

  function PeerEntries(peers4: seq<byte>, peers6: seq<byte>): Entries {
    Entry(Ascii("peers"), Str(peers4),
    Entry(Ascii("peers6"), Str(peers6), NoEntries))
  }

  function IntervalEntries(interval: u32, more: Entries): Entries {
    Entry(Ascii("interval"), Int(interval),
    Entry(Ascii("min interval"), Int(interval / 2), more))
  }

  /** The body of an announce reply. */
  function AnnounceBody(c: Counts, interval: u32, peers4: seq<byte>, peers6: seq<byte>): Value {
    Dict(Entry(Ascii("complete"), Int(c.complete),
         Entry(Ascii("downloaded"), Int(c.downloaded),
         Entry(Ascii("incomplete"), Int(c.incomplete), IntervalEntries(interval, PeerEntries(peers4, peers6))))))
  }

  datatype File = File(hash: InfoHash, counts: Counts)

  function FileEntries(files: seq<File>): Entries {
    if files == [] then NoEntries
    else Entry(files[0].hash, Dict(CountEntries(files[0].counts)), FileEntries(files[1..]))
  }

  /** The body of a scrape reply. */
  function ScrapeBody(files: seq<File>): Value {
    Dict(Entry(Ascii("files"), Dict(FileEntries(files)), NoEntries))
  }

  function FailureBody(reason: seq<byte>): Value {
    Dict(Entry(Ascii("failure reason"), Str(reason), NoEntries))
  }

  // ---------------------------------------------------------------- writing a dictionary entry by entry

  /** What stands in the buffer once the remaining entries are written behind `written`. */
  ghost function Finished(written: seq<byte>, entries: Entries): seq<byte>
    decreases entries
  {
    match entries
    case NoEntries => written
    case Entry(key, value, more) => Finished(written + EncStr(key) + Enc(value), more)
  }

  lemma {:induction false} FinishedIs(written: seq<byte>, entries: Entries)
    ensures Finished(written, entries) == written + EncEntries(entries)
    decreases entries
  {
    hide Enc, EncStr;
    match entries
    case NoEntries =>
      assert written + [] == written;
    case Entry(key, value, more) =>
      FinishedIs(written + EncStr(key) + Enc(value), more);
      assert written + EncStr(key) + Enc(value) + EncEntries(more) == written + (EncStr(key) + Enc(value) + EncEntries(more));
  }

  /** An open dictionary that is finished and closed is the encoding of the dictionary. */
  lemma DictFinished(before: seq<byte>, entries: Entries)
    ensures Finished(before + [CHAR_D], entries) + [CHAR_E] == before + Enc(Dict(entries))
  {
    FinishedIs(before + [CHAR_D], entries);
    assert before + [CHAR_D] + EncEntries(entries) + [CHAR_E] == before + ([CHAR_D] + EncEntries(entries) + [CHAR_E]);
  }

  /** The streaming writer over a caller-owned buffer. */
  class Encoder {
    const out: ByteBuf

    constructor (out: ByteBuf)
      ensures this.out == out
    {
      this.out := out;
    }

    method WriteUint(v: u64)
      modifies out
      ensures out.data == old(out.data) + Decimal(v)
    {
      out.Extend(Decimal(v));
    }

    method Int(v: u64)
      modifies out
      ensures out.data == old(out.data) + Enc(Value.Int(v))
    {
      ghost var start := out.data;
      out.Push(CHAR_I);
      WriteUint(v);
      out.Push(CHAR_E);
      assert start + [CHAR_I] + Decimal(v) + [CHAR_E] == start + ([CHAR_I] + Decimal(v) + [CHAR_E]);
    }

    method Bytes(b: seq<byte>)
      requires |b| < 0x1_0000_0000_0000_0000
      modifies out
      ensures out.data == old(out.data) + EncStr(b)
    {
      ghost var start := out.data;
      WriteUint(|b|);
      out.Push(COLON);
      out.Extend(b);
      assert start + Decimal(|b|) + [COLON] + b == start + (Decimal(|b|) + [COLON] + b);
    }

    method Dict()
      modifies out
      ensures out.data == old(out.data) + [CHAR_D]
    {
      out.Push(CHAR_D);
    }

    method List()
      modifies out
      ensures out.data == old(out.data) + [CHAR_L]
    {
      out.Push(CHAR_L);
    }

    method End()
      modifies out
      ensures out.data == old(out.data) + [CHAR_E]
    {
      out.Push(CHAR_E);
    }

    /** The `complete`, `downloaded` and `incomplete` entries, which two bodies share. */
    method Tallies(c: Counts, ghost more: Entries)
      modifies out
      ensures Finished(out.data, more) ==
              Finished(old(out.data), Entry(Ascii("complete"), Value.Int(c.complete),
                                      Entry(Ascii("downloaded"), Value.Int(c.downloaded),
                                      Entry(Ascii("incomplete"), Value.Int(c.incomplete), more))))
    {
      hide Enc, EncStr;
      ghost var e3 := Entry(Ascii("incomplete"), Value.Int(c.incomplete), more);
      ghost var e2 := Entry(Ascii("downloaded"), Value.Int(c.downloaded), e3);
      ghost var e1 := Entry(Ascii("complete"), Value.Int(c.complete), e2);
      ghost var all := Finished(out.data, e1);
      Bytes(Ascii("complete"));
      Int(c.complete);
      assert all == Finished(out.data, e2);
      Bytes(Ascii("downloaded"));
      Int(c.downloaded);
      assert all == Finished(out.data, e3);
      Bytes(Ascii("incomplete"));
      Int(c.incomplete);
    }
  }

  method AnnounceResponse(out: ByteBuf, c: Counts, interval: u32, peers4: seq<byte>, peers6: seq<byte>)
    requires |peers4| < 0x1_0000_0000_0000_0000 && |peers6| < 0x1_0000_0000_0000_0000
    modifies out
    ensures out.data == old(out.data) + Enc(AnnounceBody(c, interval, peers4, peers6))
  {
    hide Enc, EncStr;
    ghost var e7 := Entry(Ascii("peers6"), Str(peers6), NoEntries);
    ghost var e6 := Entry(Ascii("peers"), Str(peers4), e7);
    ghost var e5 := Entry(Ascii("min interval"), Int(interval / 2), e6);
    ghost var e4 := Entry(Ascii("interval"), Int(interval), e5);
    ghost var body := AnnounceBody(c, interval, peers4, peers6);
    DictFinished(out.data, body.entries);
    StrIsValue(peers4);
    StrIsValue(peers6);
    var e := new Encoder(out);
    e.Dict();
    ghost var all := Finished(out.data, body.entries);
    e.Tallies(c, e4);
    assert all == Finished(out.data, e4);
    e.Bytes(Ascii("interval"));
    e.Int(interval);
    assert all == Finished(out.data, e5);
    e.Bytes(Ascii("min interval"));
    e.Int(interval / 2);
    assert all == Finished(out.data, e6);
    e.Bytes(Ascii("peers"));
    e.Bytes(peers4);
    assert all == Finished(out.data, e7);
    e.Bytes(Ascii("peers6"));
    e.Bytes(peers6);
    assert all == Finished(out.data, NoEntries);
    e.End();
  }

  lemma StrIsValue(b: seq<byte>)
    ensures Enc(Str(b)) == EncStr(b)
  {
  }

  method ScrapeResponse(out: ByteBuf, files: seq<File>)
    modifies out
    ensures out.data == old(out.data) + Enc(ScrapeBody(files))
  {
    hide Enc, EncStr;
    ghost var start := out.data;
    DictFinished(start, ScrapeBody(files).entries);
    var e := new Encoder(out);
    e.Dict();
    e.Bytes(Ascii("files"));
    ghost var inner := out.data;
    assert Finished(start + [CHAR_D], ScrapeBody(files).entries) == inner + Enc(Dict(FileEntries(files)));
    DictFinished(inner, FileEntries(files));
    e.Dict();
    ghost var all := Finished(out.data, FileEntries(files));
    for i := 0 to |files|
      invariant all == Finished(out.data, FileEntries(files[i..]))
    {
      ghost var before, rest := out.data, FileEntries(files[i + 1..]);
      FilesFrom(files, i);
      e.Bytes(files[i].hash);
      ghost var keyed := out.data;
      DictFinished(keyed, CountEntries(files[i].counts));
      e.Dict();
      e.Tallies(files[i].counts, NoEntries);
      e.End();
      assert out.data == keyed + Enc(Dict(CountEntries(files[i].counts)));
      assert Finished(before, Entry(files[i].hash, Dict(CountEntries(files[i].counts)), rest)) == Finished(out.data, rest);
    }
    e.End();
    e.End();
  }

  lemma FilesFrom(files: seq<File>, i: nat)
    requires i < |files|
    ensures FileEntries(files[i..]) == Entry(files[i].hash, Dict(CountEntries(files[i].counts)), FileEntries(files[i + 1..]))
  {
    assert files[i..][1..] == files[i + 1..];
  }

  method Failure(out: ByteBuf, reason: seq<byte>)
    requires |reason| < 0x1_0000_0000_0000_0000
    modifies out
    ensures out.data == old(out.data) + Enc(FailureBody(reason))
  {
    hide Enc, EncStr;
    DictFinished(out.data, FailureBody(reason).entries);
    StrIsValue(reason);
    var e := new Encoder(out);
    e.Dict();
    e.Bytes(Ascii("failure reason"));
    e.Bytes(reason);
    e.End();
  }

  // ---------------------------------------------------------------- canonical dictionaries

  /** Keys in strictly ascending order, here and in every dictionary inside. */
  ghost predicate Canonical(v: Value) {
    match v
    case Int(_) => true
    case Str(_) => true
    case List(items) => CanonicalItems(items)
    case Dict(entries) => CanonicalEntries(entries)
  }

  ghost predicate CanonicalItems(items: Items) {
    match items
    case NoItems => true
    case Item(head, tail) => Canonical(head) && CanonicalItems(tail)
  }

  ghost predicate CanonicalEntries(entries: Entries) {
    match entries
    case NoEntries => true
    case Entry(key, value, more) =>
      Canonical(value) && CanonicalEntries(more) && (more.Entry? ==> Before(key, more.key))
  }

  /** The value a client finds under a key: the first there is. */
  function Lookup(entries: Entries, key: seq<byte>): Option<Value> {
    match entries
    case NoEntries => None
    case Entry(k, value, more) => if k == key then Some(value) else Lookup(more, key)
  }

  lemma KeyOrder()
    ensures Before(Ascii("complete"), Ascii("downloaded"))
    ensures Before(Ascii("downloaded"), Ascii("incomplete"))
    ensures Before(Ascii("incomplete"), Ascii("interval"))
    ensures Before(Ascii("interval"), Ascii("min interval"))
    ensures Before(Ascii("min interval"), Ascii("peers"))
    ensures Before(Ascii("peers"), Ascii("peers6"))
  {
    assert FirstDifference(Ascii("complete"), Ascii("downloaded"), 0);
    assert FirstDifference(Ascii("downloaded"), Ascii("incomplete"), 0);
    assert FirstDifference(Ascii("incomplete"), Ascii("interval"), 2);
    assert FirstDifference(Ascii("interval"), Ascii("min interval"), 0);
    assert FirstDifference(Ascii("min interval"), Ascii("peers"), 0);
    assert FirstDifference(Ascii("peers"), Ascii("peers6"), 5);
  }

  /** What one entry more adds to a dictionary. */
  lemma EntryAdds(key: seq<byte>, value: Value, more: Entries)
    ensures forall k :: Lookup(Entry(key, value, more), k) == if key == k then Some(value) else Lookup(more, k)
    ensures CanonicalEntries(Entry(key, value, more))
            <==> Canonical(value) && CanonicalEntries(more) && (more.Entry? ==> Before(key, more.key))
  {
  }

  /** A client decodes an announce body, whatever bytes the peer strings hold and whatever follows, to
      a canonical dictionary with each counter, interval and peer string under its own key. */
  lemma {:induction false} AnnounceBodyRead(c: Counts, interval: u32, peers4: seq<byte>, peers6: seq<byte>, rest: seq<byte>)
    ensures var r := Decode(Enc(AnnounceBody(c, interval, peers4, peers6)) + rest);
            && r.Got? && r.rest == rest && r.value.Dict? && Canonical(r.value)
            && Lookup(r.value.entries, Ascii("complete")) == Some(Int(c.complete))
            && Lookup(r.value.entries, Ascii("downloaded")) == Some(Int(c.downloaded))
            && Lookup(r.value.entries, Ascii("incomplete")) == Some(Int(c.incomplete))
            && Lookup(r.value.entries, Ascii("interval")) == Some(Int(interval))
            && Lookup(r.value.entries, Ascii("min interval")) == Some(Int(interval / 2))
            && Lookup(r.value.entries, Ascii("peers")) == Some(Str(peers4))
            && Lookup(r.value.entries, Ascii("peers6")) == Some(Str(peers6))
            && Lookup(r.value.entries, Ascii("failure reason")) == None
  {
    hide Enc, Decode, Before, Lookup, CanonicalEntries;
    var body := AnnounceBody(c, interval, peers4, peers6);
    DecodeEnc(body, rest);
    KeyOrder();
    KeysDiffer();
    var e7 := Entry(Ascii("peers6"), Str(peers6), NoEntries);
    var e6 := Entry(Ascii("peers"), Str(peers4), e7);
    var e5 := Entry(Ascii("min interval"), Int(interval / 2), e6);
    var e4 := Entry(Ascii("interval"), Int(interval), e5);
    var e3 := Entry(Ascii("incomplete"), Int(c.incomplete), e4);
    var e2 := Entry(Ascii("downloaded"), Int(c.downloaded), e3);
    NoEntryYet();
    EntryAdds(Ascii("peers6"), Str(peers6), NoEntries);
    EntryAdds(Ascii("peers"), Str(peers4), e7);
    EntryAdds(Ascii("min interval"), Int(interval / 2), e6);
    EntryAdds(Ascii("interval"), Int(interval), e5);
    EntryAdds(Ascii("incomplete"), Int(c.incomplete), e4);
    EntryAdds(Ascii("downloaded"), Int(c.downloaded), e3);
    EntryAdds(Ascii("complete"), Int(c.complete), e2);
  }

  lemma NoEntryYet()
    ensures CanonicalEntries(NoEntries) && forall k :: Lookup(NoEntries, k) == None
  {
  }

  /** Keys of the same length differ in their first byte. */
  lemma KeysDiffer()
    ensures Ascii("complete") != Ascii("interval") && Ascii("downloaded") != Ascii("incomplete")
    ensures |Ascii("failure reason")| == 14
  {
    assert Ascii("complete")[0] == 99 && Ascii("interval")[0] == 105;
    assert Ascii("downloaded")[0] == 100 && Ascii("incomplete")[0] == 105;
  }

  lemma CountsCanonical(c: Counts)
    ensures Canonical(Dict(CountEntries(c)))
  {
    hide Before, CanonicalEntries;
    KeyOrder();
    NoEntryYet();
    var e3 := Entry(Ascii("incomplete"), Int(c.incomplete), NoEntries);
    EntryAdds(Ascii("incomplete"), Int(c.incomplete), NoEntries);
    EntryAdds(Ascii("downloaded"), Int(c.downloaded), e3);
    EntryAdds(Ascii("complete"), Int(c.complete), Entry(Ascii("downloaded"), Int(c.downloaded), e3));
  }

  /** The counters of a file of a scrape, each under its own name. */
  lemma CountsRead(c: Counts)
    ensures Lookup(CountEntries(c), Ascii("complete")) == Some(Int(c.complete))
    ensures Lookup(CountEntries(c), Ascii("downloaded")) == Some(Int(c.downloaded))
    ensures Lookup(CountEntries(c), Ascii("incomplete")) == Some(Int(c.incomplete))
  {
    hide Lookup;
    KeysDiffer();
    NoEntryYet();
    var e3 := Entry(Ascii("incomplete"), Int(c.incomplete), NoEntries);
    EntryAdds(Ascii("incomplete"), Int(c.incomplete), NoEntries);
    EntryAdds(Ascii("downloaded"), Int(c.downloaded), e3);
    EntryAdds(Ascii("complete"), Int(c.complete), Entry(Ascii("downloaded"), Int(c.downloaded), e3));
  }

  lemma {:induction false} FilesCanonical(files: seq<File>)
    ensures CanonicalEntries(FileEntries(files))
            <==> forall i :: 0 <= i < |files| - 1 ==> Before(files[i].hash, files[i + 1].hash)
    decreases |files|
  {
    hide Before;
    if files != [] {
      var rest := files[1..];
      FilesCanonical(rest);
      CountsCanonical(files[0].counts);
      if rest != [] {
        assert FileEntries(rest).key == files[1].hash;
      }
      if forall i :: 0 <= i < |rest| - 1 ==> Before(rest[i].hash, rest[i + 1].hash) {
        forall i | 1 <= i < |files| - 1 ensures Before(files[i].hash, files[i + 1].hash) {
          assert Before(rest[i - 1].hash, rest[i].hash);
        }
      } else {
        var i :| 0 <= i < |rest| - 1 && !Before(rest[i].hash, rest[i + 1].hash);
        assert !Before(files[i + 1].hash, files[i + 1 + 1].hash);
      }
    }
  }

  /** A scrape body always decodes to one file per hash asked for, in the order asked; and it is a
      canonical dictionary exactly if the hashes were asked for in strictly ascending order, since
      the writer neither sorts nor drops repetitions. */
  lemma ScrapeBodyRead(files: seq<File>, rest: seq<byte>)
    ensures Decode(Enc(ScrapeBody(files)) + rest) == Got(ScrapeBody(files), rest)
    ensures Canonical(ScrapeBody(files))
            <==> forall i :: 0 <= i < |files| - 1 ==> Before(files[i].hash, files[i + 1].hash)
  {
    hide Before, CanonicalEntries, FileEntries;
    DecodeEnc(ScrapeBody(files), rest);
    FilesCanonical(files);
    NoEntryYet();
    EntryAdds(Ascii("files"), Dict(FileEntries(files)), NoEntries);
  }

  /** Under a hash the client finds its counters, however often it was asked for. */
  lemma {:induction false} FileFound(files: seq<File>, i: nat)
    requires i < |files| && forall j :: 0 <= j < i && files[j].hash == files[i].hash ==> files[j] == files[i]
    ensures Lookup(FileEntries(files), files[i].hash) == Some(Dict(CountEntries(files[i].counts)))
    decreases |files|
  {
    if i > 0 && files[0].hash != files[i].hash {
      FileFound(files[1..], i - 1);
    }
  }

  /** Asking for one hash twice gets a dictionary with a repeated key. */
  lemma RepeatedHashNotCanonical(hash: InfoHash, c: Counts)
    ensures !Canonical(ScrapeBody([File(hash, c), File(hash, c)]))
  {
    var files := [File(hash, c), File(hash, c)];
    ScrapeBodyRead(files, []);
    BeforeIsStrict(hash);
    assert !Before(files[0].hash, files[0 + 1].hash);
  }

  /** A client decodes a failure body to its reason. */
  lemma {:induction false} FailureBodyRead(reason: seq<byte>, rest: seq<byte>)
    ensures var r := Decode(Enc(FailureBody(reason)) + rest);
            && r.Got? && r.rest == rest && r.value.Dict? && Canonical(r.value)
            && Lookup(r.value.entries, Ascii("failure reason")) == Some(Str(reason))
            && Lookup(r.value.entries, Ascii("peers")) == None
  {
    hide Enc, Decode, CanonicalEntries;
    DecodeEnc(FailureBody(reason), rest);
    NoEntryYet();
    EntryAdds(Ascii("failure reason"), Str(reason), NoEntries);
  }
}
