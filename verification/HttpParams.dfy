/** What the queries of `/announce` and `/scrape` say: one pass over the pairs that updates parameters
    and may reject, against what the whole list of pairs says. */
module HttpParams {
  import opened Bytes
  import opened Core
  import opened HttpQuery

  const NUMWANT_MAX: nat := 200
  const NUMWANT_DEFAULT: nat := 50
  const MAX_SCRAPE_HASHES: nat := 75

  /** `hash` and `port` are missing until a pair gives them. */
  datatype Params = Params(hash: Option<InfoHash>, port: Option<u16>, left: u64, event: seq<byte>, numwant: nat)

  const NO_PARAMS := Params(None, None, 1, [], NUMWANT_DEFAULT)

  function HashOf(raw: seq<byte>): Option<InfoHash> {
    var b := Decoded(raw);
    if b.Some? && |b.value| == HASH_LEN then Some(b.value) else None
  }

  predicate IsBad(p: Pair) {
    || (p.key == Ascii("info_hash") && HashOf(p.raw).None?)
    || (p.key == Ascii("port") && ParseUnsigned(p.raw, U16_MAX).None?)
    || (p.key == Ascii("compact") && p.raw == Ascii("0"))
  }

  /** A malformed `left` makes a leecher, a malformed `numwant` is ignored. */
  function Taken(ps: Params, p: Pair): Params
    requires !IsBad(p)
  {
    if p.key == Ascii("info_hash") then ps.(hash := HashOf(p.raw))
    else if p.key == Ascii("port") then ps.(port := Some(ParseUnsigned(p.raw, U16_MAX).value))
    else if p.key == Ascii("left") then ps.(left := LeftOf(p.raw))
    else if p.key == Ascii("event") then ps.(event := p.raw)
    else if p.key == Ascii("numwant") && ParseUnsigned(p.raw, U64_MAX).Some? then
      ps.(numwant := Min(ParseUnsigned(p.raw, U64_MAX).value, NUMWANT_MAX))
    else ps
  }

  function LeftOf(raw: seq<byte>): u64 {
    var n := ParseUnsigned(raw, U64_MAX);
    if n.Some? then n.value else 1
  }

  /** The parameters after all pairs, unless one is rejected. */
  function Scanned(pairs: seq<Pair>): Option<Params> {
    if pairs == [] then Some(NO_PARAMS) else
      var before, p := Scanned(pairs[..|pairs| - 1]), pairs[|pairs| - 1];
      if before.None? || IsBad(p) then None else Some(Taken(before.value, p))
  }

  // ---------------------------------------------------------------- what the whole list says

  predicate SomeBad(pairs: seq<Pair>) {
    exists i :: 0 <= i < |pairs| && IsBad(pairs[i])
  }

  /** The value given last for a key. */
  function LastRaw(pairs: seq<Pair>, key: seq<byte>): Option<seq<byte>> {
    if pairs == [] then None
    else if pairs[|pairs| - 1].key == key then Some(pairs[|pairs| - 1].raw)
    else LastRaw(pairs[..|pairs| - 1], key)
  }

  predicate IsNumwant(p: Pair) {
    p.key == Ascii("numwant") && ParseUnsigned(p.raw, U64_MAX).Some?
  }

  /** The number in the last `numwant` that is one. */
  function LastNumwant(pairs: seq<Pair>): Option<nat> {
    if pairs == [] then None
    else if IsNumwant(pairs[|pairs| - 1]) then ParseUnsigned(pairs[|pairs| - 1].raw, U64_MAX)
    else LastNumwant(pairs[..|pairs| - 1])
  }

  function OrElse<T>(o: Option<T>, default: T): T {
    if o.Some? then o.value else default
  }

  /** Each parameter is what its own last mention says. */
  ghost predicate Says(pairs: seq<Pair>, ps: Params) {
    var hash, port, left := LastRaw(pairs, Ascii("info_hash")), LastRaw(pairs, Ascii("port")), LastRaw(pairs, Ascii("left"));
    && ps.hash == (if hash.Some? then HashOf(hash.value) else None)
    && (hash.Some? ==> ps.hash.Some?)
    && (port.Some? <==> ps.port.Some?)
    && (port.Some? ==> ParseUnsigned(port.value, U16_MAX) == Some(ps.port.value))
    && ps.left == (if left.Some? then LeftOf(left.value) else 1)
    && ps.event == OrElse(LastRaw(pairs, Ascii("event")), [])
    && ps.numwant == Min(OrElse(LastNumwant(pairs), NUMWANT_DEFAULT), NUMWANT_MAX)
  }

  /** One bad pair anywhere rejects the query; otherwise every parameter is what its own last mention
      says, whatever the order and whatever else is there. */
  lemma {:induction false} ScanSays(pairs: seq<Pair>)
    ensures Scanned(pairs).None? <==> SomeBad(pairs)
    ensures Scanned(pairs).Some? ==> Says(pairs, Scanned(pairs).value)
  {
    hide IsBad, Taken, SomeBad, Says;
    BadSoFar([], Pair([], []));
    if pairs == [] {
      NothingSaid();
    } else {
      var front, p := pairs[..|pairs| - 1], pairs[|pairs| - 1];
      assert pairs == front + [p];
      ScanSays(front);
      BadSoFar(front, p);
      if Scanned(pairs).Some? {
        TakenSays(front, Scanned(front).value, p);
      }
    }
  }

  /** Why a query is refused: a hash that does not decode to twenty bytes, a port that is not a number
      up to 65535, or `compact=0`. */
  predicate Refusable(p: Pair) {
    || (p.key == Ascii("info_hash") && (Decoded(p.raw).None? || |Decoded(p.raw).value| != 20))
    || (p.key == Ascii("port") && ParseUnsigned(p.raw, 65535).None?)
    || (p.key == Ascii("compact") && p.raw == Ascii("0"))
  }

  /** The number in the last pair with this key whose value is a number. */
  function LastNumber(pairs: seq<Pair>, key: seq<byte>): Option<nat> {
    if pairs == [] then None
    else
      var p := pairs[|pairs| - 1];
      if p.key == key && ParseUnsigned(p.raw, 0xFFFF_FFFF_FFFF_FFFF).Some? then ParseUnsigned(p.raw, 0xFFFF_FFFF_FFFF_FFFF)
      else LastNumber(pairs[..|pairs| - 1], key)
  }

  /** What an announce query says, in plain terms. A `left` that is missing or no number makes a leecher;
      `numwant` is the last number given, two hundred at most, or fifty. */
  lemma {:induction false} QuerySays(pairs: seq<Pair>)
    ensures Scanned(pairs).None? <==> exists i :: 0 <= i < |pairs| && Refusable(pairs[i])
    ensures Scanned(pairs).Some? ==>
              var ps, left, n := Scanned(pairs).value, LastRaw(pairs, Ascii("left")), LastNumber(pairs, Ascii("numwant"));
              var hash, port, event := LastRaw(pairs, Ascii("info_hash")), LastRaw(pairs, Ascii("port")), LastRaw(pairs, Ascii("event"));
              && (ps.hash.Some? <==> hash.Some?) && (hash.Some? ==> Decoded(hash.value) == Some(ps.hash.value))
              && (ps.port.Some? <==> port.Some?) && (port.Some? ==> ParseUnsigned(port.value, 65535) == Some(ps.port.value))
              && (left.None? || ParseUnsigned(left.value, 0xFFFF_FFFF_FFFF_FFFF).None? ==> ps.left == 1)
              && (left.Some? && ParseUnsigned(left.value, 0xFFFF_FFFF_FFFF_FFFF).Some? ==>
                    ps.left == ParseUnsigned(left.value, 0xFFFF_FFFF_FFFF_FFFF).value)
              && ps.event == (if event.Some? then event.value else [])
              && ps.numwant == (if n.None? then 50 else if n.value < 200 then n.value else 200)
  {
    hide Scanned, Taken, ParseUnsigned, Decoded, LastRaw, LastNumwant, LastNumber;
    ScanSays(pairs);
    LastNumberIs(pairs);
    forall i | 0 <= i < |pairs| ensures IsBad(pairs[i]) <==> Refusable(pairs[i]) {
    }
  }

  lemma {:induction false} LastNumberIs(pairs: seq<Pair>)
    ensures LastNumwant(pairs) == LastNumber(pairs, Ascii("numwant"))
  {
    hide ParseUnsigned;
    if pairs != [] {
      LastNumberIs(pairs[..|pairs| - 1]);
    }
  }

  lemma NothingSaid()
    ensures Says([], NO_PARAMS)
  {
  }

  lemma TakenSays(front: seq<Pair>, ps: Params, p: Pair)
    requires Says(front, ps) && !IsBad(p)
    ensures Says(front + [p], Taken(ps, p))
  {
    hide HashOf, ParseUnsigned, LastRaw, LastNumwant, LeftOf;
    NamesDiffer();
    LastPush(front, p);
  }

  lemma LastPush(front: seq<Pair>, p: Pair)
    ensures forall key :: LastRaw(front + [p], key) == if p.key == key then Some(p.raw) else LastRaw(front, key)
    ensures LastNumwant(front + [p]) == if IsNumwant(p) then ParseUnsigned(p.raw, U64_MAX) else LastNumwant(front)
  {
    hide IsNumwant, ParseUnsigned;
    assert (front + [p])[..|front|] == front;
  }

  lemma BadSoFar(front: seq<Pair>, p: Pair)
    ensures !SomeBad([])
    ensures SomeBad(front + [p]) <==> SomeBad(front) || IsBad(p)
  {
    hide IsBad;
    var pairs := front + [p];
    if i :| 0 <= i < |front| && IsBad(front[i]) {
      assert IsBad(pairs[i]);
    }
    if IsBad(p) {
      assert IsBad(pairs[|front|]);
    }
  }

  /** Names of the same length differ in their first byte. */
  lemma NamesDiffer()
    ensures Ascii("port") != Ascii("left") && Ascii("compact") != Ascii("numwant")
    ensures |Ascii("info_hash")| == 9 && |Ascii("port")| == 4 && |Ascii("left")| == 4
    ensures |Ascii("event")| == 5 && |Ascii("compact")| == 7 && |Ascii("numwant")| == 7
  {
    assert Ascii("port")[0] == 112 && Ascii("left")[0] == 108;
    assert Ascii("compact")[0] == 99 && Ascii("numwant")[0] == 110;
  }

  /** The pass itself, over a query. */
  method Scan(pairs: seq<Pair>) returns (params: Option<Params>)
    ensures params == Scanned(pairs)
  {
    hide Decoded, ParseUnsigned;
    var hash: Option<InfoHash>, port: Option<u16> := None, None;
    var left: u64, event: seq<byte>, numwant: nat := 1, [], NUMWANT_DEFAULT;
    var buf := new ByteBuf();
    NamesDiffer();
    for i := 0 to |pairs|
      invariant Scanned(pairs[..i]) == Some(Params(hash, port, left, event, numwant))
      modifies buf
    {
      var key, raw := pairs[i].key, pairs[i].raw;
      ScannedNext(pairs, i);
      if key == Ascii("info_hash") {
        buf.Clear();
        var ok := PercentDecode(raw, buf);
        if !ok || |buf.data| != HASH_LEN {
          assert ok ==> Decoded(raw).value == buf.data by {
            assert ok ==> buf.data == [] + Decoded(raw).value;
          }
          assert IsBad(pairs[i]);
          return None;
        }
        assert buf.data == Decoded(raw).value;
        hash := Some(buf.data);
        assert HashOf(raw) == hash;
      } else if key == Ascii("port") {
        var p := ParseUnsigned(raw, U16_MAX);
        if p.None? {
          return None;
        }
        port := Some(p.value);
      } else if key == Ascii("left") {
        var n := ParseUnsigned(raw, U64_MAX);
        left := if n.Some? then n.value else 1;
      } else if key == Ascii("event") {
        event := raw;
      } else if key == Ascii("compact") {
        if raw == Ascii("0") {
          return None;
        }
      } else if key == Ascii("numwant") {
        var n := ParseUnsigned(raw, U64_MAX);
        if n.Some? {
          numwant := Min(n.value, NUMWANT_MAX);
        }
      }
      assert !IsBad(pairs[i]);
      assert Some(Params(hash, port, left, event, numwant)) == Some(Taken(Scanned(pairs[..i]).value, pairs[i]));
    }
    assert pairs[..|pairs|] == pairs;
    params := Some(Params(hash, port, left, event, numwant));
  }

  lemma {:induction false} ScannedNext(pairs: seq<Pair>, i: nat)
    requires i < |pairs|
    ensures var before := Scanned(pairs[..i]);
            && (before.None? || IsBad(pairs[i]) ==> Scanned(pairs) == None)
            && (before.Some? && !IsBad(pairs[i]) ==> Scanned(pairs[..i + 1]) == Some(Taken(before.value, pairs[i])))
    decreases |pairs|
  {
    hide IsBad, Taken;
    assert pairs[..i + 1][..i] == pairs[..i];
    if i < |pairs| - 1 {
      var front := pairs[..|pairs| - 1];
      assert front[..i] == pairs[..i];
      ScannedNext(front, i);
    }
  }

  // ---------------------------------------------------------------- scrape

  /** The values of all `info_hash` pairs. */
  function Mentioned(pairs: seq<Pair>): seq<seq<byte>> {
    if pairs == [] then [] else
      Mentioned(pairs[..|pairs| - 1])
      + if pairs[|pairs| - 1].key == Ascii("info_hash") then [pairs[|pairs| - 1].raw] else []
  }

  /** The hashes a scrape asks for: the first seventy-five mentioned, if they are all well-formed. What
      is mentioned after them is not even looked at. */
  function Wanted(pairs: seq<Pair>): Option<seq<InfoHash>> {
    var raws := Mentioned(pairs);
    AllHashes(raws[..Min(|raws|, MAX_SCRAPE_HASHES)])
  }

  function AllHashes(raws: seq<seq<byte>>): (r: Option<seq<InfoHash>>)
    ensures r.Some? ==> |r.value| == |raws| && forall i :: 0 <= i < |raws| ==> HashOf(raws[i]) == Some(r.value[i])
    ensures (forall i :: 0 <= i < |raws| ==> HashOf(raws[i]).Some?) ==> r.Some?
  {
    if raws == [] then Some([]) else
      var before, h := AllHashes(raws[..|raws| - 1]), HashOf(raws[|raws| - 1]);
      if before.None? || h.None? then None else Some(before.value + [h.value])
  }

  lemma {:induction false} MentionedPrefix(pairs: seq<Pair>, i: nat)
    requires i <= |pairs|
    ensures Mentioned(pairs[..i]) <= Mentioned(pairs)
    decreases |pairs|
  {
    if i < |pairs| {
      var front := pairs[..|pairs| - 1];
      assert front[..i] == pairs[..i];
      MentionedPrefix(front, i);
    } else {
      assert pairs[..i] == pairs;
    }
  }

  /** A scrape asks for what its pairs mention, cut at the cap; what lies behind the cap may even be
      malformed. */
  lemma WantedIs(pairs: seq<Pair>, hashes: seq<InfoHash>)
    requires |hashes| == Min(|Mentioned(pairs)|, MAX_SCRAPE_HASHES)
    requires forall i :: 0 <= i < |hashes| ==> HashOf(Mentioned(pairs)[i]) == Some(hashes[i])
    ensures Wanted(pairs) == Some(hashes)
  {
    hide Mentioned, HashOf, AllHashes;
    var raws := Mentioned(pairs)[..|hashes|];
    forall i | 0 <= i < |hashes| ensures HashOf(raws[i]) == Some(hashes[i]) {
      assert raws[i] == Mentioned(pairs)[i];
    }
    var found := AllHashes(raws);
    forall i | 0 <= i < |hashes| ensures found.value[i] == hashes[i] {
      assert HashOf(raws[i]) == Some(found.value[i]);
    }
    assert found.value == hashes;
  }

  /** One of the first seventy-five does not decode to twenty bytes. */
  predicate SomeNoHash(raws: seq<seq<byte>>) {
    exists i :: 0 <= i < |raws| && i < 75 && NoHash(raws[i])
  }

  predicate NoHash(raw: seq<byte>) {
    Decoded(raw).None? || |Decoded(raw).value| != 20
  }

  lemma {:induction false} WantedNoneIff(pairs: seq<Pair>)
    ensures Wanted(pairs).None? <==> SomeNoHash(Mentioned(pairs))
  {
    hide Mentioned, Decoded, AllHashes;
    var raws := Mentioned(pairs);
    var cut := raws[..Min(|raws|, 75)];
    forall i | 0 <= i < |cut| ensures cut[i] == raws[i] && (HashOf(cut[i]).None? <==> NoHash(raws[i])) {
    }
    if i :| 0 <= i < |cut| && HashOf(cut[i]).None? {
      assert NoHash(raws[i]);
    }
    if i :| 0 <= i < |raws| && i < 75 && NoHash(raws[i]) {
      assert HashOf(cut[i]).None?;
    }
  }
}
