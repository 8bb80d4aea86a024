/** The list of peers in an announce reply: which lists the two passes over an unordered map can
    produce, said with and without an iteration order. */
module Replies {
  import opened Arith
  import opened Bytes
  import opened Sequences

  /** What is listed when the map is iterated in `order`: leechers, then seeders, cut at `numwant`. */
  function Compact<T(==)>(order: seq<T>, leeches: set<T>, seeds: set<T>, numwant: nat): seq<T> {
    var all := Pick(order, leeches) + Pick(order, seeds);
    all[..Min(numwant, |all|)]
  }

  /** As many distinct residents as were asked for and exist, leechers first, and no seeder unless
      every leecher is there. */
  ghost predicate IsReply<T>(leeches: set<T>, seeds: set<T>, numwant: nat, keys: seq<T>) {
    && |keys| == Min(numwant, |leeches + seeds|)
    && Distinct(keys)
    && (forall i :: 0 <= i < |keys| ==> keys[i] in leeches + seeds)
    && (forall i, j :: 0 <= i < j < |keys| && keys[i] in seeds ==> keys[j] in seeds)
    && ((exists i :: 0 <= i < |keys| && keys[i] in seeds) ==> forall k | k in leeches :: k in keys)
  }

  /** Whatever the iteration order, the list is one that `IsReply` allows ... */
  lemma CompactIsReply<T>(order: seq<T>, leeches: set<T>, seeds: set<T>, numwant: nat)
    requires leeches !! seeds && IsOrder(order, leeches + seeds)
    ensures IsReply(leeches, seeds, numwant, Compact(order, leeches, seeds, numwant))
  {
    PickOrder(order, leeches + seeds, leeches);
    PickOrder(order, leeches + seeds, seeds);
    CutIsReply(Pick(order, leeches), Pick(order, seeds), leeches, seeds, numwant);
  }

  lemma CutIsReply<T>(l: seq<T>, s: seq<T>, leeches: set<T>, seeds: set<T>, numwant: nat)
    requires leeches !! seeds && IsOrder(l, leeches) && IsOrder(s, seeds)
    ensures IsReply(leeches, seeds, numwant, (l + s)[..Min(numwant, |l + s|)])
  {
    DistinctSize(l, leeches);
    DistinctSize(s, seeds);
    JoinedAt(l, s, leeches, seeds);
    var keys := (l + s)[..Min(numwant, |l + s|)];
    forall i, k | 0 <= i < |keys| && keys[i] in seeds && k in leeches ensures k in keys {
      var m :| 0 <= m < |l| && l[m] == k;
      assert keys[m] == k;
    }
  }

  lemma JoinedAt<T>(l: seq<T>, s: seq<T>, leeches: set<T>, seeds: set<T>)
    requires leeches !! seeds && IsOrder(l, leeches) && IsOrder(s, seeds)
    ensures forall i :: 0 <= i < |l + s| ==> (l + s)[i] in leeches + seeds && ((l + s)[i] in seeds <==> i >= |l|)
    ensures Distinct(l + s)
  {
    forall i | 0 <= i < |l + s| ensures (l + s)[i] in leeches + seeds && ((l + s)[i] in seeds <==> i >= |l|) {
      assert (l + s)[i] == if i < |l| then l[i] else s[i - |l|];
    }
  }

  /** ... and every list that `IsReply` allows is produced by some iteration order. */
  lemma ReplyIsCompact<T>(leeches: set<T>, seeds: set<T>, numwant: nat, keys: seq<T>)
    requires leeches !! seeds && IsReply(leeches, seeds, numwant, keys)
    ensures exists order :: IsOrder(order, leeches + seeds) && Compact(order, leeches, seeds, numwant) == keys
  {
    var rest := SomeOrder(leeches + seeds - set k | k in keys);
    AppendOrder(keys, rest, leeches + seeds);
    DistinctSize(keys + rest, leeches + seeds);
    OneSideDone(leeches, seeds, keys, rest);
    CompactOfExtension(leeches, seeds, keys, rest);
    assert Compact(keys + rest, leeches, seeds, numwant) == keys;
  }

  lemma OneSideDone<T>(leeches: set<T>, seeds: set<T>, keys: seq<T>, rest: seq<T>)
    requires (exists i :: 0 <= i < |keys| && keys[i] in seeds) ==> forall k | k in leeches :: k in keys
    requires forall k | k in rest :: k !in keys
    ensures Pick(keys, seeds) == [] || Pick(rest, leeches) == []
  {
    if i :| 0 <= i < |keys| && keys[i] in seeds {
      PickNone(rest, leeches);
    } else {
      PickNone(keys, seeds);
    }
  }

  lemma CompactOfExtension<T>(leeches: set<T>, seeds: set<T>, keys: seq<T>, rest: seq<T>)
    requires leeches !! seeds && forall i :: 0 <= i < |keys + rest| ==> (keys + rest)[i] in leeches + seeds
    requires forall i, j :: 0 <= i < j < |keys| && keys[i] in seeds ==> keys[j] in seeds
    requires Pick(keys, seeds) == [] || Pick(rest, leeches) == []
    ensures var all := Pick(keys + rest, leeches) + Pick(keys + rest, seeds);
            |all| == |keys + rest| && all[..|keys|] == keys
  {
    PickSizes(keys + rest, leeches, seeds);
    PickAppend(keys, rest, leeches);
    PickAppend(keys, rest, seeds);
    forall i | 0 <= i < |keys| ensures keys[i] in leeches + seeds {
      assert (keys + rest)[i] == keys[i];
    }
    PickSplit(keys, leeches, seeds);
    JoinPicks(keys, Pick(keys, leeches), Pick(rest, leeches), Pick(keys, seeds), Pick(rest, seeds));
  }

  lemma JoinPicks<T>(keys: seq<T>, kl: seq<T>, rl: seq<T>, ks: seq<T>, rs: seq<T>)
    requires kl + ks == keys && (ks == [] || rl == [])
    ensures (kl + rl + (ks + rs))[..|keys|] == keys
  {
  }

  /** What has been written once the given pass has seen the first `i` keys. */
  ghost function Written<T>(order: seq<T>, leeches: set<T>, seeds: set<T>, pass: nat, i: nat): seq<T>
    requires i <= |order|
  {
    if pass == 0 then Pick(order[..i], leeches)
    else if pass == 1 then Pick(order, leeches) + Pick(order[..i], seeds)
    else Pick(order, leeches) + Pick(order, seeds)
  }

  lemma WrittenIsPrefix<T>(order: seq<T>, leeches: set<T>, seeds: set<T>, pass: nat, i: nat)
    requires i <= |order|
    ensures var w := Written(order, leeches, seeds, pass, i);
            && Compact(order, leeches, seeds, |w|) == w
            && (pass >= 2 ==> forall n: nat :: n >= |w| ==> Compact(order, leeches, seeds, n) == w)
  {
    assert order == order[..i] + order[i..];
    PickAppend(order[..i], order[i..], leeches);
    PickAppend(order[..i], order[i..], seeds);
  }

  lemma WrittenNext<T>(order: seq<T>, leeches: set<T>, seeds: set<T>, pass: nat, i: nat)
    requires i < |order| && pass < 2
    ensures Written(order, leeches, seeds, pass, i + 1) ==
            Written(order, leeches, seeds, pass, i)
            + if order[i] in (if pass == 0 then leeches else seeds) then [order[i]] else []
  {
    assert order[..i + 1][..i] == order[..i];
  }

  lemma WrittenAll<T>(order: seq<T>, leeches: set<T>, seeds: set<T>, pass: nat)
    requires pass < 2
    ensures Written(order, leeches, seeds, pass, |order|) == Written(order, leeches, seeds, pass + 1, 0)
  {
    assert order[..|order|] == order;
  }

  // ---------------------------------------------------------------- fixed-width records on the wire

  function Concat(keys: seq<seq<byte>>): seq<byte> {
    if keys == [] then [] else Concat(keys[..|keys| - 1]) + keys[|keys| - 1]
  }

  lemma ConcatPush(keys: seq<seq<byte>>, k: seq<byte>)
    ensures Concat(keys + [k]) == Concat(keys) + k
  {
    assert (keys + [k])[..|keys|] == keys;
  }

  lemma {:induction false} ConcatCons(k: seq<byte>, keys: seq<seq<byte>>)
    ensures Concat([k] + keys) == k + Concat(keys)
    decreases |keys|
  {
    hide Concat;
    NothingJoined(k);
    if keys == [] {
      assert [k] + keys == [] + [k];
      ConcatPush([], k);
    } else {
      var front, last := keys[..|keys| - 1], keys[|keys| - 1];
      ConcatCons(k, front);
      ConcatPush([k] + front, last);
      ConcatPush(front, last);
      Assoc([k], front, [last]);
      Assoc(k, Concat(front), last);
      assert front + [last] == keys;
    }
  }

  lemma NothingJoined(k: seq<byte>)
    ensures Concat([]) == [] && [] + k == k == k + []
  {
  }

  lemma {:induction false} ConcatSize(keys: seq<seq<byte>>, n: nat)
    requires forall i :: 0 <= i < |keys| ==> |keys[i]| == n
    ensures |Concat(keys)| == |keys| * n
  {
    hide Concat;
    NothingJoined([]);
    if keys != [] {
      var m, last := |keys| - 1, keys[|keys| - 1];
      var front := keys[..m];
      forall i | 0 <= i < m ensures |front[i]| == n {
        assert front[i] == keys[i];
      }
      ConcatSize(front, n);
      ConcatPush(front, last);
      assert front + [last] == keys;
      Distribute(n, m, 1);
    }
  }

  /** How a payload is cut into consecutive records of `n` bytes; a partial one at the end is ignored. */
  function Records(payload: seq<byte>, n: nat): (r: seq<seq<byte>>)
    requires n > 0
    ensures forall i :: 0 <= i < |r| ==> |r[i]| == n
  {
    if |payload| < n then [] else [payload[..n]] + Records(payload[n..], n)
  }

  /** Cutting undoes joining, whatever partial record follows. */
  lemma {:induction false} RecordsOfConcat(keys: seq<seq<byte>>, tail: seq<byte>, n: nat)
    requires 0 < n && |tail| < n && forall i :: 0 <= i < |keys| ==> |keys[i]| == n
    ensures Records(Concat(keys) + tail, n) == keys
    decreases |keys|
  {
    if keys != [] {
      var k, rest := keys[0], keys[1..];
      assert keys == [k] + rest;
      ConcatCons(k, rest);
      var payload := k + Concat(rest) + tail;
      assert payload[..n] == k && payload[n..] == Concat(rest) + tail;
      RecordsOfConcat(rest, tail, n);
    }
  }

  /** The records are the consecutive whole strides of the payload. */
  lemma {:induction false} RecordsAt(payload: seq<byte>, n: nat)
    requires n > 0
    ensures |Records(payload, n)| == |payload| / n
    ensures forall i :: 0 <= i < |payload| / n ==>
                          0 <= i * n <= i * n + n <= |payload| && Records(payload, n)[i] == payload[i * n..i * n + n]
    decreases |payload|
  {
    if |payload| >= n {
      var rest := payload[n..];
      RecordsAt(rest, n);
      DivShift(|payload|, n, 1);
      forall i | 0 <= i < |payload| / n
        ensures 0 <= i * n <= i * n + n <= |payload| && Records(payload, n)[i] == payload[i * n..i * n + n]
      {
        if i > 0 {
          assert (i - 1) * n == i * n - n;
          var m := (i - 1) * n;
          assert Records(rest, n)[i - 1] == rest[m..m + n];
          assert rest[m..m + n] == payload[m + n..m + n + n];
        }
      }
    }
  }
}
