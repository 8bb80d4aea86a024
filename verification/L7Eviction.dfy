/** Sampled eviction: which entries can be evicted, and when that is the least recent one. */
module L7Eviction {
  import opened Bytes
  import opened Core
  import opened Sequences
  import opened L7Spec

  /** The entries seen no earlier than `v`, itself included. */
  function NoEarlier(ages: map<Ip, u32>, v: Ip): set<Ip>
    requires v in ages
  {
    set k | k in ages && ages[k] >= ages[v]
  }

  lemma {:induction false} SubsetOfSize<T>(all: set<T>, x: T, n: nat) returns (part: set<T>)
    requires x in all && 1 <= n <= |all|
    ensures x in part && part <= all && |part| == n
    decreases |all|
  {
    if n == |all| {
      part := all;
    } else {
      assert all != {x} by {
        assert |{x}| == 1;
      }
      var y :| y in all && y != x;
      part := SubsetOfSize(all - {y}, x, n);
    }
  }

  /** Exactly the entries with enough others seen no earlier can be the victim. */
  lemma VictimIff(ages: map<Ip, u32>, v: Ip)
    requires v in ages
    ensures IsVictim(ages, v) <==> |NoEarlier(ages, v)| >= if |ages| < 8 then |ages| else 8
  {
    var n := Min(EVICT_SAMPLE, |ages|);
    assert v in ages.Keys && |ages.Keys| == |ages|;
    if IsVictim(ages, v) {
      var sample: set<Ip> :| IsSample(ages, sample) && LeastIn(ages, sample, v);
      assert sample <= NoEarlier(ages, v);
      SubsetSize(sample, NoEarlier(ages, v));
    }
    if |NoEarlier(ages, v)| >= n {
      assert v in NoEarlier(ages, v);
      assert n >= 1 by {
        assert |ages| != 0;
      }
      var sample := SubsetOfSize(NoEarlier(ages, v), v, n);
      assert IsSample(ages, sample) && LeastIn(ages, sample, v);
    }
  }

  ghost predicate IsOldest(ages: map<Ip, u32>, v: Ip) {
    v in ages && LeastIn(ages, ages.Keys, v)
  }

  /** The entries that are not least recent. */
  ghost function Younger(ages: map<Ip, u32>): set<Ip> {
    set k | k in ages.Keys && !IsOldest(ages, k)
  }

  lemma {:induction false} LeastOf(ages: map<Ip, u32>, some: set<Ip>) returns (v: Ip)
    requires some != {} && some <= ages.Keys
    ensures LeastIn(ages, some, v)
    decreases |some|
  {
    v :| v in some;
    if some != {v} {
      var w := LeastOf(ages, some - {v});
      if ages[w] < ages[v] {
        v := w;
      }
    }
  }

  /** "Evicts the least recently seen entry" holds, whatever the sample, if and only if fewer than
      eight entries are more recent than the least recent one; with more, a fresher one can go. */
  lemma EvictsOldestIff(ages: map<Ip, u32>)
    requires ages != map[]
    ensures (forall v :: v in ages && IsVictim(ages, v) ==> IsOldest(ages, v)) <==> |Younger(ages)| < 8
  {
    var oldest := LeastOf(ages, ages.Keys);
    var young := Younger(ages);
    assert oldest !in young && |ages.Keys| == |ages|;
    assert young <= ages.Keys - {oldest};
    SubsetSize(young, ages.Keys - {oldest});
    if |young| < EVICT_SAMPLE {
      forall v | v in ages && IsVictim(ages, v) ensures IsOldest(ages, v) {
        if v in young {
          assert NoEarlier(ages, v) <= young;
          SubsetSize(NoEarlier(ages, v), young);
          VictimIff(ages, v);
        }
      }
    } else {
      var v := LeastOf(ages, young);
      assert young <= NoEarlier(ages, v);
      SubsetSize(young, NoEarlier(ages, v));
      VictimIff(ages, v);
      assert !IsOldest(ages, v);
    }
  }
}
