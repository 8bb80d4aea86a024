/** Duplicate-free sequences, iteration orders of hash maps and order-preserving selections. */
module Sequences {

  ghost predicate Distinct<T>(s: seq<T>) {
    forall i, j :: 0 <= i < j < |s| ==> s[i] != s[j]
  }

  /** An iteration order of a hash map with these keys: each of them once. */
  ghost predicate IsOrder<T>(order: seq<T>, keys: set<T>) {
    Distinct(order) && (forall k | k in order :: k in keys) && (forall k | k in keys :: k in order)
  }

  /** The elements of `s` that lie in `keep`, in order. */
  function Pick<T(==)>(s: seq<T>, keep: set<T>): seq<T> {
    if s == [] then [] else
      Pick(s[..|s| - 1], keep) + if s[|s| - 1] in keep then [s[|s| - 1]] else []
  }

  lemma {:induction false} PickMembers<T>(s: seq<T>, keep: set<T>)
    ensures forall i :: 0 <= i < |Pick(s, keep)| ==> Pick(s, keep)[i] in s && Pick(s, keep)[i] in keep
    ensures forall k | k in s && k in keep :: k in Pick(s, keep)
    ensures Distinct(s) ==> Distinct(Pick(s, keep))
  {
    if s != [] {
      var front, last := s[..|s| - 1], s[|s| - 1];
      assert s == front + [last];
      PickMembers(front, keep);
    }
  }

  /** The part of an iteration order that falls in a subset is an iteration order of the subset. */
  lemma PickOrder<T>(order: seq<T>, keys: set<T>, keep: set<T>)
    requires IsOrder(order, keys) && keep <= keys
    ensures IsOrder(Pick(order, keep), keep)
  {
    PickMembers(order, keep);
    var picked := Pick(order, keep);
    forall k | k in picked ensures k in keep {
      var i :| 0 <= i < |picked| && picked[i] == k;
    }
  }

  lemma {:induction false} PickSizes<T>(s: seq<T>, a: set<T>, b: set<T>)
    requires a !! b && forall i :: 0 <= i < |s| ==> s[i] in a + b
    ensures |Pick(s, a)| + |Pick(s, b)| == |s|
  {
    if s != [] {
      PickSizes(s[..|s| - 1], a, b);
    }
  }

  lemma {:induction false} PickAppend<T>(a: seq<T>, b: seq<T>, keep: set<T>)
    ensures Pick(a + b, keep) == Pick(a, keep) + Pick(b, keep)
  {
    if b == [] {
      assert a + b == a;
    } else {
      var front := b[..|b| - 1];
      assert (a + b)[..|a + b| - 1] == a + front;
      PickAppend(a, front, keep);
    }
  }

  lemma {:induction false} PickNone<T>(s: seq<T>, keep: set<T>)
    requires forall i :: 0 <= i < |s| ==> s[i] !in keep
    ensures Pick(s, keep) == []
  {
    if s != [] {
      PickNone(s[..|s| - 1], keep);
    }
  }

  /** A sequence with all its `a` elements before its `b` elements is its two selections joined. */
  lemma {:induction false} PickSplit<T>(s: seq<T>, a: set<T>, b: set<T>)
    requires a !! b && forall i :: 0 <= i < |s| ==> s[i] in a + b
    requires forall i, j :: 0 <= i < j < |s| && s[i] in b ==> s[j] in b
    ensures Pick(s, a) + Pick(s, b) == s
  {
    if s != [] {
      var front, last := s[..|s| - 1], s[|s| - 1];
      assert s == front + [last];
      PickSplit(front, a, b);
      if last in a {
        forall i | 0 <= i < |front| ensures front[i] !in b {
          assert s[i] == front[i];
        }
        PickNone(front, b);
      }
    }
  }

  lemma {:induction false} DistinctSize<T>(s: seq<T>, keys: set<T>)
    requires IsOrder(s, keys)
    ensures |s| == |keys|
  {
    if s == [] {
      assert keys == {};
    } else {
      var front, last := s[..|s| - 1], s[|s| - 1];
      assert s == front + [last];
      assert last !in front;
      DistinctSize(front, keys - {last});
    }
  }

  lemma {:induction false} SubsetSize<T>(a: set<T>, b: set<T>)
    requires a <= b
    ensures |a| <= |b|
  {
    assert b == a + (b - a);
  }

  lemma AppendOrder<T>(a: seq<T>, b: seq<T>, keys: set<T>)
    requires Distinct(a) && forall i :: 0 <= i < |a| ==> a[i] in keys
    requires IsOrder(b, keys - set k | k in a)
    ensures IsOrder(a + b, keys)
    ensures forall k | k in b :: k !in a
  {
    assert forall i :: 0 <= i < |b| ==> b[i] in b;
    assert forall i :: 0 <= i < |a| ==> a[i] in a;
  }

  ghost function SomeOrder<T>(keys: set<T>): (order: seq<T>)
    ensures IsOrder(order, keys)
  {
    if keys == {} then [] else
      var k :| k in keys;
      var front := SomeOrder(keys - {k});
      assert forall i :: 0 <= i < |front| ==> front[i] in front;
      front + [k]
  }

  /** Visits the keys of a hash map in whatever order the map has. */
  method IterationOrder<T(==)>(keys: set<T>) returns (order: seq<T>)
    ensures IsOrder(order, keys)
  {
    order := [];
    var todo := keys;
    while todo != {}
      invariant todo <= keys
      invariant IsOrder(order, keys - todo)
      decreases |todo|
    {
      var k :| k in todo;
      assert forall i :: 0 <= i < |order| ==> order[i] in order;
      order, todo := order + [k], todo - {k};
    }
  }

  /** The elements that satisfy `keep`, in order. */
  function Filter<T>(s: seq<T>, keep: T -> bool): seq<T> {
    if s == [] then [] else (if keep(s[0]) then [s[0]] else []) + Filter(s[1..], keep)
  }

  lemma FilterCons<T>(x: T, rest: seq<T>, keep: T -> bool)
    ensures Filter([x] + rest, keep) == if keep(x) then [x] + Filter(rest, keep) else Filter(rest, keep)
  {
    assert ([x] + rest)[1..] == rest;
  }

  lemma {:induction false} FilterAppend<T>(a: seq<T>, b: seq<T>, keep: T -> bool)
    ensures Filter(a + b, keep) == Filter(a, keep) + Filter(b, keep)
    decreases |a|
  {
    if |a| == 0 {
      assert a + b == b && Filter(a, keep) == [];
    } else {
      FilterAppend(a[1..], b, keep);
      Regroup(a, b);
      FilterCons(a[0], a[1..] + b, keep);
      if keep(a[0]) {
        assert Filter(a, keep) == [a[0]] + Filter(a[1..], keep);
        Assoc([a[0]], Filter(a[1..], keep), Filter(b, keep));
      }
    }
  }

  lemma Assoc<T>(a: seq<T>, b: seq<T>, c: seq<T>)
    ensures a + b + c == a + (b + c)
  {
  }

  lemma Regroup<T>(a: seq<T>, b: seq<T>)
    requires |a| > 0
    ensures [a[0]] + (a[1..] + b) == a + b
  {
  }
}
