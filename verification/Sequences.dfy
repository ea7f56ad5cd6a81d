/** Sequence vocabulary shared by the models: distinctness and a stable sort. */
module Sequences {

  ghost predicate Distinct<T>(s: seq<T>) {
    forall i, j :: 0 <= i < j < |s| ==> s[i] != s[j]
  }

  /** A duplicate-free sequence over `{0, ..., n - 1}` has at most `n` elements. */
  lemma DistinctBounded(s: seq<nat>, n: nat)
    requires Distinct(s)
    requires forall x :: x in s ==> x < n
    ensures |s| <= n
  {
    var members := set x | x in s;
    DistinctCardinality(s);
    SubsetCardinality(members, Below(n));
  }

  lemma BelowMember(n: nat, x: nat)
    requires x < n
    ensures x in Below(n)
  {
  }

  lemma DistinctCardinality<T>(s: seq<T>)
    requires Distinct(s)
    ensures |set x | x in s| == |s|
  {
    if s != [] {
      var rest := s[1..];
      DistinctCardinality(rest);
      assert (set x | x in s) == {s[0]} + set x | x in rest;
    }
  }

  /** The numbers `0, ..., n - 1` as a set. */
  function Below(n: nat): (s: set<nat>)
    ensures |s| == n
    ensures forall x: nat :: x in s <==> x < n
  {
    if n == 0 then {} else Below(n - 1) + {n - 1}
  }

  lemma SubsetCardinality<T>(a: set<T>, b: set<T>)
    requires a <= b
    ensures |a| <= |b|
    ensures |a| == |b| ==> a == b
  {
    assert b == a + (b - a);
    assert |b| == |a| + |b - a|;
  }

  // ----- a stable sort, standing for the standard library's `sort_by` and `sort_by_key` -----

  ghost predicate SortedBy<T(!new)>(s: seq<T>, leq: (T, T) -> bool) {
    forall i, j :: 0 <= i < j < |s| ==> leq(s[i], s[j])
  }

  /** Every two elements compare, consistently. */
  ghost predicate Ordering<T(!new)>(leq: (T, T) -> bool) {
    && (forall a, b :: leq(a, b) || leq(b, a))
    && (forall a, b, c :: leq(a, b) && leq(b, c) ==> leq(a, c))
  }

  function InsertBy<T>(x: T, s: seq<T>, leq: (T, T) -> bool): (r: seq<T>)
    ensures |r| == |s| + 1
  {
    if s == [] || leq(x, s[0]) then [x] + s
    else [s[0]] + InsertBy(x, s[1..], leq)
  }

  function SortBy<T>(s: seq<T>, leq: (T, T) -> bool): (r: seq<T>)
    ensures |r| == |s|
  {
    if s == [] then [] else InsertBy(s[0], SortBy(s[1..], leq), leq)
  }

  lemma {:induction false} InsertMembers<T(!new)>(x: T, s: seq<T>, leq: (T, T) -> bool)
    ensures multiset(InsertBy(x, s, leq)) == multiset{x} + multiset(s)
  {
    if !(s == [] || leq(x, s[0])) {
      InsertMembers(x, s[1..], leq);
      assert s == [s[0]] + s[1..];
    }
  }

  lemma {:induction false} InsertSorted<T(!new)>(x: T, s: seq<T>, leq: (T, T) -> bool)
    requires SortedBy(s, leq) && Ordering(leq)
    ensures SortedBy(InsertBy(x, s, leq), leq)
  {
    if !(s == [] || leq(x, s[0])) {
      var rest := InsertBy(x, s[1..], leq);
      InsertSorted(x, s[1..], leq);
      InsertMembers(x, s[1..], leq);
      forall k | 0 <= k < |rest| ensures leq(s[0], rest[k]) {
        assert rest[k] in multiset(rest);
        assert rest[k] == x || rest[k] in s[1..];
      }
    }
  }

  /** The sort permutes its input and orders it. */
  lemma {:induction false} SortKeeps<T(!new)>(s: seq<T>, leq: (T, T) -> bool)
    requires Ordering(leq)
    ensures multiset(SortBy(s, leq)) == multiset(s)
    ensures SortedBy(SortBy(s, leq), leq)
  {
    if s != [] {
      SortKeeps(s[1..], leq);
      InsertMembers(s[0], SortBy(s[1..], leq), leq);
      InsertSorted(s[0], SortBy(s[1..], leq), leq);
      assert s == [s[0]] + s[1..];
    }
  }

  /** The elements that compare equal to `x`, in order. */
  ghost function LevelWith<T>(s: seq<T>, x: T, leq: (T, T) -> bool): seq<T> {
    if s == [] then []
    else (if leq(s[0], x) && leq(x, s[0]) then [s[0]] else []) + LevelWith(s[1..], x, leq)
  }

  lemma LevelFirst<T>(x: T, s: seq<T>, y: T, leq: (T, T) -> bool)
    ensures LevelWith([x] + s, y, leq) == (if leq(x, y) && leq(y, x) then [x] else []) + LevelWith(s, y, leq)
  {
    assert ([x] + s)[1..] == s;
  }

  lemma NotBothLevel<T(!new)>(x: T, first: T, y: T, leq: (T, T) -> bool)
    requires Ordering(leq) && !leq(x, first)
    ensures !(leq(x, y) && leq(y, x) && leq(first, y) && leq(y, first))
  {
  }

  lemma {:induction false} InsertStable<T(!new)>(x: T, s: seq<T>, y: T, leq: (T, T) -> bool)
    requires Ordering(leq)
    ensures LevelWith(InsertBy(x, s, leq), y, leq) ==
            (if leq(x, y) && leq(y, x) then [x] else []) + LevelWith(s, y, leq)
  {
    hide LevelWith, Ordering;
    if s == [] || leq(x, s[0]) {
      LevelFirst(x, s, y, leq);
    } else {
      var rest, level := InsertBy(x, s[1..], leq), LevelWith(s[1..], y, leq);
      InsertStable(x, s[1..], y, leq);
      LevelFirst(s[0], rest, y, leq);
      LevelFirst(s[0], s[1..], y, leq);
      assert s == [s[0]] + s[1..];
      NotBothLevel(x, s[0], y, leq);
      assert [] + ([x] + level) == [x] + ([] + level) && [s[0]] + ([] + level) == [] + ([s[0]] + level);
      assert [] + ([] + level) == level;
    }
  }

  /** Elements that compare equal stay in the order they came in. */
  lemma {:induction false} SortStable<T(!new)>(s: seq<T>, y: T, leq: (T, T) -> bool)
    requires Ordering(leq)
    ensures LevelWith(SortBy(s, leq), y, leq) == LevelWith(s, y, leq)
  {
    if s != [] {
      SortStable(s[1..], y, leq);
      InsertStable(s[0], SortBy(s[1..], leq), y, leq);
    }
  }

  /** Two sequences with the same elements contain the same elements and are equally distinct. */
  lemma PermutationMembers<T>(a: seq<T>, b: seq<T>)
    requires multiset(a) == multiset(b)
    ensures |a| == |b|
    ensures forall x :: x in a <==> x in b
    ensures Distinct(a) ==> Distinct(b)
  {
    assert |multiset(a)| == |multiset(b)|;
    forall x ensures x in a <==> x in b {
      assert x in a <==> x in multiset(a);
      assert x in b <==> x in multiset(b);
    }
    if Distinct(a) && !Distinct(b) {
      var i, j :| 0 <= i < j < |b| && b[i] == b[j];
      RepeatedMultiplicity(b, i, j);
      DistinctMultiplicity(a, b[i]);
    }
  }

  lemma RepeatedMultiplicity<T>(s: seq<T>, i: nat, j: nat)
    requires i < j < |s| && s[i] == s[j]
    ensures multiset(s)[s[i]] >= 2
  {
    var head, tail := s[..j], s[j..];
    assert s == head + tail;
    assert s[i] == head[i] && s[j] == tail[0];
    assert s[i] in head && s[i] in tail;
  }

  lemma DistinctMultiplicity<T>(s: seq<T>, x: T)
    requires Distinct(s)
    ensures multiset(s)[x] <= 1
  {
    if s != [] {
      assert s == [s[0]] + s[1..];
      DistinctMultiplicity(s[1..], x);
      if s[0] == x {
        assert x !in s[1..];
      }
    }
  }

  /** The position of the first `x`, or the length if there is none. */
  function IndexOf<T(==)>(s: seq<T>, x: T): (i: nat)
    ensures i <= |s| && (i < |s| ==> s[i] == x) && forall k :: 0 <= k < i ==> s[k] != x
  {
    if s == [] || s[0] == x then 0 else 1 + IndexOf(s[1..], x)
  }

  lemma IndexOfIs<T>(s: seq<T>, x: T, i: nat)
    requires i <= |s| && (i < |s| ==> s[i] == x) && forall k :: 0 <= k < i ==> s[k] != x
    ensures IndexOf(s, x) == i
  {
  }

  lemma SliceThree<T>(s: seq<T>, i: nat, j: nat)
    requires i <= j <= |s|
    ensures s[..i] + s[i..j] + s[j..] == s
  {
  }
}
