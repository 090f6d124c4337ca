/** A counting map (key -> number of occurrences) viewed as the multiset of
    everything that was counted. Both split counting and topology counting
    keep such a map and update it one occurrence at a time. */
module Tallies {
  import opened Sums

  /** The counting map of a multiset: each key present, with its multiplicity. */
  ghost function TallyOf<T(!new)>(ms: multiset<T>): map<T, int>
  {
    map x | x in ms :: ms[x]
  }

  /** The count of `x`, 0 when the map has no entry for it (Java's
      `containsKey(x) ? get(x) : 0`). */
  function Get<T>(m: map<T, int>, x: T): int
  {
    if x in m then m[x] else 0
  }

  /** The keys counted exactly `c` times. */
  function WithCount<T(==)>(counts: map<T, int>, c: int): set<T>
  {
    set k | k in counts && counts[k] == c
  }

  function CountFn<T>(m: map<T, int>): T -> int
  {
    x => Get(m, x)
  }

  /** One more occurrence of `x`: a new key starts at 1. */
  function Inc<T>(m: map<T, int>, x: T): (r: map<T, int>)
    ensures r.Keys == m.Keys + {x}
    ensures r[x] == Get(m, x) + 1
    ensures forall y :: y in m && y != x ==> r[y] == m[y]
  {
    if x in m then m[x := m[x] + 1] else m[x := 1]
  }

  /** Counting one more occurrence keeps the map equal to the tally of
      everything counted. */
  lemma TallyAdd<T(!new)>(ms: multiset<T>, x: T)
    ensures TallyOf(ms + multiset{x}) == Inc(TallyOf(ms), x)
  {
  }

  lemma SumByCongruent<T>(s: seq<T>, f: T -> int, g: T -> int)
    requires forall i :: 0 <= i < |s| ==> f(s[i]) == g(s[i])
    ensures SumBy(s, f) == SumBy(s, g)
  {
    if s != [] {
      SumByCongruent(s[1..], f, g);
    }
  }

  lemma {:induction false} SingleKeyCard<T(!new)>(d: multiset<T>, x: T)
    requires forall y :: y != x ==> d[y] == 0
    ensures |d| == d[x]
    decreases d[x]
  {
    if d[x] == 0 {
      assert d == multiset{};
    } else {
      var e := d - multiset{x};
      assert d == e + multiset{x};
      SingleKeyCard(e, x);
    }
  }

  /** Removing every copy of `x` removes exactly its multiplicity. */
  lemma RemoveAllCard<T(!new)>(ms: multiset<T>, x: T)
    ensures |ms| == ms[x] + |ms[x := 0]|
  {
    var rest := ms[x := 0];
    var d := ms - rest;
    assert ms == rest + d;
    assert forall y :: y != x ==> d[y] == 0;
    SingleKeyCard(d, x);
  }

  lemma TailEnumerates<T(!new)>(s: seq<T>, ms: multiset<T>)
    requires s != [] && Enumerates(s, TallyOf(ms).Keys)
    ensures Enumerates(s[1..], TallyOf(ms[s[0] := 0]).Keys)
  {
    var rest := ms[s[0] := 0];
    assert TallyOf(rest).Keys == TallyOf(ms).Keys - {s[0]};
    assert forall i :: 0 < i < |s| ==> s[i] != s[0];
    forall x | x in TallyOf(rest).Keys ensures x in s[1..] {
      assert x in s && x != s[0];
    }
  }

  /** The counts in a tally add up to the number of occurrences counted. */
  lemma {:induction false} TallySum<T(!new)>(s: seq<T>, ms: multiset<T>)
    requires Enumerates(s, TallyOf(ms).Keys)
    ensures SumBy(s, CountFn(TallyOf(ms))) == |ms|
    decreases |s|
  {
    if s == [] {
      assert forall x :: x in ms ==> x in TallyOf(ms).Keys;
      assert ms == multiset{};
    } else {
      var x := s[0];
      var rest := ms[x := 0];
      RemoveAllCard(ms, x);
      TailEnumerates(s, ms);
      TallySum(s[1..], rest);
      assert forall i :: 0 < i < |s| ==> s[i] != x;
      SumByCongruent(s[1..], CountFn(TallyOf(ms)), CountFn(TallyOf(rest)));
      assert CountFn(TallyOf(ms))(x) == ms[x];
    }
  }

  /** An iteration of a hash map's key set: every key once, in an order the
      model leaves open. */
  method IterationOrder<T(==)>(keys: set<T>) returns (s: seq<T>)
    ensures Enumerates(s, keys)
  {
    s := [];
    var rest := keys;
    while rest != {}
      invariant rest <= keys
      invariant |s| + |rest| == |keys|
      invariant Distinct(s)
      invariant forall i :: 0 <= i < |s| ==> s[i] in keys && s[i] !in rest
      invariant forall x | x in keys :: x in rest || x in s
      decreases |rest|
    {
      var k :| k in rest;
      s := s + [k];
      rest := rest - {k};
    }
  }
}
