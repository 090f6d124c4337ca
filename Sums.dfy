/** Finite sums over sequences and the facts that make them independent of
    the order in which a hash map happens to enumerate its keys. */
module Sums {

  /** The elements of `s` are pairwise different. */
  ghost predicate Distinct<T>(s: seq<T>)
  {
    forall i, j :: 0 <= i < j < |s| ==> s[i] != s[j]
  }

  /** `s` lists every element of `keys` exactly once: one admissible
      iteration order of a hash map's key set. */
  ghost predicate Enumerates<T>(s: seq<T>, keys: set<T>)
  {
    && Distinct(s)
    && |s| == |keys|
    && (forall i :: 0 <= i < |s| ==> s[i] in keys)
    && (forall x | x in keys :: x in s)
  }

  /** A fixed (but unspecified) enumeration of a finite set, used only to
      state order-free specifications. */
  ghost function Enumerate<T>(keys: set<T>): (r: seq<T>)
    ensures Enumerates(r, keys)
  {
    if keys == {} then []
    else
      var x :| x in keys;
      var rest := Enumerate(keys - {x});
      assert forall i :: 0 <= i < |rest| ==> rest[i] != x;
      [x] + rest
  }

  /** The sum of `f` over the elements of `xs`. */
  function SumBy<T>(xs: seq<T>, f: T -> int): int
  {
    if xs == [] then 0 else f(xs[0]) + SumBy(xs[1..], f)
  }

  /** The sum of a sequence of integers. */
  function Sum(xs: seq<int>): int
  {
    if xs == [] then 0 else xs[0] + Sum(xs[1..])
  }

  function Without<T>(s: seq<T>, k: nat): (r: seq<T>)
    requires k < |s|
    ensures |r| == |s| - 1
  {
    s[..k] + s[k + 1..]
  }

  lemma {:induction false} SumByConcat<T>(a: seq<T>, b: seq<T>, f: T -> int)
    ensures SumBy(a + b, f) == SumBy(a, f) + SumBy(b, f)
  {
    if a == [] {
      assert a + b == b;
    } else {
      assert (a + b)[1..] == a[1..] + b;
      SumByConcat(a[1..], b, f);
    }
  }

  lemma {:induction false} SumZeros(xs: seq<int>)
    requires forall i :: 0 <= i < |xs| ==> xs[i] == 0
    ensures Sum(xs) == 0
  {
    if xs != [] {
      SumZeros(xs[1..]);
    }
  }

  lemma {:induction false} SumConcat(a: seq<int>, b: seq<int>)
    ensures Sum(a + b) == Sum(a) + Sum(b)
  {
    if a == [] {
      assert a + b == b;
    } else {
      assert (a + b)[1..] == a[1..] + b;
      SumConcat(a[1..], b);
    }
  }

  /** Raising one entry by `d` raises the sum by `d`. */
  lemma SumUpdate(s: seq<int>, k: nat, d: int)
    requires k < |s|
    ensures Sum(s[k := s[k] + d]) == Sum(s) + d
  {
    var t := s[k := s[k] + d];
    assert s == s[..k] + [s[k]] + s[k + 1..];
    assert t == s[..k] + [s[k] + d] + s[k + 1..];
    SumConcat(s[..k] + [s[k]], s[k + 1..]);
    SumConcat(s[..k], [s[k]]);
    SumConcat(s[..k] + [s[k] + d], s[k + 1..]);
    SumConcat(s[..k], [s[k] + d]);
  }

  lemma SumByRemove<T>(s: seq<T>, k: nat, f: T -> int)
    requires k < |s|
    ensures SumBy(s, f) == f(s[k]) + SumBy(Without(s, k), f)
  {
    assert s == s[..k] + s[k..];
    SumByConcat(s[..k], s[k..], f);
    SumByConcat(s[..k], s[k + 1..], f);
    assert s[k..][1..] == s[k + 1..];
  }

  lemma MultisetWithout<T>(s: seq<T>, k: nat)
    requires k < |s|
    ensures multiset(Without(s, k)) == multiset(s) - multiset{s[k]}
  {
    assert s == s[..k] + [s[k]] + s[k + 1..];
  }

  /** The first element of `a` sits at some position `k` of its
      permutation `b`, and the rests are permutations of each other. */
  lemma MatchFirst<T>(a: seq<T>, b: seq<T>) returns (k: nat)
    requires a != [] && multiset(a) == multiset(b)
    ensures k < |b| && b[k] == a[0] && multiset(a[1..]) == multiset(Without(b, k))
  {
    assert a == [a[0]] + a[1..];
    assert a[0] in multiset(b);
    k :| k < |b| && b[k] == a[0];
    MultisetWithout(b, k);
  }

  /** A sum does not depend on the order of its terms. */
  lemma {:induction false} SumByPermutation<T>(a: seq<T>, b: seq<T>, f: T -> int)
    requires multiset(a) == multiset(b)
    ensures SumBy(a, f) == SumBy(b, f)
  {
    if a == [] {
      assert |multiset(b)| == 0;
    } else {
      var k := MatchFirst(a, b);
      SumByRemove(b, k, f);
      SumByPermutation(a[1..], Without(b, k), f);
    }
  }

  function Identity(x: int): int
  {
    x
  }

  lemma {:induction false} SumIsSumBy(xs: seq<int>)
    ensures Sum(xs) == SumBy(xs, Identity)
  {
    if xs != [] {
      SumIsSumBy(xs[1..]);
    }
  }

  /** Rearranging a sequence of integers keeps its sum. */
  lemma SumPermutation(a: seq<int>, b: seq<int>)
    requires multiset(a) == multiset(b)
    ensures Sum(a) == Sum(b)
  {
    SumIsSumBy(a);
    SumIsSumBy(b);
    SumByPermutation(a, b, Identity);
  }

  /** In a sequence without repetitions every element occurs once. */
  lemma {:induction false} DistinctMultiplicity<T>(s: seq<T>, x: T)
    requires Distinct(s)
    ensures multiset(s)[x] == if x in s then 1 else 0
  {
    if s != [] {
      assert s == [s[0]] + s[1..];
      DistinctMultiplicity(s[1..], x);
    }
  }

  /** Two enumerations of one set are permutations of each other. */
  lemma EnumerationsArePermutations<T>(a: seq<T>, b: seq<T>, keys: set<T>)
    requires Enumerates(a, keys) && Enumerates(b, keys)
    ensures multiset(a) == multiset(b)
  {
    forall x ensures multiset(a)[x] == multiset(b)[x] {
      DistinctMultiplicity(a, x);
      DistinctMultiplicity(b, x);
    }
  }

  /** The sum of `f` over a set of keys, in whatever order they are listed. */
  ghost function SetSum<T>(keys: set<T>, f: T -> int): int
  {
    SumBy(Enumerate(keys), f)
  }

  lemma SumByEnumeration<T>(s: seq<T>, keys: set<T>, f: T -> int)
    requires Enumerates(s, keys)
    ensures SumBy(s, f) == SetSum(keys, f)
  {
    EnumerationsArePermutations(s, Enumerate(keys), keys);
    SumByPermutation(s, Enumerate(keys), f);
  }

  /** The partial application `y => w(x, y)`. */
  function RowFn<T>(w: (T, T) -> int, x: T): T -> int
  {
    y => w(x, y)
  }

  /** The sum of `w` over all unordered pairs of positions `i < j` of `xs`. */
  function PairSum<T>(xs: seq<T>, w: (T, T) -> int): int
  {
    if xs == [] then 0 else SumBy(xs[1..], RowFn(w, xs[0])) + PairSum(xs[1..], w)
  }

  ghost predicate Symmetric<T(!new)>(w: (T, T) -> int)
  {
    forall x, y :: w(x, y) == w(y, x)
  }

  lemma {:induction false} PairSumRemove<T(!new)>(s: seq<T>, k: nat, w: (T, T) -> int)
    requires Symmetric(w) && k < |s|
    ensures PairSum(s, w) == SumBy(Without(s, k), RowFn(w, s[k])) + PairSum(Without(s, k), w)
  {
    if k == 0 {
      assert Without(s, 0) == s[1..];
    } else {
      var t := s[1..];
      PairSumRemove(t, k - 1, w);
      assert Without(s, k) == [s[0]] + Without(t, k - 1);
      assert Without(s, k)[1..] == Without(t, k - 1);
      SumByRemove(t, k - 1, RowFn(w, s[0]));
      assert RowFn(w, s[k])(s[0]) == w(s[k], s[0]) == w(s[0], s[k]) == RowFn(w, s[0])(t[k - 1]);
    }
  }

  /** A sum over unordered pairs with a symmetric weight does not depend on
      the order of the sequence. */
  lemma {:induction false} PairSumPermutation<T(!new)>(a: seq<T>, b: seq<T>, w: (T, T) -> int)
    requires Symmetric(w) && multiset(a) == multiset(b)
    ensures PairSum(a, w) == PairSum(b, w)
  {
    if a == [] {
      assert |multiset(b)| == 0;
    } else {
      var k := MatchFirst(a, b);
      PairSumRemove(b, k, w);
      SumByPermutation(a[1..], Without(b, k), RowFn(w, a[0]));
      PairSumPermutation(a[1..], Without(b, k), w);
    }
  }

  /** The pair sum over a set of keys, in whatever order they are listed. */
  ghost function SetPairSum<T>(keys: set<T>, w: (T, T) -> int): int
  {
    PairSum(Enumerate(keys), w)
  }

  lemma PairSumEnumeration<T(!new)>(s: seq<T>, keys: set<T>, w: (T, T) -> int)
    requires Symmetric(w) && Enumerates(s, keys)
    ensures PairSum(s, w) == SetPairSum(keys, w)
  {
    EnumerationsArePermutations(s, Enumerate(keys), keys);
    PairSumPermutation(s, Enumerate(keys), w);
  }

  /** A sum of terms that are all zero is zero. */
  lemma {:induction false} SumByZero<T>(xs: seq<T>, f: T -> int)
    requires forall i :: 0 <= i < |xs| ==> f(xs[i]) == 0
    ensures SumBy(xs, f) == 0
  {
    if xs != [] {
      SumByZero(xs[1..], f);
    }
  }

  /** A sum of pointwise sums is the sum of the two sums. */
  lemma {:induction false} SumByAdd<T>(xs: seq<T>, f: T -> int, g: T -> int, h: T -> int)
    requires forall i :: 0 <= i < |xs| ==> h(xs[i]) == f(xs[i]) + g(xs[i])
    ensures SumBy(xs, h) == SumBy(xs, f) + SumBy(xs, g)
  {
    if xs != [] {
      SumByAdd(xs[1..], f, g, h);
    }
  }

  /** 1 on the elements of `a`, 0 elsewhere. */
  function Indicator<T(==)>(a: set<T>): T -> int
  {
    x => if x in a then 1 else 0
  }

  /** Summing the indicator of `a` over distinct elements counts those of
      them that are in `a`. */
  lemma {:induction false} SumByIndicator<T>(xs: seq<T>, a: set<T>)
    requires Distinct(xs)
    ensures SumBy(xs, Indicator(a)) == |a * (set x | x in xs)|
  {
    if xs == [] {
      assert a * (set x | x in xs) == {};
    } else {
      assert Distinct(xs[1..]);
      SumByIndicator(xs[1..], a);
      ElementsCons(xs);
      IntersectAdd(a, xs[0], set x | x in xs[1..]);
    }
  }

  lemma ElementsCons<T>(xs: seq<T>)
    requires Distinct(xs) && xs != []
    ensures (set x | x in xs) == {xs[0]} + (set x | x in xs[1..])
    ensures xs[0] !in (set x | x in xs[1..])
  {
  }

  lemma IntersectAdd<T>(a: set<T>, y: T, rest: set<T>)
    requires y !in rest
    ensures |a * ({y} + rest)| == Indicator(a)(y) + |a * rest|
  {
    if y in a {
      assert a * ({y} + rest) == {y} + a * rest;
    } else {
      assert a * ({y} + rest) == a * rest;
    }
  }

  /** The elements of an enumeration of a set are the set. */
  lemma EnumerationElements<T>(xs: seq<T>, keys: set<T>)
    requires Enumerates(xs, keys)
    ensures (set x | x in xs) == keys
  {
  }

  /** The symmetric difference of two sets has as many elements as the two
      differences together. */
  lemma SymmetricDifferenceCard<T>(a: set<T>, b: set<T>)
    ensures |(a - b) + (b - a)| == |a - b| + |b - a|
  {
    assert (a - b) * (b - a) == {};
  }

  /** Sums are monotone in their terms. */
  lemma {:induction false} SumByMonotone<T>(xs: seq<T>, f: T -> int, g: T -> int)
    requires forall i :: 0 <= i < |xs| ==> f(xs[i]) <= g(xs[i])
    ensures SumBy(xs, f) <= SumBy(xs, g)
  {
    if xs != [] {
      SumByMonotone(xs[1..], f, g);
    }
  }

  /** A sum of non-negative terms is non-negative. */
  lemma {:induction false} SumByNonNegative<T>(xs: seq<T>, f: T -> int)
    requires forall i :: 0 <= i < |xs| ==> f(xs[i]) >= 0
    ensures SumBy(xs, f) >= 0
  {
    if xs != [] {
      SumByNonNegative(xs[1..], f);
    }
  }

  /** Pair sums are monotone in their weights. */
  lemma {:induction false} PairSumMonotone<T>(xs: seq<T>, v: (T, T) -> int, w: (T, T) -> int)
    requires forall i, j :: 0 <= i < |xs| && 0 <= j < |xs| ==> v(xs[i], xs[j]) <= w(xs[i], xs[j])
    ensures PairSum(xs, v) <= PairSum(xs, w)
  {
    if xs != [] {
      var t := xs[1..];
      forall i | 0 <= i < |t| ensures RowFn(v, xs[0])(t[i]) <= RowFn(w, xs[0])(t[i]) {
        assert t[i] == xs[i + 1];
      }
      SumByMonotone(t, RowFn(v, xs[0]), RowFn(w, xs[0]));
      forall i, j | 0 <= i < |t| && 0 <= j < |t| ensures v(t[i], t[j]) <= w(t[i], t[j]) {
        assert t[i] == xs[i + 1] && t[j] == xs[j + 1];
      }
      PairSumMonotone(t, v, w);
    }
  }

  /** A pair sum with non-negative weights is non-negative. */
  lemma {:induction false} PairSumNonNegative<T>(xs: seq<T>, w: (T, T) -> int)
    requires forall i, j :: 0 <= i < |xs| && 0 <= j < |xs| ==> w(xs[i], xs[j]) >= 0
    ensures PairSum(xs, w) >= 0
  {
    if xs != [] {
      var t := xs[1..];
      forall i | 0 <= i < |t| ensures RowFn(w, xs[0])(t[i]) >= 0 {
        assert t[i] == xs[i + 1];
      }
      SumByNonNegative(t, RowFn(w, xs[0]));
      forall i, j | 0 <= i < |t| && 0 <= j < |t| ensures w(t[i], t[j]) >= 0 {
        assert t[i] == xs[i + 1] && t[j] == xs[j + 1];
      }
      PairSumNonNegative(t, w);
    }
  }
}
