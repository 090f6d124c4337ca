/** The split tally (`SplitCounts`): how often each split occurs in a
    collection of trees or split systems, and the integer statistics and the
    greedy consensus computed from those counts. */
module SplitTally {
  import opened Exceptions
  import opened Sums
  import opened Tallies
  import opened JavaText
  import opened Taxa
  import opened Consensus
  import opened Forests

  /** A split system (`NeoSplitSystem`): a taxon set and a list of splits. */
  datatype SplitSystem = SplitSystem(taxa: TaxonSet, splits: seq<Split>)

  /** The split system of a tree (`NeoSplitUtils.getSplits`). */
  function SplitsOf(tree: Tree): SplitSystem
  {
    SplitSystem(tree.taxa, tree.splits)
  }

  /** Every split of every tree, in order. */
  function AllSplits(trees: seq<Tree>): multiset<Split>
  {
    if trees == [] then multiset{} else AllSplits(trees[..|trees| - 1]) + multiset(trees[|trees| - 1].splits)
  }

  /** Counting the splits of tree `i` after those of the trees before it
      gives the splits of the first `i + 1` trees. */
  lemma AllSplitsStep(base: multiset<Split>, before: multiset<Split>, after: multiset<Split>, trees: seq<Tree>, i: nat)
    requires i < |trees|
    requires before == base + AllSplits(trees[..i]) && after == before + multiset(trees[i].splits)
    ensures after == base + AllSplits(trees[..i + 1])
  {
    assert trees[..i + 1][..i] == trees[..i];
    assert AllSplits(trees[..i + 1]) == AllSplits(trees[..i]) + multiset(trees[i].splits);
  }

  /** In how many of the split systems `s` occurs. */
  function Occ(systems: seq<seq<Split>>, s: Split): nat
  {
    if systems == [] then 0
    else Occ(systems[..|systems| - 1], s) + (if s in systems[|systems| - 1] then 1 else 0)
  }

  /** Every split of every system, with multiplicity. */
  function Flatten(systems: seq<seq<Split>>): multiset<Split>
  {
    if systems == [] then multiset{} else Flatten(systems[..|systems| - 1]) + multiset(systems[|systems| - 1])
  }

  /** When no system repeats a split, a split's multiplicity among all the
      systems' splits is the number of systems holding it. */
  lemma {:induction false} FlattenOcc(systems: seq<seq<Split>>, s: Split)
    requires forall i :: 0 <= i < |systems| ==> Distinct(systems[i])
    ensures Flatten(systems)[s] == Occ(systems, s)
  {
    if systems != [] {
      var n := |systems| - 1;
      FlattenOcc(systems[..n], s);
      DistinctMultiplicity(systems[n], s);
    }
  }

  /** In how many of the split systems both `a` and `b` occur. */
  function Both(systems: seq<seq<Split>>, a: Split, b: Split): nat
  {
    if systems == [] then 0
    else Both(systems[..|systems| - 1], a, b) + (if a in systems[|systems| - 1] && b in systems[|systems| - 1] then 1 else 0)
  }

  lemma {:induction false} OccBound(systems: seq<seq<Split>>, s: Split)
    ensures Occ(systems, s) <= |systems|
  {
    if systems != [] {
      OccBound(systems[..|systems| - 1], s);
    }
  }

  /** Counting argument: two splits that occur in more than half of the
      systems between them occur together in at least one. */
  lemma {:induction false} Pigeonhole(systems: seq<seq<Split>>, a: Split, b: Split)
    ensures Occ(systems, a) + Occ(systems, b) <= |systems| + Both(systems, a, b)
  {
    if systems != [] {
      Pigeonhole(systems[..|systems| - 1], a, b);
    }
  }

  lemma {:induction false} BothWitness(systems: seq<seq<Split>>, a: Split, b: Split)
    requires Both(systems, a, b) > 0
    ensures exists i :: 0 <= i < |systems| && a in systems[i] && b in systems[i]
  {
    var n := |systems| - 1;
    if !(a in systems[n] && b in systems[n]) {
      BothWitness(systems[..n], a, b);
      var i :| 0 <= i < n && a in systems[..n][i] && b in systems[..n][i];
      assert systems[..n][i] == systems[i];
    }
  }

  /** The splits of the majority-rule consensus: those seen in at least
      `nTrees/2 + 1` trees. */
  function Majority(counts: map<Split, int>, nTrees: int): set<Split>
  {
    set k | k in counts && counts[k] >= JavaDiv(nTrees, 2) + 1
  }

  /** When every count is the number of (pairwise compatible) trees holding
      the split, the majority splits are pairwise compatible, so they form a
      tree. */
  lemma MajorityCompatible(added: multiset<Split>, systems: seq<seq<Split>>, nTrees: int)
    requires CountsTrees(added, systems, nTrees)
    ensures forall a, b :: a in Majority(TallyOf(added), nTrees) && b in Majority(TallyOf(added), nTrees) ==> Compatible(a, b)
  {
    forall a, b | a in Majority(TallyOf(added), nTrees) && b in Majority(TallyOf(added), nTrees)
      ensures Compatible(a, b)
    {
      FlattenOcc(systems, a);
      FlattenOcc(systems, b);
      Pigeonhole(systems, a, b);
      BothWitness(systems, a, b);
      var i :| 0 <= i < |systems| && a in systems[i] && b in systems[i];
      var p :| 0 <= p < |systems[i]| && systems[i][p] == a;
      var q :| 0 <= q < |systems[i]| && systems[i][q] == b;
      assert Compatible(systems[i][p], systems[i][q]);
    }
  }

  /** The term `Math.min(count, nTrees - count)` of the Robinson-Foulds sum. */
  function RFTerm(counts: map<Split, int>, nTrees: int): Split -> int
  {
    k => var c := Get(counts, k); if c <= nTrees - c then c else nTrees - c
  }

  /** Each term of the Robinson-Foulds sum is the number of trees that
      disagree with the majority-rule tree about that split: the trees
      without it when it is a majority split, the trees with it otherwise. */
  lemma RFTermIsDisagreement(counts: map<Split, int>, nTrees: int, k: Split)
    requires 0 <= Get(counts, k) <= nTrees
    ensures RFTerm(counts, nTrees)(k) ==
      if k in Majority(counts, nTrees) then nTrees - counts[k] else Get(counts, k)
  {
  }

  /** The summand of `weightedPairwiseSplitIncompatibility(t)`: for two
      incompatible splits both seen more than `t` times, the product of their
      counts reduced by `t`; otherwise 0. */
  function IncompatWeight(counts: map<Split, int>, t: int): (Split, Split) -> int
  {
    (a, b) =>
      if Get(counts, a) > t && Get(counts, b) > t && !Compatible(a, b)
      then (Get(counts, a) - t) * (Get(counts, b) - t) else 0
  }

  lemma IncompatWeightSymmetric(counts: map<Split, int>, t: int)
    ensures Symmetric(IncompatWeight(counts, t))
  {
    forall a, b ensures IncompatWeight(counts, t)(a, b) == IncompatWeight(counts, t)(b, a) {
      CompatibleSymmetric(a, b);
    }
  }

  lemma ProductMonotone(x1: int, x2: int, y1: int, y2: int)
    requires 0 < x1 <= x2 && 0 < y1 <= y2
    ensures 0 < x1 * y1 <= x2 * y2
  {
    assert x1 * y1 <= x2 * y1;
    assert x2 * y1 <= x2 * y2;
  }

  lemma WeightMonotone(counts: map<Split, int>, t1: int, t2: int, x: Split, y: Split)
    requires t1 <= t2
    ensures 0 <= IncompatWeight(counts, t2)(x, y) <= IncompatWeight(counts, t1)(x, y)
  {
    var a, b := Get(counts, x), Get(counts, y);
    if a > t2 && b > t2 && !Compatible(x, y) {
      ProductMonotone(a - t2, a - t1, b - t2, b - t1);
    } else if a > t1 && b > t1 {
      ProductMonotone(a - t1, a - t1, b - t1, b - t1);
    }
  }

  /** The weighted incompatibility never goes up as the threshold rises, and
      it is never negative. */
  lemma IncompatibilityMonotone(counts: map<Split, int>, t1: int, t2: int)
    requires t1 <= t2
    ensures 0 <= SetPairSum(counts.Keys, IncompatWeight(counts, t2)) <= SetPairSum(counts.Keys, IncompatWeight(counts, t1))
  {
    var xs := Enumerate(counts.Keys);
    var v, w := IncompatWeight(counts, t2), IncompatWeight(counts, t1);
    forall i, j | 0 <= i < |xs| && 0 <= j < |xs| ensures 0 <= v(xs[i], xs[j]) <= w(xs[i], xs[j]) {
      WeightMonotone(counts, t1, t2, xs[i], xs[j]);
    }
    PairSumMonotone(xs, v, w);
    PairSumNonNegative(xs, v);
  }

  /** `ss` lists splits by non-increasing count. */
  ghost predicate ByDescendingCount(counts: map<Split, int>, ss: seq<Split>)
  {
    forall i, j :: 0 <= i < j < |ss| ==> Get(counts, ss[i]) >= Get(counts, ss[j])
  }

  /** `m` is the largest count (0 for an empty tally), as the source's
      `Math.max` loop starting from 0 finds it. */
  ghost predicate IsMaxCount(counts: map<Split, int>, m: int)
  {
    && m >= 0
    && (forall k :: k in counts ==> counts[k] <= m)
    && (m > 0 ==> exists k :: k in counts && counts[k] == m)
  }

  lemma {:induction false} MaxExists(rest: set<Split>, counts: map<Split, int>)
    requires rest != {} && rest <= counts.Keys
    ensures exists k :: k in rest && forall y :: y in rest ==> counts[y] <= counts[k]
    decreases |rest|
  {
    var x :| x in rest;
    if rest != {x} {
      MaxExists(rest - {x}, counts);
      var k :| k in rest - {x} && forall y :: y in rest - {x} ==> counts[y] <= counts[k];
      if counts[x] > counts[k] {
        assert forall y :: y in rest ==> counts[y] <= counts[x];
      }
    }
  }

  /** The greedy pass of `findGreedySplits` (SplitCounts.java:267-274):
      walk the sorted list while fewer than `limit` splits are accepted. */
  method GreedyPass(sorted: seq<Split>, limit: int) returns (gs: seq<Split>, gi: seq<int>)
    ensures Selection(gs, gi) == Greedy(sorted, limit)
  {
    gs, gi := [], [];
    var i := 0;
    while i < |sorted| && |gs| < limit
      invariant 0 <= i <= |sorted|
      invariant Selection(gs, gi) == Greedy(sorted[..i], limit)
    {
      var split := sorted[i];
      assert sorted[..i + 1][..i] == sorted[..i];
      if CompatibleWithAll(split, gs) {
        gs := gs + [split];
        gi := gi + [i];
      }
      i := i + 1;
    }
    if i == |sorted| {
      assert sorted[..i] == sorted;
    } else {
      GreedyFrozen(sorted, limit, i);
    }
  }

  /** The greedy selection's indices are positions of the sorted list. */
  lemma GreedyIndexInRange(sorted: seq<Split>, limit: int)
    ensures forall k :: 0 <= k < |Greedy(sorted, limit).index| ==> 0 <= Greedy(sorted, limit).index[k] < |sorted|
  {
    GreedyShape(sorted, limit);
  }

  /** The loops of `findConflictingSplitCounts` (SplitCounts.java:326-344)
      over the greedy selection's positions in the sorted list. */
  method ConflictLists(sorted: seq<Split>, counts: map<Split, int>, index: seq<int>,
                       threshold: int, byLength: bool) returns (results: seq<seq<(Split, int)>>)
    requires forall k :: 0 <= k < |index| ==> 0 <= index[k] < |sorted|
    ensures results == Conflicts(sorted, counts, index, threshold, byLength)
  {
    results := [];
    var n := 0;
    while n < |index|
      invariant 0 <= n <= |index|
      invariant results + Conflicts(sorted, counts, index[n..], threshold, byLength)
             == Conflicts(sorted, counts, index, threshold, byLength)
    {
      var stop;
      stop, results := ConflictStep(sorted, counts, index, n, threshold, byLength, results);
      if stop {
        return;
      }
      n := n + 1;
    }
    assert index[n..] == [];
    assert results + [] == results;
  }

  /** One pass of the outer loop of `findConflictingSplitCounts`
      (SplitCounts.java:327-343): in weight mode a greedy split below the
      threshold stops the loop; otherwise its conflict list is collected. */
  method ConflictStep(sorted: seq<Split>, counts: map<Split, int>, index: seq<int>, n: nat,
                      threshold: int, byLength: bool, results: seq<seq<(Split, int)>>)
    returns (stop: bool, results': seq<seq<(Split, int)>>)
    requires forall k :: 0 <= k < |index| ==> 0 <= index[k] < |sorted|
    requires n < |index|
    ensures stop ==> results' == results && results + Conflicts(sorted, counts, index[n..], threshold, byLength) == results
    ensures !stop ==> results' + Conflicts(sorted, counts, index[n + 1..], threshold, byLength)
                      == results + Conflicts(sorted, counts, index[n..], threshold, byLength)
  {
    var i := index[n];
    var split := sorted[i];
    ConflictsFrom(sorted, counts, index, n, threshold, byLength);
    stop := !byLength && Get(counts, split) < threshold;
    results' := results;
    if stop {
      assert results + [] == results;
    } else {
      var splitList := ScanList(sorted, counts, split, i + 1, threshold, byLength, [(split, Get(counts, split))]);
      ghost var rest := Conflicts(sorted, counts, index[n + 1..], threshold, byLength);
      assert results + ([splitList] + rest) == (results + [splitList]) + rest;
      results' := results + [splitList];
    }
  }

  /** One step of `Conflicts` from position `n` of the greedy indices. */
  lemma ConflictsFrom(sorted: seq<Split>, counts: map<Split, int>, index: seq<int>, n: nat,
                      threshold: int, byLength: bool)
    requires forall k :: 0 <= k < |index| ==> 0 <= index[k] < |sorted|
    requires n < |index|
    ensures var s := sorted[index[n]];
      Conflicts(sorted, counts, index[n..], threshold, byLength)
      == if !byLength && Get(counts, s) < threshold then []
         else [Scan(sorted, counts, s, index[n] + 1, threshold, byLength, [(s, Get(counts, s))])]
              + Conflicts(sorted, counts, index[n + 1..], threshold, byLength)
  {
    assert index[n..][1..] == index[n + 1..];
  }

  /** The inner loop of `findConflictingSplitCounts`
      (SplitCounts.java:331-341): from sorted position `start` on, collect
      the splits incompatible with `split`, stopping at the threshold. */
  method ScanList(sorted: seq<Split>, counts: map<Split, int>, split: Split, start: nat,
                  threshold: int, byLength: bool, first: seq<(Split, int)>) returns (splitList: seq<(Split, int)>)
    ensures splitList == Scan(sorted, counts, split, start, threshold, byLength, first)
  {
    splitList := first;
    var j := start;
    var stop := false;
    while j < |sorted| && !stop
      invariant start <= j
      invariant stop ==> splitList == Scan(sorted, counts, split, start, threshold, byLength, first)
      invariant !stop ==> Scan(sorted, counts, split, j, threshold, byLength, splitList)
                          == Scan(sorted, counts, split, start, threshold, byLength, first)
      decreases |sorted| - j, !stop
    {
      var other := sorted[j];
      if !byLength && Get(counts, other) < threshold {
        stop := true;
      } else {
        if !Compatible(split, other) {
          splitList := splitList + [(other, Get(counts, other))];
        }
        if byLength && |splitList| == threshold {
          stop := true;
        } else {
          j := j + 1;
        }
      }
    }
  }

  /** `h` tallies the splits of `done` by count: entry `c - 1` is the
      number of them seen exactly `c` times. */
  ghost predicate IsHistogram(h: seq<int>, counts: map<Split, int>, done: set<Split>)
  {
    forall c {:trigger WithCount(counts, c)} :: 1 <= c <= |h| ==> h[c - 1] == |WithCount(counts, c) * done|
  }

  lemma HistogramStep(h: seq<int>, h': seq<int>, counts: map<Split, int>, done: set<Split>, k: Split)
    requires IsHistogram(h, counts, done)
    requires k in counts && k !in done && 1 <= counts[k] <= |h|
    requires h' == h[counts[k] - 1 := h[counts[k] - 1] + 1]
    ensures IsHistogram(h', counts, done + {k})
  {
    forall c | 1 <= c <= |h| ensures h'[c - 1] == |WithCount(counts, c) * (done + {k})| {
      if c == counts[k] {
        assert WithCount(counts, c) * (done + {k}) == WithCount(counts, c) * done + {k};
      } else {
        assert WithCount(counts, c) * (done + {k}) == WithCount(counts, c) * done;
      }
    }
  }

  /** The state of the counting loop after the keys before `i`: `h`
      tallies them and sums to `i`, and none of them was past the end. */
  ghost predicate HistogramSoFar(keys: seq<Split>, counts: map<Split, int>, max: nat, i: int,
                                 h: seq<int>, done: set<Split>)
  {
    && 0 <= i <= |keys| && |h| == max
    && (forall p :: 0 <= p < |keys| ==> keys[p] in counts)
    && done == (set p | 0 <= p < i :: keys[p])
    && (forall p :: 0 <= p < i ==> counts[keys[p]] <= max)
    && IsHistogram(h, counts, done)
    && Sum(h) == i
  }

  /** Counting a key that fits keeps the loop state. */
  lemma HistogramAdvance(keys: seq<Split>, counts: map<Split, int>, max: nat, i: int,
                         h: seq<int>, h': seq<int>, done: set<Split>)
    requires HistogramSoFar(keys, counts, max, i, h, done) && i < |keys|
    requires Distinct(keys)
    requires 1 <= counts[keys[i]] <= max
    requires h' == h[counts[keys[i]] - 1 := h[counts[keys[i]] - 1] + 1]
    ensures HistogramSoFar(keys, counts, max, i + 1, h', done + {keys[i]})
  {
    SumUpdate(h, counts[keys[i]] - 1, 1);
    assert forall p :: 0 <= p < i ==> keys[p] != keys[i];
    assert keys[i] !in done;
    HistogramStep(h, h', counts, done, keys[i]);
    assert (set p | 0 <= p < i + 1 :: keys[p]) == done + {keys[i]};
  }

  /** The counting loop of `countByFrequency` (SplitCounts.java:378-379):
      into `max` zeros, one more at index `count - 1` for each key in
      iteration order; the first count past the end is an index error. */
  method Histogram(keys: seq<Split>, counts: map<Split, int>, max: nat) returns (r: Result<seq<int>>)
    requires Enumerates(keys, counts.Keys)
    requires forall k :: k in counts ==> counts[k] >= 1
    ensures r.Err? <==> exists k :: k in counts && counts[k] > max
    ensures r.Err? ==> exists k :: k in counts && counts[k] > max && r.error == IndexOutOfBounds(counts[k] - 1)
    ensures r.Ok? ==> |r.value| == max && IsHistogram(r.value, counts, counts.Keys) && Sum(r.value) == |counts|
  {
    var freq := new int[max](_ => 0);
    SumZeros(freq[..]);
    ghost var done: set<Split> := {};
    var i := 0;
    while i < |keys|
      invariant HistogramSoFar(keys, counts, max, i, freq[..], done)
    {
      var c := counts[keys[i]];
      if !(0 <= c - 1 < freq.Length) {
        return Err(IndexOutOfBounds(c - 1));
      }
      ghost var before := freq[..];
      freq[c - 1] := freq[c - 1] + 1;
      HistogramAdvance(keys, counts, max, i, before, freq[..], done);
      done := done + {keys[i]};
      i := i + 1;
    }
    HistogramDone(keys, counts, max, freq[..], done);
    return Ok(freq[..]);
  }

  /** After every key the tally covers all of them. */
  lemma HistogramDone(keys: seq<Split>, counts: map<Split, int>, max: nat, h: seq<int>, done: set<Split>)
    requires Enumerates(keys, counts.Keys)
    requires HistogramSoFar(keys, counts, max, |keys|, h, done)
    ensures !exists k :: k in counts && counts[k] > max
    ensures IsHistogram(h, counts, counts.Keys) && Sum(h) == |counts|
  {
    assert done == counts.Keys;
  }

  /** The distinct splits among `ks` that are cherries. */
  function Cherries(ks: set<Split>): set<Split>
  {
    set k | k in ks && IsCherry(k)
  }

  lemma CherriesAdd(done: set<Split>, x: Split)
    ensures Cherries(done + {x}) == Cherries(done) + (if IsCherry(x) then {x} else {})
  {
  }

  /** The loop of `numUniqueCherries` (SplitCounts.java:385-389) over the
      stored splits, in iteration order. */
  method CountCherries(ks: set<Split>) returns (count: int)
    ensures count == |Cherries(ks)|
  {
    count := 0;
    var rest := ks;
    ghost var done: set<Split> := {};
    while rest != {}
      invariant rest <= ks && done == ks - rest
      invariant count == |Cherries(done)|
      decreases |rest|
    {
      var split :| split in rest;
      CherriesAdd(done, split);
      if SizeOfSmaller(split) == 2 {
        count := count + 1;
      }
      assert ks - (rest - {split}) == done + {split};
      rest := rest - {split};
      done := done + {split};
    }
    assert done == ks;
  }

  lemma RFSumNonNegative(added: multiset<Split>, systems: seq<seq<Split>>, nTrees: int)
    requires CountsTrees(added, systems, nTrees)
    ensures SetSum(TallyOf(added).Keys, RFTerm(TallyOf(added), nTrees)) >= 0
  {
    var counts := TallyOf(added);
    var xs := Enumerate(counts.Keys);
    forall i | 0 <= i < |xs| ensures RFTerm(counts, nTrees)(xs[i]) >= 0 {
      OccBound(systems, xs[i]);
      FlattenOcc(systems, xs[i]);
    }
    SumByNonNegative(xs, RFTerm(counts, nTrees));
  }

  /** The splits of a split system, as a set. */
  function SplitSet(sys: seq<Split>): set<Split>
  {
    set s | s in sys
  }

  /** The Robinson-Foulds distance between the tree with splits `sys` and
      the tree with splits `m`: the splits one of them has and the other
      lacks. */
  function RFDistance(m: set<Split>, sys: seq<Split>): int
  {
    |SplitSet(sys) - m| + |m - SplitSet(sys)|
  }

  /** The sum of the Robinson-Foulds distances from each system to `m`. */
  function RFDistances(m: set<Split>, systems: seq<seq<Split>>): int
  {
    if systems == [] then 0
    else RFDistances(m, systems[..|systems| - 1]) + RFDistance(m, systems[|systems| - 1])
  }

  /** 1 when the tree `sys` and the tree `m` disagree about the split. */
  function Disagrees(m: set<Split>, sys: seq<Split>): Split -> int
  {
    s => if (s in m) != (s in sys) then 1 else 0
  }

  /** How many of the systems disagree with `m` about the split: those
      lacking it when `m` has it, those having it otherwise. */
  function Dissent(m: set<Split>, systems: seq<seq<Split>>): Split -> int
  {
    s => if s in m then |systems| - Occ(systems, s) else Occ(systems, s)
  }

  /** Every split of system `i` is among all the systems' splits. */
  lemma {:induction false} InFlatten(systems: seq<seq<Split>>, i: nat, s: Split)
    requires i < |systems| && s in systems[i]
    ensures s in Flatten(systems)
  {
    var n := |systems| - 1;
    if i < n {
      assert systems[..n][i] == systems[i];
      InFlatten(systems[..n], i, s);
    }
  }

  /** Over an enumeration of splits that holds both trees' splits, the
      disagreements add up to the Robinson-Foulds distance. */
  lemma DisagreementSum(xs: seq<Split>, keys: set<Split>, m: set<Split>, sys: seq<Split>)
    requires Enumerates(xs, keys) && m <= keys && SplitSet(sys) <= keys
    ensures SumBy(xs, Disagrees(m, sys)) == RFDistance(m, sys)
  {
    var d := (SplitSet(sys) - m) + (m - SplitSet(sys));
    SumByCongruent(xs, Disagrees(m, sys), Indicator(d));
    SumByIndicator(xs, d);
    EnumerationElements(xs, keys);
    assert d * keys == d;
    SymmetricDifferenceCard(SplitSet(sys), m);
  }

  /** Counting disagreements split by split or tree by tree gives the same
      total. */
  lemma {:induction false} DissentSum(xs: seq<Split>, keys: set<Split>, m: set<Split>, systems: seq<seq<Split>>)
    requires Enumerates(xs, keys) && m <= keys
    requires forall i :: 0 <= i < |systems| ==> SplitSet(systems[i]) <= keys
    ensures SumBy(xs, Dissent(m, systems)) == RFDistances(m, systems)
    decreases |systems|
  {
    if systems == [] {
      SumByZero(xs, Dissent(m, systems));
    } else {
      var n := |systems| - 1;
      var front := systems[..n];
      assert forall i :: 0 <= i < n ==> front[i] == systems[i];
      DissentSum(xs, keys, m, front);
      DisagreementSum(xs, keys, m, systems[n]);
      SumByAdd(xs, Dissent(m, front), Disagrees(m, systems[n]), Dissent(m, systems));
    }
  }

  /** The split lists of the trees, in order. */
  function SplitLists(trees: seq<Tree>): (r: seq<seq<Split>>)
    ensures |r| == |trees| && forall i :: 0 <= i < |trees| ==> r[i] == trees[i].splits
  {
    seq(|trees|, i requires 0 <= i < |trees| => trees[i].splits)
  }

  lemma {:induction false} AllSplitsFlatten(trees: seq<Tree>)
    ensures AllSplits(trees) == Flatten(SplitLists(trees))
    decreases |trees|
  {
    if trees != [] {
      var n := |trees| - 1;
      assert SplitLists(trees)[..n] == SplitLists(trees[..n]);
      AllSplitsFlatten(trees[..n]);
    }
  }

  /** The splits of well-formed trees are counted tree by tree. */
  lemma ForestCountsTrees(trees: seq<Tree>)
    requires WellFormedForest(trees)
    ensures CountsTrees(AllSplits(trees), SplitLists(trees), |trees|)
  {
    AllSplitsFlatten(trees);
  }

  /** `sumRFtoMajRuleTree` is what its documentation promises: when every
      count is the number of trees holding the split, the sum of
      `min(count, nTrees - count)` is the sum over the trees of their
      Robinson-Foulds distance to the majority-rule tree. */
  lemma RFSumIsDistanceSum(added: multiset<Split>, systems: seq<seq<Split>>, nTrees: int)
    requires CountsTrees(added, systems, nTrees) && |systems| == nTrees
    ensures SetSum(TallyOf(added).Keys, RFTerm(TallyOf(added), nTrees)) == RFDistances(Majority(TallyOf(added), nTrees), systems)
  {
    var counts := TallyOf(added);
    var keys := counts.Keys;
    var m := Majority(counts, nTrees);
    var xs := Enumerate(keys);
    forall i | 0 <= i < |xs| ensures RFTerm(counts, nTrees)(xs[i]) == Dissent(m, systems)(xs[i]) {
      FlattenOcc(systems, xs[i]);
      OccBound(systems, xs[i]);
      RFTermIsDisagreement(counts, nTrees, xs[i]);
    }
    SumByCongruent(xs, RFTerm(counts, nTrees), Dissent(m, systems));
    forall i | 0 <= i < |systems| ensures SplitSet(systems[i]) <= keys {
      forall s | s in SplitSet(systems[i]) ensures s in keys {
        InFlatten(systems, i, s);
      }
    }
    DissentSum(xs, keys, m, systems);
  }

  /** The loops of `weightedPairwiseSplitIncompatibility`
      (SplitCounts.java:175-185) over the keys in iteration order: the sum
      of `IncompatWeight` over the pairs of positions `i < j`. */
  method PairWeights(keySet: seq<Split>, counts: map<Split, int>, threshold: int) returns (sum: int)
    requires forall p :: 0 <= p < |keySet| ==> keySet[p] in counts
    ensures sum == PairSum(keySet, IncompatWeight(counts, threshold))
  {
    var n := |keySet|;
    ghost var w := IncompatWeight(counts, threshold);
    sum := 0;
    var i := 0;
    while i < n - 1
      invariant 0 <= i <= n && (n > 0 ==> i <= n - 1)
      invariant sum + PairSum(keySet[i..], w) == PairSum(keySet, w)
    {
      assert keySet[i..][1..] == keySet[i + 1..];
      var count1 := counts[keySet[i]];
      if count1 <= threshold {
        SumByZero(keySet[i + 1..], RowFn(w, keySet[i]));
        i := i + 1;
        continue;
      }
      count1 := count1 - threshold;
      var rowSum := RowWeight(keySet, counts, threshold, i, count1);
      sum := sum + rowSum;
      i := i + 1;
    }
    if n > 0 {
      assert keySet[i..] == [keySet[n - 1]] && keySet[i..][1..] == [];
    } else {
      assert keySet[i..] == [];
    }
  }

  /** The inner loop of `weightedPairwiseSplitIncompatibility`
      (SplitCounts.java:179-184) for the split at position `i`, whose
      reduced count is `count1`. */
  method RowWeight(keySet: seq<Split>, counts: map<Split, int>, threshold: int, i: nat, count1: int) returns (rowSum: int)
    requires i < |keySet| && keySet[i] in counts && count1 == counts[keySet[i]] - threshold > 0
    requires forall p :: 0 <= p < |keySet| ==> keySet[p] in counts
    ensures rowSum == SumBy(keySet[i + 1..], RowFn(IncompatWeight(counts, threshold), keySet[i]))
  {
    ghost var row := RowFn(IncompatWeight(counts, threshold), keySet[i]);
    rowSum := 0;
    var j := i + 1;
    while j < |keySet|
      invariant i + 1 <= j <= |keySet|
      invariant rowSum + SumBy(keySet[j..], row) == SumBy(keySet[i + 1..], row)
    {
      assert keySet[j..][1..] == keySet[j + 1..];
      var count2 := counts[keySet[j]];
      if count2 > threshold && !Compatible(keySet[i], keySet[j]) {
        rowSum := rowSum + count1 * (count2 - threshold);
      }
      j := j + 1;
    }
  }

  /** The splits added are exactly those of the counted trees (so each
      split's count is the number of counted trees that have it),
      at most `nTrees` trees were counted (a tree whose taxa were refused
      still raised `nTrees`), and every counted tree is a proper tree. */
  ghost predicate CountsTrees(added: multiset<Split>, systems: seq<seq<Split>>, nTrees: int)
  {
    && |systems| <= nTrees
    && added == Flatten(systems)
    && (forall i :: 0 <= i < |systems| ==> Distinct(systems[i]) && PairwiseCompatible(systems[i]))
  }

  /** Counting one more proper tree keeps every count equal to the number
      of trees holding the split. */
  lemma CountsTreesStep(added: multiset<Split>, systems: seq<seq<Split>>, nTrees: int, xs: seq<Split>,
                         added': multiset<Split>, systems': seq<seq<Split>>, nTrees': int)
    requires CountsTrees(added, systems, nTrees)
    requires Distinct(xs) && PairwiseCompatible(xs)
    requires added' == added + multiset(xs) && systems' == systems + [xs] && nTrees' == nTrees + 1
    ensures CountsTrees(added', systems', nTrees')
  {
    assert systems'[..|systems|] == systems;
  }

  /** A tree whose splits were refused still counts towards `nTrees`. */
  lemma CountsTreesRefused(added: multiset<Split>, systems: seq<seq<Split>>, nTrees: int, nTrees': int)
    requires CountsTrees(added, systems, nTrees) && nTrees' == nTrees + 1
    ensures CountsTrees(added, systems, nTrees')
  {
  }

  /** `addTree` keeps the counts those of the counted trees, whether the
      tree's splits were counted (`counted`) or refused. */
  lemma TreeStep(flag: bool, tree: Tree, counted: bool,
                 added: multiset<Split>, systems: seq<seq<Split>>, nTrees: int,
                 added': multiset<Split>, systems': seq<seq<Split>>, nTrees': int)
    requires nTrees' == nTrees + 1
    requires counted ==> added' == added + multiset(tree.splits) && systems' == systems + [tree.splits]
    requires !counted ==> added' == added && systems' == systems
    ensures (flag ==> CountsTrees(added, systems, nTrees)) && WellFormedTree(tree) ==>
              (flag ==> CountsTrees(added', systems', nTrees'))
  {
    if flag && CountsTrees(added, systems, nTrees) && WellFormedTree(tree) {
      if counted {
        CountsTreesStep(added, systems, nTrees, tree.splits, added', systems', nTrees');
      } else {
        CountsTreesRefused(added, systems, nTrees, nTrees');
      }
    }
  }

  /** One counting step keeps the map equal to the tally of everything
      added and `splits` equal to its key set. */
  lemma CountOne(counts: map<Split, int>, splits: set<Split>, added: multiset<Split>, split: Split)
    requires counts == TallyOf(added) && splits == counts.Keys
    ensures var next := if split in counts then counts[split := counts[split] + 1] else counts[split := 1];
      && next == TallyOf(added + multiset{split})
      && next.Keys == (if split in counts then splits else splits + {split})
  {
    TallyAdd(added, split);
  }

  /** The message of Java's `Vector(int)` for a negative capacity. */
  function IllegalCapacity(n: int): string
  {
    "Illegal Capacity: " + IntToString(n)
  }

  /** What `findGreedySplits` gives when it has to run the greedy pass:
      a null taxon set, a negative capacity, or success. */
  function GreedyOutcome(idg: Option<TaxonSet>): (o: Outcome)
    ensures o.Pass? <==> idg.Some? && IdCount(idg.value) >= 3
  {
    if idg.None? then Fail(NullPointer)
    else if IdCount(idg.value) - 3 < 0 then Fail(IllegalArgument(IllegalCapacity(IdCount(idg.value) - 3)))
    else Pass
  }

  /** The splits of `counts`, ordered by non-increasing count (ties in any
      order). */
  method SortKeys(counts: map<Split, int>) returns (sorted: seq<Split>)
    ensures Enumerates(sorted, counts.Keys)
    ensures ByDescendingCount(counts, sorted)
  {
    sorted := [];
    var rest := counts.Keys;
    while rest != {}
      invariant SortedSoFar(counts, sorted, rest)
      decreases |rest|
    {
      MaxExists(rest, counts);
      var k :| k in rest && forall y :: y in rest ==> counts[y] <= counts[k];
      SortStep(counts, sorted, rest, k);
      sorted := sorted + [k];
      rest := rest - {k};
    }
  }

  /** The selection loop's state: `sorted` lists the chosen keys by
      non-increasing count, `rest` the keys not yet chosen, none of which
      outranks a chosen one. */
  ghost predicate SortedSoFar(counts: map<Split, int>, sorted: seq<Split>, rest: set<Split>)
  {
    && rest <= counts.Keys
    && |sorted| + |rest| == |counts.Keys|
    && Distinct(sorted)
    && (forall i :: 0 <= i < |sorted| ==> sorted[i] in counts.Keys && sorted[i] !in rest)
    && (forall x | x in counts.Keys :: x in rest || x in sorted)
    && ByDescendingCount(counts, sorted)
    && (forall i, x :: 0 <= i < |sorted| && x in rest ==> counts[x] <= Get(counts, sorted[i]))
  }

  /** Choosing a remaining key of largest count keeps the loop's state. */
  lemma SortStep(counts: map<Split, int>, sorted: seq<Split>, rest: set<Split>, k: Split)
    requires SortedSoFar(counts, sorted, rest)
    requires k in rest && forall y :: y in rest ==> counts[y] <= counts[k]
    ensures SortedSoFar(counts, sorted + [k], rest - {k})
  {
    var next := sorted + [k];
    assert forall i :: 0 <= i < |sorted| ==> next[i] == sorted[i];
    assert next[|sorted|] == k;
    assert |rest - {k}| == |rest| - 1;
  }

  const DifferentTaxa: string := "Tried to add split on different taxon set"
  /** The exception `setIdGroup` throws for a taxon set that is not the
      bound one. */
  const TaxaRefused: Error := IllegalArgument(DifferentTaxa)
  const NotOnlyTrees: string := "Can't determine consensus tree unless splits added only via trees"

  class SplitCounts {
    var counts: map<Split, int>
    var splits: set<Split>
    var sortedSplits: Option<seq<Split>>
    var greedySplits: Option<seq<Split>>
    var greedySplitIndex: Option<seq<int>>
    var idg: Option<TaxonSet>
    var nTrees: nat
    var splitsAddedOnlyViaTrees: bool
    var nSplits: int
    /** Every split counted so far, with repetitions. */
    ghost var added: multiset<Split>
    /** The split systems of the trees counted so far, in order. */
    ghost var treeSystems: seq<seq<Split>>

    /** The counts are the tally of everything added, `splits` has the same
        keys, and `nSplits` is the number of splits added; cached results are
        consistent (`CacheValid`). */
    ghost predicate Valid()
      reads this`counts, this`splits, this`nSplits, this`added
      reads this`sortedSplits, this`greedySplits, this`greedySplitIndex, this`idg
    {
      TallyValid() && CacheValid(counts.Keys)
    }

    ghost predicate TallyValid()
      reads this`counts, this`splits, this`nSplits, this`added
    {
      && counts == TallyOf(added)
      && splits == counts.Keys
      && nSplits == |added|
    }

    /** A cached sorted list holds distinct splits of `known`; a cached
        greedy selection is the greedy pass over it. */
    ghost predicate CacheValid(known: set<Split>)
      reads this`sortedSplits, this`greedySplits, this`greedySplitIndex, this`idg
    {
      && (sortedSplits.Some? ==>
            && Distinct(sortedSplits.value)
            && forall i :: 0 <= i < |sortedSplits.value| ==> sortedSplits.value[i] in known)
      && (greedySplits.Some? <==> greedySplitIndex.Some?)
      && (greedySplits.Some? ==>
            && sortedSplits.Some? && idg.Some? && IdCount(idg.value) >= 3
            && Greedy(sortedSplits.value, IdCount(idg.value) - 3)
               == Selection(greedySplits.value, greedySplitIndex.value))
    }

    /** While only trees were added, the counts are those of the counted
        trees (`CountsTrees`). */
    ghost predicate TreeCounted()
      reads this`splitsAddedOnlyViaTrees, this`added, this`treeSystems, this`nTrees
    {
      splitsAddedOnlyViaTrees ==> CountsTrees(added, treeSystems, nTrees)
    }

    /** `new SplitCounts()`: empty, no taxon set yet. */
    constructor ()
      ensures Valid() && TreeCounted()
      ensures counts == map[] && added == multiset{} && treeSystems == []
      ensures idg == None && nTrees == 0 && nSplits == 0 && splitsAddedOnlyViaTrees
      ensures sortedSplits == None && greedySplits == None && greedySplitIndex == None
    {
      counts := map[];
      splits := {};
      idg := None;
      nTrees := 0;
      nSplits := 0;
      splitsAddedOnlyViaTrees := true;
      sortedSplits := None;
      greedySplits := None;
      greedySplitIndex := None;
      added := multiset{};
      treeSystems := [];
    }

    /** `new SplitCounts(IdGroup)`: empty, with the taxon set bound. */
    constructor WithTaxa(taxa: TaxonSet)
      ensures Valid() && TreeCounted()
      ensures counts == map[] && added == multiset{} && treeSystems == []
      ensures idg == Some(taxa) && nTrees == 0 && nSplits == 0 && splitsAddedOnlyViaTrees
      ensures sortedSplits == None && greedySplits == None && greedySplitIndex == None
    {
      counts := map[];
      splits := {};
      idg := Some(taxa);
      nTrees := 0;
      nSplits := 0;
      splitsAddedOnlyViaTrees := true;
      sortedSplits := None;
      greedySplits := None;
      greedySplitIndex := None;
      added := multiset{};
      treeSystems := [];
    }

    /** `setIdGroup`: binds the taxon set on first use; a taxon set that is
        not the same as the bound one is refused. */
    method SetIdGroup(taxa: TaxonSet) returns (o: Outcome)
      modifies this`idg
      ensures idg == if old(idg).None? then Some(taxa) else old(idg)
      ensures o == if SameTaxa(idg.value, taxa) then Pass else Fail(TaxaRefused)
    {
      if idg.None? {
        idg := Some(taxa);
      }
      if !SameTaxa(idg.value, taxa) {
        return Fail(TaxaRefused);
      }
      return Pass;
    }

    /** `addSplitSystem__`: check the taxon set, then count every split of
        the system once. A refused taxon set changes no count. The caches are
        left as they are. */
    method AddSplitSystemCore(sys: SplitSystem) returns (o: Outcome)
      requires Valid()
      modifies this`idg, this`counts, this`splits, this`nSplits, this`added
      ensures Valid()
      ensures idg == if old(idg).None? then Some(sys.taxa) else old(idg)
      ensures o == if SameTaxa(idg.value, sys.taxa) then Pass else Fail(TaxaRefused)
      ensures o.Pass? ==> added == old(added) + multiset(sys.splits)
      ensures o.Fail? ==> added == old(added)
    {
      o := SetIdGroup(sys.taxa);
      if o.Fail? {
        return;
      }
      ghost var known := counts.Keys;
      assert CacheValid(known);
      CountSplits(sys.splits);
      CacheGrows(known, counts.Keys);
    }

    /** The counting loop at SplitCounts.java:108-117. */
    method CountSplits(xs: seq<Split>)
      requires TallyValid()
      modifies this`counts, this`splits, this`nSplits, this`added
      ensures TallyValid()
      ensures added == old(added) + multiset(xs)
      ensures old(counts).Keys <= counts.Keys
    {
      var i := 0;
      while i < |xs|
        invariant 0 <= i <= |xs|
        invariant added == old(added) + multiset(xs[..i])
        invariant TallyValid() && old(counts).Keys <= counts.Keys
      {
        var split := xs[i];
        CountSplit(split);
        assert xs[..i + 1] == xs[..i] + [split];
        i := i + 1;
      }
      assert xs[..i] == xs;
    }

    /** The body of the counting loop at SplitCounts.java:109-116. */
    method CountSplit(split: Split)
      requires TallyValid()
      modifies this`counts, this`splits, this`nSplits, this`added
      ensures TallyValid()
      ensures added == old(added) + multiset{split}
      ensures old(counts).Keys <= counts.Keys
    {
      CountOne(counts, splits, added, split);
      nSplits := nSplits + 1;
      if split in counts {
        counts := counts[split := counts[split] + 1];
      } else {
        counts := counts[split := 1];
        splits := splits + {split};
      }
      added := added + multiset{split};
    }

    /** A cache that was consistent stays so when only new keys appear. */
    lemma CacheGrows(known: set<Split>, now: set<Split>)
      requires CacheValid(known) && known <= now
      ensures CacheValid(now)
    {
    }

    /** `addSplitSystem`: counts a split system that need not come from a
        tree, which rules out the majority-rule statistics from then on. */
    method AddSplitSystem(sys: SplitSystem) returns (o: Outcome)
      requires Valid()
      modifies this`idg, this`counts, this`splits, this`nSplits, this`added, this`splitsAddedOnlyViaTrees
      ensures Valid() && TreeCounted()
      ensures !splitsAddedOnlyViaTrees
      ensures idg == if old(idg).None? then Some(sys.taxa) else old(idg)
      ensures o == if SameTaxa(idg.value, sys.taxa) then Pass else Fail(TaxaRefused)
      ensures o.Pass? ==> added == old(added) + multiset(sys.splits)
      ensures o.Fail? ==> added == old(added)
    {
      splitsAddedOnlyViaTrees := false;
      o := AddSplitSystemCore(sys);
    }

    /** `addTree`: one more tree, then its splits. The tree count goes up
        even when the tree's taxa are refused. */
    method AddTree(tree: Tree) returns (o: Outcome)
      requires Valid()
      modifies this`idg, this`counts, this`splits, this`nSplits, this`added, this`nTrees, this`treeSystems
      ensures Valid()
      ensures nTrees == old(nTrees) + 1
      ensures idg == if old(idg).None? then Some(tree.taxa) else old(idg)
      ensures o == if SameTaxa(idg.value, tree.taxa) then Pass else Fail(TaxaRefused)
      ensures o.Pass? ==> added == old(added) + multiset(tree.splits) && treeSystems == old(treeSystems) + [tree.splits]
      ensures o.Fail? ==> added == old(added) && treeSystems == old(treeSystems)
      ensures old(TreeCounted()) && WellFormedTree(tree) ==> TreeCounted()
    {
      ghost var added0, nTrees0 := added, nTrees;
      ghost var counted0 := TreeCounted();
      nTrees := nTrees + 1;
      o := AddSplitSystemCore(SplitsOf(tree));
      RecordTree(tree, o.Pass?, added0, nTrees0, counted0);
    }

    /** The ghost side of `addTree`: remember the tree's splits when they
        were counted. */
    ghost method RecordTree(tree: Tree, counted: bool, added0: multiset<Split>, nTrees0: int, counted0: bool)
      requires nTrees == nTrees0 + 1
      requires counted ==> added == added0 + multiset(tree.splits)
      requires !counted ==> added == added0
      requires counted0 == (splitsAddedOnlyViaTrees ==> CountsTrees(added0, treeSystems, nTrees0))
      modifies this`treeSystems
      ensures treeSystems == if counted then old(treeSystems) + [tree.splits] else old(treeSystems)
      ensures counted0 && WellFormedTree(tree) ==> TreeCounted()
    {
      if counted {
        treeSystems := treeSystems + [tree.splits];
      }
      TreeStep(splitsAddedOnlyViaTrees, tree, counted, added0, old(treeSystems), nTrees0, added, treeSystems, nTrees);
    }

    /** `addForest`: `addTree` on each tree in order, stopping at the first
        refused one. The bound taxon set is the one already bound, else the
        first tree's; the forest passes exactly when every tree has those
        taxa, and otherwise stops just after the first tree that does not. */
    method AddForest(forest: Forest) returns (o: Outcome)
      requires Valid()
      modifies this`idg, this`counts, this`splits, this`nSplits, this`added, this`nTrees, this`treeSystems
      ensures Valid()
      ensures idg == if forest.trees != [] && old(idg).None? then Some(forest.trees[0].taxa) else old(idg)
      ensures forest.trees == [] ==> o.Pass?
      ensures forest.trees != [] ==> (o.Pass? <==> AllOn(idg.value, forest.trees))
      ensures o.Pass? ==> nTrees == old(nTrees) + |forest.trees| && added == old(added) + AllSplits(forest.trees)
      ensures o.Fail? ==> (forest.trees != [] &&
        exists j :: FirstOff(idg.value, forest.trees, j) && nTrees == old(nTrees) + j + 1
                    && added == old(added) + AllSplits(forest.trees[..j]))
      ensures o.Fail? ==> o.error == TaxaRefused
      ensures old(TreeCounted()) && WellFormedForest(forest.trees) ==> TreeCounted()
    {
      var trees := forest.trees;
      ghost var counted := TreeCounted() && WellFormedForest(trees);
      ghost var added0 := added;
      ghost var b := if idg.Some? then idg.value else if trees != [] then trees[0].taxa else TaxonSet([]);
      ghost var idg0, nTrees0 := idg, nTrees;
      var i := 0;
      o := Pass;
      while i < |trees| && o.Pass?
        invariant ForestSoFar(trees, i, o, added0, nTrees0, b, counted)
        invariant idg == if i > 0 then Some(b) else idg0
      {
        o := AddForestTree(trees, i, added0, nTrees0, counted, b);
        i := i + 1;
      }
      ForestDone(trees, i, o, added0, nTrees0, b, idg0, counted);
    }

    /** What `addForest` has done once its loop ends: its postconditions,
        with the tally's earlier state as parameters. */
    lemma ForestDone(trees: seq<Tree>, i: int, o: Outcome, added0: multiset<Split>, nTrees0: int,
                     b: TaxonSet, idg0: Option<TaxonSet>, counted: bool)
      requires ForestSoFar(trees, i, o, added0, nTrees0, b, counted) && (i == |trees| || o.Fail?)
      requires idg == if i > 0 then Some(b) else idg0
      requires b == if idg0.Some? then idg0.value else if trees != [] then trees[0].taxa else TaxonSet([])
      ensures Valid() && (counted ==> TreeCounted())
      ensures idg == if trees != [] && idg0.None? then Some(trees[0].taxa) else idg0
      ensures trees == [] ==> o.Pass?
      ensures trees != [] ==> (o.Pass? <==> AllOn(idg.value, trees))
      ensures o.Pass? ==> nTrees == nTrees0 + |trees| && added == added0 + AllSplits(trees)
      ensures o.Fail? ==> (trees != [] &&
        exists j :: FirstOff(idg.value, trees, j) && nTrees == nTrees0 + j + 1
                    && added == added0 + AllSplits(trees[..j]))
      ensures o.Fail? ==> o.error == TaxaRefused
    {
      if o.Pass? {
        assert trees[..i] == trees;
      } else {
        assert !SameTaxa(b, trees[i - 1].taxa);
      }
    }

    /** The tally after `addForest` has added the first `i` trees to a
        tally that held `added0` from `nTrees0` trees, with `b` the bound
        taxon set: all of them counted while they pass, and on a refusal
        tree `i - 1` the first with other taxa. */
    ghost predicate ForestSoFar(trees: seq<Tree>, i: int, o: Outcome, added0: multiset<Split>, nTrees0: int,
                                b: TaxonSet, counted: bool)
      reads this`counts, this`splits, this`nSplits, this`added, this`nTrees, this`treeSystems
      reads this`sortedSplits, this`greedySplits, this`greedySplitIndex, this`idg, this`splitsAddedOnlyViaTrees
    {
      && 0 <= i <= |trees|
      && Valid()
      && nTrees == nTrees0 + i
      && (o.Pass? ==> added == added0 + AllSplits(trees[..i]) && AllOn(b, trees[..i]))
      && (o.Fail? ==> 0 < i && added == added0 + AllSplits(trees[..i - 1]) && o.error == TaxaRefused
                      && FirstOff(b, trees, i - 1))
      && (counted ==> TreeCounted())
    }

    /** One step of `addForest`: `addTree` on tree `i`, after trees
        `0..i-1` were added to the tally that held `added0`. */
    method AddForestTree(trees: seq<Tree>, i: nat, ghost added0: multiset<Split>, ghost nTrees0: int,
                         ghost counted: bool, ghost b: TaxonSet) returns (o: Outcome)
      requires i < |trees| && ForestSoFar(trees, i, Pass, added0, nTrees0, b, counted)
      requires counted ==> WellFormedForest(trees)
      requires idg == Some(b) || (idg.None? && b == trees[i].taxa)
      modifies this`idg, this`counts, this`splits, this`nSplits, this`added, this`nTrees, this`treeSystems
      ensures ForestSoFar(trees, i + 1, o, added0, nTrees0, b, counted)
      ensures idg == Some(b)
    {
      assert counted ==> WellFormedTree(trees[i]);
      ghost var before := added;
      o := AddTree(trees[i]);
      if o.Pass? {
        AllSplitsStep(added0, before, added, trees, i);
        AllOnExtends(b, trees, i);
      }
    }

    /** `getCount`: how many times the split was added. */
    method GetCount(split: Split) returns (c: int)
      requires Valid()
      ensures c == added[split]
    {
      c := if split in counts then counts[split] else 0;
    }

    /** `numUniqueSplits`: the number of different splits added. */
    method NumUniqueSplits() returns (n: int)
      requires Valid()
      ensures n == |set s | s in added|
    {
      assert splits == set s | s in added;
      n := |splits|;
    }

    /** `totalNumberSplits`: the number of splits added, repetitions
        included. */
    method TotalNumberSplits() returns (n: int)
      requires Valid()
      ensures n == |added|
    {
      n := nSplits;
    }

    /** `majorityRuleConsensusTree`, up to building the tree: the splits seen
        in at least `nTrees/2 + 1` trees. Refused once a split system not
        from a tree was added. */
    method MajorityRuleConsensus() returns (r: Result<set<Split>>)
      requires Valid()
      ensures r.Err? <==> !splitsAddedOnlyViaTrees
      ensures r.Err? ==> r.error == Runtime(NotOnlyTrees)
      ensures r.Ok? ==> r.value == Majority(counts, nTrees)
      ensures r.Ok? && TreeCounted() ==> forall a, b :: a in r.value && b in r.value ==> Compatible(a, b)
    {
      if !splitsAddedOnlyViaTrees {
        return Err(Runtime(NotOnlyTrees));
      }
      var majority := JavaDiv(nTrees, 2) + 1;
      var keys := IterationOrder(counts.Keys);
      var consensus: set<Split> := {};
      var i := 0;
      while i < |keys|
        invariant 0 <= i <= |keys|
        invariant consensus == set k | k in keys[..i] && Get(counts, k) >= majority
      {
        assert keys[..i + 1] == keys[..i] + [keys[i]];
        if counts[keys[i]] >= majority {
          consensus := consensus + {keys[i]};
        }
        i := i + 1;
      }
      assert keys[..i] == keys;
      if TreeCounted() {
        MajorityCompatible(added, treeSystems, nTrees);
      }
      return Ok(consensus);
    }

    /** `sumRFtoMajRuleTree`: the sum over distinct splits of
        `min(count, nTrees - count)`, in any key order. */
    method SumRFtoMajRuleTree() returns (r: Result<int>)
      requires Valid()
      ensures r.Err? <==> !splitsAddedOnlyViaTrees
      ensures r.Err? ==> r.error == Runtime(NotOnlyTrees)
      ensures r.Ok? ==> r.value == SetSum(counts.Keys, RFTerm(counts, nTrees))
      ensures r.Ok? && TreeCounted() ==> r.value >= 0
      ensures r.Ok? && TreeCounted() && |treeSystems| == nTrees ==>
        r.value == RFDistances(Majority(counts, nTrees), treeSystems)
    {
      if !splitsAddedOnlyViaTrees {
        return Err(Runtime(NotOnlyTrees));
      }
      var keys := IterationOrder(counts.Keys);
      var sumDist := 0;
      var i := 0;
      while i < |keys|
        invariant 0 <= i <= |keys|
        invariant sumDist + SumBy(keys[i..], RFTerm(counts, nTrees)) == SumBy(keys, RFTerm(counts, nTrees))
      {
        var count := counts[keys[i]];
        assert keys[i..][1..] == keys[i + 1..];
        sumDist := sumDist + if count <= nTrees - count then count else nTrees - count;
        i := i + 1;
      }
      SumByEnumeration(keys, counts.Keys, RFTerm(counts, nTrees));
      if TreeCounted() {
        RFSumNonNegative(added, treeSystems, nTrees);
        if |treeSystems| == nTrees {
          RFSumIsDistanceSum(added, treeSystems, nTrees);
        }
      }
      return Ok(sumDist);
    }

    /** `weightedPairwiseSplitIncompatibility(threshold)`: over the unordered
        pairs of distinct splits, the sum of `IncompatWeight`; the key order
        the loops happen to use does not matter. */
    method WeightedPairwiseSplitIncompatibility(threshold: int) returns (sum: int)
      requires Valid()
      ensures sum == SetPairSum(counts.Keys, IncompatWeight(counts, threshold))
    {
      var keySet := IterationOrder(counts.Keys);
      sum := PairWeights(keySet, counts, threshold);
      IncompatWeightSymmetric(counts, threshold);
      PairSumEnumeration(keySet, counts.Keys, IncompatWeight(counts, threshold));
    }

    /** `weightedPairwiseSplitIncompatibility()`: the threshold-0 form, the
        number of incompatible pairs weighted by their counts. */
    method WeightedPairwiseSplitIncompatibilityAll() returns (sum: int)
      requires Valid()
      ensures sum == SetPairSum(counts.Keys, IncompatWeight(counts, 0))
    {
      sum := WeightedPairwiseSplitIncompatibility(0);
    }

    /** The `Math.max` loop of `countByFrequency` (SplitCounts.java:377). */
    method MaxCount() returns (m: int)
      requires Valid()
      ensures IsMaxCount(counts, m)
    {
      var keys := IterationOrder(counts.Keys);
      m := 0;
      var i := 0;
      while i < |keys|
        invariant 0 <= i <= |keys|
        invariant m >= 0
        invariant forall p :: 0 <= p < i ==> counts[keys[p]] <= m
        invariant m > 0 ==> exists p :: 0 <= p < i && counts[keys[p]] == m
      {
        m := if m >= counts[keys[i]] then m else counts[keys[i]];
        i := i + 1;
      }
    }

    /** `countByFrequency`: entry `c - 1` is the number of distinct splits
        seen exactly `c` times. The array has `nTrees` entries when only
        trees were added, else as many as the largest count; a count beyond
        the end is an index error. */
    method CountByFrequency() returns (r: Result<seq<int>>)
      requires Valid()
      ensures r.Err? <==> splitsAddedOnlyViaTrees && exists k :: k in counts && counts[k] > nTrees
      ensures r.Err? ==> exists k :: k in counts && counts[k] > nTrees && r.error == IndexOutOfBounds(counts[k] - 1)
      ensures r.Ok? && splitsAddedOnlyViaTrees ==> |r.value| == nTrees
      ensures r.Ok? && !splitsAddedOnlyViaTrees ==> IsMaxCount(counts, |r.value|)
      ensures r.Ok? ==> forall c :: 0 <= c < |r.value| ==> r.value[c] == |WithCount(counts, c + 1)|
      ensures r.Ok? ==> Sum(r.value) == |counts|
      ensures TreeCounted() ==> r.Ok?
    {
      forall k | k in counts ensures counts[k] >= 1 {
        assert k in added;
      }
      var max := 0;
      if splitsAddedOnlyViaTrees {
        max := nTrees;
      } else {
        max := MaxCount();
      }
      if TreeCounted() && splitsAddedOnlyViaTrees {
        forall k | k in counts ensures counts[k] <= nTrees {
          OccBound(treeSystems, k);
          FlattenOcc(treeSystems, k);
        }
      }
      var keys := IterationOrder(counts.Keys);
      r := Histogram(keys, counts, max);
      if r.Ok? {
        forall c | 0 <= c < |r.value| ensures r.value[c] == |WithCount(counts, c + 1)| {
          assert WithCount(counts, c + 1) * counts.Keys == WithCount(counts, c + 1);
        }
      }
    }

    /** `numUniqueCherries`: the number of distinct splits whose smaller
        side has two taxa. */
    method NumUniqueCherries() returns (count: int)
      requires Valid()
      ensures count == |Cherries(splits)|
    {
      count := CountCherries(splits);
    }

    /** The shuffle and the stable sort by descending count of
        `resortSplits` (SplitCounts.java:242-247). A shuffle followed by a
        stable sort can give any order by non-increasing count; here the next
        split is any remaining one with the largest count. */
    method SortByCount() returns (sorted: seq<Split>)
      ensures Enumerates(sorted, counts.Keys)
      ensures ByDescendingCount(counts, sorted)
    {
      sorted := SortKeys(counts);
    }

    /** `resortSplits`: sort afresh and drop the greedy selection. */
    method ResortSplits()
      requires Valid()
      modifies this`sortedSplits, this`greedySplits, this`greedySplitIndex
      ensures Valid()
      ensures sortedSplits.Some? && Enumerates(sortedSplits.value, counts.Keys)
      ensures ByDescendingCount(counts, sortedSplits.value)
      ensures greedySplits == None && greedySplitIndex == None
    {
      var sorted := SortByCount();
      sortedSplits := Some(sorted);
      greedySplits := None;
      greedySplitIndex := None;
    }

    /** `sortSplits`: sort only when no sorted list is cached. */
    method SortSplits()
      requires Valid()
      modifies this`sortedSplits, this`greedySplits, this`greedySplitIndex
      ensures Valid() && sortedSplits.Some?
      ensures old(sortedSplits).Some? ==>
        sortedSplits == old(sortedSplits) && greedySplits == old(greedySplits) && greedySplitIndex == old(greedySplitIndex)
      ensures old(sortedSplits).None? ==>
        Enumerates(sortedSplits.value, counts.Keys) && ByDescendingCount(counts, sortedSplits.value)
        && greedySplits == None && greedySplitIndex == None
    {
      if sortedSplits.None? {
        ResortSplits();
      }
    }

    /** `findGreedySplits`: nothing to do when a selection is cached;
        otherwise sort if needed and run the greedy pass with room for
        `getIdCount() - 3` splits. With no taxon set bound `getIdCount()`
        dereferences null; fewer than three taxa give a negative `Vector`
        capacity. */
    method FindGreedySplits() returns (o: Outcome)
      requires Valid()
      modifies this`sortedSplits, this`greedySplits, this`greedySplitIndex
      ensures Valid()
      ensures old(greedySplits).Some? ==>
        (o == Pass && sortedSplits == old(sortedSplits)
         && greedySplits == old(greedySplits) && greedySplitIndex == old(greedySplitIndex))
      ensures old(greedySplits).None? ==> o == GreedyOutcome(idg)
      ensures old(greedySplits).None? && old(sortedSplits).Some? ==> sortedSplits == old(sortedSplits)
      ensures old(sortedSplits).None? ==>
        (sortedSplits.Some? && Enumerates(sortedSplits.value, counts.Keys) && ByDescendingCount(counts, sortedSplits.value))
      ensures o.Pass? <==> greedySplits.Some?
      ensures o.Pass? ==> GreedyCached()
    {
      if greedySplits.Some? {
        return Pass;
      }
      SortSplits();
      if idg.None? {
        return Fail(NullPointer);
      }
      var nGreedySplits := IdCount(idg.value) - 3;
      if nGreedySplits < 0 {
        return Fail(IllegalArgument(IllegalCapacity(nGreedySplits)));
      }
      var gs, gi := GreedyPass(sortedSplits.value, nGreedySplits);
      greedySplits := Some(gs);
      greedySplitIndex := Some(gi);
      o := Pass;
    }

    /** A greedy selection is cached, and it is the greedy pass over the
        cached sorted list with room for `getIdCount() - 3` splits. */
    ghost predicate GreedyCached()
      reads this`sortedSplits, this`greedySplits, this`greedySplitIndex, this`idg
    {
      && sortedSplits.Some? && greedySplits.Some? && greedySplitIndex.Some?
      && idg.Some? && IdCount(idg.value) >= 3
      && Selection(greedySplits.value, greedySplitIndex.value) == Greedy(sortedSplits.value, IdCount(idg.value) - 3)
    }

    /** `greedyConsensusTree`, up to building the tree: the greedy
        selection, recomputed with fresh tie breaks when `recalculate`. */
    method GreedyConsensusTree(recalculate: bool) returns (r: Result<seq<Split>>)
      requires Valid()
      modifies this`sortedSplits, this`greedySplits, this`greedySplitIndex
      ensures Valid()
      ensures recalculate ==>
        (sortedSplits.Some? && Enumerates(sortedSplits.value, counts.Keys) && ByDescendingCount(counts, sortedSplits.value))
      ensures !recalculate && old(greedySplits).Some? ==>
        (sortedSplits == old(sortedSplits) && greedySplits == old(greedySplits) && r == Ok(greedySplits.value))
      ensures (recalculate || old(greedySplits).None?) && r.Err? ==> GreedyOutcome(idg) == Fail(r.error)
      ensures r.Ok? <==> greedySplits.Some?
      ensures r.Ok? ==> GreedyCached() && r.value == greedySplits.value
      ensures r.Ok? ==> PairwiseCompatible(r.value) && |r.value| <= IdCount(idg.value) - 3
    {
      if recalculate {
        ResortSplits();
      }
      var o := FindGreedySplits();
      if o.Fail? {
        return Err(o.error);
      }
      GreedyShape(sortedSplits.value, IdCount(idg.value) - 3);
      return Ok(greedySplits.value);
    }

    /** `findConflictingSplitCounts`: for each greedy split, in acceptance
        order, the list starting with it and its count, then the later
        sorted splits that conflict with it (`Conflicts`). */
    method FindConflictingSplitCounts(threshold: int, thresholdIsLength: bool)
      returns (r: Result<seq<seq<(Split, int)>>>)
      requires Valid()
      modifies this`sortedSplits, this`greedySplits, this`greedySplitIndex
      ensures Valid()
      ensures old(greedySplits).Some? ==>
        (sortedSplits == old(sortedSplits) && greedySplits == old(greedySplits) && greedySplitIndex == old(greedySplitIndex))
      ensures old(greedySplits).None? && r.Err? ==> GreedyOutcome(idg) == Fail(r.error)
      ensures r.Ok? <==> greedySplits.Some?
      ensures r.Ok? ==> GreedyCached()
      ensures r.Ok? ==> forall k :: 0 <= k < |greedySplitIndex.value| ==> 0 <= greedySplitIndex.value[k] < |sortedSplits.value|
      ensures r.Ok? ==> r.value == Conflicts(sortedSplits.value, counts, greedySplitIndex.value, threshold, thresholdIsLength)
    {
      var o := FindGreedySplits();
      if o.Fail? {
        return Err(o.error);
      }
      var sorted, index := sortedSplits.value, greedySplitIndex.value;
      GreedyIndexInRange(sorted, IdCount(idg.value) - 3);
      var results := ConflictLists(sorted, counts, index, threshold, thresholdIsLength);
      return Ok(results);
    }

    /** `new SplitCounts(Forest)`: an empty tally, then `addForest`; the
        first tree binds the taxon set, and a later tree with other taxa
        makes the constructor throw. */
    static method FromForest(forest: Forest) returns (r: Result<SplitCounts>)
      ensures r.Ok? <==> OneTaxonSet(forest.trees)
      ensures r.Err? ==> forest.trees != [] && exists j :: FirstOff(forest.trees[0].taxa, forest.trees, j)
      ensures r.Ok? ==> fresh(r.value) && r.value.Valid() && r.value.splitsAddedOnlyViaTrees
      ensures r.Ok? ==> r.value.nTrees == |forest.trees| && r.value.added == AllSplits(forest.trees)
      ensures r.Ok? && (forall i :: 0 <= i < |forest.trees| ==> WellFormedTree(forest.trees[i])) ==> r.value.TreeCounted()
      ensures r.Err? ==> r.error == TaxaRefused
      ensures r.Ok? ==> r.value.greedySplits.None?
      ensures r.Ok? && forest.trees != [] ==> r.value.idg == Some(forest.trees[0].taxa)
    {
      var c := new SplitCounts();
      var o := c.AddForest(forest);
      if o.Fail? {
        return Err(o.error);
      }
      return Ok(c);
    }

    /** `new SplitCounts(NeoSplitSystem)` as written: an empty tally, then
        `addSplitSystem__`, which leaves `splitsAddedOnlyViaTrees` set. The
        first system binds the taxon set, so it is never refused. */
    static method FromSplitSystemAsWritten(sys: SplitSystem) returns (c: SplitCounts)
      ensures fresh(c) && c.Valid() && c.splitsAddedOnlyViaTrees
      ensures c.nTrees == 0 && c.added == multiset(sys.splits) && c.idg == Some(sys.taxa)
      ensures sys.splits != [] ==> !c.TreeCounted()
    {
      c := new SplitCounts();
      var o := c.AddSplitSystemCore(sys);
      if sys.splits != [] {
        assert sys.splits[0] in c.added && c.treeSystems == [];
      }
    }

    /** `new SplitCounts(NeoSplitSystem)` corrected to go through
        `addSplitSystem`, so that the majority-rule statistics are refused
        rather than computed as if from zero trees. */
    static method FromSplitSystem(sys: SplitSystem) returns (c: SplitCounts)
      ensures fresh(c) && c.Valid() && !c.splitsAddedOnlyViaTrees && c.TreeCounted()
      ensures c.nTrees == 0 && c.added == multiset(sys.splits) && c.idg == Some(sys.taxa)
    {
      c := new SplitCounts();
      var o := c.AddSplitSystem(sys);
    }
  }

  /** What `FromSplitSystemAsWritten` leads to: a tally of one split system
      holding a single split reports a Robinson-Foulds sum of -1, a negative
      number of disagreeing trees, where the corrected constructor refuses
      the statistic. */
  method SplitSystemRFCounterexample(taxa: TaxonSet, s: Split) returns (asWritten: Result<int>, corrected: Result<int>)
    ensures asWritten == Ok(-1)
    ensures corrected == Err(Runtime(NotOnlyTrees))
  {
    var c := SplitCounts.FromSplitSystemAsWritten(SplitSystem(taxa, [s]));
    assert multiset([s])[s] == 1;
    assert c.counts == map[s := 1];
    asWritten := c.SumRFtoMajRuleTree();
    assert SumBy([s], RFTerm(c.counts, 0)) == -1;
    SumByEnumeration([s], {s}, RFTerm(c.counts, 0));
    var d := SplitCounts.FromSplitSystem(SplitSystem(taxa, [s]));
    corrected := d.SumRFtoMajRuleTree();
  }
}
