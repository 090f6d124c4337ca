/** The per-forest summary: the statistics computed once, when a forest is
    summarised, and the lookup of one of them by its short name. */
module Statistics {
  import opened Exceptions
  import opened JavaText
  import opened Sums
  import opened Tallies
  import opened Taxa
  import opened Forests
  import opened SplitTally
  import opened TopologyTally

  /** The floating-point statistics (topology entropy, tree certainty and
      quartet entropy), whose computation is not part of this model; they
      enter as given values. `QuartetEntropy.entropy` can also throw (an
      index error when the first tree has no quartet, a runtime error on an
      unresolved quartet), so the quartet entropy enters as its outcome. */
  datatype FloatStats = FloatStats(topoEntropy: real, treeCertainty: real,
                                   treeCertaintyAll: real, quartetEnt: Result<real>)

  /** The fields of a summary. Every field is set once, when the summary is
      built, and never changed afterwards. */
  datatype HybridStats = HybridStats(
    nTrees: int,
    nTaxa: int,
    nSplits: int,
    topoEntropy: real,
    cumTopoCounts: seq<int>,
    splitIncompat: int,
    reducedSplitIncompat: seq<int>,
    consensusDist: int,
    nCherries: int,
    splitsObs: int,
    treeCertainty: real,
    treeCertaintyAll: real,
    quartetEnt: real,
    cumulativeSplitCountByFreq: seq<int>)

  /** The distinct splits seen in at most `k` trees. */
  function AtMost<T(==)>(counts: map<T, int>, k: int): set<T>
  {
    set s | s in counts && counts[s] <= k
  }

  /** The split tally of a forest: how many of its trees hold each split. */
  ghost function SplitTallyOf(trees: seq<Tree>): map<Split, int>
  {
    TallyOf(AllSplits(trees))
  }

  /** The topology tally of a forest: how many of its trees have each
      topology. */
  ghost function TopologyTallyOf(trees: seq<Tree>): map<string, int>
  {
    TallyOf(Topologies(trees))
  }

  /** The statistics the split tally gives. */
  datatype SplitFigures = SplitFigures(nSplits: int, splitIncompat: int, reducedSplitIncompat: seq<int>,
                                       consensusDist: int, nCherries: int, splitsObs: int,
                                       cumulativeSplitCountByFreq: seq<int>)

  /** What the split statistics of a tally of `nTrees` trees with `nSplits`
      split occurrences and split counts `counts` are. */
  ghost predicate FiguresFor(f: SplitFigures, counts: map<Split, int>, nSplits: int, nTrees: int)
  {
    && f.nSplits == nSplits
    && f.splitIncompat == SetPairSum(counts.Keys, IncompatWeight(counts, 0))
    && |f.reducedSplitIncompat| == nTrees / 2
    && (forall i :: 0 <= i < |f.reducedSplitIncompat| ==>
          f.reducedSplitIncompat[i] == SetPairSum(counts.Keys, IncompatWeight(counts, i)))
    && f.consensusDist == SetSum(counts.Keys, RFTerm(counts, nTrees))
    && f.nCherries == |Cherries(counts.Keys)|
    && f.splitsObs == |counts.Keys|
    && |f.cumulativeSplitCountByFreq| == nTrees
    && (forall k :: 0 <= k < |f.cumulativeSplitCountByFreq| ==>
          f.cumulativeSplitCountByFreq[k] == |AtMost(counts, k)|)
  }

  /** What a summary of `trees` holds: every integer statistic as the split
      and topology tallies of the forest determine it, and the floating ones
      as given. */
  ghost predicate Summarises(h: HybridStats, trees: seq<Tree>, floats: FloatStats)
  {
    var topologies := TopologyTallyOf(trees);
    && trees != []
    && h.nTrees == |trees|
    && h.nTaxa == IdCount(trees[0].taxa)
    && |h.cumTopoCounts| == |topologies|
    && (forall i :: 0 <= i < |h.cumTopoCounts| ==> h.cumTopoCounts[i] == Largest(SortedCounts(topologies), i))
    && FiguresFor(Figures(h), SplitTallyOf(trees), |AllSplits(trees)|, |trees|)
    && h.topoEntropy == floats.topoEntropy
    && h.treeCertainty == floats.treeCertainty
    && h.treeCertaintyAll == floats.treeCertaintyAll
    && floats.quartetEnt == Ok(h.quartetEnt)
  }

  /** The split statistics of a summary. */
  function Figures(h: HybridStats): SplitFigures
  {
    SplitFigures(h.nSplits, h.splitIncompat, h.reducedSplitIncompat, h.consensusDist,
                 h.nCherries, h.splitsObs, h.cumulativeSplitCountByFreq)
  }

  /** The ways summarising can fail, each only when the ones before it do
      not apply: an empty forest has no first tree, a tree whose taxa differ
      from the first one's is refused by the tallies, fewer than three taxa
      make the greedy consensus of the tree certainty ask for a negative
      capacity, the quartet entropy can fail, and a split counted more often
      than there are trees overruns the frequency histogram. */
  ghost predicate BuildError(e: Error, trees: seq<Tree>, quartet: Result<real>)
  {
    if trees == [] then e == IndexOutOfBounds(0)
    else if !OneTaxonSet(trees) then TaxaError(e)
    else if IdCount(trees[0].taxa) < 3 then e == IllegalArgument(IllegalCapacity(IdCount(trees[0].taxa) - 3))
    else if quartet.Err? then e == quartet.error
    else HistogramError(e, SplitTallyOf(trees), |trees|)
  }

  /** The index error of the frequency histogram: some split was counted
      more often than there are trees. */
  ghost predicate HistogramError(e: Error, counts: map<Split, int>, nTrees: int)
  {
    exists s :: s in counts && counts[s] > nTrees && e == IndexOutOfBounds(counts[s] - 1)
  }

  /** One of the two refusals of a tree's taxa, which come before every
      other failure of a non-empty forest. */
  predicate TaxaError(e: Error)
  {
    e == TaxaRefused || e == IllegalArgument(IncompatibleTaxa)
  }

  /** `cumulativeSplitCountByFreq` from the frequency histogram: entry 0 is
      0 and entry `i` adds histogram entry `i - 1` to entry `i - 1`; an empty
      histogram fails at the write of entry 0. */
  method CumulativeByFrequency(freq: seq<int>) returns (r: Result<seq<int>>)
    ensures r.Err? <==> freq == []
    ensures r.Err? ==> r.error == IndexOutOfBounds(0)
    ensures r.Ok? ==> |r.value| == |freq|
    ensures r.Ok? ==> forall k :: 0 <= k < |r.value| ==> r.value[k] == Sum(freq[..k])
  {
    var a := new int[|freq|];
    if |freq| == 0 {
      return Err(IndexOutOfBounds(0));
    }
    a[0] := 0;
    var i := 1;
    while i < |freq|
      invariant 1 <= i <= |freq|
      invariant forall k :: 0 <= k < i ==> a[k] == Sum(freq[..k])
    {
      a[i] := a[i - 1] + freq[i - 1];
      PrefixSumStep(freq, i - 1);
      i := i + 1;
    }
    return Ok(a[..]);
  }

  /** One more histogram entry extends the prefix sum by that entry. */
  lemma PrefixSumStep(xs: seq<int>, k: nat)
    requires k < |xs|
    ensures Sum(xs[..k + 1]) == Sum(xs[..k]) + xs[k]
  {
    assert xs[..k + 1] == xs[..k] + [xs[k]];
    SumConcat(xs[..k], [xs[k]]);
  }

  /** A prefix sum of the frequency histogram counts the distinct splits
      seen in at most that many trees: the splits seen in at most `k` trees
      are those seen in at most `k - 1` and, apart from them, those seen in
      exactly `k`. */
  lemma {:induction false} PrefixCountsAtMost<T>(counts: map<T, int>, freq: seq<int>, k: nat)
    requires forall s :: s in counts ==> counts[s] >= 1
    requires forall c :: 0 <= c < |freq| ==> freq[c] == |WithCount(counts, c + 1)|
    requires k <= |freq|
    ensures Sum(freq[..k]) == |AtMost(counts, k)|
  {
    if k == 0 {
      assert AtMost(counts, 0) == {};
      assert freq[..0] == [];
    } else {
      PrefixCountsAtMost(counts, freq, k - 1);
      PrefixSumStep(freq, k - 1);
      assert AtMost(counts, k) == AtMost(counts, k - 1) + WithCount(counts, k);
      assert AtMost(counts, k - 1) * WithCount(counts, k) == {};
    }
  }

  /** `reducedSplitIncompat`: for each threshold below `n`, the weighted
      pairwise incompatibility of the splits seen more often than that. */
  method ReducedIncompatibility(c: SplitCounts, n: nat) returns (r: seq<int>)
    requires c.Valid()
    ensures |r| == n
    ensures forall i :: 0 <= i < n ==> r[i] == SetPairSum(c.counts.Keys, IncompatWeight(c.counts, i))
  {
    var a := new int[n];
    var i := 0;
    while i < n
      invariant 0 <= i <= n
      invariant forall j :: 0 <= j < i ==> a[j] == SetPairSum(c.counts.Keys, IncompatWeight(c.counts, j))
    {
      a[i] := c.WeightedPairwiseSplitIncompatibility(i);
      i := i + 1;
    }
    r := a[..];
  }

  /** `new HybridStats(forest)`: tally the forest's splits and topologies
      and compute every statistic from them, failing where the source
      throws, in the source's order: the first tree, the two tallies, the
      greedy consensus behind the tree certainties, the quartet entropy and
      the frequency histogram. */
  method Build(forest: Forest, floats: FloatStats) returns (r: Result<HybridStats>)
    ensures r.Ok? ==> Summarises(r.value, forest.trees, floats)
    ensures r.Ok? ==> IdCount(forest.trees[0].taxa) >= 3
    ensures r.Err? ==> BuildError(r.error, forest.trees, floats.quartetEnt)
    ensures forest.trees == [] ==> r == Err(IndexOutOfBounds(0))
    ensures forest.trees != [] && IdCount(forest.trees[0].taxa) < 3 ==>
      r.Err? && (TaxaError(r.error) || r.error == IllegalArgument(IllegalCapacity(IdCount(forest.trees[0].taxa) - 3)))
    ensures forest.trees != [] && IdCount(forest.trees[0].taxa) >= 3 && floats.quartetEnt.Err? ==>
      r.Err? && (TaxaError(r.error) || r.error == floats.quartetEnt.error)
    ensures r.Err? && forest.trees != [] && IdCount(forest.trees[0].taxa) >= 3 ==>
      (floats.quartetEnt.Ok? && WellFormedForest(forest.trees) ==> TaxaError(r.error))
    ensures forest.trees != [] && !OneTaxonSet(forest.trees) ==> r == Err(TaxaRefused)
    ensures r.Err? && TaxaError(r.error) ==> !OneTaxonSet(forest.trees) || floats.quartetEnt == Err(r.error)
    ensures forest.trees != [] && OneTaxonSet(forest.trees) && WellFormedForest(forest.trees) ==>
      (IdCount(forest.trees[0].taxa) >= 3 && floats.quartetEnt.Ok? ==> r.Ok?)
  {
    var first :- forest.Get(0);
    var splitCounts :- SplitCounts.FromForest(forest);
    r := Summarise(forest, splitCounts, floats);
  }

  /** A failure after the split tally and before the frequency histogram,
      each only when the ones before it do not apply: the topology tally
      refusing a tree with other taxa, too few taxa for the greedy
      consensus, or the quartet entropy failing. */
  predicate StageError(e: Error, trees: seq<Tree>, quartet: Result<real>)
    requires trees != []
  {
    if !OneTaxonSet(trees) then e == IllegalArgument(IncompatibleTaxa)
    else if IdCount(trees[0].taxa) < 3 then e == IllegalArgument(IllegalCapacity(IdCount(trees[0].taxa) - 3))
    else quartet.Err? && e == quartet.error
  }

  /** The rest of `new HybridStats(forest)` once the split tally of the
      forest exists. */
  method Summarise(forest: Forest, c: SplitCounts, floats: FloatStats) returns (r: Result<HybridStats>)
    requires forest.trees != [] && c.Valid() && c.splitsAddedOnlyViaTrees
    requires c.nTrees == |forest.trees| && c.added == AllSplits(forest.trees)
    requires c.greedySplits.None? && c.idg == Some(forest.trees[0].taxa)
    requires WellFormedForest(forest.trees) ==> c.TreeCounted()
    modifies c`sortedSplits, c`greedySplits, c`greedySplitIndex
    ensures r.Ok? ==> Summarises(r.value, forest.trees, floats) && IdCount(forest.trees[0].taxa) >= 3
    ensures r.Err? ==> BuildError(r.error, forest.trees, floats.quartetEnt)
    ensures IdCount(forest.trees[0].taxa) < 3 || floats.quartetEnt.Err? ==>
      r.Err? && StageError(r.error, forest.trees, floats.quartetEnt)
    ensures r.Err? && WellFormedForest(forest.trees) ==> StageError(r.error, forest.trees, floats.quartetEnt)
    ensures OneTaxonSet(forest.trees) && WellFormedForest(forest.trees) ==>
      (IdCount(forest.trees[0].taxa) >= 3 && floats.quartetEnt.Ok? ==> r.Ok?)
  {
    ghost var trees, counts := forest.trees, c.counts;
    assert counts == SplitTallyOf(trees);
    var figures := SplitStatistics(c);
    assert figures.Ok? ==> FiguresFor(figures.value, counts, |AllSplits(trees)|, |trees|);
    var later :- LaterStages(forest, c, floats);
    var (cumTopoCounts, quartetEnt) := later;
    var f :- figures;
    var h := HybridStats(|forest.trees|, IdCount(forest.trees[0].taxa), f.nSplits, floats.topoEntropy, cumTopoCounts,
                         f.splitIncompat, f.reducedSplitIncompat, f.consensusDist, f.nCherries, f.splitsObs,
                         floats.treeCertainty, floats.treeCertaintyAll, quartetEnt,
                         f.cumulativeSplitCountByFreq);
    assert Figures(h) == f;
    r := Ok(h);
  }

  /** The stages after the split tally, up to the frequency histogram:
      the topology tally and its cumulative counts, the tree certainties and
      the quartet entropy, each failing in turn. */
  method LaterStages(forest: Forest, c: SplitCounts, floats: FloatStats) returns (r: Result<(seq<int>, real)>)
    requires forest.trees != [] && c.Valid() && c.greedySplits.None? && c.idg == Some(forest.trees[0].taxa)
    modifies c`sortedSplits, c`greedySplits, c`greedySplitIndex
    ensures c.Valid()
    ensures r.Ok? ==> var topologies := TopologyTallyOf(forest.trees);
      |r.value.0| == |topologies| && forall i :: 0 <= i < |r.value.0| ==> r.value.0[i] == Largest(SortedCounts(topologies), i)
    ensures r.Ok? ==> IdCount(forest.trees[0].taxa) >= 3 && floats.quartetEnt == Ok(r.value.1)
    ensures IdCount(forest.trees[0].taxa) < 3 || floats.quartetEnt.Err? ==> r.Err?
    ensures r.Err? ==> StageError(r.error, forest.trees, floats.quartetEnt)
    ensures r.Ok? <==> OneTaxonSet(forest.trees) && IdCount(forest.trees[0].taxa) >= 3 && floats.quartetEnt.Ok?
  {
    var cumTopoCounts :- TopologyCumulative(forest);
    var certainty :- TreeCertainties(c);
    var quartetEnt :- floats.quartetEnt;
    return Ok((cumTopoCounts, quartetEnt));
  }

  /** The exceptions of `treeCertainty()` and `treeCertaintyAll(0)`: both
      list the conflicts of the greedy consensus splits, whose first
      computation fails when the taxon set has fewer than three taxa. The
      certainties themselves are floating-point and enter `Build` as given
      values. */
  method TreeCertainties(c: SplitCounts) returns (r: Result<()>)
    requires c.Valid() && c.greedySplits.None? && c.idg.Some?
    modifies c`sortedSplits, c`greedySplits, c`greedySplitIndex
    ensures c.Valid()
    ensures r.Ok? <==> IdCount(c.idg.value) >= 3
    ensures r.Err? ==> r.error == IllegalArgument(IllegalCapacity(IdCount(c.idg.value) - 3))
  {
    var ic := c.FindConflictingSplitCounts(2, true);
    if ic.Err? {
      return Err(ic.error);
    }
    var ica := c.FindConflictingSplitCounts(0, false);
    assert ica.Ok?;
    return Ok(());
  }

  /** The distance to consensus of a summary of well-formed trees is the
      sum over the trees of their Robinson-Foulds distances to the
      majority-rule tree, as `sumRFtoMajRuleTree` documents. */
  lemma ConsensusDistIsRFSum(h: HybridStats, trees: seq<Tree>, floats: FloatStats)
    requires Summarises(h, trees, floats) && WellFormedForest(trees)
    ensures h.consensusDist == RFDistances(Majority(SplitTallyOf(trees), |trees|), SplitLists(trees))
  {
    ForestCountsTrees(trees);
    RFSumIsDistanceSum(AllSplits(trees), SplitLists(trees), |trees|);
  }

  /** The topology tally of a non-empty forest and its `cumulativeCounts()`.
      The tally refuses a tree whose labels differ from the first tree's;
      once it exists, `cumulativeCounts()` cannot fail, because every tree
      contributes a topology. */
  method TopologyCumulative(forest: Forest) returns (r: Result<seq<int>>)
    requires forest.trees != []
    ensures r.Ok? ==> var topologies := TopologyTallyOf(forest.trees);
      |r.value| == |topologies| && forall i :: 0 <= i < |r.value| ==> r.value[i] == Largest(SortedCounts(topologies), i)
    ensures r.Err? ==> r.error == IllegalArgument(IncompatibleTaxa)
    ensures r.Ok? <==> OneTaxonSet(forest.trees)
  {
    var t :- TreeTopologyCounts.FromForest(forest);
    TopologiesCard(forest.trees);
    ghost var x :| x in t.added;
    assert x in t.counts;
    var cum := t.CumulativeCounts();
    assert cum.Ok?;
    return Ok(cum.value);
  }

  /** The split statistics of a tally built only from trees: its total,
      incompatibilities, distance to the majority-rule tree, cherries,
      distinct splits and cumulative frequency counts. Only the frequency
      histogram can fail, when a split was counted more often than there
      are trees. */
  method SplitStatistics(c: SplitCounts) returns (r: Result<SplitFigures>)
    requires c.Valid() && c.splitsAddedOnlyViaTrees && c.nTrees >= 1
    ensures r.Ok? ==> FiguresFor(r.value, c.counts, |c.added|, c.nTrees)
    ensures r.Err? ==> exists s :: s in c.counts && c.counts[s] > c.nTrees && r.error == IndexOutOfBounds(c.counts[s] - 1)
    ensures c.TreeCounted() ==> r.Ok?
  {
    var nSplits := c.TotalNumberSplits();
    var splitIncompat, reducedSplitIncompat := Incompatibilities(c);
    var rf := c.SumRFtoMajRuleTree();
    assert rf.Ok?;
    var nCherries := c.NumUniqueCherries();
    var splitsObs := c.NumUniqueSplits();
    var cumulative :- CumulativeSplitCounts(c);
    return Ok(SplitFigures(nSplits, splitIncompat, reducedSplitIncompat, rf.value, nCherries, splitsObs, cumulative));
  }

  /** `splitIncompat` and `reducedSplitIncompat`: the weighted pairwise
      incompatibility of all splits, and of the splits seen more often than
      each threshold below half the number of trees. */
  method Incompatibilities(c: SplitCounts) returns (all: int, reduced: seq<int>)
    requires c.Valid() && c.nTrees >= 0
    ensures all == SetPairSum(c.counts.Keys, IncompatWeight(c.counts, 0))
    ensures |reduced| == c.nTrees / 2
    ensures forall i :: 0 <= i < |reduced| ==> reduced[i] == SetPairSum(c.counts.Keys, IncompatWeight(c.counts, i))
  {
    all := c.WeightedPairwiseSplitIncompatibilityAll();
    var nThreshold := JavaDiv(c.nTrees, 2);
    reduced := ReducedIncompatibility(c, nThreshold);
  }

  /** The cumulative split counts of a tally of at least one tree, from its
      frequency histogram: entry `k` is the number of distinct splits seen
      in at most `k` trees. */
  method CumulativeSplitCounts(c: SplitCounts) returns (r: Result<seq<int>>)
    requires c.Valid() && c.splitsAddedOnlyViaTrees && c.nTrees >= 1
    ensures r.Ok? ==> |r.value| == c.nTrees
    ensures r.Ok? ==> forall k :: 0 <= k < |r.value| ==> r.value[k] == |AtMost(c.counts, k)|
    ensures r.Err? ==> exists s :: s in c.counts && c.counts[s] > c.nTrees && r.error == IndexOutOfBounds(c.counts[s] - 1)
    ensures c.TreeCounted() ==> r.Ok?
  {
    var freq :- c.CountByFrequency();
    var cumOr := CumulativeByFrequency(freq);
    assert cumOr.Ok?;
    var cum := cumOr.value;
    r := Ok(cum);
    forall s | s in c.counts ensures c.counts[s] >= 1 {
      assert s in c.added;
    }
    forall k | 0 <= k < |cum| ensures cum[k] == |AtMost(c.counts, k)| {
      PrefixCountsAtMost(c.counts, freq, k);
    }
  }

  /** `new HybridStats(Tree[])`: the summary of the forest of the array's
      trees. */
  method BuildFromArray(treeArray: array<Tree>, floats: FloatStats) returns (r: Result<HybridStats>)
    ensures r.Ok? ==> Summarises(r.value, treeArray[..], floats)
    ensures r.Ok? ==> IdCount(treeArray[0].taxa) >= 3
    ensures r.Err? ==> BuildError(r.error, treeArray[..], floats.quartetEnt)
    ensures treeArray.Length == 0 ==> r == Err(IndexOutOfBounds(0))
    ensures treeArray.Length > 0 && IdCount(treeArray[0].taxa) < 3 ==>
      r.Err? && (TaxaError(r.error) || r.error == IllegalArgument(IllegalCapacity(IdCount(treeArray[0].taxa) - 3)))
    ensures treeArray.Length > 0 && IdCount(treeArray[0].taxa) >= 3 && floats.quartetEnt.Err? ==>
      r.Err? && (TaxaError(r.error) || r.error == floats.quartetEnt.error)
    ensures r.Err? && treeArray.Length > 0 && IdCount(treeArray[0].taxa) >= 3 ==>
      (floats.quartetEnt.Ok? && WellFormedForest(treeArray[..]) ==> TaxaError(r.error))
    ensures treeArray.Length > 0 && !OneTaxonSet(treeArray[..]) ==> r == Err(TaxaRefused)
    ensures r.Err? && TaxaError(r.error) ==> !OneTaxonSet(treeArray[..]) || floats.quartetEnt == Err(r.error)
    ensures treeArray.Length > 0 && OneTaxonSet(treeArray[..]) && WellFormedForest(treeArray[..]) ==>
      (IdCount(treeArray[0].taxa) >= 3 && floats.quartetEnt.Ok? ==> r.Ok?)
  {
    var forest := new Forest.FromArray(treeArray);
    r := Build(forest, floats);
  }

  /** The names `getStatByName` answers without parsing. */
  const FixedNames: set<string> := {"1", "TE", "SI", "DC", "UC", "US", "QE", "TC", "TCA"}

  /** The message of the exception for a name that is not a statistic. */
  function Unrecognized(name: string): string
  {
    "Unrecognized stat name '" + name + "'"
  }

  /** A fixed-name statistic; "1" is the constant term. */
  function FixedStat(h: HybridStats, name: string): real
    requires name in FixedNames
  {
    match name
    case "1" => 1.0
    case "TE" => h.topoEntropy
    case "SI" => h.splitIncompat as real
    case "DC" => h.consensusDist as real
    case "UC" => h.nCherries as real
    case "US" => h.splitsObs as real
    case "QE" => h.quartetEnt
    case "TC" => h.treeCertainty
    case _ => h.treeCertaintyAll
  }

  /** The entry of `values` whose index is the decimal text `text`:
      unparsable text is a number-format error and an index outside the
      array an index error. */
  function IndexedStat(values: seq<int>, text: string): (r: Result<real>)
    ensures r.Ok? <==> ParseInt(text).Some? && 0 <= ParseInt(text).value < |values|
    ensures r.Ok? ==> r.value == values[ParseInt(text).value] as real
    ensures ParseInt(text).None? ==> r == Err(NumberFormat(text))
    ensures ParseInt(text).Some? && !(0 <= ParseInt(text).value < |values|) ==>
      r == Err(IndexOutOfBounds(ParseInt(text).value))
  {
    match ParseInt(text)
    case None => Err(NumberFormat(text))
    case Some(k) => if 0 <= k < |values| then Ok(values[k] as real) else Err(IndexOutOfBounds(k))
  }

  /** `getStatByName(statName)`: a fixed name first; then a name starting
      with "RS" reads the cumulative split counts, and one starting with
      "SI-" the reduced split incompatibilities, at the index that follows;
      anything else is refused with a message naming it. */
  function GetStatByName(h: HybridStats, name: string): (r: Result<real>)
    ensures name in FixedNames ==> r == Ok(FixedStat(h, name))
    ensures name !in FixedNames && StartsWith(name, "RS") ==>
      r == IndexedStat(h.cumulativeSplitCountByFreq, name[2..])
    ensures name !in FixedNames && !StartsWith(name, "RS") && StartsWith(name, "SI-") ==>
      r == IndexedStat(h.reducedSplitIncompat, name[3..])
    ensures r == Err(IllegalArgument(Unrecognized(name))) <==>
      name !in FixedNames && !StartsWith(name, "RS") && !StartsWith(name, "SI-")
  {
    if name in FixedNames then Ok(FixedStat(h, name))
    else if StartsWith(name, "RS") then IndexedStat(h.cumulativeSplitCountByFreq, name[2..])
    else if StartsWith(name, "SI-") then IndexedStat(h.reducedSplitIncompat, name[3..])
    else Err(IllegalArgument(Unrecognized(name)))
  }

  /** "RS" followed by the decimal text of an index in range reads that
      entry of the cumulative split counts. */
  lemma CumulativeStatByName(h: HybridStats, k: int)
    requires 0 <= k < |h.cumulativeSplitCountByFreq| && IsInt32(k)
    ensures GetStatByName(h, "RS" + IntToString(k)) == Ok(h.cumulativeSplitCountByFreq[k] as real)
  {
    var name := "RS" + IntToString(k);
    assert name[..2] == "RS" && name[2..] == IntToString(k);
    ParsePrintedInt(k);
    NotFixed(name);
  }

  /** "SI-" followed by the decimal text of an index in range reads that
      entry of the reduced split incompatibilities. */
  lemma ReducedStatByName(h: HybridStats, k: int)
    requires 0 <= k < |h.reducedSplitIncompat| && IsInt32(k)
    ensures GetStatByName(h, "SI-" + IntToString(k)) == Ok(h.reducedSplitIncompat[k] as real)
  {
    var name := "SI-" + IntToString(k);
    assert name[..3] == "SI-" && name[3..] == IntToString(k);
    assert name[..2] == "SI";
    ParsePrintedInt(k);
    NotFixed(name);
  }

  /** No fixed name starts with "RS" or "SI-". */
  lemma NotFixed(name: string)
    requires |name| >= 3 && (name[..2] == "RS" || name[..3] == "SI-")
    ensures name !in FixedNames
  {
    assert name[0] == name[..2][0];
    assert name[0] == 'R' || name[0] == 'S';
  }

  /** An index past the end of either indexed table is an index error
      naming that index, not a silent default. */
  lemma IndexedStatOutOfRange(h: HybridStats, k: int)
    requires k >= |h.cumulativeSplitCountByFreq| && k >= |h.reducedSplitIncompat| && IsInt32(k)
    ensures GetStatByName(h, "RS" + IntToString(k)) == Err(IndexOutOfBounds(k))
    ensures GetStatByName(h, "SI-" + IntToString(k)) == Err(IndexOutOfBounds(k))
  {
    var rs, si := "RS" + IntToString(k), "SI-" + IntToString(k);
    assert rs[..2] == "RS" && rs[2..] == IntToString(k);
    assert si[..3] == "SI-" && si[3..] == IntToString(k) && si[..2] == "SI";
    ParsePrintedInt(k);
    NotFixed(rs);
    NotFixed(si);
  }

  /** `getCumulativeSplitCount(n)`: the `n`-th cumulative split count, or an
      index error. */
  function GetCumulativeSplitCount(h: HybridStats, n: int): (r: Result<int>)
    ensures r.Ok? <==> 0 <= n < |h.cumulativeSplitCountByFreq|
    ensures r.Ok? ==> r.value == h.cumulativeSplitCountByFreq[n]
    ensures r.Err? ==> r.error == IndexOutOfBounds(n)
  {
    if 0 <= n < |h.cumulativeSplitCountByFreq| then Ok(h.cumulativeSplitCountByFreq[n]) else Err(IndexOutOfBounds(n))
  }

  /** `getReducedSplitIncompatibility(n)`: the `n`-th reduced split
      incompatibility, or an index error. */
  function GetReducedSplitIncompatibility(h: HybridStats, n: int): (r: Result<int>)
    ensures r.Ok? <==> 0 <= n < |h.reducedSplitIncompat|
    ensures r.Ok? ==> r.value == h.reducedSplitIncompat[n]
    ensures r.Err? ==> r.error == IndexOutOfBounds(n)
  {
    if 0 <= n < |h.reducedSplitIncompat| then Ok(h.reducedSplitIncompat[n]) else Err(IndexOutOfBounds(n))
  }
}
