# HybridStats split and topology tallies, in Dafny

HybridStats summarises a forest of phylogenetic trees with a set of
statistics that help tell hybridisation apart from incomplete lineage
sorting. This project models the deterministic integer and text core of that
program and proves what it promises. The modelled parts are:

- **SplitCounts**: a tally of tree bipartitions ("splits") with taxon-set
  bookkeeping. It supports adding split systems and trees, and it computes
  the majority-rule split set, the summed Robinson–Foulds distance to the
  majority tree, the weighted pairwise split incompatibility, the
  split-frequency histogram and the number of unique cherries. It also runs a
  cached pipeline: sort by descending count, build the greedy consensus, then
  collect each accepted split's conflicting splits.
- **TreeTopologyCounts**: a tally of tree topology strings, giving the sorted
  counts and their running sums from the largest count down.
- **HybridStats**: the integer statistics the constructor derives from both
  tallies, and the lookup of a statistic by its short name.
- **SummaryStatParameters**: the threshold list parser for the `{a|b|c}` and
  `(start:stop[:incr])` forms, the block constructor and the range check.
- **CompoundCoefficient** and **CompoundStat**: the parsers, printers and
  evaluators for linear combinations of named statistics. A printed
  statistic reads back as itself when its parts avoid the separators. This
  relies on the number reader skipping the blank printed before the first
  coefficient, as `Double.valueOf` does.
- **Forest**: the tree-string normalisation and the order-preserving list of
  trees.

The modules follow the program:

| module | file | holds |
|---|---|---|
| `Exceptions` | Exceptions.dfy | `Result`/`Option`/`Outcome` values; one `Error` constructor per Java exception |
| `JavaText` | JavaText.dfy | the Java library behaviour the core relies on: `indexOf`, `trim`, `String.split` (trailing empty strings dropped), `Integer.valueOf`, truncating `/`, 32-bit wrap-around |
| `Sums`, `Tallies` | Sums.dfy, Tallies.dfy | order-independent sums over key enumerations; multiset tallies |
| `Taxa` | Taxa.dfy | taxon sets, splits as side sets, compatibility, `sizeOfSmaller`, trees as given values |
| `Consensus` | Consensus.dfy | the greedy pass and the conflict lists as functions |
| `Forests` | Forests.dfy | `class Forest` and tree-string normalisation |
| `SplitTally` | SplitTally.dfy | `class SplitCounts` |
| `TopologyTally` | TopologyTally.dfy | `class TreeTopologyCounts` |
| `Statistics` | Stats.dfy | the `HybridStats` record, its construction, `getStatByName` |
| `Compound` | Compound.dfy | `CompoundCoefficient` (a value), `class CompoundStat` |
| `Parameters` | StatParameters.dfy | `class Block`, `class SummaryStatParameters`, the threshold parser |

Classes whose fields the Java code updates (`SplitCounts`,
`TreeTopologyCounts`, `Forest`, `CompoundStat`, `SummaryStatParameters`, the
parameter block) are Dafny classes. Their methods are proved against
specification functions. The Java `HashMap` tallies become `map` fields. Each
class also keeps a ghost multiset of everything added, and the tally is
proved to be that multiset's count function. The Java `String` hex keys
become structural equality on the `Split` datatype. `HashMap` key order has
no defined value, so every loop over keys takes an arbitrary enumeration.
Each sum over keys is proved independent of that order.

External code enters as parameters or given values:

- a tree is a value holding its taxon set, its split system and its topology
  string;
- taxon-set equality is one predicate;
- `Double.valueOf`/`Double.toString` form a `DoubleText` parameter whose
  printer the reader inverts;
- the floating-point statistics (entropies, tree certainty) are given reals.

A Java exception becomes an `Err`/`Fail` carrying the exception kind and its
message or index.

## Model

| member | source | states |
|---|---|---|
| `SplitTally.SplitCounts.constructor` | src/hybridstats/SplitCounts.java:66-76 | an empty tally: no counts, no trees, no taxon set, no caches, and only trees added so far |
| `SplitTally.SplitCounts.WithTaxa` | src/hybridstats/SplitCounts.java:58-61 | an empty tally whose taxon set is already bound |
| `SplitTally.SplitCounts.SetIdGroup` | src/hybridstats/SplitCounts.java:86-89 | the first taxon set binds; a later one fails unless it equals the bound one, and the bound set never changes |
| `SplitTally.SplitCounts.AddSplitSystemCore` | src/hybridstats/SplitCounts.java:106-118 | on success each split's count rises by its multiplicity and `nSplits` by the system's size, with `counts`, `splits` and `nSplits` kept consistent with the multiset of splits added; a refused taxon set fails before any count changes |
| `SplitTally.CountOne` | src/hybridstats/SplitCounts.java:110-116 | one increment keeps `counts` equal to the tally of the added splits: a new key starts at 1 and joins `splits`, an existing one grows by 1 |
| `SplitTally.SplitCounts.AddSplitSystem` | src/hybridstats/SplitCounts.java:101-104 | as the core step, and `splitsAddedOnlyViaTrees` is cleared for good |
| `SplitTally.SplitCounts.AddTree` | src/hybridstats/SplitCounts.java:120-124 | `nTrees` rises by exactly one even when the taxon set is refused; on success the tree's splits are added |
| `SplitTally.SplitCounts.AddForest` | src/hybridstats/SplitCounts.java:91-95 | the trees are added in order and the first binds the taxon set if none is bound; the forest passes exactly when every tree has the bound taxa; on a refusal the first tree with other taxa is named, the trees before it are counted and it raises `nTrees` too |
| `SplitTally.SplitCounts.FromForest` | src/hybridstats/SplitCounts.java:53-56 | a fresh tally of exactly the forest's splits, with `nTrees` equal to the forest size, exactly when every tree has the first tree's taxa; otherwise the taxon refusal, with a tree that differs |
| `SplitTally.SplitCounts.GetCount` | src/hybridstats/SplitCounts.java:411-417 | the number of times the split was added, 0 for an unseen split |
| `SplitTally.SplitCounts.NumUniqueSplits` | src/hybridstats/SplitCounts.java:433-435 | the number of distinct splits added |
| `SplitTally.SplitCounts.TotalNumberSplits` | src/hybridstats/SplitCounts.java:78-80 | the total number of split occurrences added |
| `SplitTally.SplitCounts.MajorityRuleConsensus` | src/hybridstats/SplitCounts.java:133-144 | fails exactly when a split system was added directly; otherwise exactly the splits with count at least `nTrees/2+1`, and for a tally of trees these are pairwise compatible |
| `SplitTally.MajorityCompatible` | src/hybridstats/SplitCounts.java:137-142 | two splits each held by more than half of the trees share a tree, so they are compatible |
| `SplitTally.SplitCounts.SumRFtoMajRuleTree` | src/hybridstats/SplitCounts.java:146-160 | fails exactly when a split system was added directly; otherwise the sum over distinct splits of `min(c, nTrees-c)`, which is non-negative for a tally of trees and, when every added system was a tree, equals the sum over the trees of their Robinson-Foulds distance to the majority-rule tree |
| `SplitTally.RFTermIsDisagreement` | src/hybridstats/SplitCounts.java:155-159 | for a split counted `c` times among `n` trees, the term `min(c, n-c)` is `n-c` when the split is in the majority tree and `c` when it is not |
| `SplitTally.DisagreementSum` | src/hybridstats/SplitCounts.java:146-151 | one tree's Robinson-Foulds distance to a split set is the number of splits on which the two disagree, summed over any finite key set covering both |
| `SplitTally.DissentSum` | src/hybridstats/SplitCounts.java:146-151 | summing the per-tree distances over the trees is summing, per split, the number of trees that disagree with the majority tree about it |
| `SplitTally.RFSumIsDistanceSum` | src/hybridstats/SplitCounts.java:146-160 | for a tally of `n` trees, the sum of the terms `min(c, n-c)` is the sum over the trees of the Robinson-Foulds distance between each tree and the majority-rule tree |
| `SplitTally.ForestCountsTrees` | src/hybridstats/SplitCounts.java:91-95 | the tally of a well-formed forest counts each of its trees' split lists once, in order |
| `SplitTally.RFSumNonNegative` | src/hybridstats/SplitCounts.java:152-160 | for a tally of trees the summed distance is at least 0 |
| `SplitTally.SplitCounts.WeightedPairwiseSplitIncompatibility` | src/hybridstats/SplitCounts.java:170-187 | the sum over unordered pairs of distinct incompatible splits with both counts above `t` of `(c1-t)(c2-t)`, independent of key order |
| `SplitTally.PairWeights` | src/hybridstats/SplitCounts.java:173-186 | the nested loop over a key enumeration computes the pair sum over that enumeration |
| `SplitTally.RowWeight` | src/hybridstats/SplitCounts.java:179-184 | the inner loop sums one row of the pair weights |
| `SplitTally.IncompatibilityMonotone` | src/hybridstats/SplitCounts.java:170-187 | raising the threshold never raises the weighted incompatibility, and it stays non-negative |
| `SplitTally.SplitCounts.WeightedPairwiseSplitIncompatibilityAll` | src/hybridstats/SplitCounts.java:193-195 | the no-argument form is threshold 0 |
| `SplitTally.SplitCounts.CountByFrequency` | src/hybridstats/SplitCounts.java:374-381 | length `nTrees` when only trees were added, else the largest count; entry `c` counts the distinct splits seen exactly `c+1` times; the entries sum to the number of distinct splits; a split counted more often than `nTrees` overruns the array, which a tally of trees never does |
| `SplitTally.Histogram` | src/hybridstats/SplitCounts.java:379-380 | the fill loop fails exactly when some count exceeds the array length, and otherwise yields the histogram |
| `SplitTally.SplitCounts.MaxCount` | src/hybridstats/SplitCounts.java:377 | the largest count, 0 for an empty tally |
| `SplitTally.SplitCounts.NumUniqueCherries` | src/hybridstats/SplitCounts.java:384-390 | the number of distinct splits whose smaller side has two taxa |
| `SplitTally.CountCherries` | src/hybridstats/SplitCounts.java:384-390 | the counting loop counts exactly the cherries of the key set |
| `SplitTally.SortKeys` | src/hybridstats/SplitCounts.java:241-250 | an enumeration of the keys in non-increasing count order, ties in any order |
| `SplitTally.SplitCounts.ResortSplits` | src/hybridstats/SplitCounts.java:241-250 | `sortedSplits` becomes a by-count enumeration of the keys and both greedy caches are cleared |
| `SplitTally.SplitCounts.SortSplits` | src/hybridstats/SplitCounts.java:254-256 | sorts only when no sorted list is cached; otherwise nothing changes |
| `SplitTally.GreedyPass` | src/hybridstats/SplitCounts.java:267-274 | the greedy loop computes `Consensus.Greedy` on the sorted list |
| `Consensus.GreedyShape` | src/hybridstats/SplitCounts.java:261-275 | at most `limit` splits are accepted (or none), they are pairwise compatible, and the indices strictly increase and point at them in the sorted list |
| `Consensus.GreedySkipped` | src/hybridstats/SplitCounts.java:268-273 | a split skipped before the limit is reached conflicts with an earlier accepted split |
| `Consensus.GreedyKeeps` | src/hybridstats/SplitCounts.java:268-273 | a split compatible with everything accepted before it, met before the limit, is accepted |
| `Consensus.GreedyPrefix` | src/hybridstats/SplitCounts.java:267-274 | the selection from a prefix of the sorted list is a prefix of the full selection |
| `Consensus.GreedyFrozen` | src/hybridstats/SplitCounts.java:267 | once the limit is reached no later split changes the selection |
| `SplitTally.GreedyOutcome` | src/hybridstats/SplitCounts.java:264-265 | the greedy pass runs exactly when a taxon set of at least three taxa is bound |
| `SplitTally.SplitCounts.FindGreedySplits` | src/hybridstats/SplitCounts.java:261-275 | computes the greedy caches only when absent, sorting first if needed; on success the cache is the greedy selection of the sorted list with limit `idCount-3`; otherwise every cache is kept |
| `SplitTally.SplitCounts.GreedyConsensusTree` | src/hybridstats/SplitCounts.java:282-286 | with `recalculate` the list is resorted and the pass rerun; the result is the cached selection, pairwise compatible and of at most `idCount-3` splits |
| `SplitTally.SplitCounts.FindConflictingSplitCounts` | src/hybridstats/SplitCounts.java:322-346 | after the greedy pass, exactly the conflict lists of the greedy splits, in greedy order |
| `SplitTally.ConflictLists` | src/hybridstats/SplitCounts.java:326-344 | the outer loop computes `Consensus.Conflicts`, stopping at the first greedy split below the weight threshold |
| `SplitTally.ConflictStep` | src/hybridstats/SplitCounts.java:327-343 | one outer pass: in weight mode a greedy split below the threshold ends the lists; otherwise its conflict list is appended |
| `SplitTally.ScanList` | src/hybridstats/SplitCounts.java:334-342 | the inner scan computes `Consensus.Scan`, stopping at the first later split below the weight threshold or when the list reaches the length threshold |
| `Consensus.ConflictsShape` | src/hybridstats/SplitCounts.java:322-346 | each list starts with its greedy split and count, then holds only incompatible splits from later sorted positions; in length mode there is one list per greedy split and each has at most `threshold` entries (for thresholds from 2); in weight mode every first entry meets the threshold |
| `Consensus.ScanShape` | src/hybridstats/SplitCounts.java:334-342 | the scan only appends, appends only later incompatible splits, and stops at the length bound |
| `Consensus.ConflictsComplete` | src/hybridstats/SplitCounts.java:326-344 | the outer loop stops only at a greedy split below the weight threshold; after its head, each list holds in weight mode exactly the later incompatible splits before the first later split below the threshold, and in length mode (thresholds from 2) exactly the first `threshold - 1` later incompatible splits, or all of them when fewer |
| `Consensus.ClassicCompetitor` | src/hybridstats/SplitCounts.java:317-318 | with length threshold 2 there is one list per greedy split: the split alone when every later split is compatible with it, otherwise the split and the first later incompatible split |
| `Consensus.ScanByWeight` | src/hybridstats/SplitCounts.java:334-342 | the weight scan appends exactly the incompatible splits of the run of later splits that meet the threshold, in sorted order |
| `Consensus.ScanByLength` | src/hybridstats/SplitCounts.java:334-342 | the length scan appends exactly the first later incompatible splits, until the list holds `threshold` entries or the splits run out |
| `Consensus.RunEnd` | src/hybridstats/SplitCounts.java:336 | the run of splits meeting the weight threshold ends at the first split below it, or at the end of the list |
| `Consensus.FirstRival` | src/hybridstats/SplitCounts.java:338-339 | the incompatible splits of a range are empty exactly when every split in it is compatible, and otherwise start with the first incompatible one |
| `Consensus.LengthOneOverruns` | src/hybridstats/SplitCounts.java:341 | as written, length threshold 1 with three pairwise incompatible splits gives a list of three entries |
| `Consensus.ScanCappedAgrees` | src/hybridstats/SplitCounts.java:334-342 | the corrected scan, with the size test before each split, agrees with the scan as written in weight mode and while the list is short of the length threshold |
| `Consensus.ScanCappedTakes` | src/hybridstats/SplitCounts.java:317-319 | the corrected length scan appends exactly the first later competitors until the list holds `threshold` entries |
| `Consensus.ConflictsCappedBounded` | src/hybridstats/SplitCounts.java:317-319 | for every length threshold from 1, the corrected lists are one per accepted split, each the split and its first `threshold - 1` later competitors, never more than `threshold` entries |
| `Consensus.ConflictsCappedAgrees` | src/hybridstats/SplitCounts.java:322-346 | in weight mode and for length thresholds from 2, the corrected lists equal the lists as written |
| `SplitTally.SplitCounts.FromSplitSystem` | src/hybridstats/SplitCounts.java:48-51 | the corrected constructor: a tally of the system's splits that no longer claims to hold only trees |
| `SplitTally.SplitCounts.FromSplitSystemAsWritten` | src/hybridstats/SplitCounts.java:48-51 | the constructor as written: it still claims to hold only trees, with `nTrees` 0 and the system's splits counted, so the tree invariant is broken |
| `SplitTally.SplitSystemRFCounterexample` | src/hybridstats/SplitCounts.java:48-51 | one split added through the constructor as written gives a summed distance of -1; the corrected constructor refuses |
| `TopologyTally.TreeTopologyCounts.constructor` | src/hybridstats/TreeTopologyCounts.java:23-25 | an empty tally with no taxon set |
| `TopologyTally.TreeTopologyCounts.FromForest` | src/hybridstats/TreeTopologyCounts.java:28-31 | a fresh tally of the forest's topologies exactly when every tree has the first tree's labels; otherwise the taxon refusal, with a tree that differs |
| `TopologyTally.TreeTopologyCounts.CheckIdGroup` | src/hybridstats/TreeTopologyCounts.java:50-58 | the first taxon set binds; a later one with different labels fails |
| `TopologyTally.TreeTopologyCounts.AddTree` | src/hybridstats/TreeTopologyCounts.java:39-48 | the tree passes exactly when its labels match the bound set; on success its topology count rises by one, with a new string starting at 1; a refused tree changes no count |
| `TopologyTally.TreeTopologyCounts.AddForest` | src/hybridstats/TreeTopologyCounts.java:33-37 | the trees are added in order and the first binds the labels if none are bound; the forest passes exactly when every tree has the bound labels; on a refusal the first tree that differs is named and the trees before it are counted |
| `TopologyTally.TopologiesCard` | src/hybridstats/TreeTopologyCounts.java:39-48 | each tree adds exactly one topology, so the counts sum to the number of trees |
| `TopologyTally.TreeTopologyCounts.GetCounts` | src/hybridstats/TreeTopologyCounts.java:60-70 | the count values as an ascending permutation, one per distinct topology, summing to the number of trees |
| `TopologyTally.SortAscending` | src/hybridstats/TreeTopologyCounts.java:64 | ascending and a permutation of its input |
| `TopologyTally.AscendingUnique` | src/hybridstats/TreeTopologyCounts.java:64 | two ascending permutations of the same values are equal, so the sorted counts do not depend on key order |
| `TopologyTally.SortedCountsShape` | src/hybridstats/TreeTopologyCounts.java:60-70 | the sorted counts are ascending, positive, one per topology, and sum to the number of trees |
| `TopologyTally.TreeTopologyCounts.CumulativeCounts` | src/hybridstats/TreeTopologyCounts.java:72-81 | fails on an empty tally; otherwise entry `i` is the sum of the `i+1` largest counts, strictly increasing, ending at the number of trees |
| `TopologyTally.RunningLargest` | src/hybridstats/TreeTopologyCounts.java:76-79 | the fill loop computes the running sums of the largest counts |
| `TopologyTally.CumulativeShape` | src/hybridstats/TreeTopologyCounts.java:72-81 | entry 0 is the largest count, the sums strictly increase, and the last is the number of trees |
| `TopologyTally.TreeTopologyCounts.GetNumberUniqueTopologies` | src/hybridstats/TreeTopologyCounts.java:83-85 | the number of distinct topologies added |
| `Statistics.Build` | src/hybridstats/HybridStats.java:34-60 | a summary whose integer fields are the split and topology statistics of the forest, or an error in source order: an empty forest, a taxon refusal (exactly when some tree's taxa differ from the first tree's), a negative-capacity error from the tree certainty when there are fewer than 3 taxa, the quartet entropy's failure, then a histogram error; a success implies at least 3 taxa, and a well-formed forest on one taxon set with at least 3 taxa and a quartet value succeeds |
| `Statistics.BuildFromArray` | src/hybridstats/HybridStats.java:30-32 | the array form summarises the array's trees in order, with the same errors in the same order and the same success condition as `Build` |
| `Statistics.Summarise` | src/hybridstats/HybridStats.java:38-59 | the stages after the tallies, from the split figures to the histogram: below 3 taxa or on a quartet failure they fail with that stage's error, for a well-formed forest no other stage fails, and a well-formed forest on one taxon set with at least 3 taxa and a quartet value succeeds |
| `Statistics.LaterStages` | src/hybridstats/HybridStats.java:40-53 | the topology counts, tree certainties and quartet entropy: succeeds exactly when every tree has the first tree's labels, there are at least 3 taxa and a quartet value, carrying that value; otherwise the first failing stage's error |
| `Statistics.TreeCertainties` | src/hybridstats/HybridStats.java:51-52 | the greedy consensus behind `treeCertainty` and `treeCertaintyAll` fails with a negative-capacity error exactly when the taxon set has fewer than 3 taxa |
| `Statistics.ConsensusDistIsRFSum` | src/hybridstats/HybridStats.java:48 | for a well-formed forest, `consensusDist` is the sum over its trees of the Robinson-Foulds distance to the majority-rule tree |
| `Statistics.SplitStatistics` | src/hybridstats/HybridStats.java:37-59 | `nSplits`, `splitIncompat`, `reducedSplitIncompat`, `consensusDist`, `nCherries`, `splitsObs` and `cumulativeSplitCountByFreq` are the tally's figures; a tally of trees never fails |
| `Statistics.Incompatibilities` | src/hybridstats/HybridStats.java:43-47 | `reducedSplitIncompat` has length `nTrees/2` and entry `i` is the incompatibility at threshold `i` |
| `Statistics.ReducedIncompatibility` | src/hybridstats/HybridStats.java:44-47 | the fill loop stores the incompatibility at each threshold |
| `Statistics.CumulativeByFrequency` | src/hybridstats/HybridStats.java:54-59 | fails on an empty histogram; otherwise entry `k` is the sum of the first `k` histogram entries |
| `Statistics.PrefixCountsAtMost` | src/hybridstats/HybridStats.java:54-59 | that prefix sum is the number of distinct splits seen in at most `k` trees |
| `Statistics.CumulativeSplitCounts` | src/hybridstats/HybridStats.java:53-59 | entry `k` is the number of distinct splits seen in at most `k` trees, with one entry per tree |
| `Statistics.TopologyCumulative` | src/hybridstats/HybridStats.java:39-41 | `cumTopoCounts` is the running sum of the largest topology counts; it exists exactly when every tree has the first tree's labels, and otherwise the topology tally's refusal is the error |
| `Statistics.GetStatByName` | src/hybridstats/HybridStats.java:62-83 | the fixed names return their fields; otherwise the `RS` prefix takes precedence over `SI-`; any other name fails with an error that names it |
| `Statistics.IndexedStat` | src/hybridstats/HybridStats.java:75-81 | a non-numeric suffix fails as a number-format error, an out-of-range index as an index error, and a valid index returns the entry |
| `Statistics.CumulativeStatByName` | src/hybridstats/HybridStats.java:75-77 | `"RS" + k` returns `cumulativeSplitCountByFreq[k]` |
| `Statistics.ReducedStatByName` | src/hybridstats/HybridStats.java:78-80 | `"SI-" + k` returns `reducedSplitIncompat[k]` |
| `Statistics.IndexedStatOutOfRange` | src/hybridstats/HybridStats.java:75-80 | an index past both arrays fails with that index |
| `Statistics.GetCumulativeSplitCount` | src/hybridstats/HybridStats.java:146 | the entry at `n`, or an index error |
| `Statistics.GetReducedSplitIncompatibility` | src/hybridstats/HybridStats.java:147 | the entry at `n`, or an index error |
| `Compound.NewCoefficient` | src/hybridstats/CompoundCoefficient.java:16-27 | the parse: the first `*` piece is the coefficient and the trimmed remaining pieces are the variables, in order; an unreadable coefficient fails with a message quoting the input |
| `Compound.TrimmedTail` | src/hybridstats/CompoundCoefficient.java:17-26 | one variable per piece after the first, each trimmed |
| `Compound.FillVariables` | src/hybridstats/CompoundCoefficient.java:24-26 | the fill loop stores the trimmed pieces in order |
| `Compound.CoefficientErrorQuotesInput` | src/hybridstats/CompoundCoefficient.java:22 | the error message ends with the quoted input |
| `Compound.CoefficientFromArray` | src/hybridstats/CompoundCoefficient.java:7-10 | stores the variables and coefficient unchanged |
| `Compound.EvaluateCoefficient` | src/hybridstats/CompoundCoefficient.java:29-35 | the coefficient times each variable's statistic in turn, stopping at the first lookup that fails |
| `Compound.ProductOfValues` | src/hybridstats/CompoundCoefficient.java:29-35 | when every lookup succeeds the result is the coefficient times the product of the values; with no variables it is the coefficient |
| `Compound.ProductFirstError` | src/hybridstats/CompoundCoefficient.java:31-33 | evaluation fails exactly when some variable fails to look up, and then with the first failing lookup's error |
| `Compound.CoefficientToString` | src/hybridstats/CompoundCoefficient.java:37-43 | the coefficient text followed by `*` and each variable |
| `Compound.SplitCoefficientText` | src/hybridstats/CompoundCoefficient.java:37-43 | splitting the printed text on `*` gives the coefficient text and the variables |
| `Compound.CoefficientRoundTrip` | src/hybridstats/CompoundCoefficient.java:16-43 | re-parsing the printed coefficient gives it back, for variables without `*` or edge whitespace |
| `Compound.CompoundStat.constructor` | src/hybridstats/CompoundStat.java:26-29 | stores the name and no coefficients; the standard deviation is ignored and the error stays 0 |
| `Compound.CompoundStat.FromLine` | src/hybridstats/CompoundStat.java:40-51 | a fresh statistic holding the parsed name, error and coefficients, or the parse error |
| `Compound.ParseStatShape` | src/hybridstats/CompoundStat.java:41-45 | fails with a message quoting the line exactly when splitting on `(`/`)` does not give three pieces; the name is piece 0 and the error is read from piece 1 |
| `Compound.ParseCoefficientsShape` | src/hybridstats/CompoundStat.java:46-50 | succeeds exactly when every coefficient parses, with one coefficient per piece in order; otherwise fails with the first bad piece's error |
| `Compound.CompoundStat.AddAll` | src/hybridstats/CompoundStat.java:47-50 | the coefficient loop stores exactly the parsed coefficients, or stops at the first error |
| `Compound.CompoundStat.GetName` | src/hybridstats/CompoundStat.java:64-66 | the stored name |
| `Compound.CompoundStat.AddCoefficient` | src/hybridstats/CompoundStat.java:68-70 | appends exactly one parsed coefficient, or fails and changes nothing |
| `Compound.CompoundStat.Evaluate` | src/hybridstats/CompoundStat.java:72-78 | the sum of the coefficient evaluations, stopping at the first failing evaluation |
| `Compound.TotalOfValues` | src/hybridstats/CompoundStat.java:72-78 | when every coefficient evaluates, the total is the sum of the values, 0 with no coefficients |
| `Compound.TotalStopsAtError` | src/hybridstats/CompoundStat.java:74-76 | the total equals the total of the prefix up to the first failing coefficient |
| `Compound.CompoundStat.EvaluateRange` | src/hybridstats/CompoundStat.java:80-84 | writes `eval - scale*error` to `range[0]` and `eval + scale*error` to `range[1]`, symmetric about `eval`, with no other entry touched; a failing evaluation writes nothing and a short array fails at the first missing index |
| `Compound.CompoundStat.ToString` | src/hybridstats/CompoundStat.java:53-62 | the name and bracketed error, then the coefficients, with a space before the first and ` : ` between the rest |
| `Compound.ListedIsJoin` | src/hybridstats/CompoundStat.java:56-60 | the printed coefficient list is the coefficients' texts joined by `:`, each with a blank before it and, except the last, a blank after it |
| `Compound.ListedSplits` | src/hybridstats/CompoundStat.java:46-60 | the `\s*:\s*` split of the printed coefficient list gives each coefficient's text back, the first with the blank printed before it, when the texts have no `:` and no blanks at their ends |
| `Compound.StatTextPieces` | src/hybridstats/CompoundStat.java:41-55 | splitting a printed statistic on `(`/`)` gives its name, the error's text and the coefficient list when none of them holds a parenthesis; with no coefficients fewer than three pieces remain |
| `Compound.EmptyStatRefused` | src/hybridstats/CompoundStat.java:26-62 | a statistic with no coefficients, as the two-argument constructor makes it, prints a line the parsing constructor refuses |
| `Compound.FirstCoefficientRoundTrip` | src/hybridstats/CompoundCoefficient.java:16-43 | the first coefficient, printed after a blank, reads back as itself when the number reader skips that blank |
| `Compound.ParseCoefficientsOf` | src/hybridstats/CompoundStat.java:48-50 | texts that each parse to their coefficient parse together to those coefficients in order |
| `Compound.ListedReadsBack` | src/hybridstats/CompoundStat.java:46-60 | the texts recovered from the printed coefficient list parse to the coefficients in order |
| `Compound.StatRoundTrip` | src/hybridstats/CompoundStat.java:40-62 | parsing a printed statistic gives back its name, error and coefficients, when no part contains a separator or edge blank, each number reads back, and the first reads back after a blank |
| `JavaText.SplitColonSpacedIs` | src/hybridstats/CompoundStat.java:46 | when each trimmed piece is known and the last is not empty, the colon split is exactly those pieces |
| `Parameters.SummaryStatParameters.constructor` | src/hybridstats/SummaryStatParameters.java:35-64 | the defaults `{1,2}`, `{1}` and no compound statistics |
| `Parameters.SummaryStatParameters.FromBlock` | src/hybridstats/SummaryStatParameters.java:43-55 | each present key is parsed and removed; absent keys keep their defaults; a parse failure is passed on |
| `Parameters.TakeThresholds` | src/hybridstats/SummaryStatParameters.java:47-50 | parses one present key's trimmed value and removes that key from the block only when parsing succeeds |
| `Parameters.BlockKeepsOtherFields` | src/hybridstats/SummaryStatParameters.java:43-55 | fields other than the two threshold keys are never touched, and after success exactly the threshold keys are gone |
| `Parameters.EmptyBlockDefaults` | src/hybridstats/SummaryStatParameters.java:43-55 | a block with neither key yields the defaults and is left unchanged |
| `Parameters.Block.RemoveField` | src/hybridstats/SummaryStatParameters.java:49 | removes exactly that key |
| `Parameters.SummaryStatParameters.AddCompoundStat` | src/hybridstats/SummaryStatParameters.java:66-72 | appends, so iteration follows insertion order |
| `Parameters.ParseIntSpecification` | src/hybridstats/SummaryStatParameters.java:136-167 | the threshold list of the text: brace form first, then the range form, else a runtime error quoting the text |
| `Parameters.ParseTokens` | src/hybridstats/SummaryStatParameters.java:143-146 | the token loop parses every token as an int, in order, failing at the first bad token |
| `Parameters.IntegerValueOf` | src/hybridstats/SummaryStatParameters.java:146 | a 32-bit decimal parses to its value; anything else is a number-format error naming the text |
| `Parameters.BraceListRoundTrip` | src/hybridstats/SummaryStatParameters.java:138-146 | `{a|b|c}` written with any prefix free of braces and any suffix parses back to the listed ints |
| `Parameters.RuntimeOnlyWhenUnbracketed` | src/hybridstats/SummaryStatParameters.java:140-164 | the runtime error is raised exactly when neither brace pair nor paren pair is open-before-close |
| `Parameters.RangeFormApplies` | src/hybridstats/SummaryStatParameters.java:147-150 | a parenthesised body without `{` or `)` is handled by the range parser |
| `Parameters.ParseRange` | src/hybridstats/SummaryStatParameters.java:151-163 | the range parser: index errors for missing tokens, number-format errors, an arithmetic error for a zero step, a negative-size error, else the progression |
| `Parameters.FillProgression` | src/hybridstats/SummaryStatParameters.java:159-163 | the stepping loop writes element `i` as `start + i*incr` with 32-bit wrap-around |
| `Parameters.RangeTextParses` | src/hybridstats/SummaryStatParameters.java:151-163 | `(start:stop:incr)` parses to an arithmetic error for step 0, a negative-size error when the truncated length is negative, else the progression of that length |
| `Parameters.RangeStepDefaultsToOne` | src/hybridstats/SummaryStatParameters.java:155 | `(start:stop)` parses as `(start:stop:1)` |
| `Parameters.ProgressionStaysWithin` | src/hybridstats/SummaryStatParameters.java:156-163 | without overflow, a step pointing toward `stop` gives at least one element, every element `start + i*incr` lies between the bounds, and the next one would not (negative steps included) |
| `Parameters.StepsToStop` | src/hybridstats/SummaryStatParameters.java:156 | the truncated quotient counts the whole steps from `start` to `stop` in either direction |
| `JavaText.JavaDiv` | src/hybridstats/SummaryStatParameters.java:156 | division truncates toward zero: the remainder is 0 or has the dividend's sign, and is smaller than the divisor in magnitude |
| `Parameters.MaxOf` | src/hybridstats/SummaryStatParameters.java:124-125 | the max loop starting from -1 computes `MaxThreshold` |
| `Parameters.MaxThresholdIsMax` | src/hybridstats/SummaryStatParameters.java:124-125 | the result bounds every entry and is -1 or an entry |
| `Parameters.SummaryStatParameters.RangeCheck` | src/hybridstats/SummaryStatParameters.java:123-132 | the corrected verdict on the parameter's thresholds |
| `Parameters.RangeVerdictPasses` | src/hybridstats/SummaryStatParameters.java:123-132 | passes exactly when every SI threshold doubled and every RS threshold are below `nTrees`, so empty lists pass; it agrees with the code as written whenever twice the maximum fits in 32 bits |
| `Parameters.RangeCheckOverflows` | src/hybridstats/SummaryStatParameters.java:127 | the comparison as written accepts an SI threshold of 2^30 with one tree, because doubling it wraps to a negative int |
| `Forests.NormalizeTreeString` | src/hybridstats/Forest.java:52-57 | removes the text through the first `=` when there is one and appends `;` exactly when it is not already the last character, so the result ends with `;` |
| `Forests.StripLabelRemovesFirstLabel` | src/hybridstats/Forest.java:52-56 | without `=` the string is kept; otherwise what follows the first `=` is kept |
| `Forests.CleanTreeStringUnchanged` | src/hybridstats/Forest.java:52-57 | a string with no `=` that already ends in `;` is unchanged |
| `Forests.Forest.constructor` | src/hybridstats/Forest.java:37 | an empty forest |
| `Forests.Forest.FromArray` | src/hybridstats/Forest.java:41-44 | the trees in array order, with size equal to the array length |
| `Forests.Forest.Add` | src/hybridstats/Forest.java:92 | appends at the end, reports a change, grows the size by one, and the last tree is the added one |
| `Forests.Forest.Get` | src/hybridstats/Forest.java:108 | the tree at `n`, or an index error exactly when `n` is out of range |
| `Forests.Forest.Size` | src/hybridstats/Forest.java:132 | the number of trees |
| `JavaText.SplitOfJoin` | src/hybridstats/CompoundCoefficient.java:17 | splitting the join of delimiter-free pieces, the last one non-empty, gives the pieces back |
| `JavaText.ParsePrintedInt` | src/hybridstats/HybridStats.java:76 | reading a printed 32-bit int gives it back |

## Left out

- Consensus.ConflictsShape: states the length bound only for thresholds from 2, because as written (SplitCounts.java:341) a threshold of 1 or less lets a list run past it; the bound for every threshold from 1 is proved for the corrected lists in `Consensus.ConflictsCappedBounded` (see Findings).
- Floating-point numerics. Topology entropy, tree certainty and internode certainty are given reals, and the quartet entropy is a given outcome, a real or the exception it raises. Compound statistics use exact `real` arithmetic, not IEEE doubles.
- `Double.valueOf` and `Double.toString` are the `DoubleText` parameter. Its only assumption is that reading a printed number gives the number back.
- Printing (`printHeadings`, `printValues`, `printHumanFriendly`, `printRFriendly`, `printSummary`, dumps): output to a stream.
- `SummaryStatParameters.calculateCompoundStats`, which fills a table of doubles with `evaluateRange` results; `evaluateRange` itself is modelled.
- `compoundStatIterator`: iteration over the `compoundStats` sequence field, in insertion order.
- `GenericBlock`: modelled as a map from keys to values. The value is trimmed with `String.trim` semantics.
- Allocation limits. An `OutOfMemoryError` for a huge range length is not modelled; only the negative-size error is.
- 32-bit overflow is modelled only in the range parser and in `rangeCheck`. Elsewhere integers are unbounded; split counts, totals, histogram entries and the Robinson-Foulds sum are at most the number of split occurrences, so they fit an `int` for any forest that fits in memory.
- SplitTally.SplitCounts.WeightedPairwiseSplitIncompatibility: the sum of `int` products is unbounded here, while Java wraps it modulo 2^32 once it passes 2^31-1 (for example 1000 trees with thousands of incompatible pairs of counts near 500); `splitIncompat` and `reducedSplitIncompat` are exact only below that bound.
- JavaText.ParseInt: accepts ASCII digits only, while `Integer.valueOf` also accepts the other Unicode decimal digits (`Character.digit`), so a name such as `RS` followed by an Arabic-Indic digit is a number-format error here and a range lookup in Java; `Parameters.IntegerValueOf` inherits this.
- Taxa.Split: the tallies key splits by value where the source keys them by hex string, so both sides of one bipartition count as one split only if the trees always give it the same way; trees are assumed to give each bipartition in one form with its side inside `[0, taxa)`, and the model does not check this.
- `Arrays.sort`, `Collections.sort` and `ExtRandom.shuffle`. Each is specified by what it returns: an ascending permutation, or a by-count enumeration with ties in any order. Their algorithms are not modelled.
- `setRNG` and the random source of the shuffle.
- `CompoundCoefficient`'s array constructor shares the caller's array; the model copies its contents, so later writes to that array are not reflected.
- The `HybridStats` result arrays are sequences in a record, because nothing updates them after construction.
- The `IdGroup` pass-through methods of SplitCounts (src/hybridstats/SplitCounts.java:441-447) and TreeTopologyCounts.
- `getSplit`, `getHexIterator` and `getHexArray` (src/hybridstats/SplitCounts.java:419-431). The hex keys are replaced by structural equality of splits, so these accessors have nothing left to model.
- Forest's `TreesBlock` and file constructors beyond the tree-string normalisation, tree parsing itself, `toTreesBlock`, and the `List` pass-throughs other than `add`, `get` and `size`.
- Main.java, QuartetEntropy.java and PairWeightedSplits.java are not part of this model; the quartet entropy's value or exception is a parameter of `Statistics.Build`. The logarithm numerics of `internodeCertainty`, `getICs`, `getICAs`, `treeCertainty`, `treeCertaintyAll` and `entropy` are not modelled either; their one exception path, the greedy consensus's negative capacity, is modelled by `Statistics.TreeCertainties`.
- Tree building from splits (`NeoSplitUtils.treeFromSplits`). The majority and greedy consensus return the selected splits instead of a tree.
- Parameters.SummaryStatParameters.RangeCheck: states the corrected exact comparison, not the wrapping `2*max` of the code; the as-written verdict is `Parameters.RangeVerdictAsWritten`.

## Findings

| source | as written | input that shows it | evidently intended | confidence | as-written member | corrected member |
|---|---|---|---|---|---|---|
| src/hybridstats/SplitCounts.java:48-51 | the split-system constructor adds the splits through the core step, so `splitsAddedOnlyViaTrees` stays true with `nTrees` 0 | a one-split system: `sumRFtoMajRuleTree` then returns `0 - 1 = -1` instead of failing | a tally made from a split system refuses the tree-only statistics, as after `addSplitSystem` | not executed | `SplitTally.SplitSystemRFCounterexample` | `SplitTally.SplitCounts.FromSplitSystem` |
| src/hybridstats/SummaryStatParameters.java:127 | `2*max >= nTrees` is evaluated in 32-bit int arithmetic | SI threshold 2^30 with one tree: `2*max` wraps to -2^31, so the range check passes | refuse any SI threshold whose double is at least `nTrees` | not executed | `Parameters.RangeCheckOverflows` | `Parameters.RangeVerdictPasses` |
| src/hybridstats/SplitCounts.java:341 | in length mode the size test comes after a split may have been appended and asks for `size()==threshold`, so with threshold 1 the scan stops early only when the first later split is compatible, and with a threshold of 0 or less it never stops early | threshold 1, splits {0,1}, {1,2}, {0,2} over four taxa, all pairwise incompatible, with the first accepted: its list holds three entries | a list never holds more than `threshold` splits, as the comment at lines 317-318 says | not executed | `Consensus.LengthOneOverruns` | `Consensus.ConflictsCappedBounded` |

`SplitTally.SplitCounts.FindConflictingSplitCounts` keeps the length test as written. `Consensus.ConflictsCappedAgrees` shows that it gives the corrected lists for the only two calls `HybridStats` makes, `(2, true)` and `(0, false)`.
