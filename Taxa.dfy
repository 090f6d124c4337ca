/** Taxon sets, splits and trees: the collaborators the statistics consume
    but do not build. A split is one side of a tree bipartition, as the
    trees give it. The tallies key splits by value, as the source keys them
    by their hex string, so two sides of one bipartition count as one split
    only if the trees always give it the same way; the model assumes this
    of the trees and does not check it. */
module Taxa {
  import opened Sums

  /** An ordered list of taxon labels (an `IdGroup`). */
  datatype TaxonSet = TaxonSet(labels: seq<string>)

  /** `getIdCount()`. */
  function IdCount(t: TaxonSet): nat
  {
    |t.labels|
  }

  /** Two taxon sets are the same when they hold the same labels, in any
      order. */
  predicate SameTaxa(a: TaxonSet, b: TaxonSet)
  {
    multiset(a.labels) == multiset(b.labels)
  }

  lemma SameTaxaIsEquivalence(a: TaxonSet, b: TaxonSet, c: TaxonSet)
    ensures SameTaxa(a, a)
    ensures SameTaxa(a, b) ==> SameTaxa(b, a)
    ensures SameTaxa(a, b) && SameTaxa(b, c) ==> SameTaxa(a, c)
  {
  }

  /** A bipartition of the taxon indices `[0, taxa)`, represented by one of
      its sides; the side is assumed, not required, to lie within
      `[0, taxa)`. */
  datatype Split = Split(side: set<int>, taxa: nat)

  /** The other side of the bipartition: the taxon indices not in `side`. */
  function Complement(s: Split): set<int>
  {
    set i | 0 <= i < s.taxa && i !in s.side
  }

  /** Two splits are compatible when one of the four intersections of their
      sides is empty, that is, when some tree has both as edges. */
  predicate Compatible(a: Split, b: Split)
  {
    || a.side * b.side == {}
    || a.side * Complement(b) == {}
    || Complement(a) * b.side == {}
    || Complement(a) * Complement(b) == {}
  }

  /** `split.compatible(list)`: compatible with every split of the list. */
  predicate CompatibleWithAll(s: Split, gs: seq<Split>)
  {
    forall i :: 0 <= i < |gs| ==> Compatible(s, gs[i])
  }

  /** The splits of `gs` are pairwise compatible. */
  predicate PairwiseCompatible(gs: seq<Split>)
  {
    forall i, j :: 0 <= i < |gs| && 0 <= j < |gs| ==> Compatible(gs[i], gs[j])
  }

  lemma CompatibleSymmetric(a: Split, b: Split)
    ensures Compatible(a, b) <==> Compatible(b, a)
  {
  }

  lemma CompatibleReflexive(a: Split)
    ensures Compatible(a, a)
  {
    assert a.side * Complement(a) == {};
  }

  /** The number of taxa on the smaller side. */
  function SizeOfSmaller(s: Split): int
  {
    if |s.side| <= s.taxa - |s.side| then |s.side| else s.taxa - |s.side|
  }

  /** A cherry is a split whose smaller side holds exactly two taxa. */
  predicate IsCherry(s: Split)
  {
    SizeOfSmaller(s) == 2
  }

  /** A tree, as far as the statistics see it: its taxon set, its
      non-trivial splits (`NeoSplitUtils.getSplits`) and its canonical
      topology string (`ExTreeUtils.toTopologyString`), which is opaque. */
  datatype Tree = Tree(taxa: TaxonSet, splits: seq<Split>, topology: string)

  /** What every real tree satisfies: its splits are distinct and pairwise
      compatible. */
  ghost predicate WellFormedTree(t: Tree)
  {
    Distinct(t.splits) && PairwiseCompatible(t.splits)
  }

  /** Every tree of the list is well formed. */
  ghost predicate WellFormedForest(trees: seq<Tree>)
  {
    forall i :: 0 <= i < |trees| ==> WellFormedTree(trees[i])
  }

  /** Every tree of the list has the same taxa as `b`. */
  predicate AllOn(b: TaxonSet, trees: seq<Tree>)
  {
    forall j :: 0 <= j < |trees| ==> SameTaxa(b, trees[j].taxa)
  }

  /** Tree `j` is the first of the list whose taxa differ from `b`. */
  predicate FirstOff(b: TaxonSet, trees: seq<Tree>, j: int)
  {
    0 <= j < |trees| && !SameTaxa(b, trees[j].taxa) && AllOn(b, trees[..j])
  }

  /** A tree with the taxa of `b` extends a prefix whose trees all have
      them. */
  lemma AllOnExtends(b: TaxonSet, trees: seq<Tree>, i: nat)
    requires i < |trees| && (i == 0 || AllOn(b, trees[..i])) && SameTaxa(b, trees[i].taxa)
    ensures AllOn(b, trees[..i + 1])
  {
    assert forall j :: 0 <= j < i ==> trees[..i + 1][j] == trees[..i][j];
  }

  /** The trees share one taxon set, the first tree's. */
  predicate OneTaxonSet(trees: seq<Tree>)
  {
    trees == [] || AllOn(trees[0].taxa, trees)
  }
}
