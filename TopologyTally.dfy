/** The topology tally (`TreeTopologyCounts`): how many times each tree
    topology, identified by its canonical topology string, was added, and
    the count arrays built from it. */
module TopologyTally {
  import opened Exceptions
  import opened Sums
  import opened Tallies
  import opened Taxa
  import opened Forests

  const IncompatibleTaxa: string := "Tried to add tree with incompatible IdGroup"

  /** The topology string of every tree, in order. */
  function Topologies(trees: seq<Tree>): multiset<string>
  {
    if trees == [] then multiset{} else Topologies(trees[..|trees| - 1]) + multiset{trees[|trees| - 1].topology}
  }

  lemma TopologiesStep(base: multiset<string>, before: multiset<string>, after: multiset<string>, trees: seq<Tree>, i: nat)
    requires i < |trees|
    requires before == base + Topologies(trees[..i]) && after == before + multiset{trees[i].topology}
    ensures after == base + Topologies(trees[..i + 1])
  {
    assert trees[..i + 1][..i] == trees[..i];
    assert Topologies(trees[..i + 1]) == Topologies(trees[..i]) + multiset{trees[i].topology};
  }

  /** One more tree adds one topology. */
  lemma {:induction false} TopologiesCard(trees: seq<Tree>)
    ensures |Topologies(trees)| == |trees|
  {
    if trees != [] {
      TopologiesCard(trees[..|trees| - 1]);
    }
  }

  predicate Ascending(s: seq<int>)
  {
    forall i, j :: 0 <= i < j < |s| ==> s[i] <= s[j]
  }

  /** `x` put in front of the first element of `s` not smaller than it. */
  function Insert(x: int, s: seq<int>): (r: seq<int>)
    ensures |r| == |s| + 1
  {
    if s == [] || x <= s[0] then [x] + s else [s[0]] + Insert(x, s[1..])
  }

  lemma {:induction false} InsertPermutes(x: int, s: seq<int>)
    ensures multiset(Insert(x, s)) == multiset(s) + multiset{x}
  {
    if s != [] && x > s[0] {
      InsertPermutes(x, s[1..]);
      assert s == [s[0]] + s[1..];
    }
  }

  lemma {:induction false} InsertAscending(x: int, s: seq<int>)
    requires Ascending(s)
    ensures Ascending(Insert(x, s))
  {
    if s != [] && x > s[0] {
      var t := Insert(x, s[1..]);
      InsertPermutes(x, s[1..]);
      InsertAscending(x, s[1..]);
      forall k | 0 <= k < |t| ensures s[0] <= t[k] {
        assert t[k] in multiset(t);
        if t[k] != x {
          assert t[k] in s[1..];
          var j :| 0 <= j < |s[1..]| && s[1..][j] == t[k];
          assert s[j + 1] == t[k];
        }
      }
    }
  }

  /** The ascending arrangement of `s` (`Arrays.sort` on the values). */
  function SortAscending(s: seq<int>): (r: seq<int>)
    ensures Ascending(r) && multiset(r) == multiset(s) && |r| == |s|
  {
    if s == [] then []
    else
      var t := SortAscending(s[1..]);
      InsertPermutes(s[0], t);
      InsertAscending(s[0], t);
      assert s == [s[0]] + s[1..];
      Insert(s[0], t)
  }

  /** In an ascending sequence the first element is the smallest. */
  lemma AscendingFirst(a: seq<int>, x: int)
    requires Ascending(a) && x in multiset(a)
    ensures a != [] && a[0] <= x
  {
    assert x in a;
    var j :| 0 <= j < |a| && a[j] == x;
  }

  lemma AscendingTail(a: seq<int>)
    requires a != [] && Ascending(a)
    ensures Ascending(a[1..]) && multiset(a[1..]) == multiset(a) - multiset{a[0]}
  {
    assert a == [a[0]] + a[1..];
  }

  /** Two ascending arrangements of one non-empty multiset start alike. */
  lemma AscendingHeads(a: seq<int>, b: seq<int>)
    requires Ascending(a) && Ascending(b) && multiset(a) == multiset(b) && a != []
    ensures b != [] && a[0] == b[0]
  {
    assert a[0] in multiset(a);
    AscendingFirst(b, a[0]);
    assert b[0] in multiset(b);
    AscendingFirst(a, b[0]);
  }

  /** A multiset has exactly one ascending arrangement, so the sorted
      counts do not depend on the order the hash map gave the values in. */
  lemma {:induction false} AscendingUnique(a: seq<int>, b: seq<int>)
    requires Ascending(a) && Ascending(b) && multiset(a) == multiset(b)
    ensures a == b
  {
    if a == [] {
      assert |multiset(b)| == 0;
    } else {
      AscendingHeads(a, b);
      AscendingTail(a);
      AscendingTail(b);
      AscendingUnique(a[1..], b[1..]);
      assert a == [a[0]] + a[1..];
      assert b == [b[0]] + b[1..];
    }
  }

  /** The counts of `keys`, in the order of `keys`
      (`counts.values().toArray`). */
  function ValuesIn(keys: seq<string>, counts: map<string, int>): (r: seq<int>)
    requires forall i :: 0 <= i < |keys| ==> keys[i] in counts
    ensures |r| == |keys|
  {
    if keys == [] then [] else [counts[keys[0]]] + ValuesIn(keys[1..], counts)
  }

  lemma {:induction false} ValuesInConcat(a: seq<string>, b: seq<string>, counts: map<string, int>)
    requires forall i :: 0 <= i < |a| ==> a[i] in counts
    requires forall i :: 0 <= i < |b| ==> b[i] in counts
    ensures ValuesIn(a + b, counts) == ValuesIn(a, counts) + ValuesIn(b, counts)
  {
    if a == [] {
      assert a + b == b;
    } else {
      assert (a + b)[1..] == a[1..] + b;
      ValuesInConcat(a[1..], b, counts);
    }
  }

  /** Taking key `k` out takes its count out of the values. */
  lemma ValuesInWithout(b: seq<string>, k: nat, counts: map<string, int>)
    requires k < |b| && forall i :: 0 <= i < |b| ==> b[i] in counts
    ensures multiset(ValuesIn(b, counts)) == multiset{counts[b[k]]} + multiset(ValuesIn(Without(b, k), counts))
  {
    assert b == b[..k] + ([b[k]] + b[k + 1..]);
    ValuesInConcat(b[..k], [b[k]] + b[k + 1..], counts);
    ValuesInConcat([b[k]], b[k + 1..], counts);
    ValuesInConcat(b[..k], b[k + 1..], counts);
  }

  /** Listing the same keys in another order lists the same values in
      another order. */
  lemma {:induction false} ValuesInPermutation(a: seq<string>, b: seq<string>, counts: map<string, int>)
    requires multiset(a) == multiset(b) && forall i :: 0 <= i < |a| ==> a[i] in counts
    ensures forall i :: 0 <= i < |b| ==> b[i] in counts
    ensures multiset(ValuesIn(a, counts)) == multiset(ValuesIn(b, counts))
  {
    forall i | 0 <= i < |b| ensures b[i] in counts {
      assert b[i] in multiset(a);
    }
    if a == [] {
      assert |multiset(b)| == 0;
    } else {
      var k := MatchFirst(a, b);
      ValuesInWithout(b, k, counts);
      ValuesInPermutation(a[1..], Without(b, k), counts);
    }
  }

  /** Counts of at least 1 give values of at least 1. */
  lemma {:induction false} ValuesInPositive(keys: seq<string>, counts: map<string, int>)
    requires forall i :: 0 <= i < |keys| ==> keys[i] in counts && counts[keys[i]] >= 1
    ensures forall x :: x in multiset(ValuesIn(keys, counts)) ==> x >= 1
  {
    if keys != [] {
      ValuesInPositive(keys[1..], counts);
    }
  }

  lemma {:induction false} ValuesInSum(keys: seq<string>, counts: map<string, int>)
    requires forall i :: 0 <= i < |keys| ==> keys[i] in counts
    ensures Sum(ValuesIn(keys, counts)) == SumBy(keys, CountFn(counts))
  {
    if keys != [] {
      ValuesInSum(keys[1..], counts);
    }
  }

  /** What `getCounts` returns: the counts in ascending order, whatever
      the iteration order of the map. */
  ghost function SortedCounts(counts: map<string, int>): seq<int>
  {
    SortAscending(ValuesIn(Enumerate(counts.Keys), counts))
  }

  /** The sorted counts of a tally: ascending, one entry per topology,
      every entry at least 1, and all of them adding up to the trees
      counted. */
  lemma SortedCountsShape(added: multiset<string>)
    ensures var counts := TallyOf(added); var r := SortedCounts(counts);
      && Ascending(r)
      && |r| == |counts|
      && (forall i :: 0 <= i < |r| ==> r[i] >= 1)
      && Sum(r) == |added|
  {
    var counts := TallyOf(added);
    var keys := Enumerate(counts.Keys);
    var r := SortedCounts(counts);
    ValuesInPositive(keys, counts);
    forall i | 0 <= i < |r| ensures r[i] >= 1 {
      assert r[i] in multiset(r);
    }
    ValuesInSum(keys, counts);
    TallySum(keys, added);
    SumPermutation(ValuesIn(keys, counts), r);
  }

  /** Entry `i` of `cumulativeCounts`: the sum of the `i + 1` largest
      counts. */
  function Largest(sorted: seq<int>, i: nat): int
    requires i < |sorted|
  {
    Sum(sorted[|sorted| - 1 - i..])
  }

  lemma LargestFirst(sorted: seq<int>)
    requires |sorted| >= 1
    ensures Largest(sorted, 0) == sorted[|sorted| - 1]
  {
    var t := sorted[|sorted| - 1..];
    assert t == [sorted[|sorted| - 1]] && t[1..] == [];
    assert Largest(sorted, 0) == Sum(t) == t[0] + Sum(t[1..]);
  }

  lemma LargestAll(sorted: seq<int>)
    requires |sorted| >= 1
    ensures Largest(sorted, |sorted| - 1) == Sum(sorted)
  {
    assert sorted[0..] == sorted;
  }

  /** The running sums grow by the next largest count, and cover every count
      at the last entry. */
  lemma LargestStep(sorted: seq<int>, i: nat)
    requires 0 < i < |sorted|
    ensures Largest(sorted, i) == Largest(sorted, i - 1) + sorted[|sorted| - i - 1]
  {
    var n := |sorted|;
    assert sorted[n - 1 - i..] == [sorted[n - 1 - i]] + sorted[n - i..];
  }

  /** The loop of `cumulativeCounts` (TreeTopologyCounts.java:75-79) over
      an ascending array: entry `i` is the sum of the `i + 1` largest
      entries. */
  method RunningLargest(sorted: seq<int>) returns (r: seq<int>)
    requires |sorted| >= 1
    ensures |r| == |sorted|
    ensures forall i :: 0 <= i < |r| ==> r[i] == Largest(sorted, i)
  {
    var n := |sorted|;
    var cumulative := new int[n];
    cumulative[0] := sorted[n - 1];
    LargestFirst(sorted);
    var i := 1;
    while i < n
      invariant 1 <= i <= n
      invariant forall k :: 0 <= k < i ==> cumulative[k] == Largest(sorted, k)
    {
      LargestStep(sorted, i);
      cumulative[i] := cumulative[i - 1] + sorted[n - i - 1];
      i := i + 1;
    }
    r := cumulative[..];
  }

  class TreeTopologyCounts {
    var counts: map<string, int>
    var idg: Option<TaxonSet>
    /** Every topology string counted so far, with repetitions. */
    ghost var added: multiset<string>

    ghost predicate Valid()
      reads this`counts, this`added
    {
      counts == TallyOf(added)
    }

    /** `new TreeTopologyCounts()`. */
    constructor ()
      ensures Valid() && added == multiset{} && idg == None
    {
      counts := map[];
      added := multiset{};
      idg := None;
    }

    /** `new TreeTopologyCounts(Forest)`: an empty tally, then
        `addForest`; the first tree binds the taxon set, and the exception
        of a later tree with other labels escapes the constructor. */
    static method FromForest(forest: Forest) returns (r: Result<TreeTopologyCounts>)
      ensures r.Ok? <==> OneTaxonSet(forest.trees)
      ensures r.Err? ==> forest.trees != [] && exists j :: FirstOff(forest.trees[0].taxa, forest.trees, j)
      ensures r.Ok? ==> fresh(r.value) && r.value.Valid() && r.value.added == Topologies(forest.trees)
      ensures r.Err? ==> r.error == IllegalArgument(IncompatibleTaxa)
    {
      var c := new TreeTopologyCounts();
      var o := c.AddForest(forest);
      if o.Fail? {
        return Err(o.error);
      }
      return Ok(c);
    }

    /** `checkIdGroup`: the first tree binds the taxon set; a later tree
        with other labels is refused. */
    method CheckIdGroup(taxa: TaxonSet) returns (o: Outcome)
      modifies this`idg
      ensures idg == if old(idg).None? then Some(taxa) else old(idg)
      ensures o == if old(idg).None? || SameTaxa(old(idg).value, taxa) then Pass else Fail(IllegalArgument(IncompatibleTaxa))
    {
      if idg.None? {
        idg := Some(taxa);
      } else if !SameTaxa(idg.value, taxa) {
        return Fail(IllegalArgument(IncompatibleTaxa));
      }
      return Pass;
    }

    /** `addTree`: check the taxa, then count the tree's topology string,
        starting a new string at 1. A refused tree changes no count. */
    method AddTree(tree: Tree) returns (o: Outcome)
      requires Valid()
      modifies this`counts, this`idg, this`added
      ensures Valid()
      ensures idg == if old(idg).None? then Some(tree.taxa) else old(idg)
      ensures o == if old(idg).None? || SameTaxa(old(idg).value, tree.taxa) then Pass else Fail(IllegalArgument(IncompatibleTaxa))
      ensures o.Pass? <==> SameTaxa(idg.value, tree.taxa)
      ensures o.Pass? ==> added == old(added) + multiset{tree.topology}
      ensures o.Fail? ==> added == old(added)
    {
      o := CheckIdGroup(tree.taxa);
      if o.Fail? {
        return;
      }
      var str := tree.topology;
      TallyAdd(added, str);
      if str in counts {
        counts := counts[str := counts[str] + 1];
      } else {
        counts := counts[str := 1];
      }
      added := added + multiset{str};
    }

    /** `addForest`: `addTree` on each tree in order, stopping at the first
        refused one. The bound taxon set is the one already bound, else the
        first tree's; the forest passes exactly when every tree has those
        labels, and otherwise stops at the first tree that does not. */
    method AddForest(forest: Forest) returns (o: Outcome)
      requires Valid()
      modifies this`counts, this`idg, this`added
      ensures Valid()
      ensures idg == if forest.trees != [] && old(idg).None? then Some(forest.trees[0].taxa) else old(idg)
      ensures forest.trees == [] ==> o.Pass?
      ensures forest.trees != [] ==> (o.Pass? <==> AllOn(idg.value, forest.trees))
      ensures o.Pass? ==> added == old(added) + Topologies(forest.trees)
      ensures o.Fail? ==> (forest.trees != [] &&
        exists j :: FirstOff(idg.value, forest.trees, j) && added == old(added) + Topologies(forest.trees[..j]))
      ensures o.Fail? ==> o.error == IllegalArgument(IncompatibleTaxa)
    {
      var trees := forest.trees;
      ghost var added0, idg0 := added, idg;
      ghost var b := if idg.Some? then idg.value else if trees != [] then trees[0].taxa else TaxonSet([]);
      var i := 0;
      o := Pass;
      while i < |trees| && o.Pass?
        invariant ForestSoFar(trees, i, o, added0, b)
        invariant idg == if i > 0 then Some(b) else idg0
      {
        o := AddForestTree(trees, i, added0, b);
        i := i + 1;
      }
      ForestDone(trees, i, o, added0, b, idg0);
    }

    /** The tally after `addForest` has added the first `i` trees to a
        tally that held `added0`, with `b` the bound taxon set: all of them
        counted while they pass, and on a refusal tree `i - 1` the first
        with other labels. */
    ghost predicate ForestSoFar(trees: seq<Tree>, i: int, o: Outcome, added0: multiset<string>, b: TaxonSet)
      reads this`counts, this`added
    {
      && 0 <= i <= |trees|
      && Valid()
      && (o.Pass? ==> added == added0 + Topologies(trees[..i]) && AllOn(b, trees[..i]))
      && (o.Fail? ==> 0 < i && added == added0 + Topologies(trees[..i - 1])
                      && o.error == IllegalArgument(IncompatibleTaxa) && FirstOff(b, trees, i - 1))
    }

    /** What `addForest` has done once its loop ends: its postconditions,
        with the tally's earlier state as parameters. */
    lemma ForestDone(trees: seq<Tree>, i: int, o: Outcome, added0: multiset<string>, b: TaxonSet,
                     idg0: Option<TaxonSet>)
      requires ForestSoFar(trees, i, o, added0, b) && (i == |trees| || o.Fail?)
      requires idg == if i > 0 then Some(b) else idg0
      requires b == if idg0.Some? then idg0.value else if trees != [] then trees[0].taxa else TaxonSet([])
      ensures Valid()
      ensures idg == if trees != [] && idg0.None? then Some(trees[0].taxa) else idg0
      ensures trees == [] ==> o.Pass?
      ensures trees != [] ==> (o.Pass? <==> AllOn(idg.value, trees))
      ensures o.Pass? ==> added == added0 + Topologies(trees)
      ensures o.Fail? ==> (trees != [] &&
        exists j :: FirstOff(idg.value, trees, j) && added == added0 + Topologies(trees[..j]))
      ensures o.Fail? ==> o.error == IllegalArgument(IncompatibleTaxa)
    {
      if o.Pass? {
        assert trees[..i] == trees;
      } else {
        assert !SameTaxa(b, trees[i - 1].taxa);
      }
    }

    /** One step of `addForest`: `addTree` on tree `i`, after trees
        `0..i-1` were added to the tally that held `added0`. */
    method AddForestTree(trees: seq<Tree>, i: nat, ghost added0: multiset<string>, ghost b: TaxonSet) returns (o: Outcome)
      requires i < |trees| && ForestSoFar(trees, i, Pass, added0, b)
      requires idg == Some(b) || (idg.None? && b == trees[i].taxa)
      modifies this`counts, this`idg, this`added
      ensures ForestSoFar(trees, i + 1, o, added0, b)
      ensures idg == Some(b)
    {
      ghost var before := added;
      o := AddTree(trees[i]);
      if o.Pass? {
        TopologiesStep(added0, before, added, trees, i);
        AllOnExtends(b, trees, i);
      }
    }

    /** `getCounts`: the count values in ascending order. */
    method GetCounts() returns (sorted: seq<int>)
      requires Valid()
      ensures sorted == SortedCounts(counts)
      ensures Ascending(sorted) && |sorted| == |counts|
      ensures exists keys :: Enumerates(keys, counts.Keys) && multiset(sorted) == multiset(ValuesIn(keys, counts))
      ensures Sum(sorted) == |added|
    {
      var keys := IterationOrder(counts.Keys);
      var data := ValuesIn(keys, counts);
      sorted := SortAscending(data);
      EnumerationsArePermutations(keys, Enumerate(counts.Keys), counts.Keys);
      ValuesInPermutation(keys, Enumerate(counts.Keys), counts);
      AscendingUnique(sorted, SortedCounts(counts));
      SortedCountsShape(added);
    }

    /** `cumulativeCounts`: entry `i` is the sum of the `i + 1` largest
        counts. On an empty tally the source reads `sorted[-1]`. */
    method CumulativeCounts() returns (r: Result<seq<int>>)
      requires Valid()
      ensures r.Err? <==> counts == map[]
      ensures r.Err? ==> r.error == IndexOutOfBounds(-1)
      ensures r.Ok? ==> |r.value| == |counts|
      ensures r.Ok? ==> forall i :: 0 <= i < |r.value| ==> r.value[i] == Largest(SortedCounts(counts), i)
      ensures r.Ok? ==> (forall i, j :: 0 <= i < j < |r.value| ==> r.value[i] < r.value[j])
                        && r.value[|r.value| - 1] == |added|
    {
      var sorted := GetCounts();
      var n := |sorted|;
      if n == 0 {
        return Err(IndexOutOfBounds(n - 1));
      }
      var cumulative := RunningLargest(sorted);
      assert sorted[0] in multiset(sorted);
      CumulativeShape(added);
      return Ok(cumulative);
    }

    /** `getNumberUniqueTopologies`. */
    method GetNumberUniqueTopologies() returns (n: int)
      requires Valid()
      ensures n == |counts| && n == |set t | t in added|
    {
      assert counts.Keys == set t | t in added;
      n := |counts|;
    }
  }

  /** The cumulative counts of a non-empty tally rise strictly (every count
      is at least 1), start at the largest count and end at the number of
      trees counted. */
  lemma CumulativeShape(added: multiset<string>)
    requires added != multiset{}
    ensures var r := SortedCounts(TallyOf(added)); var n := |r|;
      && n >= 1
      && Largest(r, 0) == r[n - 1]
      && (forall i, j :: 0 <= i < j < n ==> Largest(r, i) < Largest(r, j))
      && Largest(r, n - 1) == |added|
  {
    var counts := TallyOf(added);
    var r := SortedCounts(counts);
    SortedCountsShape(added);
    var x :| x in added;
    assert x in counts;
    LargestFirst(r);
    LargestAll(r);
    forall i, j | 0 <= i < j < |r| ensures Largest(r, i) < Largest(r, j) {
      LargestGrows(r, i, j);
    }
  }

  lemma {:induction false} LargestGrows(r: seq<int>, i: nat, j: nat)
    requires i < j < |r| && forall k :: 0 <= k < |r| ==> r[k] >= 1
    ensures Largest(r, i) < Largest(r, j)
    decreases j - i
  {
    LargestStep(r, j);
    if i < j - 1 {
      LargestGrows(r, i, j - 1);
    }
  }
}
