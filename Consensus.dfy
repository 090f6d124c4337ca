/** The greedy consensus pass and the conflict lists built from it, as
    functions of the frequency-sorted split list. The split tally's methods
    compute exactly these; the lemmas here are what the source promises
    about them. */
module Consensus {
  import opened Tallies
  import opened Taxa

  /** The accepted splits and where in the sorted list each one sits. */
  datatype Selection = Selection(splits: seq<Split>, index: seq<int>)

  /** The greedy pass over `sorted`: walk the list in order and accept a
      split when fewer than `limit` are accepted and it is compatible with
      every split accepted so far. Defined on the last element, so that
      `Greedy(sorted[..i])` is the state after the first `i` steps. */
  function Greedy(sorted: seq<Split>, limit: int): (r: Selection)
    ensures |r.splits| == |r.index|
  {
    if sorted == [] then Selection([], [])
    else
      var n := |sorted| - 1;
      var prev := Greedy(sorted[..n], limit);
      if |prev.splits| < limit && CompatibleWithAll(sorted[n], prev.splits)
      then Selection(prev.splits + [sorted[n]], prev.index + [n])
      else prev
  }

  /** The greedy selection has at most `limit` splits, all pairwise
      compatible, and its index list is strictly increasing and points at
      those splits in the sorted list. */
  lemma {:induction false} GreedyShape(sorted: seq<Split>, limit: int)
    ensures var r := Greedy(sorted, limit);
      && (|r.splits| <= limit || r.splits == [])
      && PairwiseCompatible(r.splits)
      && (forall k :: 0 <= k < |r.index| ==> 0 <= r.index[k] < |sorted| && sorted[r.index[k]] == r.splits[k])
      && (forall k, l :: 0 <= k < l < |r.index| ==> r.index[k] < r.index[l])
  {
    if sorted != [] {
      var n := |sorted| - 1;
      var prev := Greedy(sorted[..n], limit);
      GreedyShape(sorted[..n], limit);
      if |prev.splits| < limit && CompatibleWithAll(sorted[n], prev.splits) {
        var g := prev.splits + [sorted[n]];
        forall i, j | 0 <= i < |g| && 0 <= j < |g| ensures Compatible(g[i], g[j]) {
          if i == |g| - 1 && j == |g| - 1 {
            CompatibleReflexive(g[i]);
          } else if i == |g| - 1 {
            assert Compatible(sorted[n], prev.splits[j]);
          } else if j == |g| - 1 {
            assert Compatible(sorted[n], prev.splits[i]);
            CompatibleSymmetric(sorted[n], prev.splits[i]);
          } else {
            assert Compatible(prev.splits[i], prev.splits[j]);
          }
        }
      }
    }
  }

  /** The state after `p` steps is a prefix of the final selection. */
  lemma {:induction false} GreedyPrefix(sorted: seq<Split>, limit: int, p: nat)
    requires p <= |sorted|
    ensures var a, b := Greedy(sorted[..p], limit), Greedy(sorted, limit);
      |a.splits| <= |b.splits| && b.splits[..|a.splits|] == a.splits && b.index[..|a.index|] == a.index
    decreases |sorted|
  {
    if p < |sorted| {
      var n := |sorted| - 1;
      assert sorted[..n][..p] == sorted[..p];
      GreedyPrefix(sorted[..n], limit, p);
    } else {
      assert sorted[..p] == sorted;
    }
  }

  /** Once `limit` splits are accepted nothing more is: the source's loop
      may stop there. */
  lemma {:induction false} GreedyFrozen(sorted: seq<Split>, limit: int, i: nat)
    requires i <= |sorted|
    requires |Greedy(sorted[..i], limit).splits| >= limit
    ensures Greedy(sorted, limit) == Greedy(sorted[..i], limit)
    decreases |sorted|
  {
    if i < |sorted| {
      var n := |sorted| - 1;
      assert sorted[..n][..i] == sorted[..i];
      GreedyFrozen(sorted[..n], limit, i);
    } else {
      assert sorted[..i] == sorted;
    }
  }

  /** A split accepted at step `p` stays in the final selection. */
  lemma {:induction false} GreedyKeeps(sorted: seq<Split>, limit: int, p: nat)
    requires p < |sorted|
    ensures var a := Greedy(sorted[..p], limit);
      |a.splits| < limit && CompatibleWithAll(sorted[p], a.splits) ==> p in Greedy(sorted, limit).index
  {
    var r := Greedy(sorted, limit);
    var a := Greedy(sorted[..p], limit);
    var s1 := sorted[..p + 1];
    assert s1[..p] == sorted[..p];
    assert |s1| - 1 == p && s1[p] == sorted[p];
    GreedyPrefix(sorted, limit, p + 1);
    if |a.splits| < limit && CompatibleWithAll(sorted[p], a.splits) {
      var g1 := Greedy(s1, limit);
      assert g1.index == a.index + [p];
      assert r.index[..|g1.index|][|a.index|] == p;
    }
  }

  /** A split the pass skipped while there was still room conflicts with a
      split accepted before it. */
  lemma {:induction false} GreedySkipped(sorted: seq<Split>, limit: int, p: nat)
    requires p < |sorted|
    requires p !in Greedy(sorted, limit).index
    requires |Greedy(sorted[..p], limit).splits| < limit
    ensures var r := Greedy(sorted, limit);
      exists k :: 0 <= k < |r.splits| && r.index[k] < p && !Compatible(sorted[p], r.splits[k])
  {
    var r := Greedy(sorted, limit);
    var a := Greedy(sorted[..p], limit);
    GreedyKeeps(sorted, limit, p);
    GreedyPrefix(sorted, limit, p);
    GreedyShape(sorted[..p], limit);
    assert !CompatibleWithAll(sorted[p], a.splits);
    var j :| 0 <= j < |a.splits| && !Compatible(sorted[p], a.splits[j]);
    assert r.splits[j] == a.splits[j] && r.index[j] == a.index[j];
  }

  /** The inner scan of `findConflictingSplitCounts` for the accepted split
      `s`, from sorted position `j` on, having collected `list` so far. In
      length mode it stops once the list holds `threshold` entries; in
      weight mode it stops at the first split seen fewer than `threshold`
      times. */
  function Scan(sorted: seq<Split>, counts: map<Split, int>, s: Split, j: nat,
                threshold: int, byLength: bool, list: seq<(Split, int)>): seq<(Split, int)>
    decreases |sorted| - j
  {
    if j >= |sorted| then list
    else if !byLength && Get(counts, sorted[j]) < threshold then list
    else
      var list' := if !Compatible(s, sorted[j]) then list + [(sorted[j], Get(counts, sorted[j]))] else list;
      if byLength && |list'| == threshold then list'
      else Scan(sorted, counts, s, j + 1, threshold, byLength, list')
  }

  /** The conflict list of every accepted split, in acceptance order; in
      weight mode the first accepted split below the threshold ends it. */
  function Conflicts(sorted: seq<Split>, counts: map<Split, int>, index: seq<int>,
                     threshold: int, byLength: bool): seq<seq<(Split, int)>>
    requires forall k :: 0 <= k < |index| ==> 0 <= index[k] < |sorted|
  {
    if index == [] then []
    else
      var s := sorted[index[0]];
      if !byLength && Get(counts, s) < threshold then []
      else [Scan(sorted, counts, s, index[0] + 1, threshold, byLength, [(s, Get(counts, s))])]
           + Conflicts(sorted, counts, index[1..], threshold, byLength)
  }

  /** Every entry is a split from a sorted position after `i`, paired with
      its count, incompatible with `s`, and (in weight mode) seen at least
      `threshold` times. */
  ghost predicate LaterConflicts(sorted: seq<Split>, counts: map<Split, int>, s: Split, i: nat,
                                 threshold: int, byLength: bool, entries: seq<(Split, int)>)
  {
    && i < |sorted|
    && forall k :: 0 <= k < |entries| ==>
      && entries[k].0 in sorted[i + 1..]
      && entries[k].1 == Get(counts, entries[k].0)
      && !Compatible(s, entries[k].0)
      && (!byLength ==> entries[k].1 >= threshold)
  }

  lemma {:induction false} ScanShape(sorted: seq<Split>, counts: map<Split, int>, s: Split, i: nat, j: nat,
                                     threshold: int, byLength: bool, list: seq<(Split, int)>)
    requires i < j && |list| >= 1
    requires LaterConflicts(sorted, counts, s, i, threshold, byLength, list[1..])
    requires byLength && threshold >= 2 ==> |list| < threshold
    ensures var r := Scan(sorted, counts, s, j, threshold, byLength, list);
      && |r| >= |list| && r[..|list|] == list
      && LaterConflicts(sorted, counts, s, i, threshold, byLength, r[1..])
      && (byLength && threshold >= 2 ==> |r| <= threshold)
    decreases |sorted| - j
  {
    if j < |sorted| && (byLength || Get(counts, sorted[j]) >= threshold) {
      var list' := if !Compatible(s, sorted[j]) then list + [(sorted[j], Get(counts, sorted[j]))] else list;
      assert list'[..|list|] == list;
      assert sorted[j] in sorted[i + 1..] by {
        assert sorted[i + 1..][j - i - 1] == sorted[j];
      }
      assert list'[1..] == list[1..] || list'[1..] == list[1..] + [(sorted[j], Get(counts, sorted[j]))];
      assert LaterConflicts(sorted, counts, s, i, threshold, byLength, list'[1..]);
      if !(byLength && |list'| == threshold) {
        ScanShape(sorted, counts, s, i, j + 1, threshold, byLength, list');
        var r := Scan(sorted, counts, s, j + 1, threshold, byLength, list');
        assert r[..|list'|][..|list|] == r[..|list|];
      }
    }
  }

  /** Each conflict list starts with its accepted split and that split's
      count, then holds only later, incompatible splits; in length mode
      (threshold at least 2) it has at most `threshold` entries, and in
      weight mode every entry was seen at least `threshold` times. The
      length bound needs a threshold of at least 2 because the size test
      follows the append and asks for equality; `LengthOneOverruns` shows
      a list past threshold 1, and `ConflictsCapped` is the corrected
      form. */
  lemma {:induction false} ConflictsShape(sorted: seq<Split>, counts: map<Split, int>, index: seq<int>,
                                          threshold: int, byLength: bool)
    requires forall k :: 0 <= k < |index| ==> 0 <= index[k] < |sorted|
    ensures var r := Conflicts(sorted, counts, index, threshold, byLength);
      && |r| <= |index|
      && (byLength ==> |r| == |index|)
      && forall k :: 0 <= k < |r| ==>
        && |r[k]| >= 1
        && r[k][0] == (sorted[index[k]], Get(counts, sorted[index[k]]))
        && LaterConflicts(sorted, counts, sorted[index[k]], index[k], threshold, byLength, r[k][1..])
        && (byLength && threshold >= 2 ==> |r[k]| <= threshold)
        && (!byLength ==> r[k][0].1 >= threshold)
  {
    if index != [] {
      var s := sorted[index[0]];
      ConflictsShape(sorted, counts, index[1..], threshold, byLength);
      if byLength || Get(counts, s) >= threshold {
        var head := [(s, Get(counts, s))];
        assert LaterConflicts(sorted, counts, s, index[0], threshold, byLength, head[1..]);
        ScanShape(sorted, counts, s, index[0], index[0] + 1, threshold, byLength, head);
      }
    }
  }

  /** The splits at sorted positions `j` up to `e` that are incompatible
      with `s`, in sorted order, each with its count: the competitors of
      `s` there. */
  function Incompatibles(sorted: seq<Split>, counts: map<Split, int>, s: Split, j: nat, e: nat): seq<(Split, int)>
    requires j <= e <= |sorted|
    decreases e - j
  {
    if j == e then []
    else (if !Compatible(s, sorted[j]) then [(sorted[j], Get(counts, sorted[j]))] else [])
         + Incompatibles(sorted, counts, s, j + 1, e)
  }

  /** The first sorted position at or after `j` whose split was seen fewer
      than `threshold` times, or the end of the list. */
  function RunEnd(sorted: seq<Split>, counts: map<Split, int>, j: nat, threshold: int): (e: nat)
    requires j <= |sorted|
    ensures j <= e <= |sorted|
    ensures forall k :: j <= k < e ==> Get(counts, sorted[k]) >= threshold
    ensures e < |sorted| ==> Get(counts, sorted[e]) < threshold
    decreases |sorted| - j
  {
    if j == |sorted| || Get(counts, sorted[j]) < threshold then j
    else RunEnd(sorted, counts, j + 1, threshold)
  }

  /** The first `n` entries of `xs`, or all of them when it is shorter. */
  function Take<T>(xs: seq<T>, n: nat): seq<T>
  {
    if |xs| <= n then xs else xs[..n]
  }

  lemma TakeCons<T>(x: T, xs: seq<T>, n: nat)
    ensures Take([x] + xs, n + 1) == [x] + Take(xs, n)
  {
    if |xs| > n {
      assert ([x] + xs)[..n + 1] == [x] + xs[..n];
    }
  }

  /** The first competitor, when there is one, sits at the first position
      whose split is incompatible with `s`. */
  lemma {:induction false} FirstRival(sorted: seq<Split>, counts: map<Split, int>, s: Split, j: nat, e: nat)
    requires j <= e <= |sorted|
    ensures var rivals := Incompatibles(sorted, counts, s, j, e);
      && (rivals == [] <==> forall q :: j <= q < e ==> Compatible(s, sorted[q]))
      && (rivals != [] ==> exists p :: j <= p < e && !Compatible(s, sorted[p])
                                       && (forall q :: j <= q < p ==> Compatible(s, sorted[q]))
                                       && rivals[0] == (sorted[p], Get(counts, sorted[p])))
    decreases e - j
  {
    if j < e {
      FirstRival(sorted, counts, s, j + 1, e);
      var rest := Incompatibles(sorted, counts, s, j + 1, e);
      if !Compatible(s, sorted[j]) {
        assert Incompatibles(sorted, counts, s, j, e)[0] == (sorted[j], Get(counts, sorted[j]));
      } else {
        assert Incompatibles(sorted, counts, s, j, e) == rest;
        if rest != [] {
          var p :| j + 1 <= p < e && !Compatible(s, sorted[p])
                   && (forall q :: j + 1 <= q < p ==> Compatible(s, sorted[q]))
                   && rest[0] == (sorted[p], Get(counts, sorted[p]));
          assert forall q :: j <= q < p ==> Compatible(s, sorted[q]);
        }
      }
    }
  }

  /** In weight mode the scan collects exactly the competitors before the
      first split seen fewer than `threshold` times. */
  lemma {:induction false} ScanByWeight(sorted: seq<Split>, counts: map<Split, int>, s: Split, j: nat,
                                        threshold: int, list: seq<(Split, int)>)
    requires j <= |sorted|
    ensures Scan(sorted, counts, s, j, threshold, false, list)
            == list + Incompatibles(sorted, counts, s, j, RunEnd(sorted, counts, j, threshold))
    decreases |sorted| - j
  {
    if j < |sorted| && Get(counts, sorted[j]) >= threshold {
      var x := (sorted[j], Get(counts, sorted[j]));
      var entry := if !Compatible(s, sorted[j]) then [x] else [];
      var e := RunEnd(sorted, counts, j + 1, threshold);
      assert RunEnd(sorted, counts, j, threshold) == e;
      assert Scan(sorted, counts, s, j, threshold, false, list)
          == Scan(sorted, counts, s, j + 1, threshold, false, list + entry) by {
        assert entry == [] ==> list + entry == list;
      }
      ScanByWeight(sorted, counts, s, j + 1, threshold, list + entry);
      var rest := Incompatibles(sorted, counts, s, j + 1, e);
      assert Incompatibles(sorted, counts, s, j, e) == entry + rest;
      assert (list + entry) + rest == list + (entry + rest);
    }
  }

  /** One step of the length-mode scan: position `j` either fills the list
      or passes it on. */
  lemma ScanLengthStep(sorted: seq<Split>, counts: map<Split, int>, s: Split, j: nat,
                       threshold: int, list: seq<(Split, int)>)
    requires j < |sorted| && |list| < threshold
    ensures var x := (sorted[j], Get(counts, sorted[j]));
      var list' := if !Compatible(s, sorted[j]) then list + [x] else list;
      && Incompatibles(sorted, counts, s, j, |sorted|)
         == (if !Compatible(s, sorted[j]) then [x] else []) + Incompatibles(sorted, counts, s, j + 1, |sorted|)
      && Scan(sorted, counts, s, j, threshold, true, list)
         == if |list'| == threshold then list' else Scan(sorted, counts, s, j + 1, threshold, true, list')
  {
  }

  /** In length mode, from a list shorter than `threshold`, the scan
      appends exactly the first competitors until the list holds
      `threshold` entries or the splits run out. */
  lemma {:induction false} ScanByLength(sorted: seq<Split>, counts: map<Split, int>, s: Split, j: nat,
                                        threshold: int, list: seq<(Split, int)>)
    requires j <= |sorted| && |list| < threshold
    ensures Scan(sorted, counts, s, j, threshold, true, list)
            == list + Take(Incompatibles(sorted, counts, s, j, |sorted|), threshold - |list|)
    decreases |sorted| - j
  {
    if j < |sorted| {
      var x := (sorted[j], Get(counts, sorted[j]));
      if Compatible(s, sorted[j]) {
        ScanByLength(sorted, counts, s, j + 1, threshold, list);
        ScanSkips(sorted, counts, s, j, threshold, list);
      } else if |list| + 1 == threshold {
        ScanFills(sorted, counts, s, j, threshold, list);
      } else {
        ScanByLength(sorted, counts, s, j + 1, threshold, list + [x]);
        ScanAppends(sorted, counts, s, j, threshold, list);
      }
    }
  }

  /** A compatible split at position `j` is passed over. */
  lemma ScanSkips(sorted: seq<Split>, counts: map<Split, int>, s: Split, j: nat,
                  threshold: int, list: seq<(Split, int)>)
    requires j < |sorted| && |list| < threshold && Compatible(s, sorted[j])
    requires Scan(sorted, counts, s, j + 1, threshold, true, list)
             == list + Take(Incompatibles(sorted, counts, s, j + 1, |sorted|), threshold - |list|)
    ensures Scan(sorted, counts, s, j, threshold, true, list)
            == list + Take(Incompatibles(sorted, counts, s, j, |sorted|), threshold - |list|)
  {
    ScanLengthStep(sorted, counts, s, j, threshold, list);
    var rest := Incompatibles(sorted, counts, s, j + 1, |sorted|);
    assert [] + rest == rest;
  }

  /** An incompatible split at position `j` that fills the list ends the
      scan. */
  lemma ScanFills(sorted: seq<Split>, counts: map<Split, int>, s: Split, j: nat,
                  threshold: int, list: seq<(Split, int)>)
    requires j < |sorted| && |list| + 1 == threshold && !Compatible(s, sorted[j])
    ensures Scan(sorted, counts, s, j, threshold, true, list)
            == list + Take(Incompatibles(sorted, counts, s, j, |sorted|), threshold - |list|)
  {
    ScanLengthStep(sorted, counts, s, j, threshold, list);
    var x := (sorted[j], Get(counts, sorted[j]));
    var rest := Incompatibles(sorted, counts, s, j + 1, |sorted|);
    TakeCons(x, rest, 0);
    assert Take(rest, 0) == [];
    assert [x] + [] == [x];
  }

  /** An incompatible split at position `j` that leaves room is appended
      and the scan goes on. */
  lemma ScanAppends(sorted: seq<Split>, counts: map<Split, int>, s: Split, j: nat,
                    threshold: int, list: seq<(Split, int)>)
    requires j < |sorted| && |list| + 1 < threshold && !Compatible(s, sorted[j])
    requires var x := (sorted[j], Get(counts, sorted[j]));
      Scan(sorted, counts, s, j + 1, threshold, true, list + [x])
      == (list + [x]) + Take(Incompatibles(sorted, counts, s, j + 1, |sorted|), threshold - |list| - 1)
    ensures Scan(sorted, counts, s, j, threshold, true, list)
            == list + Take(Incompatibles(sorted, counts, s, j, |sorted|), threshold - |list|)
  {
    ScanLengthStep(sorted, counts, s, j, threshold, list);
    var x := (sorted[j], Get(counts, sorted[j]));
    var rest := Incompatibles(sorted, counts, s, j + 1, |sorted|);
    TakeCons(x, rest, threshold - |list| - 1);
    assert (list + [x]) + Take(rest, threshold - |list| - 1) == list + ([x] + Take(rest, threshold - |list| - 1));
  }

  /** Each conflict list holds every competitor the source promises: in
      weight mode all later incompatible splits before the first one seen
      fewer than `threshold` times, and the lists stop at the first
      accepted split below it; in length mode (threshold at least 2) the
      first `threshold - 1` later incompatible splits in sorted order, or
      all of them when there are fewer. */
  ghost predicate CompleteList(sorted: seq<Split>, counts: map<Split, int>, i: int, threshold: int, byLength: bool,
                               list: seq<(Split, int)>)
    requires 0 <= i < |sorted|
  {
    && |list| >= 1
    && (!byLength ==> list[1..] == Incompatibles(sorted, counts, sorted[i], i + 1, RunEnd(sorted, counts, i + 1, threshold)))
    && (byLength && threshold >= 2 ==>
          list[1..] == Take(Incompatibles(sorted, counts, sorted[i], i + 1, |sorted|), threshold - 1))
  }

  /** The conflict list of the split at sorted position `i` is complete. */
  lemma ScanComplete(sorted: seq<Split>, counts: map<Split, int>, i: int, threshold: int, byLength: bool)
    requires 0 <= i < |sorted|
    ensures var s := sorted[i];
      CompleteList(sorted, counts, i, threshold, byLength,
                   Scan(sorted, counts, s, i + 1, threshold, byLength, [(s, Get(counts, s))]))
  {
    var s := sorted[i];
    var head := [(s, Get(counts, s))];
    if byLength && threshold >= 2 {
      ScanByLength(sorted, counts, s, i + 1, threshold, head);
    } else if !byLength {
      ScanByWeight(sorted, counts, s, i + 1, threshold, head);
    } else {
      ScanKeepsList(sorted, counts, s, i + 1, threshold, byLength, head);
    }
  }

  /** The scan only appends to the list it is given. */
  lemma {:induction false} ScanKeepsList(sorted: seq<Split>, counts: map<Split, int>, s: Split, j: nat,
                                         threshold: int, byLength: bool, list: seq<(Split, int)>)
    ensures |Scan(sorted, counts, s, j, threshold, byLength, list)| >= |list|
    decreases |sorted| - j
  {
    if j < |sorted| && (byLength || Get(counts, sorted[j]) >= threshold) {
      var list' := if !Compatible(s, sorted[j]) then list + [(sorted[j], Get(counts, sorted[j]))] else list;
      if !(byLength && |list'| == threshold) {
        ScanKeepsList(sorted, counts, s, j + 1, threshold, byLength, list');
      }
    }
  }

  /** The conflict lists leave nothing out: the outer loop ends early only
      at a greedy split below the weight threshold, and each list is
      complete in the sense of `CompleteList`. */
  lemma {:induction false} ConflictsComplete(sorted: seq<Split>, counts: map<Split, int>, index: seq<int>,
                                             threshold: int, byLength: bool)
    requires forall k :: 0 <= k < |index| ==> 0 <= index[k] < |sorted|
    ensures var r := Conflicts(sorted, counts, index, threshold, byLength);
      && |r| <= |index|
      && (!byLength && |r| < |index| ==> Get(counts, sorted[index[|r|]]) < threshold)
      && forall k :: 0 <= k < |r| ==> CompleteList(sorted, counts, index[k], threshold, byLength, r[k])
  {
    if index != [] {
      var s := sorted[index[0]];
      var head := [(s, Get(counts, s))];
      ConflictsComplete(sorted, counts, index[1..], threshold, byLength);
      if byLength || Get(counts, s) >= threshold {
        var r := Conflicts(sorted, counts, index, threshold, byLength);
        var rest := Conflicts(sorted, counts, index[1..], threshold, byLength);
        assert r == [Scan(sorted, counts, s, index[0] + 1, threshold, byLength, head)] + rest;
        ScanComplete(sorted, counts, index[0], threshold, byLength);
        forall k | 1 <= k < |r| ensures CompleteList(sorted, counts, index[k], threshold, byLength, r[k]) {
          assert r[k] == rest[k - 1] && index[k] == index[1..][k - 1];
        }
      }
    }
  }

  /** The classic internode certainty's lists (length mode, threshold 2):
      each accepted split followed by its strongest competitor, the first
      later split in sorted order that is incompatible with it, when there
      is one. */
  lemma ClassicCompetitor(sorted: seq<Split>, counts: map<Split, int>, index: seq<int>, k: nat)
    requires forall k :: 0 <= k < |index| ==> 0 <= index[k] < |sorted|
    requires k < |index|
    ensures var r := Conflicts(sorted, counts, index, 2, true);
      && |r| == |index| && |r[k]| >= 1
      && r[k][0] == (sorted[index[k]], Get(counts, sorted[index[k]]))
      && Competitor(sorted, counts, index[k], r[k])
  {
    var r := Conflicts(sorted, counts, index, 2, true);
    ConflictsShape(sorted, counts, index, 2, true);
    ConflictsComplete(sorted, counts, index, 2, true);
    assert CompleteList(sorted, counts, index[k], 2, true, r[k]);
    RivalShape(sorted, counts, index[k], r[k]);
  }

  /** A two-entry-at-most list for the split at position `i`: nothing after
      it when every later split is compatible with it, and otherwise the
      first later incompatible split with its count. */
  ghost predicate Competitor(sorted: seq<Split>, counts: map<Split, int>, i: int, list: seq<(Split, int)>)
    requires 0 <= i < |sorted|
  {
    var s := sorted[i];
    && ((forall q :: i < q < |sorted| ==> Compatible(s, sorted[q])) ==> |list| == 1)
    && (!(forall q :: i < q < |sorted| ==> Compatible(s, sorted[q])) ==>
          |list| == 2 &&
          exists p :: i < p < |sorted| && !Compatible(s, sorted[p])
                      && (forall q :: i < q < p ==> Compatible(s, sorted[q]))
                      && list[1] == (sorted[p], Get(counts, sorted[p])))
  }

  lemma RivalShape(sorted: seq<Split>, counts: map<Split, int>, i: int, list: seq<(Split, int)>)
    requires 0 <= i < |sorted| && CompleteList(sorted, counts, i, 2, true, list)
    ensures Competitor(sorted, counts, i, list)
  {
    var rivals := Incompatibles(sorted, counts, sorted[i], i + 1, |sorted|);
    FirstRival(sorted, counts, sorted[i], i + 1, |sorted|);
    assert list[1..] == Take(rivals, 1);
    if rivals != [] {
      assert list[1] == list[1..][0];
    }
  }

  /** As written, the length test of the inner scan comes after the append
      and asks for equality, so a length threshold of 1 lets the list run
      past it: three pairwise incompatible splits over four taxa, with the
      first accepted, give a list of three entries. */
  lemma LengthOneOverruns()
    ensures var a, b, c := Split({0, 1}, 4), Split({1, 2}, 4), Split({0, 2}, 4);
      |Conflicts([a, b, c], map[a := 3, b := 2, c := 1], [0], 1, true)[0]| == 3
  {
    var a, b, c := Split({0, 1}, 4), Split({1, 2}, 4), Split({0, 2}, 4);
    var sorted, counts := [a, b, c], map[a := 3, b := 2, c := 1];
    assert 0 in a.side && 0 !in b.side && 2 in c.side && 2 !in a.side;
    assert 1 in a.side * b.side && 0 in a.side * Complement(b);
    assert 2 in Complement(a) * b.side && 3 in Complement(a) * Complement(b);
    assert 0 in a.side * c.side && 1 in a.side * Complement(c);
    assert 2 in Complement(a) * c.side && 3 in Complement(a) * Complement(c);
    assert Get(counts, a) == 3 && Get(counts, b) == 2 && Get(counts, c) == 1;
    assert !Compatible(a, b) && !Compatible(a, c);
    var l1, l2, l3 := [(a, 3)], [(a, 3), (b, 2)], [(a, 3), (b, 2), (c, 1)];
    assert l1 + [(b, 2)] == l2 && l2 + [(c, 1)] == l3;
    assert Scan(sorted, counts, a, 3, 1, true, l3) == l3;
    assert Scan(sorted, counts, a, 2, 1, true, l2) == l3;
    assert Scan(sorted, counts, a, 1, 1, true, l1) == l3;
    assert Conflicts(sorted, counts, [0], 1, true)[0] == Scan(sorted, counts, a, 1, 1, true, l1);
  }

  /** The inner scan with the length test made before each split is
      considered: in length mode a list that already holds `threshold`
      entries takes no more. */
  function ScanCapped(sorted: seq<Split>, counts: map<Split, int>, s: Split, j: nat,
                      threshold: int, byLength: bool, list: seq<(Split, int)>): seq<(Split, int)>
    decreases |sorted| - j
  {
    if j >= |sorted| then list
    else if byLength && |list| >= threshold then list
    else if !byLength && Get(counts, sorted[j]) < threshold then list
    else
      var list' := if !Compatible(s, sorted[j]) then list + [(sorted[j], Get(counts, sorted[j]))] else list;
      ScanCapped(sorted, counts, s, j + 1, threshold, byLength, list')
  }

  /** The conflict lists built with the corrected inner scan. */
  function ConflictsCapped(sorted: seq<Split>, counts: map<Split, int>, index: seq<int>,
                           threshold: int, byLength: bool): seq<seq<(Split, int)>>
    requires forall k :: 0 <= k < |index| ==> 0 <= index[k] < |sorted|
  {
    if index == [] then []
    else
      var s := sorted[index[0]];
      if !byLength && Get(counts, s) < threshold then []
      else [ScanCapped(sorted, counts, s, index[0] + 1, threshold, byLength, [(s, Get(counts, s))])]
           + ConflictsCapped(sorted, counts, index[1..], threshold, byLength)
  }

  /** Where the list is still short of the length threshold, or in weight
      mode, the corrected scan and the scan as written agree. */
  lemma {:induction false} ScanCappedAgrees(sorted: seq<Split>, counts: map<Split, int>, s: Split, j: nat,
                                            threshold: int, byLength: bool, list: seq<(Split, int)>)
    requires byLength ==> |list| < threshold
    ensures ScanCapped(sorted, counts, s, j, threshold, byLength, list)
            == Scan(sorted, counts, s, j, threshold, byLength, list)
    decreases |sorted| - j
  {
    if j < |sorted| && (byLength || Get(counts, sorted[j]) >= threshold) {
      var list' := if !Compatible(s, sorted[j]) then list + [(sorted[j], Get(counts, sorted[j]))] else list;
      if byLength && |list'| == threshold {
        assert ScanCapped(sorted, counts, s, j + 1, threshold, byLength, list') == list';
      } else {
        ScanCappedAgrees(sorted, counts, s, j + 1, threshold, byLength, list');
      }
    }
  }

  /** In length mode the corrected scan appends exactly the first later
      competitors until the list holds `threshold` entries, for every
      threshold the list has not yet passed. */
  lemma ScanCappedTakes(sorted: seq<Split>, counts: map<Split, int>, s: Split, j: nat,
                        threshold: int, list: seq<(Split, int)>)
    requires j <= |sorted| && |list| <= threshold
    ensures ScanCapped(sorted, counts, s, j, threshold, true, list)
            == list + Take(Incompatibles(sorted, counts, s, j, |sorted|), threshold - |list|)
  {
    if |list| == threshold {
      assert Take(Incompatibles(sorted, counts, s, j, |sorted|), 0) == [];
      assert list + [] == list;
    } else {
      ScanCappedAgrees(sorted, counts, s, j, threshold, true, list);
      ScanByLength(sorted, counts, s, j, threshold, list);
    }
  }

  /** The corrected list for the split at sorted position `i`: the split
      and its count, followed by its first `threshold - 1` later
      competitors, and so never more than `threshold` entries. */
  ghost predicate CappedList(sorted: seq<Split>, counts: map<Split, int>, i: int, threshold: int,
                             list: seq<(Split, int)>)
    requires 0 <= i < |sorted| && threshold >= 1
  {
    && list == [(sorted[i], Get(counts, sorted[i]))]
               + Take(Incompatibles(sorted, counts, sorted[i], i + 1, |sorted|), threshold - 1)
    && |list| <= threshold
  }

  /** The corrected conflict lists keep the promise of the length threshold
      for every threshold from 1: one list per accepted split, each capped
      as `CappedList` says. */
  lemma {:induction false} ConflictsCappedBounded(sorted: seq<Split>, counts: map<Split, int>, index: seq<int>,
                                                  threshold: int)
    requires forall k :: 0 <= k < |index| ==> 0 <= index[k] < |sorted|
    requires threshold >= 1
    ensures var r := ConflictsCapped(sorted, counts, index, threshold, true);
      && |r| == |index|
      && forall k :: 0 <= k < |r| ==> CappedList(sorted, counts, index[k], threshold, r[k])
  {
    if index != [] {
      var s := sorted[index[0]];
      var head := [(s, Get(counts, s))];
      ConflictsCappedBounded(sorted, counts, index[1..], threshold);
      var r := ConflictsCapped(sorted, counts, index, threshold, true);
      var rest := ConflictsCapped(sorted, counts, index[1..], threshold, true);
      assert r == [ScanCapped(sorted, counts, s, index[0] + 1, threshold, true, head)] + rest;
      ScanCappedTakes(sorted, counts, s, index[0] + 1, threshold, head);
      TakeAtMost(Incompatibles(sorted, counts, s, index[0] + 1, |sorted|), threshold - 1);
      assert CappedList(sorted, counts, index[0], threshold, r[0]);
      forall k | 1 <= k < |r| ensures CappedList(sorted, counts, index[k], threshold, r[k]) {
        assert r[k] == rest[k - 1] && index[k] == index[1..][k - 1];
      }
    }
  }

  /** In weight mode, and in length mode from threshold 2 (the only cases
      `HybridStats` uses), the corrected lists are the lists as written. */
  lemma {:induction false} ConflictsCappedAgrees(sorted: seq<Split>, counts: map<Split, int>, index: seq<int>,
                                                 threshold: int, byLength: bool)
    requires forall k :: 0 <= k < |index| ==> 0 <= index[k] < |sorted|
    requires byLength ==> threshold >= 2
    ensures ConflictsCapped(sorted, counts, index, threshold, byLength)
            == Conflicts(sorted, counts, index, threshold, byLength)
  {
    if index != [] {
      var s := sorted[index[0]];
      ConflictsCappedAgrees(sorted, counts, index[1..], threshold, byLength);
      if byLength || Get(counts, s) >= threshold {
        ScanCappedAgrees(sorted, counts, s, index[0] + 1, threshold, byLength, [(s, Get(counts, s))]);
      }
    }
  }

  lemma TakeAtMost<T>(xs: seq<T>, n: nat)
    ensures |Take(xs, n)| <= n && |Take(xs, n)| <= |xs|
  {
  }
}
