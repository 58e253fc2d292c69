/**
 * `cluster_levels`: the fractal prices are sorted and swept once, keeping a
 * running cluster. A price joins the cluster when it is close enough to the
 * cluster's mean; otherwise the cluster's mean is emitted as a level and a new
 * cluster starts with that price. The last cluster is always emitted.
 *
 * The sweep is specified by `SweepOf`, which also records the runs (the
 * clusters) that `cluster_levels` only keeps long enough to average;
 * `Cluster` is the list of their means.
 */
module Clustering {
  import opened Sorting

  function Abs(x: real): real {
    if x < 0.0 then -x else x
  }

  function Sum(s: seq<real>): real {
    if s == [] then 0.0 else Sum(s[..|s| - 1]) + s[|s| - 1]
  }

  /** The arithmetic mean, `np.mean` of a non-empty cluster. */
  function Mean(s: seq<real>): real
    requires s != []
  {
    Sum(s) / (|s| as real)
  }

  lemma {:induction false} SumBounds(s: seq<real>, lo: real, hi: real)
    requires forall k :: 0 <= k < |s| ==> lo <= s[k] <= hi
    ensures (|s| as real) * lo <= Sum(s) <= (|s| as real) * hi
  {
    if s != [] {
      SumBounds(s[..|s| - 1], lo, hi);
    }
  }

  /** The mean of a cluster lies between any lower and any upper bound of its members. */
  lemma MeanBounds(s: seq<real>, lo: real, hi: real)
    requires s != []
    requires forall k :: 0 <= k < |s| ==> lo <= s[k] <= hi
    ensures lo <= Mean(s) <= hi
  {
    SumBounds(s, lo, hi);
    var n := |s| as real;
    assert Mean(s) * n == Sum(s);
  }

  /**
   * The test a price `v` passes to join a cluster whose mean is `mean`: its
   * deviation is strictly below `thresholdPct` percent of the mean, or, when
   * the mean is exactly zero, strictly below `thresholdPct / 100` in absolute
   * terms.
   */
  predicate Joins(v: real, mean: real, thresholdPct: real)
    ensures mean > 0.0 ==>
      (Joins(v, mean, thresholdPct) <==> Abs(v - mean) * 100.0 < thresholdPct * mean)
    ensures mean < 0.0 && thresholdPct > 0.0 ==> Joins(v, mean, thresholdPct)
  {
    if mean == 0.0 then Abs(v - mean) < thresholdPct / 100.0
    else Abs(v - mean) / mean * 100.0 < thresholdPct
  }

  /** State of the sweep: the clusters already closed, and the running one. */
  datatype Sweep = Sweep(closed: seq<seq<real>>, current: seq<real>)

  ghost predicate NonEmptyRuns(runs: seq<seq<real>>) {
    forall k :: 0 <= k < |runs| ==> runs[k] != []
  }

  /** The sweep after it has visited every element of the non-empty `xs`. */
  function SweepOf(xs: seq<real>, thresholdPct: real): (st: Sweep)
    requires xs != []
    ensures st.current != [] && NonEmptyRuns(st.closed)
    ensures |st.closed| < |xs|
  {
    if |xs| == 1 then Sweep([], [xs[0]])
    else
      var prev := SweepOf(xs[..|xs| - 1], thresholdPct);
      var v := xs[|xs| - 1];
      if Joins(v, Mean(prev.current), thresholdPct) then Sweep(prev.closed, prev.current + [v])
      else Sweep(prev.closed + [prev.current], [v])
  }

  /** The clusters of `xs`, in order, the last (flushed) one included. */
  function Runs(xs: seq<real>, thresholdPct: real): (runs: seq<seq<real>>)
    ensures NonEmptyRuns(runs)
    ensures (runs == []) == (xs == [])
    ensures |runs| <= |xs|
  {
    if xs == [] then []
    else
      var st := SweepOf(xs, thresholdPct);
      st.closed + [st.current]
  }

  function Means(runs: seq<seq<real>>): (levels: seq<real>)
    requires NonEmptyRuns(runs)
  {
    seq(|runs|, k requires 0 <= k < |runs| => Mean(runs[k]))
  }

  /** The levels the sweep emits for `xs`: the mean of each cluster. */
  function Cluster(xs: seq<real>, thresholdPct: real): seq<real> {
    Means(Runs(xs, thresholdPct))
  }

  /** The runs joined back together, in order. */
  function Flatten(runs: seq<seq<real>>): seq<real> {
    if runs == [] then [] else Flatten(runs[..|runs| - 1]) + runs[|runs| - 1]
  }

  lemma FlattenSnoc(runs: seq<seq<real>>, r: seq<real>)
    ensures Flatten(runs + [r]) == Flatten(runs) + r
  {
    assert (runs + [r])[..|runs|] == runs;
  }

  lemma {:induction false} FlattenLength(runs: seq<seq<real>>)
    requires NonEmptyRuns(runs)
    ensures |Flatten(runs)| >= |runs|
  {
    if runs != [] {
      FlattenLength(runs[..|runs| - 1]);
    }
  }

  lemma {:induction false} SweepCovers(xs: seq<real>, thresholdPct: real)
    requires xs != []
    ensures Flatten(SweepOf(xs, thresholdPct).closed) + SweepOf(xs, thresholdPct).current == xs
  {
    if |xs| > 1 {
      var xs' := xs[..|xs| - 1];
      var prev := SweepOf(xs', thresholdPct);
      SweepCovers(xs', thresholdPct);
      FlattenSnoc(prev.closed, prev.current);
      assert xs == xs' + [xs[|xs| - 1]];
    }
  }

  /** The clusters split `xs` into contiguous, non-empty runs that cover it in order. */
  lemma RunsPartition(xs: seq<real>, thresholdPct: real)
    ensures NonEmptyRuns(Runs(xs, thresholdPct))
    ensures Flatten(Runs(xs, thresholdPct)) == xs
  {
    if xs != [] {
      var st := SweepOf(xs, thresholdPct);
      SweepCovers(xs, thresholdPct);
      FlattenSnoc(st.closed, st.current);
    }
  }

  /** The `j`-th member of `run` passed `Joins` against the mean of the members before it. */
  ghost predicate JoinedAt(run: seq<real>, j: int, thresholdPct: real)
    requires 0 < j < |run|
  {
    Joins(run[j], Mean(run[..j]), thresholdPct)
  }

  /** The first member of run `k` failed `Joins` against the mean of the whole previous run. */
  ghost predicate RefusedAt(runs: seq<seq<real>>, k: int, thresholdPct: real)
    requires 0 < k < |runs| && runs[k] != [] && runs[k - 1] != []
  {
    !Joins(runs[k][0], Mean(runs[k - 1]), thresholdPct)
  }

  /** Every member after the first of every run joined its run. */
  ghost predicate JoinedWithin(runs: seq<seq<real>>, thresholdPct: real) {
    forall k, j :: 0 <= k < |runs| && 0 < j < |runs[k]| ==> JoinedAt(runs[k], j, thresholdPct)
  }

  /** Every run but the first starts with a value that the previous run refused. */
  ghost predicate RefusedAtBoundaries(runs: seq<seq<real>>, thresholdPct: real)
    requires NonEmptyRuns(runs)
  {
    forall k :: 0 < k < |runs| ==> RefusedAt(runs, k, thresholdPct)
  }

  /** A partition of `xs` into the runs that a greedy running-mean sweep produces. */
  ghost predicate IsGreedyRuns(xs: seq<real>, runs: seq<seq<real>>, thresholdPct: real) {
    && NonEmptyRuns(runs)
    && Flatten(runs) == xs
    && JoinedWithin(runs, thresholdPct)
    && RefusedAtBoundaries(runs, thresholdPct)
  }

  /** A joining value extends the last run of a greedy partition. */
  lemma GreedyGrow(xs: seq<real>, runs: seq<seq<real>>, v: real, thresholdPct: real)
    requires IsGreedyRuns(xs, runs, thresholdPct) && runs != []
    requires Joins(v, Mean(runs[|runs| - 1]), thresholdPct)
    ensures IsGreedyRuns(xs + [v], runs[..|runs| - 1] + [runs[|runs| - 1] + [v]], thresholdPct)
  {
    var init, c := runs[..|runs| - 1], runs[|runs| - 1];
    var grown := init + [c + [v]];
    assert runs == init + [c];
    FlattenSnoc(init, c);
    FlattenSnoc(init, c + [v]);
    forall k, j | 0 <= k < |grown| && 0 < j < |grown[k]|
      ensures JoinedAt(grown[k], j, thresholdPct)
    {
      if k < |init| {
        assert grown[k] == runs[k];
        assert JoinedAt(runs[k], j, thresholdPct);
      } else if j < |c| {
        assert grown[k][..j] == c[..j];
        assert grown[k][j] == runs[k][j];
        assert JoinedAt(runs[k], j, thresholdPct);
      } else {
        assert grown[k][..j] == c;
      }
    }
    forall k | 0 < k < |grown|
      ensures RefusedAt(grown, k, thresholdPct)
    {
      assert grown[k - 1] == runs[k - 1];
      assert grown[k][0] == runs[k][0];
      assert RefusedAt(runs, k, thresholdPct);
    }
  }

  /** A refused value starts a new run after a greedy partition. */
  lemma GreedyStart(xs: seq<real>, runs: seq<seq<real>>, v: real, thresholdPct: real)
    requires IsGreedyRuns(xs, runs, thresholdPct) && runs != []
    requires !Joins(v, Mean(runs[|runs| - 1]), thresholdPct)
    ensures IsGreedyRuns(xs + [v], runs + [[v]], thresholdPct)
  {
    var started := runs + [[v]];
    FlattenSnoc(runs, [v]);
    forall k, j | 0 <= k < |started| && 0 < j < |started[k]|
      ensures JoinedAt(started[k], j, thresholdPct)
    {
      assert started[k] == runs[k];
      assert JoinedAt(runs[k], j, thresholdPct);
    }
    forall k | 0 < k < |started|
      ensures RefusedAt(started, k, thresholdPct)
    {
      if k < |runs| {
        assert started[k] == runs[k] && started[k - 1] == runs[k - 1];
        assert RefusedAt(runs, k, thresholdPct);
      } else {
        assert started[k - 1] == runs[|runs| - 1];
      }
    }
  }

  /** The clusters of the sweep are a greedy partition of the input. */
  lemma {:induction false} RunsAreGreedy(xs: seq<real>, thresholdPct: real)
    ensures IsGreedyRuns(xs, Runs(xs, thresholdPct), thresholdPct)
  {
    if |xs| <= 1 {
      RunsPartition(xs, thresholdPct);
      return;
    }
    var xs' := xs[..|xs| - 1];
    var v := xs[|xs| - 1];
    var prev := SweepOf(xs', thresholdPct);
    var p := Runs(xs', thresholdPct);
    RunsAreGreedy(xs', thresholdPct);
    assert p == prev.closed + [prev.current];
    assert p[..|p| - 1] == prev.closed && p[|p| - 1] == prev.current;
    assert xs == xs' + [v];
    if Joins(v, Mean(prev.current), thresholdPct) {
      assert Runs(xs, thresholdPct) == prev.closed + [prev.current + [v]];
      GreedyGrow(xs', p, v, thresholdPct);
    } else {
      assert Runs(xs, thresholdPct) == p + [[v]];
      GreedyStart(xs', p, v, thresholdPct);
    }
  }

  /** Dropping the last value of a greedy partition with a longer last run leaves a greedy partition. */
  lemma GreedyShrink(xs: seq<real>, runs: seq<seq<real>>, thresholdPct: real)
    requires IsGreedyRuns(xs, runs, thresholdPct) && runs != [] && |runs[|runs| - 1]| >= 2
    ensures var r := runs[|runs| - 1];
      && IsGreedyRuns(xs[..|xs| - 1], runs[..|runs| - 1] + [r[..|r| - 1]], thresholdPct)
      && Joins(xs[|xs| - 1], Mean(r[..|r| - 1]), thresholdPct)
  {
    var init, r := runs[..|runs| - 1], runs[|runs| - 1];
    var r' := r[..|r| - 1];
    var shrunk := init + [r'];
    assert runs == init + [r];
    FlattenSnoc(init, r);
    FlattenSnoc(init, r');
    assert r == r' + [r[|r| - 1]];
    assert xs[..|xs| - 1] == Flatten(init) + r';
    assert NonEmptyRuns(shrunk);
    forall k, j | 0 <= k < |shrunk| && 0 < j < |shrunk[k]|
      ensures JoinedAt(shrunk[k], j, thresholdPct)
    {
      if k < |init| {
        assert shrunk[k] == runs[k];
      } else {
        assert shrunk[k][..j] == r[..j];
        assert shrunk[k][j] == runs[k][j];
      }
      assert JoinedAt(runs[k], j, thresholdPct);
    }
    forall k | 0 < k < |shrunk|
      ensures RefusedAt(shrunk, k, thresholdPct)
    {
      assert shrunk[k - 1] == runs[k - 1];
      assert shrunk[k][0] == runs[k][0];
      assert RefusedAt(runs, k, thresholdPct);
    }
    assert JoinedAt(r, |r| - 1, thresholdPct);
    assert r[..|r| - 1] == r';
  }

  /** Dropping a last run of one value from a greedy partition leaves a greedy partition. */
  lemma GreedyDrop(xs: seq<real>, runs: seq<seq<real>>, thresholdPct: real)
    requires IsGreedyRuns(xs, runs, thresholdPct) && |runs| >= 2 && |runs[|runs| - 1]| == 1
    ensures var init := runs[..|runs| - 1];
      && IsGreedyRuns(xs[..|xs| - 1], init, thresholdPct)
      && !Joins(xs[|xs| - 1], Mean(init[|init| - 1]), thresholdPct)
  {
    var init, r := runs[..|runs| - 1], runs[|runs| - 1];
    assert runs == init + [r];
    FlattenSnoc(init, r);
    assert xs[..|xs| - 1] == Flatten(init);
    forall k, j | 0 <= k < |init| && 0 < j < |init[k]|
      ensures JoinedAt(init[k], j, thresholdPct)
    {
      assert init[k] == runs[k];
      assert JoinedAt(runs[k], j, thresholdPct);
    }
    forall k | 0 < k < |init|
      ensures RefusedAt(init, k, thresholdPct)
    {
      assert init[k] == runs[k] && init[k - 1] == runs[k - 1];
      assert RefusedAt(runs, k, thresholdPct);
    }
    assert runs[|runs| - 1][0] == xs[|xs| - 1];
    assert RefusedAt(runs, |runs| - 1, thresholdPct);
  }

  /** One sweep step on a value that joins: it extends the running cluster. */
  lemma SweepJoins(xs: seq<real>, closed: seq<seq<real>>, current: seq<real>, thresholdPct: real)
    requires |xs| >= 2 && current != []
    requires Runs(xs[..|xs| - 1], thresholdPct) == closed + [current]
    requires Joins(xs[|xs| - 1], Mean(current), thresholdPct)
    ensures Runs(xs, thresholdPct) == closed + [current + [xs[|xs| - 1]]]
  {
    var prev := SweepOf(xs[..|xs| - 1], thresholdPct);
    assert prev.closed + [prev.current] == closed + [current];
    assert prev.closed == (closed + [current])[..|closed|] == closed;
    assert prev.current == (closed + [current])[|closed|] == current;
  }

  /** One sweep step on a value that does not join: it closes the running cluster and starts a new one. */
  lemma SweepRefuses(xs: seq<real>, closed: seq<seq<real>>, current: seq<real>, thresholdPct: real)
    requires |xs| >= 2 && current != []
    requires Runs(xs[..|xs| - 1], thresholdPct) == closed + [current]
    requires !Joins(xs[|xs| - 1], Mean(current), thresholdPct)
    ensures Runs(xs, thresholdPct) == closed + [current] + [[xs[|xs| - 1]]]
  {
    var prev := SweepOf(xs[..|xs| - 1], thresholdPct);
    assert prev.closed + [prev.current] == closed + [current];
    assert prev.closed == (closed + [current])[..|closed|] == closed;
    assert prev.current == (closed + [current])[|closed|] == current;
  }

  /** The shape of a greedy partition of a non-empty input at its last value. */
  lemma GreedyLast(xs: seq<real>, runs: seq<seq<real>>, thresholdPct: real)
    requires IsGreedyRuns(xs, runs, thresholdPct) && xs != []
    ensures runs != []
    ensures Flatten(runs[..|runs| - 1]) + runs[|runs| - 1] == xs
    ensures xs[|xs| - 1] == runs[|runs| - 1][|runs[|runs| - 1]| - 1]
    ensures |xs| == 1 ==> runs == [xs]
    ensures |xs| >= 2 && |runs[|runs| - 1]| == 1 ==> |runs| >= 2
  {
    var init, r := runs[..|runs| - 1], runs[|runs| - 1];
    assert runs == init + [r];
    FlattenSnoc(init, r);
    FlattenLength(init);
    if |xs| == 1 {
      assert init == [] && Flatten(init) == [];
      assert r == xs;
    }
  }

  /** The greedy partition is unique, so it characterises the sweep's clusters completely. */
  lemma {:induction false} GreedyRunsUnique(xs: seq<real>, runs: seq<seq<real>>, thresholdPct: real)
    requires IsGreedyRuns(xs, runs, thresholdPct)
    ensures runs == Runs(xs, thresholdPct)
    decreases |xs|
  {
    if xs == [] {
      FlattenLength(runs);
      return;
    }
    GreedyLast(xs, runs, thresholdPct);
    if |xs| == 1 {
      assert SweepOf(xs, thresholdPct) == Sweep([], xs);
      return;
    }
    var init, r := runs[..|runs| - 1], runs[|runs| - 1];
    assert runs == init + [r];
    var xs' := xs[..|xs| - 1];
    var v := xs[|xs| - 1];
    if |r| >= 2 {
      var r' := r[..|r| - 1];
      assert r == r' + [v];
      GreedyShrink(xs, runs, thresholdPct);
      GreedyRunsUnique(xs', init + [r'], thresholdPct);
      SweepJoins(xs, init, r', thresholdPct);
    } else {
      var closed, current := init[..|init| - 1], init[|init| - 1];
      assert init == closed + [current];
      GreedyDrop(xs, runs, thresholdPct);
      GreedyRunsUnique(xs', init, thresholdPct);
      SweepRefuses(xs, closed, current, thresholdPct);
      assert r == [v];
      assert runs == init + [r];
    }
  }

  /** Every member of every run is a member of the flattened input. */
  lemma {:induction false} FlattenMember(runs: seq<seq<real>>, k: int, j: int)
    requires 0 <= k < |runs| && 0 <= j < |runs[k]|
    ensures runs[k][j] in Flatten(runs)
  {
    var init := runs[..|runs| - 1];
    assert runs == init + [runs[|runs| - 1]];
    FlattenSnoc(init, runs[|runs| - 1]);
    if k < |init| {
      assert runs[k] == init[k];
      FlattenMember(init, k, j);
    }
  }

  /** The runs of a sorted sequence are sorted, and each one ends no higher than the next begins. */
  lemma {:induction false} SortedRuns(runs: seq<seq<real>>)
    requires NonEmptyRuns(runs) && Sorted(Flatten(runs))
    ensures forall k :: 0 <= k < |runs| ==> Sorted(runs[k])
    ensures forall k :: 0 < k < |runs| ==> runs[k - 1][|runs[k - 1]| - 1] <= runs[k][0]
  {
    if runs != [] {
      var init, last := runs[..|runs| - 1], runs[|runs| - 1];
      assert runs == init + [last];
      FlattenSnoc(init, last);
      SortedConcat(Flatten(init), last);
      SortedRuns(init);
      if init != [] {
        var prev := init[|init| - 1];
        FlattenMember(init, |init| - 1, |prev| - 1);
        var p :| 0 <= p < |Flatten(init)| && Flatten(init)[p] == prev[|prev| - 1];
      }
    }
  }

  /** On sorted input each level lies between the smallest and the largest member of its run. */
  lemma LevelsWithinRuns(xs: seq<real>, thresholdPct: real)
    requires Sorted(xs)
    ensures var runs, levels := Runs(xs, thresholdPct), Cluster(xs, thresholdPct);
      forall k :: 0 <= k < |runs| ==> runs[k][0] <= levels[k] <= runs[k][|runs[k]| - 1]
  {
    var runs := Runs(xs, thresholdPct);
    RunsPartition(xs, thresholdPct);
    SortedRuns(runs);
    forall k | 0 <= k < |runs|
      ensures runs[k][0] <= Mean(runs[k]) <= runs[k][|runs[k]| - 1]
    {
      MeanBounds(runs[k], runs[k][0], runs[k][|runs[k]| - 1]);
    }
  }

  /** On sorted input the emitted levels are in ascending order. */
  lemma LevelsAscending(xs: seq<real>, thresholdPct: real)
    requires Sorted(xs)
    ensures Sorted(Cluster(xs, thresholdPct))
  {
    var runs, levels := Runs(xs, thresholdPct), Cluster(xs, thresholdPct);
    RunsPartition(xs, thresholdPct);
    SortedRuns(runs);
    LevelsWithinRuns(xs, thresholdPct);
    AdjacentSorted(levels);
  }

  /**
   * Level `next` is at least the threshold above level `m`: by `thresholdPct`
   * percent of `m` when `m` is positive, by `thresholdPct / 100` when `m` is zero.
   */
  predicate Separated(m: real, next: real, thresholdPct: real) {
    && (m == 0.0 ==> next - m >= thresholdPct / 100.0)
    && (m > 0.0 ==> (next - m) / m * 100.0 >= thresholdPct)
  }

  /** A value refused by a cluster with mean `m` separates `m` from any level at or above it. */
  lemma RefusalGap(m: real, v: real, next: real, thresholdPct: real)
    requires !Joins(v, m, thresholdPct) && m <= v <= next
    ensures Separated(m, next, thresholdPct)
  {
    if m > 0.0 {
      assert Abs(v - m) == v - m;
      assert (v - m) / m <= (next - m) / m;
    }
  }

  lemma SeparatedAt(xs: seq<real>, thresholdPct: real, k: int)
    requires Sorted(xs) && 0 < k < |Cluster(xs, thresholdPct)|
    ensures var levels := Cluster(xs, thresholdPct);
      Separated(levels[k - 1], levels[k], thresholdPct)
  {
    var runs, levels := Runs(xs, thresholdPct), Cluster(xs, thresholdPct);
    RunsPartition(xs, thresholdPct);
    SortedRuns(runs);
    LevelsWithinRuns(xs, thresholdPct);
    RunsAreGreedy(xs, thresholdPct);
    var prev := runs[k - 1];
    assert RefusedAt(runs, k, thresholdPct);
    assert levels[k - 1] == Mean(prev) && levels[k] == Mean(runs[k]);
    assert levels[k - 1] <= prev[|prev| - 1] <= runs[k][0] <= levels[k];
    RefusalGap(levels[k - 1], runs[k][0], levels[k], thresholdPct);
  }

  /** On sorted input every two neighbouring levels are separated by the threshold. */
  lemma AdjacentLevelsSeparated(xs: seq<real>, thresholdPct: real)
    requires Sorted(xs)
    ensures var levels := Cluster(xs, thresholdPct);
      forall k :: 0 < k < |levels| ==> Separated(levels[k - 1], levels[k], thresholdPct)
  {
    forall k | 0 < k < |Cluster(xs, thresholdPct)|
      ensures Separated(Cluster(xs, thresholdPct)[k - 1], Cluster(xs, thresholdPct)[k], thresholdPct)
    {
      SeparatedAt(xs, thresholdPct, k);
    }
  }

  /**
   * The mean moves as values join, so a member can end up further than the
   * threshold from its cluster's level: with a 10% threshold the first of
   * these five prices is more than 10% below the single level they form.
   */
  lemma RunningMeanDrift()
    ensures var xs := [100.0, 109.0, 113.0, 116.0, 118.0];
      && Cluster(xs, 10.0) == [111.2]
      && Abs(xs[0] - 111.2) / 111.2 * 100.0 >= 10.0
  {
    var xs := [100.0, 109.0, 113.0, 116.0, 118.0];
    assert xs[..1] == [100.0];
    assert xs[..2][..1] == xs[..1];
    assert xs[..3][..2] == xs[..2];
    assert xs[..4][..3] == xs[..3];
    assert xs[..4] == xs[..|xs| - 1];
    assert SweepOf(xs[..1], 10.0) == Sweep([], [100.0]);
    assert Mean([100.0]) == 100.0;
    assert SweepOf(xs[..2], 10.0) == Sweep([], [100.0, 109.0]);
    assert Mean([100.0, 109.0]) == 104.5;
    assert SweepOf(xs[..3], 10.0) == Sweep([], [100.0, 109.0, 113.0]);
    assert Sum([100.0, 109.0, 113.0]) == 322.0;
    assert SweepOf(xs[..4], 10.0) == Sweep([], [100.0, 109.0, 113.0, 116.0]);
    assert Sum([100.0, 109.0, 113.0, 116.0]) == 438.0;
    assert SweepOf(xs, 10.0) == Sweep([], xs);
    assert Sum(xs) == 556.0;
  }

  /** `cluster_levels` as a whole: sort the prices, then sweep them. */
  function Levels(values: seq<real>, thresholdPct: real): seq<real> {
    Cluster(SortSeq(values), thresholdPct)
  }

  /** The levels depend only on the multiset of prices, not on their order. */
  lemma LevelsIgnoreOrder(a: seq<real>, b: seq<real>, thresholdPct: real)
    requires multiset(a) == multiset(b)
    ensures Levels(a, thresholdPct) == Levels(b, thresholdPct)
  {
    SortSeqDependsOnMultiset(a, b);
  }

  /** No price gives no level; n prices give between 1 and n levels, in ascending order. */
  lemma LevelsShape(values: seq<real>, thresholdPct: real)
    ensures var levels := Levels(values, thresholdPct);
      && (values == [] <==> levels == [])
      && |levels| <= |values|
      && Sorted(levels)
  {
    var xs := SortSeq(values);
    assert |xs| == |multiset(xs)| == |values|;
    LevelsAscending(xs, thresholdPct);
  }

  /** Every level lies between the smallest and the largest price it was computed from. */
  lemma LevelsWithinPrices(values: seq<real>, thresholdPct: real)
    ensures var levels := Levels(values, thresholdPct);
      forall k :: 0 <= k < |levels| ==>
        && (exists i :: 0 <= i < |values| && values[i] <= levels[k])
        && (exists i :: 0 <= i < |values| && levels[k] <= values[i])
  {
    var xs := SortSeq(values);
    var runs, levels := Runs(xs, thresholdPct), Levels(values, thresholdPct);
    LevelsWithinRuns(xs, thresholdPct);
    RunsPartition(xs, thresholdPct);
    forall k | 0 <= k < |levels|
      ensures exists i :: 0 <= i < |values| && values[i] <= levels[k]
      ensures exists i :: 0 <= i < |values| && levels[k] <= values[i]
    {
      var r := runs[k];
      FlattenMember(runs, k, 0);
      FlattenMember(runs, k, |r| - 1);
      assert r[0] in multiset(xs) && r[|r| - 1] in multiset(xs);
      var lo :| 0 <= lo < |values| && values[lo] == r[0];
      var hi :| 0 <= hi < |values| && values[hi] == r[|r| - 1];
    }
  }

  /** Neighbouring levels of `cluster_levels` are separated by the threshold. */
  lemma LevelsSeparated(values: seq<real>, thresholdPct: real)
    ensures var levels := Levels(values, thresholdPct);
      forall k :: 0 < k < |levels| ==> Separated(levels[k - 1], levels[k], thresholdPct)
  {
    AdjacentLevelsSeparated(SortSeq(values), thresholdPct);
  }

  /** The closed clusters' means after the sweep has taken one more value. */
  lemma MeansSnoc(runs: seq<seq<real>>, r: seq<real>)
    requires NonEmptyRuns(runs) && r != []
    ensures Means(runs + [r]) == Means(runs) + [Mean(r)]
  {
  }

  /**
   * The sweep of `cluster_levels` over the sorted, non-empty array `a`: the
   * running cluster's mean is recomputed before every comparison, a refused
   * value closes the cluster, and the last cluster is flushed at the end.
   */
  method SweepSorted(a: array<real>, thresholdPct: real) returns (clustered: seq<real>)
    requires a.Length > 0
    ensures clustered == Cluster(a[..], thresholdPct)
  {
    clustered := [];
    var current := [a[0]];
    assert a[..1] == [a[0]];
    for i := 1 to a.Length
      invariant SweepOf(a[..i], thresholdPct).current == current
      invariant clustered == Means(SweepOf(a[..i], thresholdPct).closed)
    {
      ghost var closed := SweepOf(a[..i], thresholdPct).closed;
      assert a[..i + 1][..i] == a[..i];
      var clusterMean := Mean(current);
      if clusterMean == 0.0 {
        if Abs(a[i] - clusterMean) < thresholdPct / 100.0 {
          current := current + [a[i]];
        } else {
          MeansSnoc(closed, current);
          clustered := clustered + [clusterMean];
          current := [a[i]];
        }
      } else {
        if Abs(a[i] - clusterMean) / clusterMean * 100.0 < thresholdPct {
          current := current + [a[i]];
        } else {
          MeansSnoc(closed, current);
          clustered := clustered + [clusterMean];
          current := [a[i]];
        }
      }
    }
    assert a[..a.Length] == a[..];
    ghost var closed := SweepOf(a[..], thresholdPct).closed;
    if current != [] {
      MeansSnoc(closed, current);
      clustered := clustered + [Mean(current)];
    }
    assert Runs(a[..], thresholdPct) == closed + [current];
  }

  /**
   * `cluster_levels(levels)`: an empty input gives no level; otherwise the
   * prices are copied into an array, sorted in place and swept.
   */
  method ClusterLevels(levels: seq<real>, thresholdPct: real) returns (clustered: seq<real>)
    ensures clustered == Levels(levels, thresholdPct)
  {
    if |levels| == 0 {
      assert Runs(SortSeq(levels), thresholdPct) == [];
      return [];
    }
    var a := new real[|levels|](k requires 0 <= k < |levels| => levels[k]);
    assert a[..] == levels;
    SortInPlace(a);
    clustered := SweepSorted(a, thresholdPct);
  }
}
