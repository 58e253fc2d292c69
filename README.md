# Fractal support/resistance detector — a Dafny model

This project models `calculate_support_resistance` from `app.py` of the
binary-option trading tool. Given the High and Low columns of a price series,
a `window` and a `threshold_pct`, the detector does two things.

1. **Fractal scan.** It looks at every bar that has `window // 2` bars on each
   side. A bar is a *high fractal* when every other high in its window is
   strictly lower. It is a *low fractal* when every other low in its window is
   strictly higher. A tie disqualifies the bar.
2. **Clustering.** The prices at the fractal bars are sorted and swept once
   while a running cluster is kept. A price joins the cluster when its
   deviation from the cluster's mean is strictly below `threshold_pct` percent
   of that mean. When the mean is exactly zero, the deviation must instead be
   strictly below `threshold_pct / 100`. Any other price closes the cluster,
   whose mean is emitted as a level, and starts a new one. The last cluster is
   always emitted. An empty price list gives no level.

The clustered lows are the support levels and the clustered highs the
resistance levels. The pair is returned support first.

Prices are `real`, and all arithmetic is exact.

Files, one module each:

- `fractals.dfy` (`FractalScan`): the scan as a method with a nested loop. It
  is proved equal to `Fractals`, the spec built from the predicate
  `IsFractal`.
- `clustering.dfy` (`Clustering`): the sweep as a method over the sorted
  array. It is proved equal to `Cluster`, which keeps the clusters themselves
  (`Runs`). It also holds the characterisation of those clusters as the
  unique greedy partition, and the properties of the levels.
- `sorting.dfy` (`Sorting`): the in-place sort of the copied prices. It is
  proved equal to `SortSeq`, the one sorted permutation of its input.
- `support_resistance.dfy` (`SupportResistance`): the whole detector, with
  lemmas about the pair it returns.

## Model

| member | source | states |
|---|---|---|
| `FractalScan.IsFractal` | app.py:16-27 | Bar `i` is a fractal on a side iff every other bar within `half` bars of it is strictly beyond it on that side. A high fractal needs every other high strictly lower, and a low fractal every other low strictly higher. This is the negation of the `>=` and `<=` tests that clear the flags. |
| `FractalScan.FractalsBelow` | app.py:15-32 | The scanned bars below `k` that are fractals, in ascending order, as the index list stands after the loop has examined those bars. |
| `FractalScan.Fractals` | app.py:11-32 | The complete index list of fractal bars on one side over the scanned range `half .. len - half - 1`. |
| `FractalScan.ValuesAt` | app.py:35-36 | The prices of a column at a list of bar indices, in the order of the list (`.iloc[idx].values`). |
| `FractalScan.ScanFractals` | app.py:11-32 | The nested loop returns exactly the high-fractal bars of `highs` and the low-fractal bars of `lows` for half-window `window / 2`. |
| `FractalScan.FractalsSpec` | app.py:15-32 | A bar is listed iff it lies in `window//2 .. len - window//2 - 1` and is a strict extremum of its whole window on that side, so any tie disqualifies it. The list is strictly increasing and stays in that range. A series of at most `2 * (window // 2)` bars has no fractal. |
| `FractalScan.MonotonicHasNoFractals` | app.py:21-27 | With `window >= 2`, a strictly increasing or strictly decreasing series has no fractal of either kind. |
| `FractalScan.MonotonicBarNotFractal` | app.py:24-27 | In a strictly monotonic series with `window >= 2`, no scanned bar is a fractal, because one neighbour always clears the flag. |
| `FractalScan.ZeroHalfWindowEveryBar` | app.py:15-23 | With `window` 0 or 1, the inner loop compares nothing, so every bar is a fractal of both kinds. |
| `Sorting.SortSeq` | app.py:48 | The reference sort returns a sorted permutation of its input. |
| `Sorting.SortedUnique` | app.py:48 | Two sorted sequences with the same multiset of elements are equal, so the sort has only one possible result. |
| `Sorting.SortSeqDependsOnMultiset` | app.py:48 | Inputs with the same multiset of prices sort to the same sequence. |
| `Sorting.SortInPlace` | app.py:48 | Sorting the array in place leaves exactly `SortSeq` of its old contents. |
| `Clustering.Mean` | app.py:54 | The exact arithmetic mean of a non-empty cluster, `Sum / length`, standing for `np.mean` at app.py:54 and 70. |
| `Clustering.Joins` | app.py:56-63 | The join test. At mean 0 the absolute deviation must be below `threshold_pct / 100`. Otherwise `abs(v - mean) / mean * 100` must be below `threshold_pct`. For a positive mean this is `abs(v - mean) * 100 < threshold_pct * mean`. For a negative mean and a positive threshold every value joins. |
| `Clustering.MeanBounds` | app.py:54 | The mean of a non-empty cluster lies between any lower and any upper bound of its members. |
| `Clustering.SweepOf` | app.py:50-67 | After each step of the sweep, the running cluster is non-empty, every closed cluster is non-empty, and there are fewer closed clusters than values seen. |
| `Clustering.Runs` | app.py:50-70 | The clusters, with the flushed last one included, are non-empty. There are none iff the input is empty, and never more than the input has values. |
| `Clustering.RunsPartition` | app.py:50-70 | Concatenated in order, the clusters give back the input exactly, so they split it into contiguous runs. |
| `Clustering.SweepJoins` | app.py:56-64 | A value that passes the join test is appended to the running cluster, and nothing else changes. |
| `Clustering.SweepRefuses` | app.py:59-67 | A value that fails the join test closes the running cluster and starts a new cluster holding only that value. |
| `Clustering.RunsAreGreedy` | app.py:53-70 | The clusters form a greedy partition. Each member after the first passed the join test against the mean of the members before it, with the relative test or, at mean 0, the absolute one. The first member of each later cluster failed the test against the mean of the previous cluster. |
| `Clustering.GreedyRunsUnique` | app.py:53-70 | Any greedy partition of the input equals the sweep's clusters, so that property characterises them completely. |
| `Clustering.SortedRuns` | app.py:48-70 | On sorted input each cluster is sorted and ends no higher than the next cluster begins. |
| `Clustering.LevelsWithinRuns` | app.py:60-70 | On sorted input each emitted level lies between the smallest and the largest member of its cluster. |
| `Clustering.LevelsAscending` | app.py:48-70 | On sorted input the emitted levels are in ascending order. |
| `Clustering.SeparatedAt` | app.py:56-67 | On sorted input, neighbouring levels `k-1` and `k` are separated. The next level is at least `threshold_pct` percent above a positive level, and at least `threshold_pct/100` above a zero level. |
| `Clustering.AdjacentLevelsSeparated` | app.py:56-67 | On sorted input, every two neighbouring levels are separated in that sense. |
| `Clustering.RefusalGap` | app.py:63-66 | A value refused by a cluster with mean `m` separates `m` from every level at or above that value. |
| `Clustering.RunningMeanDrift` | app.py:53-64 | Because the mean moves while values join, a member can end up at least `threshold_pct` percent away from its own cluster's level. With a threshold of 10, the prices 100, 109, 113, 116 and 118 form one level, 111.2, and 100 is more than 10% below it. |
| `Clustering.Cluster` | app.py:50-70 | The sweep's output on already-sorted prices: the mean of each cluster in order, with the last cluster flushed. |
| `Clustering.SweepSorted` | app.py:50-70 | The sweep loop over the sorted, non-empty array returns exactly `Cluster` of the array's contents. |
| `Clustering.ClusterLevels` | app.py:39-72 | `cluster_levels` returns `[]` for no prices. Otherwise it copies the prices, sorts them and sweeps them, and the result is `Levels`, the clusters' means over the sorted prices. |
| `Clustering.Levels` | app.py:39-72 | What `cluster_levels` returns for a list of prices: `Cluster` of the prices in ascending order. |
| `Clustering.LevelsSeparated` | app.py:48-67 | Every two neighbouring levels that `cluster_levels` returns are separated by the threshold, in the sense of `SeparatedAt`. |
| `Clustering.LevelsIgnoreOrder` | app.py:41-48 | The levels depend only on the multiset of prices, not on their order. |
| `Clustering.LevelsShape` | app.py:44-53 | No price gives no level. `n` prices give between 1 and `n` levels, and they are in ascending order. |
| `Clustering.LevelsWithinPrices` | app.py:50-70 | Every level lies between some input price and some input price, that is, within the range of the prices. |
| `SupportResistance.FractalPrices` | app.py:35-36 | The prices of a column at its fractal bars on one side, in bar order. |
| `SupportResistance.CalculateSupportResistance` | app.py:2-77 | With the defaults `window = 5` and `threshold_pct = 0.5`, support is the clustered prices of the low fractals and resistance the clustered prices of the high fractals, returned in that order. |
| `SupportResistance.NoFractalsNoLevels` | app.py:35-45 | A side without a fractal reports no level. |
| `SupportResistance.ShortSeriesHasNoLevels` | app.py:15 | A series of at most `2 * (window // 2)` bars yields neither support nor resistance. |
| `SupportResistance.MonotonicSeriesHasNoLevels` | app.py:15-45 | With `window >= 2`, strictly monotonic highs and lows yield no level. |
| `SupportResistance.LevelsPerSide` | app.py:35-75 | Each side reports at most one level per fractal, in ascending order, and at least one level once it has a fractal. |
| `SupportResistance.DefaultsExample` | app.py:2 | With the default `window=5` and `threshold_pct=0.5`, a single central peak in five bars gives one resistance level at its high and no support. |

### Behaviour worth noting

- A strictly monotonic series has no fractal only when `window >= 2`. With
  `window` 0 or 1 the half-window `window // 2` is 0, the inner loop compares
  a bar with nothing, and every bar is a fractal of both kinds. See
  `MonotonicHasNoFractals` and `ZeroHalfWindowEveryBar`.
- A deviation exactly equal to the threshold closes the cluster, because a
  value joins only when its deviation is strictly below the threshold
  (app.py:57 and 63).
- Each value is compared with the running mean at the time it arrives, not
  with the final mean. Members can therefore end up further than the
  threshold from their cluster's final level (`RunningMeanDrift`). What
  holds is the per-step test (`RunsAreGreedy`) and the separation between
  neighbouring levels (`AdjacentLevelsSeparated`, `LevelsSeparated`).
- For a negative cluster mean the relative deviation
  `abs(v - mean) / mean * 100` is never positive. So every value joins when
  `threshold_pct` is positive (`Joins`).

## Left out

- The pandas and NumPy plumbing. The columns `df['High']` and `df['Low']` are
  `seq<real>`. `.iloc[...]` and `.values` are `ValuesAt`, and `np.mean` is
  `Mean`. `np.array(levels)` is a freshly allocated `array<real>`.
- IEEE floating-point rounding in the mean and in the percentage division.
  The model uses exact `real` arithmetic.
- NumPy's sorting algorithm. An insertion sort stands in for it. Every sort
  produces the same unique sorted permutation (`SortedUnique`), so the
  detector's result does not depend on this choice.
- A negative `window`. The parameter is a `nat`. With `window < 0` the half
  window is negative, so the outer range at app.py:15 runs up to
  `i = len(highs)`. At that bar `highs.iloc[i]` (app.py:18) raises
  `IndexError`, so the call always fails. The model does not represent that
  failure.
- Non-finite prices (NaN and infinities). Prices are `real`, which has
  neither. For a NaN bar every comparison at app.py:24 and 26 is false, so
  the source lists that bar as a fractal of both kinds, and the bar then
  yields a NaN level. The model does not capture this.
- High and Low columns of different lengths. They come from the same data
  frame, so the model requires equal lengths.
- The position simulator, the signal predicates, the learned-signal adapter,
  the performance aggregator, market-data download, indicator computation, the
  UI and charting. These are not part of this model, and their code is not in
  `app.py:2-77`.
