/**
 * `calculate_support_resistance(df, window, threshold_pct)`: find the high
 * and low fractals of the price series, read their prices, and cluster each
 * list separately. The clustered lows are the support levels and the
 * clustered highs the resistance levels; the pair is returned support first.
 */
module SupportResistance {
  import opened Sorting
  import opened Clustering
  import opened FractalScan

  /** The default arguments of `calculate_support_resistance`. */
  const DefaultWindow: nat := 5
  const DefaultThresholdPct: real := 0.5

  /** The prices of `col` at its fractal bars on `side`, in bar order. */
  function FractalPrices(col: seq<real>, half: nat, side: Side): seq<real> {
    FractalsSpec(col, half, side);
    ValuesAt(col, Fractals(col, half, side))
  }

  /**
   * The whole detector: scan for fractals, read their prices, and cluster
   * the highs into resistance levels and the lows into support levels.
   */
  method CalculateSupportResistance(highs: seq<real>, lows: seq<real>,
                                    window: nat := DefaultWindow, thresholdPct: real := DefaultThresholdPct)
    returns (supportLevels: seq<real>, resistanceLevels: seq<real>)
    requires |highs| == |lows|
    ensures supportLevels == Levels(FractalPrices(lows, window / 2, Low), thresholdPct)
    ensures resistanceLevels == Levels(FractalPrices(highs, window / 2, High), thresholdPct)
  {
    var fractalHighsIdx, fractalLowsIdx := ScanFractals(highs, lows, window);
    FractalsSpec(highs, window / 2, High);
    FractalsSpec(lows, window / 2, Low);
    var fractalHighs := ValuesAt(highs, fractalHighsIdx);
    var fractalLows := ValuesAt(lows, fractalLowsIdx);
    resistanceLevels := ClusterLevels(fractalHighs, thresholdPct);
    supportLevels := ClusterLevels(fractalLows, thresholdPct);
  }

  /** Without a fractal on `side` there is no level on that side. */
  lemma NoFractalsNoLevels(col: seq<real>, half: nat, side: Side, thresholdPct: real)
    requires Fractals(col, half, side) == []
    ensures Levels(FractalPrices(col, half, side), thresholdPct) == []
  {
    assert FractalPrices(col, half, side) == [];
    LevelsShape([], thresholdPct);
  }

  /** A series of at most `2 * (window / 2)` bars yields neither support nor resistance. */
  lemma ShortSeriesHasNoLevels(highs: seq<real>, lows: seq<real>, window: nat, thresholdPct: real)
    requires |highs| == |lows| <= 2 * (window / 2)
    ensures Levels(FractalPrices(lows, window / 2, Low), thresholdPct) == []
    ensures Levels(FractalPrices(highs, window / 2, High), thresholdPct) == []
  {
    FractalsSpec(highs, window / 2, High);
    FractalsSpec(lows, window / 2, Low);
    NoFractalsNoLevels(highs, window / 2, High, thresholdPct);
    NoFractalsNoLevels(lows, window / 2, Low, thresholdPct);
  }

  /** With a window of at least two bars, strictly monotonic highs and lows yield no level at all. */
  lemma MonotonicSeriesHasNoLevels(highs: seq<real>, lows: seq<real>, window: nat, thresholdPct: real)
    requires window >= 2 && StrictlyMonotonic(highs) && StrictlyMonotonic(lows)
    ensures Levels(FractalPrices(lows, window / 2, Low), thresholdPct) == []
    ensures Levels(FractalPrices(highs, window / 2, High), thresholdPct) == []
  {
    MonotonicHasNoFractals(highs, window / 2, High);
    MonotonicHasNoFractals(lows, window / 2, Low);
    NoFractalsNoLevels(highs, window / 2, High, thresholdPct);
    NoFractalsNoLevels(lows, window / 2, Low, thresholdPct);
  }

  /**
   * Each side reports at most one level per fractal, in ascending order, and
   * at least one level as soon as it has a fractal.
   */
  lemma LevelsPerSide(col: seq<real>, half: nat, side: Side, thresholdPct: real)
    ensures var levels := Levels(FractalPrices(col, half, side), thresholdPct);
      && |levels| <= |Fractals(col, half, side)|
      && (Fractals(col, half, side) != [] ==> levels != [])
      && Sorted(levels)
  {
    LevelsShape(FractalPrices(col, half, side), thresholdPct);
  }

  /**
   * With the default window of five bars, a single peak in the middle of
   * five bars is the only fractal: one resistance level at its high, and no
   * support because its low is the highest low around.
   */
  lemma DefaultsExample()
    ensures var highs, lows := [1.0, 2.0, 5.0, 2.0, 1.0], [0.5, 1.0, 4.0, 1.0, 0.5];
      && Levels(FractalPrices(highs, DefaultWindow / 2, High), DefaultThresholdPct) == [5.0]
      && Levels(FractalPrices(lows, DefaultWindow / 2, Low), DefaultThresholdPct) == []
  {
    var highs, lows := [1.0, 2.0, 5.0, 2.0, 1.0], [0.5, 1.0, 4.0, 1.0, 0.5];
    assert IsFractal(highs, 2, 2, High);
    assert !IsFractal(lows, 2, 2, Low) by {
      assert !StrictlyBeyond(Low, lows[2], lows[1]);
    }
    assert ScanEnd(5, 2) == 3;
    assert FractalsBelow(highs, 2, High, 2) == [] && FractalsBelow(lows, 2, Low, 2) == [];
    assert Fractals(highs, 2, High) == [2];
    assert Fractals(lows, 2, Low) == [];
    assert FractalPrices(highs, 2, High) == [5.0];
    assert SortSeq([5.0]) == [5.0];
    assert Runs([5.0], DefaultThresholdPct) == [[5.0]];
    assert Mean([5.0]) == 5.0;
    NoFractalsNoLevels(lows, 2, Low, DefaultThresholdPct);
  }
}
