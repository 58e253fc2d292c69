/**
 * The fractal scan of `calculate_support_resistance`: bar `i` is a high
 * fractal when every other high within `window / 2` bars of it is strictly
 * lower, and a low fractal when every other low there is strictly higher.
 * Only bars with `window / 2` neighbours on both sides are examined.
 */
module FractalScan {

  /** Which column a fractal is an extremum of. */
  datatype Side = High | Low

  /** On `side`, `other` leaves `current` a strict extremum: strictly lower for highs, strictly higher for lows. */
  predicate StrictlyBeyond(side: Side, current: real, other: real) {
    match side
    case High => other < current
    case Low => other > current
  }

  /** Bar `i` of `col` is a fractal on `side` for a half-window of `half` bars. */
  predicate IsFractal(col: seq<real>, i: int, half: nat, side: Side)
    requires half <= i < |col| - half
  {
    forall j :: i - half <= j <= i + half && j != i ==> StrictlyBeyond(side, col[i], col[j])
  }

  /** One past the last scanned bar: the scan covers `half <= i < ScanEnd(n, half)`. */
  function ScanEnd(n: nat, half: nat): (end: nat)
    ensures end >= half
    ensures end > half ==> end == n - half
  {
    if n - half > half then n - half else half
  }

  /** The fractal bars among the scanned bars below `k`, in ascending order. */
  function FractalsBelow(col: seq<real>, half: nat, side: Side, k: int): seq<int>
    requires half <= k <= ScanEnd(|col|, half)
    decreases k - half
  {
    if k == half then []
    else FractalsBelow(col, half, side, k - 1) + (if IsFractal(col, k - 1, half, side) then [k - 1] else [])
  }

  /** The fractal bars of `col`, in ascending order. */
  function Fractals(col: seq<real>, half: nat, side: Side): seq<int> {
    FractalsBelow(col, half, side, ScanEnd(|col|, half))
  }

  lemma {:induction false} FractalsBelowSpec(col: seq<real>, half: nat, side: Side, k: int)
    requires half <= k <= ScanEnd(|col|, half)
    ensures var r := FractalsBelow(col, half, side, k);
      && (forall i :: i in r <==> half <= i < k && IsFractal(col, i, half, side))
      && (forall p :: 0 <= p < |r| ==> half <= r[p] < k)
      && (forall p, q :: 0 <= p < q < |r| ==> r[p] < r[q])
    decreases k - half
  {
    if k > half {
      FractalsBelowSpec(col, half, side, k - 1);
    }
  }

  /**
   * The fractal bars are exactly the scanned bars that are fractals, listed
   * once each in strictly increasing order; a series of at most
   * `2 * half` bars has none.
   */
  lemma FractalsSpec(col: seq<real>, half: nat, side: Side)
    ensures var r := Fractals(col, half, side);
      && (forall i :: i in r <==> half <= i < |col| - half && IsFractal(col, i, half, side))
      && (forall p :: 0 <= p < |r| ==> half <= r[p] < |col| - half)
      && (forall p, q :: 0 <= p < q < |r| ==> r[p] < r[q])
      && (|col| <= 2 * half ==> r == [])
  {
    FractalsBelowSpec(col, half, side, ScanEnd(|col|, half));
  }

  /** Every price strictly above (or every price strictly below) all earlier ones. */
  ghost predicate StrictlyMonotonic(col: seq<real>) {
    || (forall p, q :: 0 <= p < q < |col| ==> col[p] < col[q])
    || (forall p, q :: 0 <= p < q < |col| ==> col[p] > col[q])
  }

  /** In a strictly monotonic series a neighbour on one side always spoils the extremum. */
  lemma MonotonicBarNotFractal(col: seq<real>, i: int, half: nat, side: Side)
    requires half >= 1 && StrictlyMonotonic(col) && half <= i < |col| - half
    ensures !IsFractal(col, i, half, side)
  {
    if forall p, q :: 0 <= p < q < |col| ==> col[p] < col[q] {
      var j := if side == High then i + 1 else i - 1;
      assert !StrictlyBeyond(side, col[i], col[j]);
    } else {
      var j := if side == High then i - 1 else i + 1;
      assert !StrictlyBeyond(side, col[i], col[j]);
    }
  }

  /** With a half-window of at least one bar, a strictly monotonic series has no fractal of either kind. */
  lemma MonotonicHasNoFractals(col: seq<real>, half: nat, side: Side)
    requires half >= 1 && StrictlyMonotonic(col)
    ensures Fractals(col, half, side) == []
  {
    var r := Fractals(col, half, side);
    FractalsSpec(col, half, side);
    if r != [] {
      var i := r[0];
      assert i in r;
      MonotonicBarNotFractal(col, i, half, side);
      assert false;
    }
  }

  /** With a half-window of zero bars (window 0 or 1) every bar is a fractal of both kinds. */
  lemma {:induction false} ZeroHalfWindowEveryBar(col: seq<real>, side: Side, k: nat)
    requires k <= |col|
    ensures FractalsBelow(col, 0, side, k) == seq(k, i => i)
  {
    if k > 0 {
      ZeroHalfWindowEveryBar(col, side, k - 1);
      assert IsFractal(col, k - 1, 0, side);
    }
  }

  /**
   * The nested scan loop: for each scanned bar, both flags start true and
   * every other bar of the window can clear them; the bar is appended to the
   * index list of each flag still set.
   */
  method ScanFractals(highs: seq<real>, lows: seq<real>, window: nat) returns (highIdx: seq<int>, lowIdx: seq<int>)
    requires |highs| == |lows|
    ensures highIdx == Fractals(highs, window / 2, High)
    ensures lowIdx == Fractals(lows, window / 2, Low)
  {
    var half := window / 2;
    highIdx, lowIdx := [], [];
    var i := half;
    while i < |highs| - half
      invariant half <= i <= ScanEnd(|highs|, half)
      invariant highIdx == FractalsBelow(highs, half, High, i)
      invariant lowIdx == FractalsBelow(lows, half, Low, i)
    {
      var isHighFractal, isLowFractal := true, true;
      var currentHigh, currentLow := highs[i], lows[i];
      for j := i - half to i + half + 1
        invariant isHighFractal == (forall m :: i - half <= m < j && m != i ==> StrictlyBeyond(High, currentHigh, highs[m]))
        invariant isLowFractal == (forall m :: i - half <= m < j && m != i ==> StrictlyBeyond(Low, currentLow, lows[m]))
      {
        if j == i {
          continue;
        }
        if highs[j] >= currentHigh {
          isHighFractal := false;
        }
        if lows[j] <= currentLow {
          isLowFractal := false;
        }
      }
      if isHighFractal {
        highIdx := highIdx + [i];
      }
      if isLowFractal {
        lowIdx := lowIdx + [i];
      }
      i := i + 1;
    }
  }

  /** The prices of `col` at the bars `idx`, in the order of `idx`. */
  function ValuesAt(col: seq<real>, idx: seq<int>): seq<real>
    requires forall p :: 0 <= p < |idx| ==> 0 <= idx[p] < |col|
  {
    seq(|idx|, p requires 0 <= p < |idx| => col[idx[p]])
  }
}
