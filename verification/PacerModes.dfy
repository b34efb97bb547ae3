/** The controller that both reclaimers share: a smoothed fraction of snapshot
    operations (SPI) selects one of three modes, with a dead band around each
    threshold. Arithmetic is exact. */
module PacerModes {
  const WRITE_HEAVY := 0.30
  const SNAP_HEAVY := 0.60
  const EMA_ALPHA := 0.15
  const HYSTERESIS := 0.05
  const HOLD_LIMIT := 8

  datatype GcMode = AggressiveEbr | AmortisedFree | ConservativeHold

  function SelectModeHyst(spi: real, prev: GcMode): GcMode {
    match prev
    case AggressiveEbr =>
      if spi > SNAP_HEAVY + HYSTERESIS then ConservativeHold
      else if spi > WRITE_HEAVY + HYSTERESIS then AmortisedFree
      else AggressiveEbr
    case AmortisedFree =>
      if spi <= WRITE_HEAVY - HYSTERESIS then AggressiveEbr
      else if spi > SNAP_HEAVY + HYSTERESIS then ConservativeHold
      else AmortisedFree
    case ConservativeHold =>
      if spi <= WRITE_HEAVY - HYSTERESIS then AggressiveEbr
      else if spi <= SNAP_HEAVY - HYSTERESIS then AmortisedFree
      else ConservativeHold
  }

  /** The average after a window of that many writes and snapshots; an empty window leaves it. */
  function Resampled(ema: real, writes: nat, snaps: nat): real {
    var total := writes + snaps;
    if total == 0 then ema
    else ema * (1.0 - EMA_ALPHA) + snaps as real / (total + 1) as real * EMA_ALPHA
  }

  /** One window pulls the average down to no less than 85 percent of what it was,
      and up by less than 15 percent of the distance to 1. */
  lemma ResampledBounds(ema: real, writes: nat, snaps: nat)
    requires 0.0 <= ema < 1.0
    ensures var e := Resampled(ema, writes, snaps);
            && 0.85 * ema <= e < 0.85 * ema + 0.15
            && 0.0 <= e < 1.0
            && (snaps == 0 && writes > 0 ==> e == 0.85 * ema)
            && (snaps == writes == 0 ==> e == ema)
            && (snaps + writes > 0 ==> (e - 0.85 * ema) * (writes + snaps + 1) as real == 0.15 * snaps as real)
            && (snaps >= 4 * writes + 4 ==> e >= 0.85 * ema + 0.12)
  {
    var total := writes + snaps;
    if total > 0 {
      ShareBounds(snaps as real, (total + 1) as real);
      var q := snaps as real / (total + 1) as real;
      assert q * (total + 1) as real == snaps as real;
      if snaps >= 4 * writes + 4 {
        FourFifths(snaps as real, (total + 1) as real, q);
      }
    }
  }

  lemma FourFifths(x: real, y: real, q: real)
    requires 0.0 < y && 5.0 * x >= 4.0 * y && q * y == x
    ensures q >= 0.8
  {
    assert q < 0.8 ==> q * y < 0.8 * y;
  }

  lemma ShareBounds(x: real, y: real)
    requires 0.0 <= x < y
    ensures 0.0 <= x / y < 1.0
  {
    var q := x / y;
    assert q * y == x;
    assert q >= 1.0 ==> q * y >= y;
  }

  // ------------------------------------------------------------- the thresholds

  /** The mode by the bare thresholds. */
  function SelectMode(spi: real): GcMode {
    if spi <= WRITE_HEAVY then AggressiveEbr else if spi <= SNAP_HEAVY then AmortisedFree else ConservativeHold
  }

  /** More than 0.05 away from 0.30 and 0.60 the mode is that of the bare thresholds, whatever it was. Closer
      to 0.30 it is AggressiveEbr just when it was, and else AmortisedFree; closer to 0.60 it is
      ConservativeHold just when it was. */
  lemma DeadBands(spi: real, prev: GcMode)
    ensures var m := SelectModeHyst(spi, prev);
            && (spi <= 0.25 || 0.35 < spi <= 0.55 || 0.65 < spi ==> m == SelectMode(spi))
            && (0.25 < spi <= 0.35 ==> m == if prev == AggressiveEbr then AggressiveEbr else AmortisedFree)
            && (0.55 < spi <= 0.65 ==> m == if prev == ConservativeHold then ConservativeHold else AmortisedFree)
    ensures spi <= 0.25 ==> SelectModeHyst(spi, prev) == AggressiveEbr
    ensures 0.35 < spi <= 0.55 ==> SelectModeHyst(spi, prev) == AmortisedFree
    ensures spi > 0.65 ==> SelectModeHyst(spi, prev) == ConservativeHold
  {
  }

  // ------------------------------------------------------------- window by window

  /** The operations of a window, and the average and the mode at its end. */
  datatype Window = Window(writes: nat, snaps: nat, ema: real, mode: GcMode)

  ghost predicate Follows(x: Window, y: Window) {
    && y.ema == Resampled(x.ema, y.writes, y.snaps)
    && y.mode == SelectModeHyst(y.ema, x.mode)
  }

  /** Successive windows of one thread. */
  ghost predicate Windows(run: seq<Window>) {
    && (forall i :: 0 <= i < |run| ==> 0.0 <= run[i].ema < 1.0)
    && (forall i :: 0 <= i < |run| - 1 ==> Follows(run[i], run[i + 1]))
  }

  /** The average never leaves [0, 1). */
  lemma {:induction false} EmaInRange(run: seq<Window>, i: nat)
    requires |run| > 0 && 0.0 <= run[0].ema < 1.0 && i < |run|
    requires forall k :: 0 <= k < |run| - 1 ==> Follows(run[k], run[k + 1])
    ensures 0.0 <= run[i].ema < 1.0
  {
    if i > 0 {
      EmaInRange(run, i - 1);
      assert Follows(run[i - 1], run[i]);
      ResampledBounds(run[i - 1].ema, run[i].writes, run[i].snaps);
    }
  }

  /** The mode becomes `m` at window i. */
  ghost predicate Enters(run: seq<Window>, i: int, m: GcMode) {
    0 < i < |run| && run[i - 1].mode != m && run[i].mode == m
  }

  /** The mode stops being `m` at window i. */
  ghost predicate Leaves(run: seq<Window>, i: int, m: GcMode) {
    0 < i < |run| && run[i - 1].mode == m && run[i].mode != m
  }

  lemma OneWindow(run: seq<Window>, i: nat)
    requires Windows(run) && i + 1 < |run|
    ensures 0.85 * run[i].ema <= run[i + 1].ema < 0.85 * run[i].ema + 0.15
    ensures run[i + 1].mode == SelectModeHyst(run[i + 1].ema, run[i].mode)
  {
    assert Follows(run[i], run[i + 1]);
    ResampledBounds(run[i].ema, run[i + 1].writes, run[i + 1].snaps);
  }

  /** Once AggressiveEbr is left it takes three windows to come back. */
  lemma AggressiveStaysAway(run: seq<Window>, i: int, j: int)
    requires Windows(run) && Leaves(run, i, AggressiveEbr) && Enters(run, j, AggressiveEbr) && i < j
    ensures j >= i + 3
  {
    OneWindow(run, i - 1);
    assert run[i].ema > 0.35;
    if j < i + 3 {
      OneWindow(run, i);
      if j == i + 2 {
        OneWindow(run, i + 1);
      }
    }
  }

  /** ConservativeHold lasts at least two windows. */
  lemma HoldLasts(run: seq<Window>, i: int, j: int)
    requires Windows(run) && Enters(run, i, ConservativeHold) && Leaves(run, j, ConservativeHold) && i < j
    ensures j >= i + 2
  {
    OneWindow(run, i - 1);
    OneWindow(run, i);
  }

  /** Once ConservativeHold is left it takes two windows to come back. */
  lemma HoldStaysAway(run: seq<Window>, i: int, j: int)
    requires Windows(run) && Leaves(run, i, ConservativeHold) && Enters(run, j, ConservativeHold) && i < j
    ensures j >= i + 2
  {
    OneWindow(run, i - 1);
    OneWindow(run, i);
  }

  /** Between two departures from a mode it is entered again. */
  lemma EnteredBetween(run: seq<Window>, i: int, j: int, m: GcMode) returns (k: int)
    requires Leaves(run, i, m) && Leaves(run, j, m) && i < j
    ensures i < k < j && Enters(run, k, m)
  {
    k := j - 1;
    while run[k - 1].mode == m
      invariant i < k < j && run[k].mode == m
      decreases k
    {
      k := k - 1;
    }
  }

  lemma LeftBetween(run: seq<Window>, i: int, j: int, m: GcMode) returns (k: int)
    requires Enters(run, i, m) && Enters(run, j, m) && i < j
    ensures i < k < j && Leaves(run, k, m)
  {
    k := j - 1;
    while run[k - 1].mode != m
      invariant i < k < j && run[k].mode != m
      decreases k
    {
      k := k - 1;
    }
  }

  /** Whatever the workload does, a full oscillation takes four windows: between two departures from
      AggressiveEbr, or two arrivals at it, and likewise for ConservativeHold. */
  lemma NoFlapping(run: seq<Window>, i: int, j: int)
    requires Windows(run) && i < j
    ensures Leaves(run, i, AggressiveEbr) && Leaves(run, j, AggressiveEbr) ==> j >= i + 4
    ensures Enters(run, i, AggressiveEbr) && Enters(run, j, AggressiveEbr) ==> j >= i + 4
    ensures Enters(run, i, ConservativeHold) && Enters(run, j, ConservativeHold) ==> j >= i + 4
    ensures Leaves(run, i, ConservativeHold) && Leaves(run, j, ConservativeHold) ==> j >= i + 4
  {
    if Leaves(run, i, AggressiveEbr) && Leaves(run, j, AggressiveEbr) {
      var k := EnteredBetween(run, i, j, AggressiveEbr);
      AggressiveStaysAway(run, i, k);
    }
    if Enters(run, i, AggressiveEbr) && Enters(run, j, AggressiveEbr) {
      var k := LeftBetween(run, i, j, AggressiveEbr);
      AggressiveStaysAway(run, k, j);
    }
    if Enters(run, i, ConservativeHold) && Enters(run, j, ConservativeHold) {
      var k := LeftBetween(run, i, j, ConservativeHold);
      HoldLasts(run, i, k);
      HoldStaysAway(run, k, j);
    }
    if Leaves(run, i, ConservativeHold) && Leaves(run, j, ConservativeHold) {
      var k := EnteredBetween(run, i, j, ConservativeHold);
      HoldStaysAway(run, i, k);
      HoldLasts(run, k, j);
    }
  }

  function Decay(n: nat): real {
    if n == 0 then 1.0 else 0.85 * Decay(n - 1)
  }

  lemma NinthDecay()
    ensures Decay(9) <= WRITE_HEAVY - HYSTERESIS && Decay(11) < 0.1875
  {
    assert Decay(1) == 0.85;
    assert Decay(2) == 0.7225;
    assert Decay(3) == 0.614125;
    assert Decay(4) == 0.52200625;
    assert Decay(6) == 0.85 * 0.85 * 0.52200625;
    assert Decay(8) == 0.85 * 0.85 * Decay(6);
    assert Decay(10) == 0.85 * Decay(9);
  }

  lemma {:induction false} DecayFalls(m: nat, n: nat)
    requires m <= n
    ensures 0.0 < Decay(n) <= Decay(m)
  {
    if n > m {
      DecayFalls(m, n - 1);
    } else if n > 0 {
      DecayFalls(m - 1, n - 1);
    }
  }

  /** Many snapshots to few writes, in every window from i + 1 to j. */
  ghost predicate SnapHeavy(run: seq<Window>, i: int, j: int) {
    forall w :: 0 <= i < w <= j && w < |run| ==> run[w].snaps >= 4 * run[w].writes + 4
  }

  /** Writes alone, in every window from i + 1 to j. */
  ghost predicate WriteOnly(run: seq<Window>, i: int, j: int) {
    forall w :: 0 <= i < w <= j && w < |run| ==> run[w].snaps == 0 && run[w].writes > 0
  }

  lemma NoneYet(w: seq<Window>, i: int)
    ensures SnapHeavy(w, i, i) && WriteOnly(w, i, i)
  {
  }

  lemma OneMore(w: seq<Window>, i: int, x: Window)
    ensures SnapHeavy(w, i, |w| - 1) && x.snaps >= 4 * x.writes + 4 ==> SnapHeavy(w + [x], i, |w|)
    ensures WriteOnly(w, i, |w| - 1) && x.snaps == 0 && x.writes > 0 ==> WriteOnly(w + [x], i, |w|)
  {
  }

  lemma {:induction false} SnapsRaise(run: seq<Window>, i: nat, j: nat)
    requires Windows(run) && i <= j < |run| && SnapHeavy(run, i, j)
    ensures run[j].ema >= 0.8 - 0.8 * Decay(j - i)
    decreases j
  {
    hide Resampled, SelectModeHyst;
    if i < j {
      SnapsRaise(run, i, j - 1);
      assert Follows(run[j - 1], run[j]);
      ResampledBounds(run[j - 1].ema, run[j].writes, run[j].snaps);
    }
  }

  lemma {:induction false} WritesLower(run: seq<Window>, i: nat, j: nat)
    requires Windows(run) && i <= j < |run| && WriteOnly(run, i, j)
    ensures run[j].ema <= Decay(j - i)
    decreases j
  {
    hide Resampled, SelectModeHyst;
    if i < j {
      WritesLower(run, i, j - 1);
      assert Follows(run[j - 1], run[j]);
      ResampledBounds(run[j - 1].ema, run[j].writes, run[j].snaps);
    }
  }

  /** Eleven windows with at least four times as many snapshots as writes, and four more, lead to
      ConservativeHold from any mode and average. */
  lemma SnapsHold(run: seq<Window>, i: nat, j: nat)
    requires Windows(run) && i + 11 <= j < |run| && SnapHeavy(run, i, j)
    ensures run[j].mode == ConservativeHold
  {
    SnapsRaise(run, i, j);
    NinthDecay();
    DecayFalls(11, j - i);
    assert Follows(run[j - 1], run[j]);
  }

  /** Nine windows of writes alone lead to AggressiveEbr. */
  lemma WritesRelease(run: seq<Window>, i: nat, j: nat)
    requires Windows(run) && i + 9 <= j < |run| && WriteOnly(run, i, j)
    ensures run[j].mode == AggressiveEbr
  {
    WritesLower(run, i, j);
    NinthDecay();
    DecayFalls(9, j - i);
    assert Follows(run[j - 1], run[j]);
  }

  /** Selecting again with the same average changes nothing. */
  lemma SelectTwice(spi: real, prev: GcMode)
    ensures SelectModeHyst(spi, SelectModeHyst(spi, prev)) == SelectModeHyst(spi, prev)
  {
  }

  lemma Sampled(x: Window, y: Window)
    requires y.ema == Resampled(x.ema, y.writes, y.snaps) && y.mode == SelectModeHyst(y.ema, x.mode)
    ensures Follows(x, y)
  {
  }

  lemma SampledRun(run: seq<Window>)
    requires |run| == 6 && forall i :: 0 <= i < 6 ==> 0.0 <= run[i].ema < 1.0
    requires Follows(run[0], run[1]) && Follows(run[1], run[2]) && Follows(run[2], run[3])
    requires Follows(run[3], run[4]) && Follows(run[4], run[5])
    ensures Windows(run)
  {
    hide Follows;
  }

  /** Four windows are enough at the lower threshold. */
  lemma FourIsEnough()
    ensures exists run :: Windows(run) && Leaves(run, 1, AggressiveEbr) && Leaves(run, 5, AggressiveEbr)
    ensures exists run :: Windows(run) && Enters(run, 1, AggressiveEbr) && Enters(run, 5, AggressiveEbr)
  {
    hide Follows;
    var a, b := Window(0, 0, 0.24, AggressiveEbr), Window(0, 99, 0.3525, AmortisedFree);
    var c, d := Window(1, 0, 0.299625, AmortisedFree), Window(1, 0, 0.25468125, AmortisedFree);
    var e, f := Window(3, 1, 0.2464790625, AggressiveEbr), Window(0, 99, 0.358007203125, AmortisedFree);
    Sampled(a, b);
    Sampled(b, c);
    Sampled(c, d);
    Sampled(d, e);
    Sampled(e, f);
    SampledRun([a, b, c, d, e, f]);
    assert Leaves([a, b, c, d, e, f], 1, AggressiveEbr) && Leaves([a, b, c, d, e, f], 5, AggressiveEbr);
    LowerArrivals();
  }

  lemma LowerArrivals()
    ensures exists run :: Windows(run) && Enters(run, 1, AggressiveEbr) && Enters(run, 5, AggressiveEbr)
  {
    hide Follows;
    var a, b := Window(0, 0, 0.29, AmortisedFree), Window(1, 0, 0.2465, AggressiveEbr);
    var c, d := Window(0, 99, 0.358025, AmortisedFree), Window(1, 0, 0.30432125, AmortisedFree);
    var e, f := Window(1, 0, 0.2586730625, AmortisedFree), Window(1, 0, 0.219872103125, AggressiveEbr);
    Sampled(a, b);
    Sampled(b, c);
    Sampled(c, d);
    Sampled(d, e);
    Sampled(e, f);
    SampledRun([a, b, c, d, e, f]);
    assert Enters([a, b, c, d, e, f], 1, AggressiveEbr) && Enters([a, b, c, d, e, f], 5, AggressiveEbr);
  }

  /** Four windows are enough at the upper threshold. */
  lemma FourIsEnoughAbove()
    ensures exists run :: Windows(run) && Enters(run, 1, ConservativeHold) && Enters(run, 5, ConservativeHold)
    ensures exists run :: Windows(run) && Leaves(run, 1, ConservativeHold) && Leaves(run, 5, ConservativeHold)
  {
    hide Follows;
    var a, b := Window(0, 0, 0.6, AmortisedFree), Window(0, 99, 0.6585, ConservativeHold);
    var c, d := Window(1, 0, 0.559725, ConservativeHold), Window(12, 12, 0.54776625, AmortisedFree);
    var e, f := Window(0, 99, 0.6141013125, AmortisedFree), Window(0, 99, 0.670486115625, ConservativeHold);
    Sampled(a, b);
    Sampled(b, c);
    Sampled(c, d);
    Sampled(d, e);
    Sampled(e, f);
    SampledRun([a, b, c, d, e, f]);
    assert Enters([a, b, c, d, e, f], 1, ConservativeHold) && Enters([a, b, c, d, e, f], 5, ConservativeHold);
    UpperDepartures();
  }

  lemma UpperDepartures()
    ensures exists run :: Windows(run) && Leaves(run, 1, ConservativeHold) && Leaves(run, 5, ConservativeHold)
  {
    hide Follows;
    var a, b := Window(0, 0, 0.6, ConservativeHold), Window(2, 1, 0.5475, AmortisedFree);
    var c, d := Window(0, 99, 0.613875, AmortisedFree), Window(0, 99, 0.67029375, ConservativeHold);
    var e, f := Window(1, 0, 0.5697496875, ConservativeHold), Window(1, 0, 0.484287234375, AmortisedFree);
    Sampled(a, b);
    Sampled(b, c);
    Sampled(c, d);
    Sampled(d, e);
    Sampled(e, f);
    SampledRun([a, b, c, d, e, f]);
    assert Leaves([a, b, c, d, e, f], 1, ConservativeHold) && Leaves([a, b, c, d, e, f], 5, ConservativeHold);
  }
}
