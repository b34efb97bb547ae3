/** What one thread does on each operation: the per-write drain and the choice of
    a mode at the end of each window of writes. */
module PacerController {
  import opened PacerModes
  import opened LimboBags

  const WINDOW_SIZE := 256
  const AF_BATCH_K := 1
  const AGGRESSIVE_DRAIN_PER_OP := 4
  const CONTINUOUS_DRAIN_PER_OP := 1
  const MAX_BATCH := 64
  const MIN_BATCH := 1
  const TREND_THRESHOLD := 0.05
  const TREND_WEIGHT := 0.5

  datatype Local = Local(
    winWrites: nat,
    winSnaps: nat,
    opCounter: nat,
    spiEma: real,
    holdTicks: nat,
    gcMode: GcMode,
    bag: seq<nat>
  )

  const FRESH := Local(0, 0, 0, 0.0, 0, AggressiveEbr, [])

  function Drained(t: Local, safe: Safe, k: nat): Local {
    t.(bag := t.bag[DrainCount(t.bag, safe, k)..])
  }

  /** The drain of one write, by the mode chosen last. */
  function Ticked(t: Local, safe: Safe): Local {
    match t.gcMode
    case AggressiveEbr => Drained(t.(holdTicks := 0), safe, AGGRESSIVE_DRAIN_PER_OP)
    case AmortisedFree => Drained(t.(holdTicks := 0), safe, AF_BATCH_K)
    case ConservativeHold =>
      if t.holdTicks + 1 >= HOLD_LIMIT then Drained(t.(holdTicks := 0), safe, HOLD_LIMIT)
      else t.(holdTicks := t.holdTicks + 1)
  }

  function ResampledLocal(t: Local): Local {
    t.(spiEma := Resampled(t.spiEma, t.winWrites, t.winSnaps), winWrites := 0, winSnaps := 0)
  }

  /** A window ends: resample, then choose the mode. */
  function Boundary(t: Local): Local {
    var u := ResampledLocal(t);
    u.(gcMode := SelectModeHyst(u.spiEma, u.gcMode))
  }

  /** write_op_prepare, apart from drawing the timestamp. */
  function Prepared(t: Local): Local {
    t.(winWrites := t.winWrites + 1, opCounter := t.opCounter + 1)
  }

  /** post_write, with the timestamp `safe` found by the scan. */
  function Posted(t: Local, birth: nat, safe: Safe): Local {
    var u := Ticked(t.(bag := t.bag + [birth]), safe);
    if u.opCounter % WINDOW_SIZE == 0 then Boundary(u) else u
  }

  /** write_op_prepare, then the new node is retired. */
  function Retired(t: Local, birth: nat): Local {
    Prepared(t).(bag := t.bag + [birth])
  }

  /** One write under the discrete strategy. */
  function Wrote(t: Local, birth: nat, safe: Safe): Local {
    Posted(Prepared(t), birth, safe)
  }

  function Snapped(t: Local): Local {
    t.(winSnaps := t.winSnaps + 1)
  }

  /** Nodes freed at the end of a window by the continuous strategy. */
  function BatchK(spi: real, delta: real): nat {
    var bk := MAX_BATCH as real * (1.0 - spi);
    var trend := if delta > TREND_THRESHOLD then bk * (1.0 - delta * TREND_WEIGHT) else bk;
    if trend.Floor > MIN_BATCH then trend.Floor else MIN_BATCH
  }

  /** The continuous strategy scans a second time at the end of a window; `again` is what it then finds. */
  datatype Strategy = PacerDiscrete | PacerContinuous(delta: real, again: Safe) | TokenAf | BatchEbr

  /** One write of the benchmark loop under each strategy. */
  function WroteWith(how: Strategy, t: Local, birth: nat, safe: Safe): Local {
    match how
    case PacerDiscrete => Wrote(t, birth, safe)
    case PacerContinuous(delta, again) =>
      var u := Drained(Retired(t, birth), safe, CONTINUOUS_DRAIN_PER_OP);
      if u.opCounter % WINDOW_SIZE == 0 then
        var v := ResampledLocal(u);
        Drained(v, again, BatchK(v.spiEma, delta))
      else u
    case TokenAf => Drained(Retired(t, birth), safe, AF_BATCH_K)
    case BatchEbr =>
      var u := Retired(t, birth);
      if u.opCounter % WINDOW_SIZE == 0 then Drained(u, safe, |u.bag|) else u
  }

  // ------------------------------------------------------------------- every run

  /** One operation of the thread; `safe` is what the scan of a write returned. A snapshot
      operation touches only the window counter. */
  datatype Op = Write(birth: nat, safe: Safe) | Snap

  function Does(t: Local, op: Op): Local {
    match op
    case Write(birth, safe) => Wrote(t, birth, safe)
    case Snap => Snapped(t)
  }

  function After(t: Local, ops: seq<Op>): Local {
    if ops == [] then t else Does(After(t, ops[..|ops| - 1]), ops[|ops| - 1])
  }

  /** What holds in every state that a thread can reach: ticks are counted from the start of a
      window, and windows are a multiple of HOLD_LIMIT writes. */
  predicate LocalOk(t: Local) {
    0.0 <= t.spiEma < 1.0 && t.holdTicks == if t.gcMode == ConservativeHold then t.opCounter % HOLD_LIMIT else 0
  }

  lemma EightAndWindow(x: nat)
    ensures x % 256 == 0 ==> x % 8 == 0
    ensures (x + 1) % 8 == if x % 8 + 1 == 8 then 0 else x % 8 + 1
  {
    var q, w := x / 8, x / 256;
    assert x == 8 * q + x % 8;
    if x % 256 == 0 {
      assert x == 8 * (32 * w);
      EightRest(x, 32 * w, 0);
    }
    if x % 8 + 1 == 8 {
      EightRest(x + 1, q + 1, 0);
    } else {
      EightRest(x + 1, q, x % 8 + 1);
    }
  }

  lemma EightRest(x: nat, q: nat, r: nat)
    requires x == 8 * q + r && r < 8
    ensures x % 8 == r
  {
  }

  lemma NextMultiple(x: nat)
    ensures x % WINDOW_SIZE == 0 ==> x % HOLD_LIMIT == 0
    ensures (x + 1) % HOLD_LIMIT == if x % HOLD_LIMIT + 1 == HOLD_LIMIT then 0 else x % HOLD_LIMIT + 1
  {
    EightAndWindow(x);
  }

  lemma DoesOk(t: Local, op: Op)
    requires LocalOk(t)
    ensures LocalOk(Does(t, op))
  {
    if op.Write? {
      ResampledBounds(t.spiEma, t.winWrites + 1, t.winSnaps);
      NextMultiple(t.opCounter);
      NextMultiple(t.opCounter + 1);
    }
  }

  lemma {:induction false} AfterOk(t: Local, ops: seq<Op>)
    requires LocalOk(t)
    ensures LocalOk(After(t, ops))
  {
    if ops != [] {
      AfterOk(t, ops[..|ops| - 1]);
      DoesOk(After(t, ops[..|ops| - 1]), ops[|ops| - 1]);
    }
  }

  // ------------------------------------------------------------- unpinned backlog

  ghost predicate Unpinning(ops: seq<Op>) {
    forall i :: 0 <= i < |ops| && ops[i].Write? ==> ops[i].safe == Unpinned
  }

  /** One write while no snapshot is announced. */
  lemma WroteLength(t: Local, birth: nat)
    requires LocalOk(t)
    ensures var u := Wrote(t, birth, Unpinned);
            && |u.bag| - u.holdTicks <= (if |t.bag| >= t.holdTicks then |t.bag| - t.holdTicks else 0)
            && (|t.bag| == t.holdTicks ==> |u.bag| == u.holdTicks)
            && (t.gcMode == AggressiveEbr ==> |u.bag| == if |t.bag| >= 3 then |t.bag| - 3 else 0)
  {
    var r := Retired(t, birth);
    DrainUnpinned(r.bag, AGGRESSIVE_DRAIN_PER_OP);
    DrainUnpinned(r.bag, AF_BATCH_K);
    DrainUnpinned(r.bag, HOLD_LIMIT);
    NextMultiple(t.opCounter);
    NextMultiple(t.opCounter + 1);
    assert t.opCounter % HOLD_LIMIT < HOLD_LIMIT;
  }

  /** From any reachable state, as long as no scan meets an announced snapshot, the backlog grows
      by less than HOLD_LIMIT, whatever the modes do and whatever snapshots are taken. */
  lemma {:induction false} BacklogBounded(t: Local, ops: seq<Op>)
    requires LocalOk(t) && Unpinning(ops)
    ensures var u := After(t, ops); |u.bag| <= |t.bag| + u.holdTicks && u.holdTicks < HOLD_LIMIT
  {
    AfterOk(t, ops);
    hide Wrote, LocalOk;
    Ticks(After(t, ops));
    if ops != [] {
      var before, op := ops[..|ops| - 1], ops[|ops| - 1];
      AfterOk(t, before);
      BacklogBounded(t, before);
      if op.Write? {
        WroteLength(After(t, before), op.birth);
      }
    }
  }

  lemma Ticks(t: Local)
    requires LocalOk(t)
    ensures t.holdTicks < HOLD_LIMIT && (t.gcMode == AggressiveEbr ==> t.holdTicks == 0)
  {
  }

  /** A thread whose scans never meet a snapshot has exactly this backlog after every operation:
      op_counter % 8 nodes in ConservativeHold, none in the other modes. */
  lemma {:induction false} ExactBacklog(ops: seq<Op>)
    requires Unpinning(ops)
    ensures var u := After(FRESH, ops);
            |u.bag| == u.holdTicks == if u.gcMode == ConservativeHold then u.opCounter % HOLD_LIMIT else 0
  {
    AfterOk(FRESH, ops);
    hide Wrote;
    if ops != [] {
      var before, op := ops[..|ops| - 1], ops[|ops| - 1];
      AfterOk(FRESH, before);
      ExactBacklog(before);
      if op.Write? {
        WroteLength(After(FRESH, before), op.birth);
      }
    }
  }

  // ------------------------------------------------------------- bounded recovery

  function Writes(t: Local, births: seq<nat>): Local {
    if births == [] then t else Wrote(Writes(t, births[..|births| - 1]), births[|births| - 1], Unpinned)
  }

  /** Window boundaries met by m writes after `start` ones. */
  function Boundaries(start: nat, m: nat): int {
    (start + m) / WINDOW_SIZE - start / WINDOW_SIZE
  }

  lemma BoundaryStep(start: nat, m: nat)
    ensures Boundaries(start, m + 1) == Boundaries(start, m) + if (start + m + 1) % WINDOW_SIZE == 0 then 1 else 0
    ensures Boundaries(start, 0) == 0
  {
    WindowStep(start + m);
  }

  lemma WindowStep(x: nat)
    ensures (x + 1) / 256 == x / 256 + if (x + 1) % 256 == 0 then 1 else 0
  {
  }

  /** The first boundary may still count earlier snapshots; every later one shrinks the average. */
  lemma {:induction false} WritesDecay(t: Local, births: seq<nat>)
    requires LocalOk(t)
    ensures var u, b := Writes(t, births), Boundaries(t.opCounter, |births|);
            && LocalOk(u) && u.opCounter == t.opCounter + |births|
            && |u.bag| <= |t.bag| + u.holdTicks
            && (b > 0 ==> u.winSnaps == 0 && u.spiEma <= Decay(b - 1))
            && (b >= 10 ==> u.gcMode == AggressiveEbr)
  {
    hide Wrote, Decay, Boundaries;
    BoundaryStep(t.opCounter, |births|);
    if births != [] {
      var before := births[..|births| - 1];
      WritesDecay(t, before);
      BoundaryStep(t.opCounter, |before|);
      DecayStep(Writes(t, before), births[|births| - 1], Boundaries(t.opCounter, |before|), |t.bag|);
    }
  }

  lemma DecayStep(t: Local, birth: nat, b: int, n: nat)
    requires LocalOk(t) && |t.bag| <= n + t.holdTicks
    requires b > 0 ==> t.winSnaps == 0 && t.spiEma <= Decay(b - 1)
    requires b >= 10 ==> t.gcMode == AggressiveEbr
    ensures var u, c := Wrote(t, birth, Unpinned), if (t.opCounter + 1) % WINDOW_SIZE == 0 then b + 1 else b;
            && LocalOk(u) && u.opCounter == t.opCounter + 1
            && |u.bag| <= n + u.holdTicks
            && (c > 0 ==> u.winSnaps == 0 && u.spiEma <= Decay(c - 1))
            && (c >= 10 ==> u.gcMode == AggressiveEbr)
  {
    DoesOk(t, Write(birth, Unpinned));
    WroteLength(t, birth);
    ResampledBounds(t.spiEma, t.winWrites + 1, t.winSnaps);
    if b >= 9 {
      NinthDecay();
      DecayFalls(9, b);
    }
  }

  lemma TenBoundaries(start: nat, m: nat)
    ensures m >= 10 * WINDOW_SIZE ==> Boundaries(start, m) >= 10
  {
    if m >= 2560 {
      var q, e := start / 256, (start + m) / 256;
      assert start == 256 * q + start % 256 && start + m == 256 * e + (start + m) % 256;
      assert 256 * (e - q) > 2560 - 256;
    }
  }

  /** Bounded recovery: from any reachable state with backlog B, if only writes follow and no
      scan meets a snapshot, the mode is AggressiveEbr after ten window boundaries, the backlog never
      exceeds B + 7, and it is gone after 2560 + ceil(B / 3) writes. */
  lemma {:induction false} Recovery(t: Local, births: seq<nat>)
    requires LocalOk(t)
    ensures var u, n, m := Writes(t, births), |t.bag|, |births|;
            && |u.bag| <= n + 7
            && (Boundaries(t.opCounter, m) >= 10 ==> u.gcMode == AggressiveEbr)
            && (m >= 10 * WINDOW_SIZE ==>
                  && u.gcMode == AggressiveEbr
                  && |u.bag| <= (if n > 3 * (m - 10 * WINDOW_SIZE) then n - 3 * (m - 10 * WINDOW_SIZE) else 0))
            && (m >= 10 * WINDOW_SIZE + (n + 2) / 3 ==> u.bag == [])
  {
    hide Wrote, LocalOk, Boundaries;
    var m := |births|;
    WritesDecay(t, births);
    Ticks(Writes(t, births));
    TenBoundaries(t.opCounter, m);
    if m > 10 * WINDOW_SIZE {
      TenBoundaries(t.opCounter, m - 1);
      var before := births[..m - 1];
      Recovery(t, before);
      WritesDecay(t, before);
      WroteLength(Writes(t, before), births[m - 1]);
    }
  }

  // ------------------------------------------------------------- the benchmark loop

  predicate SameStrategy(x: Strategy, y: Strategy) {
    x == y || (x.PacerContinuous? && y.PacerContinuous?)
  }

  predicate NoSnapshot(how: Strategy) {
    how.PacerContinuous? ==> how.again == Unpinned
  }

  ghost predicate LoopStep(how: Strategy, t: Local, u: Local) {
    || u == Snapped(t)
    || exists how', birth :: SameStrategy(how, how') && NoSnapshot(how') && u == WroteWith(how', t, birth, Unpinned)
  }

  /** One thread of the benchmark, no scan meeting a snapshot. */
  ghost predicate LoopRun(how: Strategy, run: seq<Local>) {
    && |run| > 0 && run[0] == FRESH
    && forall i :: 0 <= i < |run| - 1 ==> LoopStep(how, run[i], run[i + 1])
  }

  function Expected(how: Strategy, t: Local): nat {
    match how
    case PacerDiscrete => if t.gcMode == ConservativeHold then t.opCounter % HOLD_LIMIT else 0
    case PacerContinuous(_, _) => 0
    case TokenAf => 0
    case BatchEbr => t.opCounter % WINDOW_SIZE
  }

  /** The backlog of the strategies side by side, after every iteration of the loop. */
  lemma {:induction false} LoopBacklog(how: Strategy, run: seq<Local>, i: nat)
    requires LoopRun(how, run) && i < |run|
    ensures |run[i].bag| == Expected(how, run[i]) && (how.PacerDiscrete? ==> LocalOk(run[i]))
  {
    if i > 0 {
      LoopBacklog(how, run, i - 1);
      assert LoopStep(how, run[i - 1], run[i]);
      if run[i] != Snapped(run[i - 1]) {
        var how', birth :| SameStrategy(how, how') && NoSnapshot(how') && run[i] == WroteWith(how', run[i - 1], birth, Unpinned);
        LoopWrite(how', run[i - 1], birth);
      }
    }
  }

  lemma LoopWrite(how: Strategy, t: Local, birth: nat)
    requires NoSnapshot(how)
    requires |t.bag| == Expected(how, t) && (how.PacerDiscrete? ==> LocalOk(t))
    ensures var u := WroteWith(how, t, birth, Unpinned);
            |u.bag| == Expected(how, u) && (how.PacerDiscrete? ==> LocalOk(u))
  {
    var r := Retired(t, birth);
    match how
    case PacerDiscrete =>
      DoesOk(t, Write(birth, Unpinned));
      WroteLength(t, birth);
    case PacerContinuous(delta, _) =>
      DrainUnpinned(r.bag, CONTINUOUS_DRAIN_PER_OP);
    case TokenAf =>
      DrainUnpinned(r.bag, AF_BATCH_K);
    case BatchEbr =>
      DrainUnpinned(r.bag, |r.bag|);
      WindowCount(t.opCounter);
  }

  lemma WindowCount(x: nat)
    ensures (x + 1) % WINDOW_SIZE == if x % WINDOW_SIZE + 1 == WINDOW_SIZE then 0 else x % WINDOW_SIZE + 1
  {
  }

  // ------------------------------------------------------------- mode changes in a run

  /** The windows that a fresh thread has completed, after its initial state. */
  function WindowsOf(ops: seq<Op>): seq<Window> {
    if ops == [] then [Window(0, 0, 0.0, AggressiveEbr)]
    else
      var before, op := ops[..|ops| - 1], ops[|ops| - 1];
      var t, u := After(FRESH, before), After(FRESH, ops);
      if op.Write? && u.opCounter % WINDOW_SIZE == 0
      then WindowsOf(before) + [Window(t.winWrites + 1, t.winSnaps, u.spiEma, u.gcMode)]
      else WindowsOf(before)
  }

  lemma WroteWindow(t: Local, birth: nat, safe: Safe)
    ensures var u := Wrote(t, birth, safe);
            && u.opCounter == t.opCounter + 1
            && if u.opCounter % WINDOW_SIZE == 0
               then u.spiEma == Resampled(t.spiEma, t.winWrites + 1, t.winSnaps) && u.gcMode == SelectModeHyst(u.spiEma, t.gcMode)
               else u.spiEma == t.spiEma && u.gcMode == t.gcMode
  {
    hide Resampled, SelectModeHyst;
  }

  /** They follow one another, the last one has the current average and mode, and there is one for
      every 256 writes. */
  lemma {:induction false} WindowsOk(ops: seq<Op>)
    ensures var run, u := WindowsOf(ops), After(FRESH, ops);
            && |run| == u.opCounter / WINDOW_SIZE + 1 && Windows(run)
            && run[|run| - 1].ema == u.spiEma && run[|run| - 1].mode == u.gcMode
  {
    hide Wrote, Resampled, SelectModeHyst, Windows;
    if ops == [] {
      OneWindowOnly();
    } else {
      var before, op := ops[..|ops| - 1], ops[|ops| - 1];
      var t := After(FRESH, before);
      WindowsOk(before);
      if op.Write? {
        WroteWindow(t, op.birth, op.safe);
        WindowStep(t.opCounter);
        AfterOk(FRESH, before);
        if (t.opCounter + 1) % WINDOW_SIZE == 0 {
          MoreWindows(WindowsOf(before), t, After(FRESH, ops));
        }
      }
    }
  }

  lemma OneWindowOnly()
    ensures Windows([Window(0, 0, 0.0, AggressiveEbr)])
  {
  }

  lemma MoreWindows(run: seq<Window>, t: Local, u: Local)
    requires Windows(run) && run != [] && run[|run| - 1].ema == t.spiEma && run[|run| - 1].mode == t.gcMode
    requires u.spiEma == Resampled(t.spiEma, t.winWrites + 1, t.winSnaps) && u.gcMode == SelectModeHyst(u.spiEma, t.gcMode)
    ensures Windows(run + [Window(t.winWrites + 1, t.winSnaps, u.spiEma, u.gcMode)])
  {
    hide Resampled, SelectModeHyst;
    ResampledBounds(t.spiEma, t.winWrites + 1, t.winSnaps);
    var w := Window(t.winWrites + 1, t.winSnaps, u.spiEma, u.gcMode);
    var more := run + [w];
    assert Follows(run[|run| - 1], w);
    forall i | 0 <= i < |more| - 1 ensures Follows(more[i], more[i + 1]) {
      if i < |run| - 1 {
        assert Follows(run[i], run[i + 1]);
      }
    }
  }

  lemma {:induction false} WindowsGrow(ops: seq<Op>, i: nat)
    requires i <= |ops|
    ensures WindowsOf(ops[..i]) <= WindowsOf(ops)
  {
    hide After;
    if i == |ops| {
      assert ops[..i] == ops;
    } else {
      var before := ops[..|ops| - 1];
      assert before[..i] == ops[..i];
      WindowsGrow(before, i);
    }
  }

  /** Operation i changes the mode of a fresh thread from m, or to m. */
  predicate ModeLeaves(ops: seq<Op>, i: nat, m: GcMode) {
    i < |ops| && After(FRESH, ops[..i]).gcMode == m && After(FRESH, ops[..i + 1]).gcMode != m
  }

  predicate ModeEnters(ops: seq<Op>, i: nat, m: GcMode) {
    i < |ops| && After(FRESH, ops[..i]).gcMode != m && After(FRESH, ops[..i + 1]).gcMode == m
  }

  /** A change of mode ends a window, and shows in the windows. */
  lemma ChangeEndsWindow(ops: seq<Op>, i: nat, m: GcMode)
    requires ModeLeaves(ops, i, m) || ModeEnters(ops, i, m)
    ensures var u := After(FRESH, ops[..i + 1]);
            var a := u.opCounter / WINDOW_SIZE;
            && u.opCounter == a * WINDOW_SIZE
            && (ModeLeaves(ops, i, m) ==> Leaves(WindowsOf(ops), a, m))
            && (ModeEnters(ops, i, m) ==> Enters(WindowsOf(ops), a, m))
  {
    hide Wrote, Resampled, SelectModeHyst, Windows;
    var x, y := ops[..i], ops[..i + 1];
    WindowsOk(x);
    WindowsOk(y);
    WindowsGrow(ops, i + 1);
    LastWindow(ops, i);
    hide WindowsOf, After;
    WindowMultiple(After(FRESH, y).opCounter);
  }

  /** An operation that changes the mode adds a window. */
  lemma LastWindow(ops: seq<Op>, i: nat)
    requires i < |ops| && After(FRESH, ops[..i]).gcMode != After(FRESH, ops[..i + 1]).gcMode
    ensures After(FRESH, ops[..i + 1]).opCounter % WINDOW_SIZE == 0
    ensures WindowsOf(ops[..i]) < WindowsOf(ops[..i + 1]) && |WindowsOf(ops[..i + 1])| == |WindowsOf(ops[..i])| + 1
  {
    hide Wrote;
    var x, y := ops[..i], ops[..i + 1];
    assert y[..|y| - 1] == x && y[i] == ops[i];
    if ops[i].Write? {
      WroteWindow(After(FRESH, x), ops[i].birth, ops[i].safe);
    }
  }

  lemma WindowMultiple(x: nat)
    ensures x % 256 == 0 ==> x == x / 256 * 256
  {
  }

  /** Whatever a thread does, and whatever its scans find: the writes from one departure from
      AggressiveEbr to the next, or from one arrival to the next, are at least four windows, and likewise for
      ConservativeHold. */
  lemma NoFlappingInRun(ops: seq<Op>, i: nat, j: nat, m: GcMode)
    requires i < j && m != AmortisedFree
    requires (ModeLeaves(ops, i, m) && ModeLeaves(ops, j, m)) || (ModeEnters(ops, i, m) && ModeEnters(ops, j, m))
    ensures After(FRESH, ops[..j + 1]).opCounter >= After(FRESH, ops[..i + 1]).opCounter + 4 * WINDOW_SIZE
  {
    hide After, Windows, Leaves, Enters;
    ChangeEndsWindow(ops, i, m);
    ChangeEndsWindow(ops, j, m);
    WindowsOk(ops);
    CounterGrows(ops, i + 1, j);
    ChangeWrites(ops, j, m);
    var a := After(FRESH, ops[..i + 1]).opCounter / WINDOW_SIZE;
    var b := After(FRESH, ops[..j + 1]).opCounter / WINDOW_SIZE;
    NoFlapping(WindowsOf(ops), a, b);
  }

  lemma {:induction false} CounterGrows(ops: seq<Op>, i: nat, j: nat)
    requires i <= j <= |ops|
    ensures After(FRESH, ops[..i]).opCounter <= After(FRESH, ops[..j]).opCounter
  {
    if i < j {
      CounterGrows(ops, i, j - 1);
      var y := ops[..j];
      assert y[..|y| - 1] == ops[..j - 1];
      if y[|y| - 1].Write? {
        WroteWindow(After(FRESH, ops[..j - 1]), y[|y| - 1].birth, y[|y| - 1].safe);
      }
      hide Wrote;
    }
  }

  /** Only a write changes the mode. */
  lemma ChangeWrites(ops: seq<Op>, j: nat, m: GcMode)
    requires ModeLeaves(ops, j, m) || ModeEnters(ops, j, m)
    ensures After(FRESH, ops[..j]).opCounter < After(FRESH, ops[..j + 1]).opCounter
  {
    assert ops[..j + 1][..j] == ops[..j];
  }
}
