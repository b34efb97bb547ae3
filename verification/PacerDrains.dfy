/** What each write frees, by every strategy, whatever its scans of the announcements
    found: how many nodes at most, which ones, and when it stops short. */
module PacerDrains {
  import opened PacerModes
  import opened LimboBags
  import opened PacerController

  /** `rest` is left of q when up to k nodes have been freed from the front, all born before the smallest
      announcement; fewer than k only if there are no more, or the next one is not older than it. */
  predicate DrainedOf(q: seq<nat>, rest: seq<nat>, safe: Safe, k: nat) {
    |rest| <= |q| &&
    var f := |q| - |rest|;
    && rest == q[f..] && f <= k
    && (safe.Pinned? ==> forall i :: 0 <= i < f ==> q[i] < safe.ts)
    && (f < k && rest != [] ==> safe.Pinned? && safe.ts <= rest[0])
  }

  lemma DrainDoes(t: Local, safe: Safe, k: nat)
    ensures DrainedOf(t.bag, Drained(t, safe, k).bag, safe, k)
  {
    var c := DrainCount(t.bag, safe, k);
    forall i | 0 <= i < c ensures Eligible(t.bag[i], safe) && (safe.Pinned? ==> t.bag[i] < safe.ts) {
      DrainSafe(t.bag, safe, k, i);
    }
    DrainStops(t.bag, safe, k);
  }

  /** In birth order this says exactly how many: all that are older than the announcement, up to k. */
  lemma DrainedExactly(q: seq<nat>, rest: seq<nat>, safe: Safe, k: nat)
    requires DrainedOf(q, rest, safe, k) && Increasing(q)
    ensures |q| - |rest| == k || forall x :: x in rest ==> safe.Pinned? && safe.ts <= x
  {
    forall x | x in rest && |q| - |rest| < k ensures safe.Pinned? && safe.ts <= x {
      var i :| 0 <= i < |rest| && rest[i] == x;
      assert q[|q| - |rest|] == rest[0] <= rest[i];
    }
  }

  /** How many nodes the discrete strategy frees at one write. */
  function TickLimit(t: Local): nat {
    match t.gcMode
    case AggressiveEbr => 4
    case AmortisedFree => 1
    case ConservativeHold => if t.holdTicks >= 7 then 8 else 0
  }

  lemma TickedFrees(t: Local, safe: Safe)
    ensures var u := Ticked(t, safe);
            && DrainedOf(t.bag, u.bag, safe, TickLimit(t))
            && u.holdTicks == (if t.gcMode == ConservativeHold && t.holdTicks < 7 then t.holdTicks + 1 else 0)
  {
    hide DrainedOf, DrainCount;
    match t.gcMode
    case AggressiveEbr => DrainDoes(t, safe, 4);
    case AmortisedFree => DrainDoes(t, safe, 1);
    case ConservativeHold =>
      if t.holdTicks >= 7 {
        DrainDoes(t, safe, 8);
      } else {
        NothingDrained(t.bag, safe);
      }
  }

  /** One write of the discrete strategy: 4 nodes in AggressiveEbr, 1 in AmortisedFree, 8 at every eighth write in
      ConservativeHold, never one that a snapshot found by the scan may need. */
  lemma PostedFrees(t: Local, birth: nat, safe: Safe)
    ensures var u := Posted(t, birth, safe);
            && DrainedOf(t.bag + [birth], u.bag, safe, TickLimit(t))
            && u.holdTicks == (if t.gcMode == ConservativeHold && t.holdTicks < 7 then t.holdTicks + 1 else 0)
  {
    TickedFrees(t.(bag := t.bag + [birth]), safe);
    hide DrainedOf, Ticked, Resampled, SelectModeHyst;
  }

  lemma NothingDrained(q: seq<nat>, safe: Safe)
    ensures DrainedOf(q, q, safe, 0)
  {
  }

  /** This write ends a window of 256. */
  predicate EndsWindow(t: Local) {
    (t.opCounter + 1) % 256 == 0
  }

  /** The whole part of 64 * (1 - spi), less half the trend if that is more than 0.05; at least 1. */
  lemma BatchSize(spi: real, delta: real)
    requires 0.0 <= spi < 1.0 && delta < 1.0
    ensures var x := 64.0 * (1.0 - spi) * if delta > 0.05 then 1.0 - delta / 2.0 else 1.0;
            && 1 <= BatchK(spi, delta) <= 64
            && (if x < 1.0 then BatchK(spi, delta) == 1 else BatchK(spi, delta) as real <= x < BatchK(spi, delta) as real + 1.0)
  {
    var bk := 64.0 * (1.0 - spi);
    assert delta * 0.5 == delta / 2.0;
    if delta > 0.05 {
      assert 0.5 < 1.0 - delta / 2.0 < 1.0;
      assert 0.0 < bk * (1.0 - delta / 2.0) <= bk;
    }
  }

  /** One write of the benchmark under each strategy, whatever snapshots its scans found. */
  lemma WroteFrees(how: Strategy, t: Local, birth: nat, safe: Safe)
    ensures var q, u := t.bag + [birth], WroteWith(how, t, birth, safe);
            match how
            case PacerDiscrete => DrainedOf(q, u.bag, safe, TickLimit(t))
            case PacerContinuous(delta, again) =>
              if EndsWindow(t) then
                exists mid :: DrainedOf(q, mid, safe, 1) && DrainedOf(mid, u.bag, again, BatchK(u.spiEma, delta))
              else DrainedOf(q, u.bag, safe, 1)
            case TokenAf => DrainedOf(q, u.bag, safe, 1)
            case BatchEbr => DrainedOf(q, u.bag, safe, if EndsWindow(t) then |q| else 0)
  {
    hide DrainedOf, Resampled, BatchK, SelectModeHyst;
    var r := Retired(t, birth);
    match how
    case PacerDiscrete =>
      PostedFrees(Prepared(t), birth, safe);
    case PacerContinuous(delta, again) =>
      DrainDoes(r, safe, 1);
      var v := ResampledLocal(Drained(r, safe, 1));
      DrainDoes(v, again, BatchK(v.spiEma, delta));
    case TokenAf =>
      DrainDoes(r, safe, 1);
    case BatchEbr =>
      DrainDoes(r, safe, |r.bag|);
      NothingDrained(r.bag, safe);
  }

  /** What a write does to the counters and the average: only the two PACER strategies look at windows. */
  lemma WroteCounts(how: Strategy, t: Local, birth: nat, safe: Safe)
    ensures var u := WroteWith(how, t, birth, safe);
            && u.opCounter == t.opCounter + 1
            && if EndsWindow(t) && (how.PacerDiscrete? || how.PacerContinuous?)
               then u.winWrites == u.winSnaps == 0 && u.spiEma == Resampled(t.spiEma, t.winWrites + 1, t.winSnaps)
               else u.winWrites == t.winWrites + 1 && u.winSnaps == t.winSnaps && u.spiEma == t.spiEma
  {
    hide Resampled, BatchK, SelectModeHyst, DrainCount;
  }

  // ------------------------------------------------------------------------ windows

  function WritesIn(ops: seq<Op>): nat {
    if ops == [] then 0 else WritesIn(ops[..|ops| - 1]) + if ops[|ops| - 1].Write? then 1 else 0
  }

  /** The snapshots since the latest write that ended a window. */
  function SnapsSince(ops: seq<Op>): nat {
    if ops == [] then 0
    else if ops[|ops| - 1].Snap? then SnapsSince(ops[..|ops| - 1]) + 1
    else if WritesIn(ops) % 256 == 0 then 0
    else SnapsSince(ops[..|ops| - 1])
  }

  /** The counters of a fresh thread after any operations. */
  lemma {:induction false} Counters(ops: seq<Op>)
    ensures var u := After(FRESH, ops);
            u.opCounter == WritesIn(ops) && u.winWrites == WritesIn(ops) % 256 && u.winSnaps == SnapsSince(ops)
  {
    if ops != [] {
      var before, op := ops[..|ops| - 1], ops[|ops| - 1];
      Counters(before);
      if op.Write? {
        WroteCounts(PacerDiscrete, After(FRESH, before), op.birth, op.safe);
        NextWrite(WritesIn(before));
      }
      hide Wrote;
    }
  }

  lemma NextWrite(x: nat)
    ensures (x + 1) % 256 == if x % 256 == 255 then 0 else x % 256 + 1
  {
  }

  /** Each window that the operations from i on end has at least 1028 snapshots: 4 * 256 + 4. */
  ghost predicate ManySnaps(ops: seq<Op>, i: nat) {
    forall m :: i <= m < |ops| && ops[m].Write? && WritesIn(ops[..m + 1]) % 256 == 0 ==> SnapsSince(ops[..m]) >= 1028
  }

  lemma ManySnapsBefore(ops: seq<Op>, i: nat)
    requires ManySnaps(ops, i) && ops != []
    ensures ManySnaps(ops[..|ops| - 1], i)
    ensures i < |ops| && ops[|ops| - 1].Write? && WritesIn(ops) % 256 == 0 ==> SnapsSince(ops[..|ops| - 1]) >= 1028
  {
    var before := ops[..|ops| - 1];
    forall m | i <= m < |before| && before[m].Write? && WritesIn(before[..m + 1]) % 256 == 0
      ensures SnapsSince(before[..m]) >= 1028
    {
      assert before[..m + 1] == ops[..m + 1] && before[..m] == ops[..m];
    }
    assert ops[..|ops|] == ops;
  }

  lemma {:induction false} SnapWindows(ops: seq<Op>, i: nat)
    requires i <= |ops| && ManySnaps(ops, i)
    ensures WindowsOf(ops[..i]) <= WindowsOf(ops)
    ensures SnapHeavy(WindowsOf(ops), |WindowsOf(ops[..i])| - 1, |WindowsOf(ops)| - 1)
  {
    hide After, WritesIn, SnapsSince, SnapHeavy, ManySnaps;
    NoneYet(WindowsOf(ops), |WindowsOf(ops)| - 1);
    if i == |ops| {
      assert ops[..i] == ops;
    } else {
      var before := ops[..|ops| - 1];
      assert before[..i] == ops[..i];
      ManySnapsBefore(ops, i);
      SnapWindows(before, i);
      Counters(ops);
      if ops[|ops| - 1].Write? && WritesIn(ops) % 256 == 0 {
        Counters(before);
        LastWrite(ops);
        OneMore(WindowsOf(before), |WindowsOf(ops[..i])| - 1, WindowsOf(ops)[|WindowsOf(ops)| - 1]);
      }
    }
  }

  lemma LastWrite(ops: seq<Op>)
    requires ops != [] && ops[|ops| - 1].Write?
    ensures WritesIn(ops) % 256 == 0 ==> WritesIn(ops[..|ops| - 1]) % 256 == 255
  {
    NextWrite(WritesIn(ops[..|ops| - 1]));
  }

  /** The other way round from recovery: eleven windows of 256 writes with at least 1028 snapshots each lead any
      thread to ConservativeHold, whatever it did before. */
  lemma SnapshotsHold(ops: seq<Op>, i: nat)
    requires i <= |ops| && ManySnaps(ops, i) && WritesIn(ops) / 256 >= WritesIn(ops[..i]) / 256 + 11
    ensures After(FRESH, ops).gcMode == ConservativeHold
  {
    hide After, WritesIn, Windows, ManySnaps, SnapHeavy;
    SnapWindows(ops, i);
    WindowsOk(ops);
    WindowsOk(ops[..i]);
    Counters(ops);
    Counters(ops[..i]);
    SnapsHold(WindowsOf(ops), |WindowsOf(ops[..i])| - 1, |WindowsOf(ops)| - 1);
  }
}
