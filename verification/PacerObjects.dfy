/** The objects of one process as a single thread drives them: announcement
    table, thread state and system. Each method is tied to the functions of the controller. */
module PacerObjects {
  import opened PacerModes
  import opened LimboBags
  import opened PacerController
  import opened PacerDrains

  const MAX_THREADS := 256
  const BASE_STRIDE := 16
  const ALPHA := 4.0

  /** What a scan of these slots, undisturbed, returns. */
  function MinOf(slots: seq<nat>): Safe {
    if slots == [] then Unpinned else Smaller(MinOf(slots[..|slots| - 1]), slots[|slots| - 1])
  }

  /** The smallest announcement, if there is one. */
  lemma {:induction false} MinOfLeast(slots: seq<nat>)
    ensures MinOf(slots).Unpinned? <==> forall j :: 0 <= j < |slots| ==> slots[j] == 0
    ensures MinOf(slots).Pinned? ==>
              && 0 < MinOf(slots).ts && MinOf(slots).ts in slots
              && forall j :: 0 <= j < |slots| && slots[j] != 0 ==> MinOf(slots).ts <= slots[j]
  {
    if slots != [] {
      var k := |slots| - 1;
      MinOfLeast(slots[..k]);
      assert forall j :: 0 <= j < k ==> slots[..k][j] == slots[j];
      if MinOf(slots[..k]).Pinned? {
        assert MinOf(slots[..k]).ts in slots;
      }
    }
  }

  /** All these birth timestamps are below every announced one. */
  predicate Spares(births: seq<nat>, slots: seq<nat>) {
    forall i, j :: 0 <= i < |births| && 0 <= j < |slots| && slots[j] != 0 ==> births[i] < slots[j]
  }

  /** A drain with the scan of these slots spares what is announced, and stops early only for that. */
  lemma DrainSpares(q: seq<nat>, rest: seq<nat>, slots: seq<nat>, k: nat)
    requires DrainedOf(q, rest, MinOf(slots), k)
    ensures |rest| <= |q| && Spares(q[..|q| - |rest|], slots)
    ensures |q| - |rest| < k && rest != [] ==> !Spares([rest[0]], slots)
  {
    hide MinOf;
    MinOfLeast(slots);
    if |q| - |rest| < k && rest != [] {
      var j :| 0 <= j < |slots| && slots[j] == MinOf(slots).ts;
      assert slots[j] != 0 && [rest[0]][0] >= slots[j];
    }
  }

  /** A call that fails an assertion or indexes past an array stops its thread. */
  datatype Outcome<T> = Done(value: T) | Panics

  class AnnouncementTable {
    const slots: array<nat>
    var activeCount: nat

    ghost predicate Valid()
      reads this
    {
      slots.Length == MAX_THREADS
    }

    /** No registration has failed. */
    predicate InBounds()
      reads this
    {
      activeCount <= MAX_THREADS
    }

    ghost function Announced(): seq<nat>
      requires Valid() && InBounds()
      reads this, slots
    {
      slots[..activeCount]
    }

    constructor ()
      ensures Valid() && activeCount == 0 && fresh(slots)
      ensures forall j :: 0 <= j < slots.Length ==> slots[j] == 0
    {
      slots := new nat[MAX_THREADS](_ => 0);
      activeCount := 0;
    }

    /** The count goes up before the assertion: a registration on a full table leaves it past the slots. */
    method Register() returns (tid: Outcome<nat>)
      requires Valid()
      modifies this`activeCount
      ensures Valid() && activeCount == old(activeCount) + 1
      ensures tid == if old(activeCount) < 256 then Done(old(activeCount)) else Panics
    {
      var t := activeCount;
      activeCount := activeCount + 1;
      if t < MAX_THREADS {
        tid := Done(t);
      } else {
        tid := Panics;
      }
    }

    method Announce(tid: nat, ts: nat)
      requires Valid() && tid < MAX_THREADS
      modifies slots
      ensures Valid() && slots[..] == old(slots[..])[tid := ts]
    {
      slots[tid] := ts;
    }

    method Release(tid: nat)
      requires Valid() && tid < MAX_THREADS
      modifies slots
      ensures Valid() && slots[..] == old(slots[..])[tid := 0]
    {
      slots[tid] := 0;
    }

    /** The smallest announcement; after a failed registration the scan runs past the slots. */
    method MinActiveTs() returns (min: Outcome<Safe>)
      requires Valid()
      ensures min == if InBounds() then Done(MinOf(Announced())) else Panics
    {
      var n := activeCount;
      var m := Unpinned;
      for i := 0 to n
        invariant i <= slots.Length && m == MinOf(slots[..i])
      {
        if i >= slots.Length {
          return Panics;
        }
        var ts := slots[i];
        assert slots[..i + 1][..i] == slots[..i];
        if ts != 0 && (m.Unpinned? || ts < m.ts) {
          m := Pinned(ts);
        }
      }
      min := Done(m);
    }
  }

  class ThreadLocalState {
    var winWrites: nat
    var winSnaps: nat
    var opCounter: nat
    var failStreak: nat
    var spiEma: real
    var holdTicks: nat
    var gcMode: GcMode
    const limboBag: LimboBag
    const tid: nat

    ghost function View(): Local
      reads this, limboBag
    {
      Local(winWrites, winSnaps, opCounter, spiEma, holdTicks, gcMode, limboBag.q)
    }

    constructor (tid: nat)
      ensures View() == FRESH && this.tid == tid && fresh(limboBag) && failStreak == 0
    {
      winWrites, winSnaps, opCounter, failStreak, spiEma, holdTicks, gcMode := 0, 0, 0, 0, 0.0, 0, AggressiveEbr;
      limboBag := new LimboBag();
      this.tid := tid;
    }

    method DrainDiscreteTick(safeTs: Safe) returns (freed: nat)
      modifies this`holdTicks, limboBag
      ensures View() == Ticked(old(View()), safeTs)
      ensures freed == |old(limboBag.q)| - |limboBag.q|
      ensures DrainedOf(old(limboBag.q), limboBag.q, safeTs, TickLimit(old(View())))
    {
      hide DrainedOf;
      TickedFrees(View(), safeTs);
      match gcMode
      case AggressiveEbr =>
        holdTicks := 0;
        freed := limboBag.Drain(safeTs, AGGRESSIVE_DRAIN_PER_OP);
      case AmortisedFree =>
        holdTicks := 0;
        freed := limboBag.Drain(safeTs, AF_BATCH_K);
      case ConservativeHold =>
        holdTicks := holdTicks + 1;
        if holdTicks >= HOLD_LIMIT {
          holdTicks := 0;
          freed := limboBag.Drain(safeTs, HOLD_LIMIT);
        } else {
          freed := 0;
        }
    }
  }

  function EpochStride(spi: real): nat
    requires spi >= 0.0
    ensures EpochStride(spi) >= BASE_STRIDE
  {
    (BASE_STRIDE as real * (1.0 + ALPHA * spi) + 0.5).Floor
  }

  /** 16 * (1 + 4 * spi), rounded to the nearest whole number. */
  lemma StrideRange(spi: real)
    requires 0.0 <= spi
    ensures var x := 16.0 + 64.0 * spi; x - 0.5 < EpochStride(spi) as real <= x + 0.5
    ensures spi < 1.0 ==> 16 <= EpochStride(spi) <= 80
  {
  }

  /** The epoch moves at the end of this window. */
  predicate Strides(mode: GcMode, opCounter: nat, spi: real)
    requires spi >= 0.0
  {
    mode != ConservativeHold && opCounter % EpochStride(spi) == 0
  }

  predicate Untouched(t: Local) {
    t.spiEma == 0.0 && t.gcMode == AggressiveEbr && t.winSnaps == 0
  }

  lemma WriteStays(t: Local, birth: nat, safe: Safe)
    requires Untouched(t)
    ensures Untouched(Wrote(t, birth, safe)) && Wrote(t, birth, safe).opCounter == t.opCounter + 1
  {
    ResampledBounds(0.0, t.winWrites + 1, 0);
    WroteCounts(PacerDiscrete, t, birth, safe);
    WroteWindow(t, birth, safe);
    DeadBands(0.0, AggressiveEbr);
    hide Wrote, Resampled, SelectModeHyst;
  }

  lemma {:induction false} WritesStay(ops: seq<Op>)
    requires forall i :: 0 <= i < |ops| ==> ops[i].Write?
    ensures Untouched(After(FRESH, ops)) && After(FRESH, ops).opCounter == |ops|
  {
    hide Wrote, Untouched;
    if ops == [] {
      FreshUntouched();
    } else {
      var op := ops[|ops| - 1];
      WritesStay(ops[..|ops| - 1]);
      WriteStays(After(FRESH, ops[..|ops| - 1]), op.birth, op.safe);
    }
  }

  lemma FreshUntouched()
    ensures Untouched(FRESH)
  {
  }

  /** The epoch of a thread that only writes moves on at the end of every window. */
  lemma WritesAdvance(ops: seq<Op>)
    requires forall i :: 0 <= i < |ops| ==> ops[i].Write?
    ensures var u := After(FRESH, ops); u.spiEma == 0.0 && (|ops| % 256 == 0 ==> Strides(u.gcMode, u.opCounter, u.spiEma))
  {
    hide After;
    WritesStay(ops);
    StrideRange(0.0);
    Sixteen(|ops|);
  }

  lemma Sixteen(x: nat)
    ensures x % 256 == 0 ==> x % 16 == 0
  {
    var w := x / 256;
    if x % 256 == 0 {
      assert x == 256 * w;
      SixteenTimes(x, 16 * w);
    }
  }

  lemma SixteenTimes(x: nat, q: nat)
    requires x == 16 * q
    ensures x % 16 == 0
  {
  }

  class PacerSystem {
    var globalEpoch: nat
    var approxSpi: real
    var deltaSpi: real
    const announce: AnnouncementTable

    ghost predicate Valid()
      reads this, announce
    {
      announce.Valid() && globalEpoch > 0
    }

    constructor ()
      ensures Valid() && globalEpoch == 1 && approxSpi == deltaSpi == 0.0 && fresh(announce) && fresh(announce.slots) && announce.activeCount == 0
    {
      globalEpoch, approxSpi, deltaSpi := 1, 0.0, 0.0;
      announce := new AnnouncementTable();
    }

    /** The average of the thread, and what all threads may read of it. */
    method ResampleSpi(t: ThreadLocalState)
      modifies this`approxSpi, this`deltaSpi, t`spiEma, t`winWrites, t`winSnaps
      ensures t.View() == ResampledLocal(old(t.View()))
      ensures if old(t.winWrites) + old(t.winSnaps) == 0 then approxSpi == old(approxSpi) && deltaSpi == old(deltaSpi)
              else approxSpi == t.spiEma && deltaSpi == t.spiEma - old(t.spiEma)
    {
      var (w, s) := (t.winWrites, t.winSnaps);
      var total := w + s;
      if total == 0 {
        return;
      }
      var winSpi := s as real / (total + 1) as real;
      var prevEma := t.spiEma;
      t.spiEma := prevEma * (1.0 - EMA_ALPHA) + winSpi * EMA_ALPHA;
      approxSpi := t.spiEma;
      deltaSpi := t.spiEma - prevEma;
      t.winWrites := 0;
      t.winSnaps := 0;
    }

    method TryAdvanceEpoch() returns (ok: bool)
      modifies this`globalEpoch
      ensures ok && globalEpoch == old(globalEpoch) + 1
    {
      var cur := globalEpoch;
      ok := globalEpoch == cur;
      if ok {
        globalEpoch := cur + 1;
      }
    }

    method StepEpoch(t: ThreadLocalState)
      modifies this`globalEpoch, t`failStreak
      ensures globalEpoch == old(globalEpoch) + 1 && t.failStreak == 0
    {
      var ok := TryAdvanceEpoch();
      var streak := t.failStreak + 1;
      if ok {
        streak := 0;
      }
      t.failStreak := streak;
    }

    method ReclaimDiscrete(t: ThreadLocalState)
      requires t.spiEma >= 0.0
      modifies this`globalEpoch, t`failStreak, t`gcMode
      ensures t.gcMode == SelectModeHyst(t.spiEma, old(t.gcMode))
      ensures globalEpoch == old(globalEpoch) + if Strides(t.gcMode, t.opCounter, t.spiEma) then 1 else 0
      ensures t.failStreak == if globalEpoch > old(globalEpoch) then 0 else old(t.failStreak)
    {
      var mode := SelectModeHyst(t.spiEma, t.gcMode);
      t.gcMode := mode;
      var stride := EpochStride(t.spiEma);
      match mode
      case ConservativeHold =>
      case _ =>
        if t.opCounter % stride == 0 {
          StepEpoch(t);
        }
    }

    method WriteOpPrepare(t: ThreadLocalState) returns (ts: nat)
      modifies this`globalEpoch, t`winWrites, t`opCounter
      ensures ts == old(globalEpoch) && globalEpoch == ts + 1
      ensures t.View() == Prepared(old(t.View()))
    {
      t.winWrites := t.winWrites + 1;
      t.opCounter := t.opCounter + 1;
      ts := globalEpoch;
      globalEpoch := globalEpoch + 1;
    }

    /** If the scan panics, the node has been pushed and nothing else has happened. */
    method PostWrite(t: ThreadLocalState, oldTs: nat) returns (freed: Outcome<nat>)
      requires Valid() && 0.0 <= t.spiEma < 1.0
      modifies this`globalEpoch, this`approxSpi, this`deltaSpi, t, t.limboBag
      ensures Valid() && t.spiEma >= 0.0
      ensures freed.Panics? <==> !announce.InBounds()
      ensures t.View() == if announce.InBounds() then Posted(old(t.View()), oldTs, MinOf(old(announce.Announced())))
                          else old(t.View()).(bag := old(t.limboBag.q) + [oldTs])
      ensures freed.Done? ==>
                var q, slots, k := old(t.limboBag.q) + [oldTs], old(announce.Announced()), old(TickLimit(t.View()));
                && freed.value <= k && freed.value <= |q| && t.limboBag.q == q[freed.value..]
                && Spares(q[..freed.value], slots)
                && (freed.value < k && t.limboBag.q != [] ==> !Spares([t.limboBag.q[0]], slots))
      ensures globalEpoch == old(globalEpoch) +
                if freed.Done? && t.opCounter % WINDOW_SIZE == 0 && Strides(t.gcMode, t.opCounter, t.spiEma) then 1 else 0
    {
      hide Ticked, Resampled, SelectModeHyst, Strides, EpochStride, MinOf, DrainCount;
      t.limboBag.Push(oldTs);
      var safeTs := announce.MinActiveTs();
      if safeTs.Panics? {
        return Panics;
      }
      ghost var q, k := t.limboBag.q, TickLimit(t.View());
      var n := t.DrainDiscreteTick(safeTs.value);
      DrainSpares(q, t.limboBag.q, announce.Announced(), k);
      if t.opCounter % WINDOW_SIZE == 0 {
        ResampledBounds(t.spiEma, t.winWrites, t.winSnaps);
        ResampleSpi(t);
        ReclaimDiscrete(t);
      }
      freed := Done(n);
    }

    /** A write of the benchmark loop under the discrete strategy, the new node being retired at once. */
    method Write(t: ThreadLocalState) returns (freed: Outcome<nat>)
      requires Valid() && LocalOk(t.View())
      modifies this`globalEpoch, this`approxSpi, this`deltaSpi, t, t.limboBag
      ensures Valid() && (freed.Panics? <==> !announce.InBounds())
      ensures freed.Done? ==>
                && LocalOk(t.View())
                && t.View() == Wrote(old(t.View()), old(globalEpoch), MinOf(old(announce.Announced())))
                && var q, slots, k := old(t.limboBag.q) + [old(globalEpoch)], old(announce.Announced()), old(TickLimit(t.View()));
                   && freed.value <= k && freed.value <= |q| && t.limboBag.q == q[freed.value..]
                   && Spares(q[..freed.value], slots)
                   && (freed.value < k && t.limboBag.q != [] ==> !Spares([t.limboBag.q[0]], slots))
      ensures globalEpoch > old(globalEpoch)
    {
      if announce.InBounds() {
        DoesOk(t.View(), Op.Write(globalEpoch, MinOf(announce.Announced())));
      }
      var ts := WriteOpPrepare(t);
      freed := PostWrite(t, ts);
    }
  }
}
