/** What a thread counts between two rotations, the mode that follows from it, and
    how a full block of retired nodes comes to be freed. */
module RingWindows {
  import opened PacerModes
  import opened RingSystem
  import opened RingDrain

  // -------------------------------------------------------------------- counting

  /** The startOps of thread k, read-only or not, in the first m steps that are no longer ago than its
      latest rotation. */
  function Since(acts: seq<Action>, k: nat, readOnly: bool, m: nat): nat
    requires m <= |acts|
  {
    if m == 0 || acts[m - 1] == Rotate(k) then 0
    else Since(acts, k, readOnly, m - 1) + if acts[m - 1] == Enter(k, readOnly) then 1 else 0
  }

  /** Between its call and its rotation the thread has counted its startOp. */
  predicate Counting(t: Thread) {
    t.phase.Entered? || t.phase.Clearing? || t.phase.Passing? || t.phase.Rotating? ==> t.winWrites + t.winSnaps > 0
  }

  lemma StepCounts(s: State, act: Action, k: nat)
    requires Enabled(s, act) && k < |s.threads|
    ensures var t, s' := s.threads[k], Next(s, act);
            && |s'.threads| == |s.threads|
            && var t' := s'.threads[k];
               && (if act == Rotate(k) then t'.winWrites == t'.winSnaps == 0
                   else t'.winWrites == t.winWrites + (if act == Enter(k, false) then 1 else 0)
                        && t'.winSnaps == t.winSnaps + (if act == Enter(k, true) then 1 else 0))
               && (Counting(t) ==> Counting(t'))
  {
    hide Resampled, Plan;
  }

  /** The counters of thread k are the numbers of its writing and read-only startOps since its latest rotation. */
  lemma {:induction false} CountsSince(n: nat, run: seq<State>, acts: seq<Action>, k: nat, m: nat)
    requires FromStart(n, run, acts, k) && m <= |acts|
    ensures run[m].threads[k].winWrites == Since(acts, k, false, m)
    ensures run[m].threads[k].winSnaps == Since(acts, k, true, m)
    ensures Counting(run[m].threads[k])
  {
    hide Next, Enabled, Counting;
    if m == 0 {
      StartCounts(n, k);
    } else {
      CountsSince(n, run, acts, k, m - 1);
      assert Enabled(run[m - 1], acts[m - 1]) && run[m] == Next(run[m - 1], acts[m - 1]);
      StepCounts(run[m - 1], acts[m - 1], k);
    }
  }

  lemma StartCounts(n: nat, k: nat)
    requires n > 0 && k < |Initial(n).threads|
    ensures var t := Initial(n).threads[k]; t.winWrites == t.winSnaps == 0 && Counting(t)
  {
    assert Initial(n).threads[k] == NewThread(k == 0);
  }

  // ------------------------------------------------------------------------ modes

  /** Each window of thread k that ends in the steps from i up to j has many read-only startOps. */
  ghost predicate ManyReads(acts: seq<Action>, k: nat, i: nat, j: nat) {
    j <= |acts| &&
    forall m :: i <= m < j && acts[m] == Rotate(k) ==> Since(acts, k, true, m) >= 4 * Since(acts, k, false, m) + 4
  }

  ghost predicate NoReads(acts: seq<Action>, k: nat, i: nat, j: nat) {
    j <= |acts| && forall m :: i <= m < j && acts[m] == Rotate(k) ==> Since(acts, k, true, m) == 0
  }

  lemma LastWindow(n: nat, run: seq<State>, acts: seq<Action>, k: nat, m: nat)
    requires FromStart(n, run, acts, k) && m < |acts| && acts[m] == Rotate(k)
    ensures var w := WindowAfter(run[m], acts[m], k);
            && |w| == 1 && WindowsOf(run, acts, k, m + 1) == WindowsOf(run, acts, k, m) + w
            && w[0].writes == Since(acts, k, false, m) && w[0].snaps == Since(acts, k, true, m)
            && w[0].writes + w[0].snaps > 0
  {
    hide Resampled, SelectModeHyst, Next;
    CountsSince(n, run, acts, k, m);
    assert Enabled(run[m], acts[m]);
  }

  lemma {:induction false} WindowsRead(n: nat, run: seq<State>, acts: seq<Action>, k: nat, i: nat, j: nat)
    requires FromStart(n, run, acts, k) && i <= j <= |acts| && ManyReads(acts, k, i, j)
    ensures var w := WindowsOf(run, acts, k, j); SnapHeavy(w, |WindowsOf(run, acts, k, i)| - 1, |w| - 1)
    decreases j
  {
    hide Next, Enabled, Since, Initial, SnapHeavy, WriteOnly;
    NoneYet(WindowsOf(run, acts, k, i), |WindowsOf(run, acts, k, i)| - 1);
    if i < j {
      WindowsRead(n, run, acts, k, i, j - 1);
      if acts[j - 1] == Rotate(k) {
        LastWindow(n, run, acts, k, j - 1);
        hide FromStart;
        OneMore(WindowsOf(run, acts, k, j - 1), |WindowsOf(run, acts, k, i)| - 1, WindowAfter(run[j - 1], acts[j - 1], k)[0]);
        assert WindowAfter(run[j - 1], acts[j - 1], k) == [WindowAfter(run[j - 1], acts[j - 1], k)[0]];
      } else {
        assert WindowsOf(run, acts, k, j) == WindowsOf(run, acts, k, j - 1);
      }
    }
  }

  lemma {:induction false} WindowsWrite(n: nat, run: seq<State>, acts: seq<Action>, k: nat, i: nat, j: nat)
    requires FromStart(n, run, acts, k) && i <= j <= |acts| && NoReads(acts, k, i, j)
    ensures var w := WindowsOf(run, acts, k, j); WriteOnly(w, |WindowsOf(run, acts, k, i)| - 1, |w| - 1)
    decreases j
  {
    hide Next, Enabled, Since, Initial, SnapHeavy, WriteOnly;
    NoneYet(WindowsOf(run, acts, k, i), |WindowsOf(run, acts, k, i)| - 1);
    if i < j {
      WindowsWrite(n, run, acts, k, i, j - 1);
      if acts[j - 1] == Rotate(k) {
        LastWindow(n, run, acts, k, j - 1);
        hide FromStart;
        OneMore(WindowsOf(run, acts, k, j - 1), |WindowsOf(run, acts, k, i)| - 1, WindowAfter(run[j - 1], acts[j - 1], k)[0]);
        assert WindowAfter(run[j - 1], acts[j - 1], k) == [WindowAfter(run[j - 1], acts[j - 1], k)[0]];
      } else {
        assert WindowsOf(run, acts, k, j) == WindowsOf(run, acts, k, j - 1);
      }
    }
  }

  /** In every interleaving: if thread k rotates eleven times or more, and each time has called at least four
      times as many read-only startOps as others, and four more, since the rotation before, its next drain
      holds nodes back. So a thread that only reads does, if it calls four startOps a rotation. */
  lemma ReadsHold(n: nat, run: seq<State>, acts: seq<Action>, k: nat, i: nat, j: nat)
    requires FromStart(n, run, acts, k) && i <= j <= |acts| && Rotations(run, acts, k, i, j) >= 11
    requires ManyReads(acts, k, i, j)
    ensures SelectModeHyst(run[j].threads[k].spiEma, run[j].threads[k].gcMode) == ConservativeHold
    ensures !run[j].threads[k].phase.Draining? ==> run[j].threads[k].gcMode == ConservativeHold
  {
    hide Since, Next, Enabled, Initial;
    WindowsRead(n, run, acts, k, i, j);
    WindowsGrow(run, acts, k, 0, i);
    RunSelected(n, run, acts, k, j);
    SnapsHold(WindowsOf(run, acts, k, j), |WindowsOf(run, acts, k, i)| - 1, |WindowsOf(run, acts, k, j)| - 1);
  }

  /** And nine rotations without a read-only startOp in between lead to AggressiveEbr. */
  lemma WritesFree(n: nat, run: seq<State>, acts: seq<Action>, k: nat, i: nat, j: nat)
    requires FromStart(n, run, acts, k) && i <= j <= |acts| && Rotations(run, acts, k, i, j) >= 9
    requires NoReads(acts, k, i, j)
    ensures SelectModeHyst(run[j].threads[k].spiEma, run[j].threads[k].gcMode) == AggressiveEbr
    ensures !run[j].threads[k].phase.Draining? ==> run[j].threads[k].gcMode == AggressiveEbr
  {
    hide Since, Next, Enabled, Initial;
    WindowsWrite(n, run, acts, k, i, j);
    WindowsGrow(run, acts, k, 0, i);
    RunSelected(n, run, acts, k, j);
    WritesRelease(WindowsOf(run, acts, k, j), |WindowsOf(run, acts, k, i)| - 1, |WindowsOf(run, acts, k, j)| - 1);
  }

  // ------------------------------------------------------------------- full blocks

  /** Thread k does not rotate in the steps from i up to j. */
  ghost predicate NoRotation(acts: seq<Action>, k: nat, i: nat, j: nat) {
    j <= |acts| && forall m :: i <= m < j ==> acts[m] != Rotate(k)
  }

  lemma StepLast(s: State, act: Action, k: nat)
    requires Enabled(s, act) && k < |s.threads|
    ensures var t, s' := s.threads[k], Next(s, act);
            && |s'.threads| == |s.threads|
            && var t' := s'.threads[k];
               if act == Rotate(k) then t'.last == t.curr && t'.free == t.free + t.last.full && t'.curr == Bag([], t.last.head)
               else t'.last == t.last
  {
    hide Resampled, Plan;
  }

  lemma {:induction false} LastKept(run: seq<State>, acts: seq<Action>, k: nat, i: nat, j: nat)
    requires Trace(run, acts) && NoRotation(acts, k, i, j) && i <= j
    requires forall e :: 0 <= e < |run| ==> k < |run[e].threads|
    ensures run[j].threads[k].last == run[i].threads[k].last
    decreases j
  {
    hide Next, Enabled;
    if i < j {
      LastKept(run, acts, k, i, j - 1);
      assert Enabled(run[j - 1], acts[j - 1]) && run[j] == Next(run[j - 1], acts[j - 1]);
      StepLast(run[j - 1], acts[j - 1], k);
    }
  }

  /** A node in a full block of curr when its thread rotates is in the free bag after the next rotation, and
      one in the partly filled block is in curr again. So nothing retired is held back for ever. */
  lemma BlockReleased(run: seq<State>, acts: seq<Action>, k: nat, i: nat, j: nat)
    requires Trace(run, acts) && i < j < |acts| && acts[i] == Rotate(k) && acts[j] == Rotate(k)
    requires NoRotation(acts, k, i + 1, j)
    requires forall e :: 0 <= e < |run| ==> k < |run[e].threads|
    ensures run[j + 1].threads[k].free == run[j].threads[k].free + run[i].threads[k].curr.full
    ensures run[j + 1].threads[k].curr == Bag([], run[i].threads[k].curr.head)
  {
    hide Next, Enabled;
    assert Enabled(run[i], acts[i]) && run[i + 1] == Next(run[i], acts[i]);
    assert Enabled(run[j], acts[j]) && run[j + 1] == Next(run[j], acts[j]);
    StepLast(run[i], acts[i], k);
    LastKept(run, acts, k, i + 1, j);
    StepLast(run[j], acts[j], k);
  }
}
