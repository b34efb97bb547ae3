/** How many nodes a thread frees: one per startOp on average, up to the ticks
    that are forgotten whenever ConservativeHold is left. */
module RingDrain {
  import opened PacerModes
  import opened RingSystem
  import opened RingProofs

  /** A stretch of a run with the steps taken, all threads interleaved. */
  ghost predicate Trace(run: seq<State>, acts: seq<Action>) {
    && |run| == |acts| + 1
    && forall i :: 0 <= i < |acts| ==> Enabled(run[i], acts[i]) && run[i + 1] == Next(run[i], acts[i])
  }

  /** Ticks are counted in ConservativeHold only, and reset when they reach the limit. */
  predicate TicksOk(t: Thread) {
    t.holdTicks < HOLD_LIMIT && (t.gcMode != ConservativeHold ==> t.holdTicks == 0)
  }

  lemma {:induction false} HoldTicks(n: nat, run: seq<State>, i: nat, k: nat)
    requires Run(n, run) && i < |run| && k < n
    ensures |run[i].threads| == n && TicksOk(run[i].threads[k])
  {
    hide Inv;
    RunInv(n, run, i);
    if i == 0 {
      assert run[0].threads[k] == NewThread(k == 0);
    } else {
      HoldTicks(n, run, i - 1, k);
      assert Steps(run[i - 1], run[i]);
      var act :| Enabled(run[i - 1], act) && run[i] == Next(run[i - 1], act);
      StepTicks(run[i - 1], act, k);
    }
  }

  /** Only its own drain changes the mode or the ticks of a thread. */
  lemma StepTicks(s: State, act: Action, k: nat)
    requires Enabled(s, act) && k < |s.threads| && TicksOk(s.threads[k])
    ensures var t, t' := s.threads[k], Next(s, act).threads[k];
            && |Next(s, act).threads| == |s.threads|
            && TicksOk(t')
            && (if act.Drain? && act.i == k then t'.holdTicks == Plan(t).1 else t'.holdTicks == t.holdTicks)
  {
  }

  predicate Drains(act: Action, k: nat) {
    act.Drain? && act.i == k
  }

  /** This drain ends a stay in ConservativeHold. */
  predicate Exits(s: State, act: Action, k: nat)
    requires k < |s.threads|
  {
    Drains(act, k) && s.threads[k].gcMode == ConservativeHold && Plan(s.threads[k]).0 != ConservativeHold
  }

  function Ops(acts: seq<Action>, k: nat): nat {
    if acts == [] then 0 else (if Drains(acts[0], k) then 1 else 0) + Ops(acts[1..], k)
  }

  function Freed(acts: seq<Action>, k: nat): nat {
    if acts == [] then 0 else (if acts[0].Drain? && acts[0].i == k then |acts[0].freed| else 0) + Freed(acts[1..], k)
  }

  ghost function ExitCount(run: seq<State>, acts: seq<Action>, k: nat): nat
    requires |run| == |acts| + 1 && forall i :: 0 <= i < |run| ==> k < |run[i].threads|
  {
    if acts == [] then 0 else (if Exits(run[0], acts[0], k) then 1 else 0) + ExitCount(run[1..], acts[1..], k)
  }

  /** The free bag of thread k always held as many nodes as a drain asked for. */
  ghost predicate NeverDry(run: seq<State>, acts: seq<Action>, k: nat)
    requires |run| == |acts| + 1
  {
    forall i :: 0 <= i < |acts| && Drains(acts[i], k) ==>
      k < |run[i].threads| && Plan(run[i].threads[k]).2 <= |run[i].threads[k].free|
  }

  /** One drain: what is freed and the ticks kept make up for one startOp, unless ticks are dropped. */
  lemma OneDrain(s: State, act: Action, k: nat)
    requires Enabled(s, act) && k < |s.threads| && TicksOk(s.threads[k]) && Drains(act, k)
    requires Plan(s.threads[k]).2 <= |s.threads[k].free|
    ensures var t, t' := s.threads[k], Next(s, act).threads[k];
            |act.freed| + t'.holdTicks == 1 + if Exits(s, act, k) then 0 else t.holdTicks
  {
  }

  lemma TraceRest(run: seq<State>, acts: seq<Action>, k: nat)
    requires Trace(run, acts) && acts != []
    ensures Trace(run[1..], acts[1..]) && run[1..][|acts[1..]|] == run[|acts|]
    ensures NeverDry(run, acts, k) ==> NeverDry(run[1..], acts[1..], k)
  {
    forall i | 0 <= i < |acts[1..]|
      ensures Enabled(run[1..][i], acts[1..][i]) && run[1..][i + 1] == Next(run[1..][i], acts[1..][i])
    {
      assert Enabled(run[i + 1], acts[i + 1]) && run[i + 2] == Next(run[i + 1], acts[i + 1]);
    }
  }

  /** Over any stretch in which m operations of thread k start and its bag never runs dry,
      at least m - 7 * (e + 1) nodes are freed, e being how often it leaves ConservativeHold. */
  lemma {:induction false} Amortised(run: seq<State>, acts: seq<Action>, k: nat)
    requires Trace(run, acts) && NeverDry(run, acts, k)
    requires forall i :: 0 <= i < |run| ==> k < |run[i].threads|
    requires TicksOk(run[0].threads[k])
    ensures var m, e := Ops(acts, k), ExitCount(run, acts, k);
            && TicksOk(run[|acts|].threads[k])
            && Freed(acts, k) + run[|acts|].threads[k].holdTicks + 7 * e >= m + run[0].threads[k].holdTicks
            && Freed(acts, k) >= m - 7 * (e + 1)
  {
    if acts != [] {
      var rest, more := run[1..], acts[1..];
      assert Enabled(run[0], acts[0]) && run[1] == Next(run[0], acts[0]);
      StepTicks(run[0], acts[0], k);
      if Drains(acts[0], k) {
        OneDrain(run[0], acts[0], k);
      }
      TraceRest(run, acts, k);
      Amortised(rest, more, k);
    }
  }

  /** The nodes that thread k frees, and those that its rotations add to its free bag, in order. */
  function FreedBy(acts: seq<Action>, k: nat): seq<nat> {
    if acts == [] then [] else (if acts[0].Drain? && acts[0].i == k then acts[0].freed else []) + FreedBy(acts[1..], k)
  }

  ghost function Arrived(run: seq<State>, acts: seq<Action>, k: nat): seq<nat>
    requires |run| == |acts| + 1 && forall i :: 0 <= i < |run| ==> k < |run[i].threads|
  {
    if acts == [] then []
    else (if acts[0] == Rotate(k) then run[0].threads[k].last.full else []) + Arrived(run[1..], acts[1..], k)
  }

  /** The free bag gains exactly what rotations bring and loses exactly what is freed, node by node; and
      what is freed is in the pool. */
  lemma {:induction false} FreedLeave(run: seq<State>, acts: seq<Action>, k: nat)
    requires Trace(run, acts)
    requires forall i :: 0 <= i < |run| ==> k < |run[i].threads|
    ensures multiset(run[0].threads[k].free) + multiset(Arrived(run, acts, k)) ==
            multiset(run[|acts|].threads[k].free) + multiset(FreedBy(acts, k))
    ensures multiset(run[0].pool) + multiset(FreedBy(acts, k)) <= multiset(run[|acts|].pool)
    ensures |FreedBy(acts, k)| == Freed(acts, k)
  {
    hide Next, Enabled;
    if acts != [] {
      var rest, more := run[1..], acts[1..];
      assert Enabled(run[0], acts[0]) && run[1] == Next(run[0], acts[0]);
      OneStepLeaves(run[0], acts[0], k);
      TraceRest(run, acts, k);
      FreedLeave(rest, more, k);
      var f := if acts[0].Drain? && acts[0].i == k then acts[0].freed else [];
      var b := if acts[0] == Rotate(k) then run[0].threads[k].last.full else [];
      assert FreedBy(acts, k) == f + FreedBy(more, k) && Arrived(run, acts, k) == b + Arrived(rest, more, k);
      MovedOn(multiset(run[0].threads[k].free), multiset(b), multiset(run[1].threads[k].free), multiset(f),
              multiset(Arrived(rest, more, k)), multiset(run[|acts|].threads[k].free), multiset(FreedBy(more, k)));
    }
  }

  lemma MovedOn(x: multiset<nat>, b: multiset<nat>, y: multiset<nat>, f: multiset<nat>, b': multiset<nat>,
                z: multiset<nat>, f': multiset<nat>)
    requires x + b == y + f && y + b' == z + f'
    ensures x + (b + b') == z + (f + f')
  {
    forall e ensures (x + (b + b'))[e] == (z + (f + f'))[e] {
      assert (x + b)[e] == (y + f)[e] && (y + b')[e] == (z + f')[e];
    }
  }

  lemma OneStepLeaves(s: State, act: Action, k: nat)
    requires Enabled(s, act) && k < |s.threads|
    ensures var s' := Next(s, act); k < |s'.threads|
    ensures var s', f := Next(s, act), if act.Drain? && act.i == k then act.freed else [];
            var b := if act == Rotate(k) then s.threads[k].last.full else [];
            && multiset(s.threads[k].free) + multiset(b) == multiset(s'.threads[k].free) + multiset(f)
            && multiset(s.pool) + multiset(f) <= multiset(s'.pool)
  {
  }

  // ------------------------------------------------------------- mode changes in a run

  /** One step of thread k as the windows see it: a rotation ends a window. */
  function WindowAfter(s: State, act: Action, k: nat): seq<Window>
    requires k < |s.threads|
  {
    if act != Rotate(k) then [] else
      var t := s.threads[k];
      var ema := Resampled(t.spiEma, t.winWrites, t.winSnaps);
      [Window(t.winWrites, t.winSnaps, ema, SelectModeHyst(ema, t.gcMode))]
  }

  /** The windows of thread k up to step m, after its initial state. */
  ghost function WindowsOf(run: seq<State>, acts: seq<Action>, k: nat, m: nat): seq<Window>
    requires |run| == |acts| + 1 && m <= |acts| && forall i :: 0 <= i < |run| ==> k < |run[i].threads|
  {
    if m == 0 then [Window(0, 0, 0.0, AggressiveEbr)]
    else WindowsOf(run, acts, k, m - 1) + WindowAfter(run[m - 1], acts[m - 1], k)
  }

  /** The mode that the next drain selects is that of the last window. Between drains the thread may
      still be in the mode of the window before. */
  ghost predicate Selected(w: seq<Window>, t: Thread) {
    && w != [] && Windows(w)
    && w[|w| - 1].ema == t.spiEma && w[|w| - 1].mode == SelectModeHyst(t.spiEma, t.gcMode)
    && (t.gcMode == w[|w| - 1].mode || (t.phase.Draining? && |w| >= 2 && t.gcMode == w[|w| - 2].mode))
  }

  lemma StepSelected(s: State, act: Action, k: nat, w: seq<Window>)
    requires Enabled(s, act) && k < |s.threads| && Selected(w, s.threads[k])
    ensures |Next(s, act).threads| == |s.threads| && Selected(w + WindowAfter(s, act, k), Next(s, act).threads[k])
  {
    hide Resampled, Windows;
    var t, t' := s.threads[k], Next(s, act).threads[k];
    SelectTwice(t.spiEma, t.gcMode);
    assert act != Rotate(k) ==> w + WindowAfter(s, act, k) == w;
    if act == Rotate(k) {
      assert t.gcMode == w[|w| - 1].mode;
      RotateWindow(w, t);
    } else {
      assert t'.spiEma == t.spiEma && (t'.gcMode == t.gcMode || t'.gcMode == SelectModeHyst(t.spiEma, t.gcMode));
    }
  }

  lemma RotateWindow(w: seq<Window>, t: Thread)
    requires w != [] && Windows(w) && w[|w| - 1].ema == t.spiEma && t.gcMode == w[|w| - 1].mode
    ensures var ema := Resampled(t.spiEma, t.winWrites, t.winSnaps);
            Windows(w + [Window(t.winWrites, t.winSnaps, ema, SelectModeHyst(ema, t.gcMode))])
  {
    hide Resampled, SelectModeHyst;
    ResampledBounds(t.spiEma, t.winWrites, t.winSnaps);
    var ema := Resampled(t.spiEma, t.winWrites, t.winSnaps);
    var x := Window(t.winWrites, t.winSnaps, ema, SelectModeHyst(ema, t.gcMode));
    var more := w + [x];
    assert Follows(w[|w| - 1], x);
    forall i | 0 <= i < |more| - 1 ensures Follows(more[i], more[i + 1]) {
      if i < |w| - 1 {
        assert Follows(w[i], w[i + 1]);
      }
    }
  }

  /** A stretch from the initial state, thread k being one of n. */
  ghost predicate FromStart(n: nat, run: seq<State>, acts: seq<Action>, k: nat) {
    && Trace(run, acts) && n > 0 && run[0] == Initial(n)
    && forall i :: 0 <= i < |run| ==> k < |run[i].threads|
  }

  lemma {:induction false} RunSelected(n: nat, run: seq<State>, acts: seq<Action>, k: nat, m: nat)
    requires FromStart(n, run, acts, k) && m <= |acts|
    ensures Selected(WindowsOf(run, acts, k, m), run[m].threads[k])
  {
    hide Selected, Next, Enabled;
    if m == 0 {
      StartSelected(n, k);
    } else {
      RunSelected(n, run, acts, k, m - 1);
      assert Enabled(run[m - 1], acts[m - 1]) && run[m] == Next(run[m - 1], acts[m - 1]);
      StepSelected(run[m - 1], acts[m - 1], k, WindowsOf(run, acts, k, m - 1));
    }
  }

  lemma StartSelected(n: nat, k: nat)
    requires n > 0 && k < |Initial(n).threads|
    ensures Selected([Window(0, 0, 0.0, AggressiveEbr)], Initial(n).threads[k])
  {
    assert Initial(n).threads[k] == NewThread(k == 0);
  }

  lemma {:induction false} WindowsGrow(run: seq<State>, acts: seq<Action>, k: nat, i: nat, j: nat)
    requires |run| == |acts| + 1 && i <= j <= |acts| && forall e :: 0 <= e < |run| ==> k < |run[e].threads|
    ensures WindowsOf(run, acts, k, i) <= WindowsOf(run, acts, k, j)
    decreases j
  {
    hide WindowAfter;
    if i < j {
      WindowsGrow(run, acts, k, i, j - 1);
    }
  }

  /** Step i is a drain of thread k that changes its mode from m, or to m. */
  ghost predicate ModeLeaves(run: seq<State>, i: nat, k: nat, m: GcMode) {
    && i + 1 < |run| && k < |run[i].threads| && k < |run[i + 1].threads|
    && run[i].threads[k].gcMode == m && run[i + 1].threads[k].gcMode != m
  }

  ghost predicate ModeEnters(run: seq<State>, i: nat, k: nat, m: GcMode) {
    && i + 1 < |run| && k < |run[i].threads| && k < |run[i + 1].threads|
    && run[i].threads[k].gcMode != m && run[i + 1].threads[k].gcMode == m
  }

  /** A change of mode shows in the last window, and makes the thread's mode that of the window. */
  lemma ChangeShows(n: nat, run: seq<State>, acts: seq<Action>, k: nat, i: nat, m: GcMode)
    requires FromStart(n, run, acts, k) && i < |acts|
    requires ModeLeaves(run, i, k, m) || ModeEnters(run, i, k, m)
    ensures var w := WindowsOf(run, acts, k, i);
            && WindowsOf(run, acts, k, i + 1) == w
            && (ModeLeaves(run, i, k, m) ==> Leaves(w, |w| - 1, m))
            && (ModeEnters(run, i, k, m) ==> Enters(w, |w| - 1, m))
            && run[i + 1].threads[k].gcMode == w[|w| - 1].mode
  {
    hide Resampled, Windows, Inv;
    RunSelected(n, run, acts, k, i);
    assert Enabled(run[i], acts[i]) && run[i + 1] == Next(run[i], acts[i]);
    OnlyDrainSelects(run[i], acts[i], k);
  }

  lemma OnlyDrainSelects(s: State, act: Action, k: nat)
    requires Enabled(s, act) && k < |s.threads|
    ensures |Next(s, act).threads| == |s.threads|
    ensures var t, t' := s.threads[k], Next(s, act).threads[k];
            t'.gcMode != t.gcMode ==>
              act.Drain? && act.i == k && t'.gcMode == SelectModeHyst(t.spiEma, t.gcMode) && WindowAfter(s, act, k) == []
  {
  }

  /** As long as no window ends, a thread that is in the mode of its window stays in it. */
  lemma {:induction false} ModeStays(n: nat, run: seq<State>, acts: seq<Action>, k: nat, i: nat, j: nat)
    requires FromStart(n, run, acts, k) && i <= j <= |acts|
    requires WindowsOf(run, acts, k, j) == WindowsOf(run, acts, k, i)
    requires var w := WindowsOf(run, acts, k, i); w != [] && run[i].threads[k].gcMode == w[|w| - 1].mode
    ensures var w := WindowsOf(run, acts, k, i); run[j].threads[k].gcMode == w[|w| - 1].mode
    decreases j
  {
    hide Selected, WindowAfter, Next, Enabled, Initial;
    if i < j {
      var w, u := WindowsOf(run, acts, k, i), WindowsOf(run, acts, k, j - 1);
      WindowsGrow(run, acts, k, i, j - 1);
      assert WindowsOf(run, acts, k, j) == u + WindowAfter(run[j - 1], acts[j - 1], k);
      assert |u| == |w| && u == w;
      ModeStays(n, run, acts, k, i, j - 1);
      RunSelected(n, run, acts, k, j - 1);
      assert Enabled(run[j - 1], acts[j - 1]) && run[j] == Next(run[j - 1], acts[j - 1]);
      hide WindowsOf, FromStart;
      StepStays(run[j - 1], acts[j - 1], k, w);
    }
  }

  lemma StepStays(s: State, act: Action, k: nat, w: seq<Window>)
    requires Enabled(s, act) && k < |s.threads| && Selected(w, s.threads[k])
    requires s.threads[k].gcMode == w[|w| - 1].mode && WindowAfter(s, act, k) == []
    ensures |Next(s, act).threads| == |s.threads| && Next(s, act).threads[k].gcMode == w[|w| - 1].mode
  {
    OnlyDrainSelects(s, act, k);
    hide SelectModeHyst, Windows, Next, Enabled;
  }

  /** The windows that end for thread k in the steps from i to j, one for each of its rotations. */
  ghost function Rotations(run: seq<State>, acts: seq<Action>, k: nat, i: nat, j: nat): int
    requires |run| == |acts| + 1 && i <= j <= |acts| && forall e :: 0 <= e < |run| ==> k < |run[e].threads|
  {
    |WindowsOf(run, acts, k, j)| - |WindowsOf(run, acts, k, i)|
  }

  /** A thread that changes its mode twice ends a window between the changes. */
  lemma NewWindow(n: nat, run: seq<State>, acts: seq<Action>, k: nat, i: nat, j: nat, m: GcMode)
    requires FromStart(n, run, acts, k) && i < j < |acts|
    requires (ModeLeaves(run, i, k, m) && ModeLeaves(run, j, k, m)) || (ModeEnters(run, i, k, m) && ModeEnters(run, j, k, m))
    ensures var x, w := WindowsOf(run, acts, k, i), WindowsOf(run, acts, k, j);
            && 0 < |x| < |w| && x <= w && Windows(w)
            && ((Leaves(w, |x| - 1, m) && Leaves(w, |w| - 1, m)) || (Enters(w, |x| - 1, m) && Enters(w, |w| - 1, m)))
  {
    hide Resampled, Windows, Next, Enabled, WindowsOf;
    var x, w := WindowsOf(run, acts, k, i), WindowsOf(run, acts, k, j);
    ChangeShows(n, run, acts, k, i, m);
    ChangeShows(n, run, acts, k, j, m);
    WindowsGrow(run, acts, k, i, j);
    RunSelected(n, run, acts, k, j);
    hide FromStart, Selected, SelectModeHyst;
    if |w| == |x| {
      assert w == x;
      ModeStays(n, run, acts, k, i + 1, j);
      assert false;
    }
  }

  /** In every run, between two departures of a thread from AggressiveEbr, or two arrivals at it, it
      rotates its bags at least four times, and likewise for ConservativeHold; the mode is selected again at
      every startOp, which makes no difference. */
  lemma NoFlappingInRun(n: nat, run: seq<State>, acts: seq<Action>, k: nat, i: nat, j: nat, m: GcMode)
    requires FromStart(n, run, acts, k) && i < j < |acts| && m != AmortisedFree
    requires (ModeLeaves(run, i, k, m) && ModeLeaves(run, j, k, m)) || (ModeEnters(run, i, k, m) && ModeEnters(run, j, k, m))
    ensures Rotations(run, acts, k, i, j) >= 4
  {
    hide Windows, Enters, Leaves, WindowsOf, Next, Enabled, Initial, ModeLeaves, ModeEnters;
    NewWindow(n, run, acts, k, i, j, m);
    NoFlapping(WindowsOf(run, acts, k, j), |WindowsOf(run, acts, k, i)| - 1, |WindowsOf(run, acts, k, j)| - 1);
  }
}
