/** Whose slot is whose: every registered thread has a slot of its own, so that a
    snapshot pins what it announces whatever other threads do with theirs. */
module PinSlots {
  import opened LimboBags
  import opened PinSystem

  // ------------------------------------------------------------------------ slots

  /** Slots are given out one by one, none of them twice. */
  predicate OwnSlots(s: State) {
    && (forall i :: 0 <= i < |s.workers| && !s.workers[i].phase.Fresh? ==> s.workers[i].tid < s.activeCount)
    && (forall i, j :: 0 <= i < j < |s.workers| && !s.workers[i].phase.Fresh? && !s.workers[j].phase.Fresh? ==>
          s.workers[i].tid != s.workers[j].tid)
  }

  /** What a step does to the slot number of thread j. */
  lemma StepTid(s: State, act: Action, j: nat)
    requires Enabled(s, act) && j < |s.workers|
    ensures var s' := Next(s, act);
            && |s'.workers| == |s.workers| && s.activeCount <= s'.activeCount
            && var w, w' := s.workers[j], s'.workers[j];
               if act == Register(j) then w.phase.Fresh? && w'.tid == s.activeCount < s'.activeCount && !w'.phase.Fresh?
               else w'.tid == w.tid && (w'.phase.Fresh? <==> w.phase.Fresh?)
  {
    hide Smaller, DrainCount;
  }

  lemma StepOwnSlots(s: State, act: Action)
    requires Enabled(s, act) && OwnSlots(s)
    ensures OwnSlots(Next(s, act))
  {
    var s' := Next(s, act);
    forall j | 0 <= j < |s.workers|
      ensures |s'.workers| == |s.workers| && (!s'.workers[j].phase.Fresh? ==> s'.workers[j].tid < s'.activeCount)
    {
      StepTid(s, act, j);
    }
    forall i, j | 0 <= i < j < |s'.workers| && !s'.workers[i].phase.Fresh? && !s'.workers[j].phase.Fresh?
      ensures s'.workers[i].tid != s'.workers[j].tid
    {
      StepTid(s, act, i);
      StepTid(s, act, j);
      hide Next, Enabled;
    }
  }

  /** In every run, registered threads have different slots, all of them among those that scans read. */
  lemma {:induction false} SlotsDiffer(n: nat, size: nat, run: seq<State>, acts: seq<Action>, m: nat)
    requires Run(n, size, run, acts) && m < |run|
    ensures OwnSlots(run[m])
  {
    hide Next, Enabled, OwnSlots;
    if m == 0 {
      StartSlots(n, size);
    } else {
      SlotsDiffer(n, size, run, acts, m - 1);
      StepAt(n, size, run, acts, m - 1);
      StepOwnSlots(run[m - 1], acts[m - 1]);
    }
  }

  lemma StartSlots(n: nat, size: nat)
    ensures OwnSlots(Initial(n, size))
  {
  }

  // --------------------------------------------------------------- announcements

  /** In the steps from u up to t, thread a announces nothing, and releases nothing unless v is 0. */
  ghost predicate Unchanged(acts: seq<Action>, a: nat, v: nat, u: nat, t: nat) {
    t <= |acts| && forall m :: u <= m < t && acts[m].i == a ==> !acts[m].Announce? && (acts[m].Release? ==> v == 0)
  }

  lemma StepSlot(s: State, act: Action, a: nat, v: nat)
    requires Enabled(s, act) && OwnSlots(s) && a < |s.workers| && !s.workers[a].phase.Fresh?
    requires s.workers[a].tid < |s.slots| && s.slots[s.workers[a].tid] == v
    requires act.i == a ==> !act.Announce? && (act.Release? ==> v == 0)
    ensures var s' := Next(s, act);
            && |s'.workers| == |s.workers| && |s'.slots| == |s.slots|
            && s'.workers[a].tid == s.workers[a].tid && !s'.workers[a].phase.Fresh?
            && s'.slots[s.workers[a].tid] == v
  {
    StepTid(s, act, a);
    StepSize(s, act);
    hide Smaller, DrainCount;
  }

  lemma {:induction false} Holds(n: nat, size: nat, run: seq<State>, acts: seq<Action>, a: nat, j: nat, v: nat, u: nat, t: nat)
    requires Run(n, size, run, acts) && u <= t < |run| && Unchanged(acts, a, v, u, t)
    requires a < |run[u].workers| && !run[u].workers[a].phase.Fresh? && run[u].workers[a].tid == j
    requires j < |run[u].slots| && run[u].slots[j] == v
    ensures a < |run[t].workers| && run[t].workers[a].tid == j && !run[t].workers[a].phase.Fresh?
    ensures Stays(run, j, v, u, t)
    decreases t
  {
    hide Next, Enabled, OwnSlots, Initial;
    if u < t {
      Holds(n, size, run, acts, a, j, v, u, t - 1);
      SlotsDiffer(n, size, run, acts, t - 1);
      StepAt(n, size, run, acts, t - 1);
      assert run[t - 1].slots[j] == v;
      StepSlot(run[t - 1], acts[t - 1], a, v);
    }
  }

  lemma Announces(s: State, act: Action, v: nat)
    requires Enabled(s, act) && (act.Announce? || act.Release?) && v == (if act.Announce? then act.ts else 0)
    ensures var s' := Next(s, act);
            && act.i < |s'.workers| && s'.workers == s.workers && !s'.workers[act.i].phase.Fresh?
            && s'.workers[act.i].tid < |s'.slots| && s'.slots[s'.workers[act.i].tid] == v
  {
  }

  /** What thread a announces at step u stays in its slot until its own next announcement or release, whatever
      other threads do; and after a release the slot is empty until its next announcement. */
  lemma Announced(n: nat, size: nat, run: seq<State>, acts: seq<Action>, a: nat, u: nat, t: nat) returns (j: nat)
    requires Run(n, size, run, acts) && u < t < |run| && acts[u].i == a && (acts[u].Announce? || acts[u].Release?)
    requires Unchanged(acts, a, if acts[u].Announce? then acts[u].ts else 0, u + 1, t)
    ensures a < |run[t].workers| && run[t].workers[a].tid == j < run[u + 1].activeCount
    ensures Stays(run, j, if acts[u].Announce? then acts[u].ts else 0, u + 1, t)
  {
    hide Next, Enabled, Initial;
    var v := if acts[u].Announce? then acts[u].ts else 0;
    StepAt(n, size, run, acts, u);
    Announces(run[u], acts[u], v);
    j := run[u + 1].workers[a].tid;
    SlotsDiffer(n, size, run, acts, u + 1);
    Holds(n, size, run, acts, a, j, v, u + 1, t);
  }

  /** Snapshots pin: from the moment a thread has announced ts until it announces or releases again, no scan
      that begins and ends in between leads to a drain of a node born at ts or later. */
  lemma SnapshotPins(n: nat, size: nat, run: seq<State>, acts: seq<Action>,
                     a: nat, ts: nat, u: nat, b: nat, p: nat, t: nat, d: nat)
    requires Run(n, size, run, acts) && u < p < t < d < |acts|
    requires acts[u] == Announce(a, ts) && ts > 0 && Unchanged(acts, a, ts, u + 1, t)
    requires OneScan(acts, b, p, t) && acts[t] == EndScan(b)
    requires acts[d].Drain? && acts[d].i == b && Absent(acts, b, t + 1, d)
    ensures run[d].freed <= run[d + 1].freed && Upto(run[d + 1].freed[|run[d].freed|..], ts)
  {
    hide Next, Enabled, Initial, Upto, Absent;
    var j := Announced(n, size, run, acts, a, u, t);
    CountGrows(n, size, run, acts, u + 1, p);
    assert Stays(run, j, ts, p, t);
    DrainRespectsPins(n, size, run, acts, b, p, t, d, j, ts);
  }

  // ----------------------------------------------------------------- what a scan saw

  /** Some slot held this timestamp at a moment from p to t. */
  ghost predicate SomeSlot(run: seq<State>, ts: nat, p: nat, t: nat) {
    exists m, j :: p <= m <= t && m < |run| && 0 <= j < |run[m].slots| && run[m].slots[j] == ts
  }

  /** A scan reports no more than it saw: its result was announced in some slot while it went on. */
  lemma {:induction false} ScanSaw(n: nat, size: nat, run: seq<State>, acts: seq<Action>, b: nat, p: nat, t: nat)
    requires Run(n, size, run, acts) && OneScan(acts, b, p, t)
    ensures b < |run[t].workers|
    ensures var min := run[t].workers[b].min; min.Pinned? ==> min.ts > 0 && SomeSlot(run, min.ts, p, t)
    decreases t
  {
    hide Next, Enabled, Initial, Inv;
    var u := t - 1;
    RunInv(n, size, run, acts, u);
    StepAt(n, size, run, acts, u);
    if u == p {
      ScanStarts(run[p], b);
    } else {
      ScanSaw(n, size, run, acts, b, p, u);
      SawMore(run[u], acts[u], b);
      var min, min' := run[u].workers[b].min, run[t].workers[b].min;
      if min'.Pinned? && min' != min {
        assert run[u].slots[run[u].workers[b].at] == min'.ts;
      }
    }
  }

  lemma SawMore(s: State, act: Action, b: nat)
    requires Enabled(s, act) && b < |s.workers| && (act.i == b ==> act.ReadSlot?)
    ensures |Next(s, act).workers| == |s.workers|
    ensures var w, w' := s.workers[b], Next(s, act).workers[b];
            w'.min == w.min || (w.at < |s.slots| && w'.min == Pinned(s.slots[w.at]) && s.slots[w.at] > 0)
  {
    if act.i != b {
      OthersKept(s, act, b);
    }
  }

  // ---------------------------------------------------------------- epoch advances

  lemma StepEpoch(s: State, act: Action)
    requires Enabled(s, act)
    ensures s.epoch <= Next(s, act).epoch && s.advances <= Next(s, act).advances
  {
    hide Smaller, DrainCount;
  }

  lemma {:induction false} EpochGrows(n: nat, size: nat, run: seq<State>, acts: seq<Action>, p: nat, q: nat)
    requires Run(n, size, run, acts) && p <= q < |run|
    ensures run[p].epoch <= run[q].epoch
    decreases q
  {
    hide Initial, Next, Enabled;
    if p < q {
      EpochGrows(n, size, run, acts, p, q - 1);
      StepAt(n, size, run, acts, q - 1);
      StepEpoch(run[q - 1], acts[q - 1]);
    }
  }

  /** An attempt to advance the epoch, loaded at step u and tried at step t, succeeds if and only if no write and
      no other advance moved the epoch in between. */
  lemma AdvancesAlone(n: nat, size: nat, run: seq<State>, acts: seq<Action>, i: nat, u: nat, t: nat)
    requires Run(n, size, run, acts) && u < t < |acts|
    requires acts[u] == LoadEpoch(i) && acts[t] == CasEpoch(i) && Absent(acts, i, u + 1, t)
    ensures run[t + 1].epoch == run[t].epoch + if run[t].epoch == run[u].epoch then 1 else 0
    ensures run[t + 1].advances == run[t].advances + if run[t].epoch == run[u].epoch then 1 else 0
    ensures run[u].epoch <= run[t].epoch
  {
    RunInv(n, size, run, acts, u + 1);
    StepAt(n, size, run, acts, u);
    StepAt(n, size, run, acts, t);
    assert run[u + 1].workers[i].cur == run[u].epoch;
    hide Inv, Run, Initial;
    MinKept(n, size, run, acts, i, u + 1, t);
    EpochGrows(n, size, run, acts, u, t);
  }
}
