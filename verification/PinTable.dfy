/** The announcement table when it is full: which registrations and scans fail,
    in every interleaving. */
module PinTable {
  import opened PinSystem

  // ----------------------------------------------------------- who fails, and when

  lemma NobodyDiesNow(s: State, act: Action)
    requires Inv(s) && Enabled(s, act) && Next(s, act).activeCount <= |s.slots|
    requires forall b :: 0 <= b < |s.workers| ==> !s.workers[b].phase.Dead?
    ensures |Next(s, act).workers| == |s.workers|
    ensures forall b :: 0 <= b < |s.workers| ==> !Next(s, act).workers[b].phase.Dead?
  {
    assert WorkerOk(s, s.workers[act.i]);
  }

  lemma {:induction false} NobodyDies(n: nat, size: nat, run: seq<State>, acts: seq<Action>, m: nat)
    requires Run(n, size, run, acts) && m < |run| && run[m].activeCount <= size
    ensures |run[m].workers| == n && forall b :: 0 <= b < n ==> !run[m].workers[b].phase.Dead?
  {
    hide Inv, Next, Enabled;
    RunInv(n, size, run, acts, m);
    if m > 0 {
      CountGrows(n, size, run, acts, m - 1, m);
      NobodyDies(n, size, run, acts, m - 1);
      RunInv(n, size, run, acts, m - 1);
      StepAt(n, size, run, acts, m - 1);
      NobodyDiesNow(run[m - 1], acts[m - 1]);
    }
  }

  /** A failed thread takes no more steps. */
  lemma DeadStep(s: State, act: Action, b: nat)
    requires Enabled(s, act) && b < |s.workers| && s.workers[b].phase.Dead?
    ensures |Next(s, act).workers| == |s.workers| && Next(s, act).workers[b].phase.Dead?
  {
    OthersKept(s, act, b);
  }

  /** The count passes the table in a registration, and its thread fails. */
  lemma Overflowing(s: State, act: Action)
    requires Enabled(s, act) && s.activeCount <= |s.slots| < Next(s, act).activeCount
    ensures act.Register? && |Next(s, act).workers| == |s.workers| && Next(s, act).workers[act.i].phase.Dead?
  {
  }

  lemma {:induction false} SomebodyDies(n: nat, size: nat, run: seq<State>, acts: seq<Action>, m: nat) returns (b: nat)
    requires Run(n, size, run, acts) && m < |run| && run[m].activeCount > size
    ensures b < n == |run[m].workers| && run[m].workers[b].phase.Dead?
  {
    hide Inv, Next, Enabled;
    RunInv(n, size, run, acts, m - 1);
    RunInv(n, size, run, acts, m);
    StepAt(n, size, run, acts, m - 1);
    if run[m - 1].activeCount > size {
      b := SomebodyDies(n, size, run, acts, m - 1);
      DeadStep(run[m - 1], acts[m - 1], b);
    } else {
      b := acts[m - 1].i;
      Overflowing(run[m - 1], acts[m - 1]);
    }
  }

  /** At every moment of every run: no thread has failed, in a registration or in a scan, if and only if
      no more threads have registered than there are slots. */
  lemma DiesIff(n: nat, size: nat, run: seq<State>, acts: seq<Action>, m: nat)
    requires Run(n, size, run, acts) && m < |run|
    ensures |run[m].workers| == n
    ensures (forall b :: 0 <= b < n ==> !run[m].workers[b].phase.Dead?) <==> run[m].activeCount <= size
  {
    RunInv(n, size, run, acts, m);
    if run[m].activeCount <= size {
      NobodyDies(n, size, run, acts, m);
    } else {
      var b := SomebodyDies(n, size, run, acts, m);
    }
  }

  // -------------------------------------------------------------- the fate of a scan

  /** Slots read by thread b in the steps from p up to t. */
  function Reads(acts: seq<Action>, b: nat, p: nat, t: nat): nat
    requires t <= |acts|
  {
    if t <= p then 0 else Reads(acts, b, p, t - 1) + if acts[t - 1] == ReadSlot(b) then 1 else 0
  }

  /** A scan goes on over as many slots as were registered when it began, and fails at the first that
      the table does not have. */
  lemma {:induction false} ScanGoes(n: nat, size: nat, run: seq<State>, acts: seq<Action>, b: nat, p: nat, t: nat)
    requires Run(n, size, run, acts) && OneScan(acts, b, p, t)
    ensures b < |run[t].workers|
    ensures var w, count, seen := run[t].workers[b], run[p].activeCount, Reads(acts, b, p, t);
            if seen <= size then w.phase.Scanning? && w.n == count && w.at == seen <= count
            else w.phase.Dead? && seen == size + 1 <= count
    decreases t
  {
    hide Inv, Initial, Next, Enabled;
    RunInv(n, size, run, acts, t - 1);
    StepAt(n, size, run, acts, t - 1);
    if t - 1 == p {
      ScanStarts(run[p], b);
      assert Reads(acts, b, p, p) == 0;
    } else {
      ScanGoes(n, size, run, acts, b, p, t - 1);
      if acts[t - 1].i == b {
        OneRead(run[t - 1], b);
      } else {
        OthersKept(run[t - 1], acts[t - 1], b);
      }
    }
  }

  lemma OneRead(s: State, b: nat)
    requires Enabled(s, ReadSlot(b))
    ensures var s', w := Next(s, ReadSlot(b)), s.workers[b];
            && |s'.workers| == |s.workers| && w.phase.Scanning? && w.at < w.n
            && var w' := s'.workers[b];
               if w.at < |s.slots| then w'.phase.Scanning? && w'.n == w.n && w'.at == w.at + 1 else w'.phase.Dead?
  {
  }

  /** A scan that began when the count was past the table never ends; any other never fails, and ends
      after as many reads as there were registered slots. */
  lemma ScanFate(n: nat, size: nat, run: seq<State>, acts: seq<Action>, b: nat, p: nat, t: nat)
    requires Run(n, size, run, acts) && OneScan(acts, b, p, t)
    ensures b < |run[t].workers|
    ensures Enabled(run[t], EndScan(b)) <==> run[p].activeCount <= size && Reads(acts, b, p, t) == run[p].activeCount
    ensures run[t].workers[b].phase.Dead? <==> run[p].activeCount > size && Reads(acts, b, p, t) > size
  {
    ScanGoes(n, size, run, acts, b, p, t);
  }

  // ------------------------------------------------------------------- the witness

  function Registrations(k: nat): seq<Action> {
    if k == 0 then [] else Registrations(k - 1) + [Register(k - 1)]
  }

  function SlotReads(k: nat): seq<Action> {
    if k == 0 then [] else SlotReads(k - 1) + [ReadSlot(0)]
  }

  lemma RunOn(n: nat, size: nat, run: seq<State>, acts: seq<Action>, act: Action)
    requires Run(n, size, run, acts) && Enabled(run[|acts|], act)
    ensures Run(n, size, run + [Next(run[|acts|], act)], acts + [act])
  {
    hide Initial, Next, Enabled;
    var r, a := run + [Next(run[|acts|], act)], acts + [act];
    forall m | 0 <= m < |a| ensures Enabled(r[m], a[m]) && r[m + 1] == Next(r[m], a[m]) {
      if m < |acts| {
        StepAt(n, size, run, acts, m);
      }
    }
  }

  /** The first k of the threads have registered; all of them are one more than the slots. */
  ghost predicate Registered(s: State, size: nat, k: nat) {
    && |s.slots| == size && |s.workers| == size + 1 && s.activeCount == k <= size + 1
    && (forall i :: 0 <= i < size + 1 ==>
          if i >= k then s.workers[i].phase.Fresh? else if i < size then s.workers[i].phase.Idle? else s.workers[i].phase.Dead?)
  }

  lemma {:induction false} RegisterAll(size: nat, k: nat) returns (run: seq<State>)
    requires k <= size + 1
    ensures Run(size + 1, size, run, Registrations(k)) && Registered(run[|run| - 1], size, k)
  {
    if k == 0 {
      run := [Initial(size + 1, size)];
    } else {
      hide Run, Registered, Next, Enabled;
      var acts := Registrations(k - 1);
      var r := RegisterAll(size, k - 1);
      SameLength(size + 1, size, r, acts);
      OneRegisters(r[|acts|], size, k - 1);
      RunOn(size + 1, size, r, acts, Register(k - 1));
      run := r + [Next(r[|acts|], Register(k - 1))];
    }
  }

  lemma OneRegisters(s: State, size: nat, k: nat)
    requires k <= size && Registered(s, size, k)
    ensures Enabled(s, Register(k)) && Registered(Next(s, Register(k)), size, k + 1)
  {
  }

  lemma SameLength(n: nat, size: nat, run: seq<State>, acts: seq<Action>)
    requires Run(n, size, run, acts)
    ensures |run| == |acts| + 1
  {
  }

  /** Thread 0 has read j slots, and thread `size` has failed. */
  ghost predicate Scans(s: State, size: nat, j: nat) {
    && |s.slots| == size && |s.workers| == size + 1 && s.workers[size].phase.Dead?
    && s.workers[0].phase.Scanning? && s.workers[0].n == size + 1 && s.workers[0].at == j <= size
  }

  lemma {:induction false} ScanUpTo(size: nat, j: nat) returns (run: seq<State>)
    requires size > 0 && j <= size
    ensures Run(size + 1, size, run, Registrations(size + 1) + [BeginScan(0)] + SlotReads(j))
    ensures Scans(run[|run| - 1], size, j)
  {
    hide Run, Initial;
    var acts, act, r := Registrations(size + 1), BeginScan(0), [];
    if j == 0 {
      r := RegisterAll(size, size + 1);
      assert acts + [act] + SlotReads(0) == acts + [act];
    } else {
      r := ScanUpTo(size, j - 1);
      act := ReadSlot(0);
      assert acts + [BeginScan(0)] + SlotReads(j) == (acts + [BeginScan(0)] + SlotReads(j - 1)) + [act];
      acts := acts + [BeginScan(0)] + SlotReads(j - 1);
    }
    SameLength(size + 1, size, r, acts);
    RunOn(size + 1, size, r, acts, act);
    run := r + [Next(r[|r| - 1], act)];
  }

  /** For every size of the table: one thread more than there are slots registers and fails; then the scan
      of thread 0, which had registered before, reads the whole table and fails at the read after it. */
  lemma FullTable(size: nat) returns (run: seq<State>)
    requires size > 0
    ensures Run(size + 1, size, run, Registrations(size + 1) + [BeginScan(0)] + SlotReads(size + 1))
    ensures var s, s' := run[|run| - 2], run[|run| - 1];
            && |s.workers| == |s'.workers| == size + 1
            && s.workers[size].phase.Dead? && s.workers[0].phase.Scanning? && s.workers[0].at == size
            && s'.workers[0].phase.Dead?
  {
    hide Run, Initial;
    var r := ScanUpTo(size, size);
    var acts := Registrations(size + 1) + [BeginScan(0)] + SlotReads(size);
    assert Registrations(size + 1) + [BeginScan(0)] + SlotReads(size + 1) == acts + [ReadSlot(0)];
    SameLength(size + 1, size, r, acts);
    RunOn(size + 1, size, r, acts, ReadSlot(0));
    run := r + [Next(r[|r| - 1], ReadSlot(0))];
  }
}
