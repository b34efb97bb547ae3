/** The reclaimer object as one thread at a time runs it: each method is a
    sequence of the steps of the ring. Its bags hold pointers, of any type; the
    ring names a node by the time of its retirement, and `at` maps names to pointers. */
module RingReclaimer {
  import opened PacerModes
  import opened RingSystem
  import opened RingProofs

  ghost function Ptrs<P>(names: seq<nat>, at: nat -> P): (r: seq<P>)
    ensures |r| == |names| && forall i :: 0 <= i < |names| ==> r[i] == at(names[i])
  {
    seq(|names|, i requires 0 <= i < |names| => at(names[i]))
  }

  ghost function PtrBag<P>(b: Bag<nat>, at: nat -> P): Bag<P> {
    Bag(Ptrs(b.full, at), Ptrs(b.head, at))
  }

  lemma PtrsAppend<P>(xs: seq<nat>, ys: seq<nat>, at: nat -> P)
    ensures Ptrs(xs + ys, at) == Ptrs(xs, at) + Ptrs(ys, at)
  {
  }

  /** A new name does not change what the old ones stand for. */
  ghost function Named<P>(at: nat -> P, name: nat, p: P): nat -> P {
    (x: nat) => if x == name then p else at(x)
  }

  lemma OldNames<P>(xs: seq<nat>, at: nat -> P, name: nat, p: P)
    requires Below(xs, name)
    ensures Ptrs(xs, Named(at, name, p)) == Ptrs(xs, at)
  {
    forall i | 0 <= i < |xs| ensures Ptrs(xs, Named(at, name, p))[i] == Ptrs(xs, at)[i] {
      assert xs[i] in xs;
    }
  }

  class ThreadData<P> {
    var token: int
    var tokenCount: int
    var curr: Bag<P>
    var last: Bag<P>
    var deamortizedFreeables: seq<P>
    var winWrites: nat
    var winSnaps: nat
    var spiEma: real
    var holdTicks: nat
    var gcMode: GcMode

    constructor (first: bool)
      ensures token == (if first then 1 else 0) && tokenCount == 0
      ensures curr == Bag([], []) && last == Bag([], []) && deamortizedFreeables == []
      ensures winWrites == 0 && winSnaps == 0 && spiEma == 0.0 && holdTicks == 0 && gcMode == AggressiveEbr
    {
      token, tokenCount := if first then 1 else 0, 0;
      curr, last, deamortizedFreeables := Bag([], []), Bag([], []), [];
      winWrites, winSnaps, spiEma, holdTicks, gcMode := 0, 0, 0.0, 0, AggressiveEbr;
    }

    /** These fields are those of thread t of the ring. */
    ghost predicate Is(t: Thread, at: nat -> P)
      reads this
    {
      && token == (if t.token then 1 else 0)
      && curr == PtrBag(t.curr, at) && last == PtrBag(t.last, at) && deamortizedFreeables == Ptrs(t.free, at)
      && winWrites == t.winWrites && winSnaps == t.winSnaps && spiEma == t.spiEma
      && holdTicks == t.holdTicks && gcMode == t.gcMode
    }

    method RotateEpochBags()
      modifies this`curr, this`last, this`deamortizedFreeables
      ensures deamortizedFreeables == old(deamortizedFreeables) + old(last).full
      ensures last == old(curr)
      ensures curr == Bag([], old(last).head)
    {
      var freeable := last;
      deamortizedFreeables := deamortizedFreeables + freeable.full;
      freeable := Bag([], freeable.head);
      last := curr;
      curr := freeable;
    }

    method ResampleSpi()
      modifies this`winWrites, this`winSnaps, this`spiEma
      ensures spiEma == Resampled(old(spiEma), old(winWrites), old(winSnaps)) && winWrites == 0 && winSnaps == 0
    {
      var total := winWrites + winSnaps;
      if total > 0 {
        var winSpi := winSnaps as real / (total + 1) as real;
        spiEma := spiEma * (1.0 - EMA_ALPHA) + winSpi * EMA_ALPHA;
        winWrites := 0;
        winSnaps := 0;
      }
    }
  }

  class Reclaimer<P> {
    const threadData: seq<ThreadData<P>>
    var pool: seq<P>
    ghost var sys: State
    ghost var at: nat -> P

    function Data(tid: nat): ThreadData<P>
      requires tid < |threadData|
    {
      threadData[tid]
    }

    ghost predicate Valid()
      reads this, threadData
    {
      && Inv(sys)
      && |threadData| == |sys.threads|
      && (forall i, j :: 0 <= i < j < |threadData| ==> threadData[i] != threadData[j])
      && (forall i :: 0 <= i < |threadData| ==> threadData[i].Is(sys.threads[i], at))
      && pool == Ptrs(sys.pool, at)
    }

    constructor (numProcesses: nat, ghost some: P)
      requires numProcesses > 0
      ensures Valid() && sys == Initial(numProcesses)
    {
      var tds: seq<ThreadData<P>> := [];
      for tid := 0 to numProcesses
        invariant |tds| == tid
        invariant forall i, j :: 0 <= i < j < tid ==> tds[i] != tds[j]
        invariant forall i :: 0 <= i < tid ==> fresh(tds[i]) && tds[i].Is(NewThread(i == 0), _ => some)
      {
        var td := new ThreadData(tid == 0);
        tds := tds + [td];
      }
      threadData := tds;
      pool := [];
      sys := Initial(numProcesses);
      at := _ => some;
      new;
      InitialInv(numProcesses);
      assert forall i :: 0 <= i < numProcesses ==> sys.threads[i] == NewThread(i == 0);
    }

    /** retire: only the bag being filled by this thread changes; it gains the pointer p. */
    method Retire(tid: nat, p: P, closes: bool)
      requires Valid() && tid < |threadData| && sys.threads[tid].phase.Idle?
      modifies Data(tid)`curr, this`sys, this`at
      ensures Valid() && sys == Next(old(sys), RingSystem.Retire(tid, closes))
      ensures threadData[tid].curr == old(threadData[tid].curr).Add(p, closes)
      ensures at == Named(old(at), old(sys.clock), p)
    {
      hide Inv;
      ghost var act := RingSystem.Retire(tid, closes);
      StepInv(sys, act);
      RetireEffect(sys, tid, closes);
      forall i | 0 <= i < |threadData| ensures Renamed(sys.threads[i], at, sys.clock, p) {
        OldThread(sys, i, at, p);
      }
      OldPool(sys, at, p);
      RetiredBag(sys, tid, at, p, closes);
      threadData[tid].curr := threadData[tid].curr.Add(p, closes);
      at := Named(at, sys.clock, p);
      sys := Next(sys, act);
    }

    /** startOp: the steps of the ring in order, the drain being the one that the new pool shows. */
    method StartOp(tid: nat, readOnly: bool) returns (rotated: bool)
      requires Valid() && tid < |threadData| && sys.threads[tid].phase.Idle?
      modifies threadData[tid], Data((tid + 1) % |threadData|)`token, this`pool, this`sys
      ensures Valid() && rotated == old(sys).threads[tid].token
      ensures old(sys).pool <= sys.pool && old(pool) <= pool
      ensures var act := Drain(tid, sys.pool[|old(sys).pool|..], sys.threads[tid].free);
              && Enabled(Opened(old(sys), tid, readOnly), act)
              && sys == Next(Opened(old(sys), tid, readOnly), act)
      ensures var td, ro := threadData[tid], if readOnly then 1 else 0;
              var w, s := old(threadData[tid].winWrites) + 1 - ro, old(threadData[tid].winSnaps) + ro;
              if rotated then td.winWrites == td.winSnaps == 0 && td.spiEma == Resampled(old(threadData[tid].spiEma), w, s)
              else td.winWrites == w && td.winSnaps == s && td.spiEma == old(threadData[tid].spiEma)
    {
      hide Inv, Next, Enabled, Opened;
      rotated := Open(tid, readOnly);
      OpenedEffect(old(sys), tid, readOnly);
      DrainTick(tid);
    }

    /** startOp up to its drain. */
    method Open(tid: nat, readOnly: bool) returns (rotated: bool)
      requires Valid() && tid < |threadData| && sys.threads[tid].phase.Idle?
      modifies threadData[tid], Data((tid + 1) % |threadData|)`token, this`sys
      ensures Valid() && rotated == old(sys).threads[tid].token
      ensures sys == Opened(old(sys), tid, readOnly)
      ensures var td, ro := threadData[tid], if readOnly then 1 else 0;
              var w, s := old(threadData[tid].winWrites) + 1 - ro, old(threadData[tid].winSnaps) + ro;
              if rotated then td.winWrites == td.winSnaps == 0 && td.spiEma == Resampled(old(threadData[tid].spiEma), w, s)
              else td.winWrites == w && td.winSnaps == s && td.spiEma == old(threadData[tid].spiEma)
    {
      hide Inv, Next, Enabled, Opened, Rotated, Resampled, Ptrs, PtrBag;
      OpenedInv(sys, tid, readOnly);
      rotated := OpenFields(tid, readOnly);
      OpenedEffect(sys, tid, readOnly);
      OpenedCounts(sys, tid, readOnly);
      sys := Opened(sys, tid, readOnly);
    }

    /** What startOp does to the fields before its drain. */
    method OpenFields(tid: nat, readOnly: bool) returns (rotated: bool)
      requires Valid() && tid < |threadData| && sys.threads[tid].phase.Idle?
      modifies threadData[tid], Data((tid + 1) % |threadData|)`token
      ensures rotated == sys.threads[tid].token
      ensures var o := Opened(sys, tid, readOnly);
              |o.threads| == |threadData| && forall i :: 0 <= i < |threadData| ==> threadData[i].Is(o.threads[i], at)
    {
      hide Inv, Next, Enabled, Opened, Rotated, Resampled, Ptrs, PtrBag;
      ghost var t := Counted(sys.threads[tid], readOnly);
      CountOp(tid, readOnly);
      rotated := threadData[tid].token != 0;
      if rotated {
        Receive(tid, t);
        ReceivedThreads(sys, tid, readOnly);
      } else {
        OpenedEffect(sys, tid, readOnly);
      }
    }

    method CountOp(tid: nat, readOnly: bool)
      requires tid < |threadData| && tid < |sys.threads| && threadData[tid].Is(sys.threads[tid], at)
      modifies Data(tid)`winSnaps, Data(tid)`winWrites
      ensures threadData[tid].Is(Counted(sys.threads[tid], readOnly), at)
    {
      var td := threadData[tid];
      if readOnly {
        td.winSnaps := td.winSnaps + 1;
      } else {
        td.winWrites := td.winWrites + 1;
      }
    }

    /** The token is handed on before the bags are rotated. */
    method Receive(tid: nat, ghost t: Thread)
      requires tid < |threadData| && threadData[tid].Is(t, at) && t.token
      requires forall i, j :: 0 <= i < j < |threadData| ==> threadData[i] != threadData[j]
      modifies threadData[tid], Data((tid + 1) % |threadData|)`token
      ensures var k := (tid + 1) % |threadData|;
              && threadData[k].token == 1 && (k != tid ==> threadData[tid].token == 0)
      ensures var td, u := threadData[tid], Rotated(t);
              td.Is(u.(token := td.token == 1), at)
    {
      var td := threadData[tid];
      td.token := 0;
      var k := (tid + 1) % |threadData|;
      threadData[k].token := 1;
      td.tokenCount := td.tokenCount + 1;
      td.ResampleSpi();
      td.RotateEpochBags();
      PtrsAppend(t.free, t.last.full, at);
    }

    /** The mode-gated drain at the end of startOp. */
    method DrainTick(tid: nat)
      requires Valid() && tid < |threadData| && sys.threads[tid].phase.Draining?
      modifies Data(tid)`gcMode, Data(tid)`holdTicks, Data(tid)`deamortizedFreeables, this`pool, this`sys
      ensures Valid() && old(sys).pool <= sys.pool && old(pool) <= pool
      ensures var act := Drain(tid, sys.pool[|old(sys).pool|..], sys.threads[tid].free);
              Enabled(old(sys), act) && sys == Next(old(sys), act)
    {
      hide Inv, Next, Enabled, Plan, Ptrs, PtrBag;
      ghost var freed, kept := GatedDrain(threadData[tid], sys.threads[tid]);
      DrainEffect(sys, tid, freed, kept);
      StepInv(sys, Drain(tid, freed, kept));
      PtrsAppend(sys.pool, freed, at);
      sys := Next(sys, Drain(tid, freed, kept));
      assert sys.pool[|old(sys).pool|..] == freed;
    }

    /** Returns the names of the nodes freed and of those kept. */
    method GatedDrain(td: ThreadData<P>, ghost t: Thread) returns (ghost freed: seq<nat>, ghost kept: seq<nat>)
      requires td.Is(t, at)
      modifies td`gcMode, td`holdTicks, td`deamortizedFreeables, this`pool
      ensures td.gcMode == Plan(t).0 && td.holdTicks == Plan(t).1
      ensures multiset(freed) + multiset(kept) == multiset(t.free) && |freed| == Min(Plan(t).2, |t.free|)
      ensures pool == old(pool) + Ptrs(freed, at) && td.deamortizedFreeables == Ptrs(kept, at)
    {
      var mode := SelectModeHyst(td.spiEma, td.gcMode);
      td.gcMode := mode;
      freed, kept := [], t.free;
      if mode == ConservativeHold {
        td.holdTicks := td.holdTicks + 1;
        if td.holdTicks >= HOLD_LIMIT {
          td.holdTicks := 0;
          freed, kept := FreeUpTo(td, HOLD_LIMIT, t.free);
        }
      } else {
        td.holdTicks := 0;
        freed, kept := FreeUpTo(td, 1, t.free);
      }
    }

    /** Moves nodes from the bag to the pool until `limit` are moved or the bag is empty. */
    method FreeUpTo(td: ThreadData<P>, limit: nat, ghost names: seq<nat>) returns (ghost freed: seq<nat>, ghost kept: seq<nat>)
      requires td.deamortizedFreeables == Ptrs(names, at)
      modifies td`deamortizedFreeables, this`pool
      ensures multiset(freed) + multiset(kept) == multiset(names) && |freed| == Min(limit, |names|)
      ensures pool == old(pool) + Ptrs(freed, at) && td.deamortizedFreeables == Ptrs(kept, at)
    {
      var i := 0;
      freed, kept := [], names;
      while i < limit && td.deamortizedFreeables != []
        invariant i <= limit && |freed| == i && i + |kept| == |names|
        invariant multiset(freed) + multiset(kept) == multiset(names)
        invariant pool == old(pool) + Ptrs(freed, at) && td.deamortizedFreeables == Ptrs(kept, at)
      {
        var n := |td.deamortizedFreeables| - 1;
        var x := td.deamortizedFreeables[n];
        assert kept == kept[..n] + [kept[n]];
        PtrsAppend(freed, [kept[n]], at);
        freed, kept := freed + [kept[n]], kept[..n];
        td.deamortizedFreeables := td.deamortizedFreeables[..n];
        pool := pool + [x];
        i := i + 1;
      }
    }
  }

  lemma RetireEffect(s: State, i: nat, closes: bool)
    requires i < |s.threads| && s.threads[i].phase.Idle?
    ensures var s', t := Next(s, RingSystem.Retire(i, closes)), s.threads[i];
            s'.threads == s.threads[i := t.(curr := t.curr.Add(s.clock, closes))] && s'.pool == s.pool
  {
  }

  /** With one name more, the bags of this thread stand for the same pointers. */
  ghost predicate Renamed<P>(t: Thread, at: nat -> P, name: nat, p: P) {
    && PtrBag(t.curr, Named(at, name, p)) == PtrBag(t.curr, at)
    && PtrBag(t.last, Named(at, name, p)) == PtrBag(t.last, at)
    && Ptrs(t.free, Named(at, name, p)) == Ptrs(t.free, at)
  }

  lemma OldThread<P>(s: State, i: nat, at: nat -> P, p: P)
    requires Inv(s) && i < |s.threads|
    ensures Renamed(s.threads[i], at, s.clock, p)
  {
    var t := s.threads[i];
    assert ThreadOk(s, t);
    BelowParts(t.curr.full, t.curr.head, s.clock);
    BelowLater(t.last.Items(), t.closed, s.clock);
    BelowParts(t.last.full, t.last.head, s.clock);
    assert Below(t.free, t.began);
    BelowLater(t.free, t.began, s.clock);
    OldNames(t.curr.full, at, s.clock, p);
    OldNames(t.curr.head, at, s.clock, p);
    OldNames(t.last.full, at, s.clock, p);
    OldNames(t.last.head, at, s.clock, p);
    OldNames(t.free, at, s.clock, p);
  }

  lemma OldPool<P>(s: State, at: nat -> P, p: P)
    requires Inv(s)
    ensures Ptrs(s.pool, Named(at, s.clock, p)) == Ptrs(s.pool, at)
  {
    assert ThreadOk(s, s.threads[0]);
    assert Below(s.pool, s.threads[0].began);
    BelowLater(s.pool, s.threads[0].began, s.clock);
    OldNames(s.pool, at, s.clock, p);
  }

  lemma RetiredBag<P>(s: State, i: nat, at: nat -> P, p: P, closes: bool)
    requires Inv(s) && i < |s.threads|
    ensures var b := s.threads[i].curr;
            PtrBag(b.Add(s.clock, closes), Named(at, s.clock, p)) == PtrBag(b, at).Add(p, closes)
  {
    var b, at' := s.threads[i].curr, Named(at, s.clock, p);
    OldThread(s, i, at, p);
    PtrsAppend(b.full, b.head, at');
    PtrsAppend(b.full + b.head, [s.clock], at');
    PtrsAppend(b.head, [s.clock], at');
    assert Ptrs([s.clock], at') == [p];
  }

  /** startOp up to its drain, run without interruption. */
  ghost function Opened(s: State, i: nat, readOnly: bool): State
    requires i < |s.threads| && s.threads[i].phase.Idle?
  {
    var s2 := Next(Next(s, Enter(i, readOnly)), Check(i));
    if s2.threads[i].token then Next(Next(Next(s2, Clear(i)), Pass(i)), Rotate(i)) else s2
  }

  /** The thread after the bookkeeping of Enter. */
  function Counted(t: Thread, readOnly: bool): Thread {
    t.(winWrites := if readOnly then t.winWrites else t.winWrites + 1,
       winSnaps := if readOnly then t.winSnaps + 1 else t.winSnaps)
  }

  lemma OpenedEffect(s: State, i: nat, readOnly: bool)
    requires i < |s.threads| && s.threads[i].phase.Idle?
    ensures var o, t, k := Opened(s, i, readOnly), Counted(s.threads[i], readOnly), (i + 1) % |s.threads|;
            && k < |s.threads| && o.pool == s.pool && |o.threads| == |s.threads| && o.threads[i].phase.Draining?
            && var ts := if t.token
                         then s.threads[i := Rotated(Stamped(t, s.clock).(token := false, closed := s.clock + 1))]
                         else s.threads[i := Stamped(t, s.clock).(phase := Draining)];
               o.threads == if t.token then ts[k := ts[k].(token := true)] else ts
  {
  }

  /** The threads after a startOp that received the token, up to its drain. */
  lemma ReceivedThreads(s: State, i: nat, readOnly: bool)
    requires i < |s.threads| && s.threads[i].phase.Idle? && s.threads[i].token
    ensures var o, t, k := Opened(s, i, readOnly), Rotated(Counted(s.threads[i], readOnly)), (i + 1) % |s.threads|;
            && k < |s.threads| && |o.threads| == |s.threads| && o.pool == s.pool && o.threads[i].phase.Draining?
            && o.threads[i] == Stamped(t, s.clock).(token := k == i, closed := s.clock + 1)
            && (k != i ==> o.threads[k] == s.threads[k].(token := true))
            && forall j :: 0 <= j < |s.threads| && j != i && j != k ==> o.threads[j] == s.threads[j]
  {
    hide Opened, Rotated;
    OpenedEffect(s, i, readOnly);
    RotatedIs(s.threads[i], readOnly, s.clock);
  }

  /** What startOp does to the counters and the average of its thread. */
  lemma OpenedCounts(s: State, i: nat, readOnly: bool)
    requires i < |s.threads| && s.threads[i].phase.Idle?
    ensures var o, t, ro := Opened(s, i, readOnly), s.threads[i], if readOnly then 1 else 0;
            var w, n := t.winWrites + 1 - ro, t.winSnaps + ro;
            i < |o.threads| &&
            var u := o.threads[i];
            if t.token then u.winWrites == u.winSnaps == 0 && u.spiEma == Resampled(t.spiEma, w, n)
            else u.winWrites == w && u.winSnaps == n && u.spiEma == t.spiEma
  {
    hide Resampled, Opened;
    OpenedEffect(s, i, readOnly);
  }

  function Stamped(t: Thread, c: nat): Thread {
    t.(called := c, began := c + 1)
  }

  /** Rotation does not look at the token or at the stamps. */
  lemma RotatedIs(t: Thread, readOnly: bool, c: nat)
    ensures Rotated(Stamped(Counted(t, readOnly), c).(token := false, closed := c + 1))
            == Stamped(Rotated(Counted(t, readOnly)), c).(token := false, closed := c + 1)
  {
  }

  lemma DrainEffect(s: State, i: nat, freed: seq<nat>, kept: seq<nat>)
    requires i < |s.threads| && s.threads[i].phase.Draining?
    requires multiset(freed) + multiset(kept) == multiset(s.threads[i].free)
    requires |freed| == Min(Plan(s.threads[i]).2, |s.threads[i].free|)
    ensures var act := Drain(i, freed, kept);
            && Enabled(s, act)
            && Next(s, act).threads == s.threads[i := Drained(s.threads[i], kept)]
            && Next(s, act).pool == s.pool + freed
  {
  }

  lemma OpenedInv(s: State, i: nat, readOnly: bool)
    requires Inv(s) && i < |s.threads| && s.threads[i].phase.Idle?
    ensures Inv(Opened(s, i, readOnly))
  {
    hide Inv;
    var s1 := Next(s, Enter(i, readOnly));
    StepInv(s, Enter(i, readOnly));
    var s2 := Next(s1, Check(i));
    StepInv(s1, Check(i));
    if s2.threads[i].token {
      var s3 := Next(s2, Clear(i));
      StepInv(s2, Clear(i));
      var s4 := Next(s3, Pass(i));
      StepInv(s3, Pass(i));
      StepInv(s4, Rotate(i));
    }
  }
}
