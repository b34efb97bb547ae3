/** When a startOp counts: from the moment it reads the token, not from its call.
    Exactly which nodes are released although they were retired after the call, and a
    run with blocks of any size in which this happens. */
module RingCall {
  import opened PacerModes
  import opened RingSystem
  import opened RingProofs

  // ------------------------------------------------------------ the exact condition

  /** At step m thread j is inside the startOp that it called last before step i, and has not
      read its token. */
  ghost predicate InCall(run: seq<State>, m: nat, i: nat, j: nat) {
    && m <= i < |run| && j < |run[m].threads| == |run[i].threads|
    && run[m].threads[j].phase.Entered? && run[m].threads[j].called == run[i].threads[j].called
  }

  lemma {:induction false} Clock(n: nat, run: seq<State>, i: nat)
    requires Run(n, run) && i < |run|
    ensures run[i].clock == i + 1
  {
    if i > 0 {
      Clock(n, run, i - 1);
      RunInv(n, run, i - 1);
      assert Steps(run[i - 1], run[i]);
      var act :| Enabled(run[i - 1], act) && run[i] == Next(run[i - 1], act);
      StepSize(run[i - 1], act);
    }
  }

  /** The step from i to i + 1. */
  lemma StepOf(n: nat, run: seq<State>, i: nat) returns (act: Action)
    requires Run(n, run) && i + 1 < |run|
    ensures Inv(run[i]) && |run[i].threads| == n == |run[i + 1].threads| && run[i].clock == i + 1
    ensures Enabled(run[i], act) && run[i + 1] == Next(run[i], act)
  {
    RunInv(n, run, i);
    RunInv(n, run, i + 1);
    Clock(n, run, i);
    assert Steps(run[i], run[i + 1]);
    act :| Enabled(run[i], act) && run[i + 1] == Next(run[i], act);
  }

  /** Only the thread itself moves its stamps and its phase. */
  lemma Stamps(s: State, act: Action, j: nat)
    requires Enabled(s, act) && j < |s.threads|
    ensures |Next(s, act).threads| == |s.threads|
    ensures var t, t' := s.threads[j], Next(s, act).threads[j];
            && t'.called == (if act.Enter? && act.i == j then s.clock else t.called)
            && t'.began == (if act.Check? && act.i == j then s.clock else t.began)
            && (t'.phase.Entered? <==> if act.i == j then act.Enter? else t.phase.Entered?)
            && (act.Check? && act.i == j ==> t.phase.Entered?)
  {
  }

  /** Inside a startOp whose token is not read yet, the thread has been there since the call. */
  lemma {:induction false} SinceCall(n: nat, run: seq<State>, i: nat, j: nat, m: nat)
    requires Run(n, run) && i < |run| && j < n && m <= i
    requires |run[i].threads| == n && run[i].threads[j].phase.Entered? && m + 1 > run[i].threads[j].called
    ensures InCall(run, m, i, j)
    decreases i
  {
    hide Inv, Next, Enabled, Run;
    RunInv(n, run, m);
    if m < i {
      var act := StepOf(n, run, i - 1);
      Stamps(run[i - 1], act, j);
      SinceCall(n, run, i - 1, j, m);
    }
  }

  lemma StampsPast(s: State, j: nat)
    requires Inv(s) && j < |s.threads|
    ensures s.threads[j].called < s.clock && s.threads[j].began < s.clock
  {
    assert ThreadOk(s, s.threads[j]);
  }

  /** The steps between a call and the reading of the token are those at which the thread is inside. */
  lemma {:induction false} BetweenCallAndRead(n: nat, run: seq<State>, i: nat, j: nat, m: nat)
    requires Run(n, run) && i < |run| && j < n && m < i && |run[i].threads| == n
    requires run[i].threads[j].called < m + 1 < run[i].threads[j].began
    ensures InCall(run, m, i, j)
    decreases i
  {
    hide Inv, Next, Enabled, Run;
    var act := StepOf(n, run, i - 1);
    Stamps(run[i - 1], act, j);
    StampsPast(run[i - 1], j);
    if act.Check? && act.i == j {
      SinceCall(n, run, i - 1, j, m);
    } else {
      BetweenCallAndRead(n, run, i - 1, j, m);
    }
  }

  /** The node x was retired while thread j was inside its latest startOp, before it read the token. */
  ghost predicate RetiredInCall(run: seq<State>, i: nat, j: nat, x: nat) {
    exists m :: 0 <= m < i && m < |run| && run[m].clock == x && InCall(run, m, i, j)
  }

  /** A retired node was retired at the step that bears its name. */
  lemma {:induction false} RetiredAt(n: nat, run: seq<State>, i: nat, x: nat) returns (k: nat)
    requires Run(n, run) && i < |run| && x in run[i].log
    ensures 0 < x <= i && k < n && |run[x - 1].threads| == n && run[x - 1].threads[k].phase.Idle?
    ensures Enabled(run[x - 1], Retire(k, true)) && x in run[x].log && x !in run[x - 1].log && run[x].threads[k].phase.Idle?
    ensures forall j :: 0 <= j < n ==> |run[x].threads| == n && run[x].threads[j].called == run[x - 1].threads[j].called
    decreases i
  {
    if i > 0 {
      var act := StepOf(n, run, i - 1);
      if x in run[i - 1].log {
        k := RetiredAt(n, run, i - 1, x);
      } else {
        k := act.i;
      }
    }
  }

  /** Retired after the call of thread j's latest startOp and released all the same: exactly the
      released nodes that were retired between that call and the reading of the token. So the property
      counted from the call holds if no retirement falls in between. */
  lemma CallTime(n: nat, run: seq<State>, i: nat, j: nat, x: nat)
    requires Run(n, run) && i < |run| && j < n && Released(run[i], x)
    ensures |run[i].threads| == n
    ensures x >= run[i].threads[j].called <==> RetiredInCall(run, i, j, x)
  {
    RunInv(n, run, i);
    ReleasedIsQuiet(run[i], x, j);
    ReleasedIsRetired(n, run, i, x);
    var k := RetiredAt(n, run, i, x);
    Clock(n, run, x - 1);
    if x >= run[i].threads[j].called {
      NotTheCall(n, run, i, j, x);
      BetweenCallAndRead(n, run, i, j, x - 1);
    }
    if RetiredInCall(run, i, j, x) {
      var m :| 0 <= m < i && m < |run| && run[m].clock == x && InCall(run, m, i, j);
      RunInv(n, run, m);
      assert ThreadOk(run[m], run[m].threads[j]);
    }
  }

  lemma ReleasedIsRetired(n: nat, run: seq<State>, i: nat, x: nat)
    requires Run(n, run) && i < |run| && Released(run[i], x)
    ensures x in run[i].log
  {
    Conservation(n, run, i, x);
    var s := run[i];
    if x !in s.pool {
      var k :| 0 <= k < |s.threads| && x in s.threads[k].free;
      HeldPart(s.threads, k, x);
    }
  }

  lemma {:induction false} HeldPart(ts: seq<Thread>, k: nat, x: nat)
    requires k < |ts|
    ensures HeldBy(ts, x) >= Held(ts[k], x)
  {
    if k > 0 {
      HeldPart(ts[1..], k - 1, x);
    }
  }

  /** No step is both a call and a retirement. */
  lemma {:induction false} NotTheCall(n: nat, run: seq<State>, i: nat, j: nat, x: nat)
    requires Run(n, run) && i < |run| && j < n && |run[i].threads| == n && x in run[i].log
    ensures x != run[i].threads[j].called
    decreases i
  {
    if i > 0 {
      var act := StepOf(n, run, i - 1);
      Stamps(run[i - 1], act, j);
      LogIsOld(n, run, i - 1);
      assert ThreadOk(run[i - 1], run[i - 1].threads[j]);
      if x in run[i - 1].log {
        NotTheCall(n, run, i - 1, j, x);
      }
    }
  }

  lemma LogIsOld(n: nat, run: seq<State>, i: nat)
    requires Run(n, run) && i < |run|
    ensures forall x :: x in run[i].log ==> x < run[i].clock
  {
    forall x | x in run[i].log ensures x < run[i].clock {
      Conservation(n, run, i, x);
    }
  }

  // ------------------------------------------------------------------- the witness

  ghost predicate Can(s: State, acts: seq<Action>)
    decreases |acts|
  {
    acts == [] || (Enabled(s, acts[0]) && Can(Next(s, acts[0]), acts[1..]))
  }

  ghost function Do(s: State, acts: seq<Action>): State
    requires Can(s, acts)
    decreases |acts|
  {
    if acts == [] then s else Do(Next(s, acts[0]), acts[1..])
  }

  lemma {:induction false} DoAppend(s: State, x: seq<Action>, y: seq<Action>)
    requires Can(s, x) && Can(Do(s, x), y)
    ensures Can(s, x + y) && Do(s, x + y) == Do(Do(s, x), y)
    decreases |x|
  {
    if x == [] {
      assert x + y == y;
    } else {
      assert (x + y)[0] == x[0] && (x + y)[1..] == x[1..] + y;
      DoAppend(Next(s, x[0]), x[1..], y);
    }
  }

  lemma DoOne(s: State, acts: seq<Action>, t: State)
    requires acts != [] && Enabled(s, acts[0]) && t == Next(s, acts[0]) && Can(t, acts[1..])
    ensures Can(s, acts) && Do(s, acts) == Do(t, acts[1..])
  {
  }

  function Names(from: nat, count: nat): seq<nat> {
    if count == 0 then [] else Names(from, count - 1) + [from + count - 1]
  }

  function Filling(count: nat): seq<Action> {
    if count == 0 then [] else Filling(count - 1) + [Retire(0, false)]
  }

  /** Thread 1 calls startOp and stalls before reading its token; then thread 0 retires a block of
      nodes, named 2 and up, the last of which fills the block. */
  function Called(size: nat): seq<Action>
    requires size > 0
  {
    [Enter(1, false)] + Filling(size - 1) + [Retire(0, true)]
  }

  /** Thread 0 starts an operation and hands the token on. */
  const TURN := [Enter(0, false), Check(0), Clear(0), Pass(0), Rotate(0)]
  /** Thread 0 finishes; thread 1 goes on in the same startOp and hands the token back. */
  const OTHER := [Drain(0, [], []), Check(1), Clear(1), Pass(1)]

  /** Both threads, with these nodes retired. */
  function Both(a: Thread, b: Thread, log: seq<nat>, clock: nat, pos: nat): State {
    State([a, b], [], log, clock, pos)
  }

  const STALLED := NewThread(false).(phase := Entered, winWrites := 1, called := 1)

  lemma {:induction false} Filled(count: nat)
    ensures var s := Both(NewThread(true), STALLED, [], 2, 0);
            && Can(s, Filling(count))
            && Do(s, Filling(count)) ==
               Both(NewThread(true).(curr := Bag([], Names(2, count))), STALLED, Names(2, count), 2 + count, 0)
  {
    var s := Both(NewThread(true), STALLED, [], 2, 0);
    if count > 0 {
      hide Next, Enabled, Can, Do;
      Filled(count - 1);
      var names := Names(2, count - 1);
      var a := NewThread(true).(curr := Bag([], names));
      OneMore(a, names, count + 1, false);
      DoAppend(s, Filling(count - 1), [Retire(0, false)]);
    }
  }

  lemma OneMore(a: Thread, log: seq<nat>, clock: nat, closes: bool)
    requires a.phase.Idle? && a.curr.full == []
    ensures var s, acts := Both(a, STALLED, log, clock, 0), [Retire(0, closes)];
            && Can(s, acts)
            && Do(s, acts) == Both(a.(curr := if closes then Bag(a.curr.head + [clock], []) else Bag([], a.curr.head + [clock])),
                                   STALLED, log + [clock], clock + 1, 0)
  {
    var s := Both(a, STALLED, log, clock, 0);
    assert [] + a.curr.head + [clock] == a.curr.head + [clock];
    DoOne(s, [Retire(0, closes)], Next(s, Retire(0, closes)));
  }

  lemma Stalls()
    ensures Can(Initial(2), [Enter(1, false)])
    ensures Do(Initial(2), [Enter(1, false)]) == Both(NewThread(true), STALLED, [], 2, 0)
  {
    var s := Initial(2);
    assert s.threads == [NewThread(true), NewThread(false)];
    DoOne(s, [Enter(1, false)], Next(s, Enter(1, false)));
  }

  lemma AfterCall(size: nat)
    requires size > 0
    ensures Can(Initial(2), Called(size))
    ensures Do(Initial(2), Called(size)) ==
            Both(NewThread(true).(curr := Bag(Names(2, size), [])), STALLED, Names(2, size), 2 + size, 0)
  {
    hide Next, Enabled, Can, Do, Filling, Initial;
    var s := Initial(2);
    Stalls();
    Filled(size - 1);
    DoAppend(s, [Enter(1, false)], Filling(size - 1));
    OneMore(NewThread(true).(curr := Bag([], Names(2, size - 1))), Names(2, size - 1), size + 1, true);
    DoAppend(s, [Enter(1, false)] + Filling(size - 1), [Retire(0, true)]);
  }

  /** A turn of thread 0: the full blocks of `last` may be freed, `curr` becomes `last`. */
  lemma Turn(a: Thread, b: Thread, log: seq<nat>, clock: nat)
    requires a.token && a.phase.Idle? && a.winWrites == a.winSnaps == 0 && a.spiEma == 0.0
    requires a.last.head == [] && a.free == []
    ensures var s := Both(a, b, log, clock, 0);
            && Can(s, TURN)
            && Do(s, TURN) == Both(a.(token := false, phase := Draining, called := clock, began := clock + 1, closed := clock + 1,
                                      curr := Bag([], []), last := a.curr, free := a.last.full),
                                   b.(token := true), log, clock + 5, 1)
  {
    var s := Both(a, b, log, clock, 0);
    var a1 := a.(phase := Entered, winWrites := 1, called := clock);
    var a2 := a1.(phase := Clearing, began := clock + 1);
    var a3 := a2.(phase := Passing, token := false);
    var a4 := a3.(phase := Rotating, closed := clock + 1);
    var s1, s2 := Both(a1, b, log, clock + 1, 0), Both(a2, b, log, clock + 2, 0);
    var s3, s4 := Both(a3, b, log, clock + 3, 0), Both(a4, b.(token := true), log, clock + 4, 1);
    Rotated(a4, b.(token := true), log, clock + 4);
    assert s1 == Next(s, TURN[0]) && s2 == Next(s1, TURN[1]) && s3 == Next(s2, TURN[2]);
    assert s4.threads == Next(s3, TURN[3]).threads;
    assert s4 == Next(s3, TURN[3]);
    var s5 := Next(s4, TURN[4]);
    hide Next, Both;
    DoOne(s4, TURN[4..], s5);
    DoOne(s3, TURN[3..], s4);
    DoOne(s2, TURN[2..], s3);
    DoOne(s1, TURN[1..], s2);
    DoOne(s, TURN, s1);
  }

  lemma Rotated(a: Thread, b: Thread, log: seq<nat>, clock: nat)
    requires a.phase.Rotating? && a.winWrites == 1 && a.winSnaps == 0 && a.spiEma == 0.0
    requires a.last.head == [] && a.free == []
    ensures Next(Both(a, b, log, clock, 1), Rotate(0)) ==
            Both(a.(phase := Draining, winWrites := 0, curr := Bag([], []), last := a.curr, free := a.last.full), b, log, clock + 1, 1)
  {
    hide Resampled;
    NoSnapshots();
    assert a.free + a.last.full == a.last.full;
  }

  lemma NoSnapshots()
    ensures Resampled(0.0, 1, 0) == 0.0
  {
  }

  lemma OtherTurn(a: Thread, log: seq<nat>, clock: nat)
    requires a.phase.Draining? && !a.token && a.free == [] && a.gcMode == AggressiveEbr && a.spiEma == 0.0 && a.holdTicks == 0
    ensures var s := Both(a, STALLED.(token := true), log, clock, 1);
            && Can(s, OTHER)
            && Do(s, OTHER) == Both(a.(phase := Idle, token := true),
                                    STALLED.(phase := Rotating, began := clock + 1, closed := clock + 1), log, clock + 4, 0)
  {
    var s, b := Both(a, STALLED.(token := true), log, clock, 1), STALLED.(token := true);
    var a1 := a.(phase := Idle);
    var b2 := b.(phase := Clearing, began := clock + 1);
    var b3 := b2.(phase := Passing, token := false);
    var b4 := b3.(phase := Rotating, closed := clock + 1);
    assert Plan(a) == (AggressiveEbr, 0, 1);
    var s1, s2 := Both(a1, b, log, clock + 1, 1), Both(a1, b2, log, clock + 2, 1);
    var s3, s4 := Both(a1, b3, log, clock + 3, 1), Both(a1.(token := true), b4, log, clock + 4, 0);
    assert s1 == Next(s, OTHER[0]) && s2 == Next(s1, OTHER[1]) && s3 == Next(s2, OTHER[2]);
    assert s4.threads == Next(s3, OTHER[3]).threads;
    assert s4 == Next(s3, OTHER[3]);
    DoOne(s3, OTHER[3..], s4);
    DoOne(s2, OTHER[2..], s3);
    DoOne(s1, OTHER[1..], s2);
    DoOne(s, OTHER, s1);
  }

  lemma {:induction false} FirstName(from: nat, count: nat)
    requires count > 0
    ensures from in Names(from, count)
  {
    if count > 1 {
      FirstName(from, count - 1);
    }
  }

  lemma {:induction false} NoCalls(count: nat, m: nat)
    requires m < |Filling(count)|
    ensures Filling(count)[m] == Retire(0, false)
  {
    if m < |Filling(count)| - 1 {
      NoCalls(count - 1, m);
    }
  }

  /** Thread 1 does not call again in this run. */
  lemma OneCall(size: nat, m: nat)
    requires size > 0 && 0 < m < |Called(size) + TURN + OTHER + TURN|
    ensures var act := (Called(size) + TURN + OTHER + TURN)[m]; !(act.Enter? && act.i == 1)
  {
    if m < |Called(size)| - 1 {
      NoCalls(size - 1, m - 1);
    }
  }

  /** With blocks of any size, node 2 is ready to be freed although it was retired after thread 1 called
      the startOp it is still in. Thread 1 holds no reference then; but the call itself is no safe point. */
  lemma CallTimeIsTooEarly(size: nat)
    requires size > 0
    ensures var acts := Called(size) + TURN + OTHER + TURN;
            && Can(Initial(2), acts)
            && acts[0] == Enter(1, false)
            && (forall m :: 0 < m < |acts| ==> !(acts[m].Enter? && acts[m].i == 1))
            && |Do(Initial(2), acts).threads| == 2
            && Do(Initial(2), acts).threads[1].called == 1
            && 2 in Do(Initial(2), acts).threads[0].free
            && |Do(Initial(2), acts).threads[0].free| == size
  {
    hide Can, Do;
    var s0, log, c := Initial(2), Names(2, size), 2 + size;
    AfterCall(size);
    forall m | 0 < m < |Called(size) + TURN + OTHER + TURN|
      ensures var act := (Called(size) + TURN + OTHER + TURN)[m]; !(act.Enter? && act.i == 1)
    {
      OneCall(size, m);
    }
    FirstName(2, size);
    NamesCount(2, size);
    var a0 := NewThread(true).(curr := Bag(log, []));
    Turn(a0, STALLED, log, c);
    DoAppend(s0, Called(size), TURN);
    var a1 := a0.(token := false, phase := Draining, called := c, began := c + 1, closed := c + 1,
                  curr := Bag([], []), last := a0.curr, free := []);
    OtherTurn(a1, log, c + 5);
    DoAppend(s0, Called(size) + TURN, OTHER);
    Turn(a1.(phase := Idle, token := true), STALLED.(phase := Rotating, began := c + 6, closed := c + 6), log, c + 9);
    DoAppend(s0, Called(size) + TURN + OTHER, TURN);
  }

  lemma {:induction false} NamesCount(from: nat, count: nat)
    ensures |Names(from, count)| == count
  {
    if count > 0 {
      NamesCount(from, count - 1);
    }
  }
}
