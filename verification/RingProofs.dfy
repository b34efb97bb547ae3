/** What holds in every run of the token-ring reclaimer: one token, a grace
    period before every free, and no node lost or freed twice. */
module RingProofs {
  import opened RingSystem

  // ------------------------------------------------------------- the invariant

  lemma BelowParts(xs: seq<nat>, ys: seq<nat>, t: nat)
    ensures Below(xs + ys, t) <==> Below(xs, t) && Below(ys, t)
  {
    if Below(xs + ys, t) {
      forall x | x in xs ensures x < t {
        assert x in xs + ys;
      }
      forall x | x in ys ensures x < t {
        assert x in xs + ys;
      }
    }
  }

  lemma QuietParts(s: State, xs: seq<nat>, ys: seq<nat>)
    ensures Quiet(s, xs + ys) <==> Quiet(s, xs) && Quiet(s, ys)
  {
    hide Below;
    forall j | 0 <= j < |s.threads|
      ensures Below(xs + ys, s.threads[j].began) <==> Below(xs, s.threads[j].began) && Below(ys, s.threads[j].began)
    {
      BelowParts(xs, ys, s.threads[j].began);
    }
    if Quiet(s, xs + ys) {
      forall j | 0 <= j < |s.threads| ensures Below(xs, s.threads[j].began) && Below(ys, s.threads[j].began) {
        assert Below(xs + ys, s.threads[j].began);
      }
    }
  }

  /** The start times of operations never move back. */
  lemma StepBegan(s: State, act: Action, j: nat)
    requires Inv(s) && Enabled(s, act) && j < |s.threads|
    ensures |Next(s, act).threads| == |s.threads|
    ensures Next(s, act).threads[j].began == if act.Check? && act.i == j then s.clock else s.threads[j].began
    ensures Next(s, act).threads[j].began >= s.threads[j].began
  {
    assert ThreadOk(s, s.threads[j]);
  }

  /** What was quiet stays quiet. */
  lemma StepQuiet(s: State, act: Action, xs: seq<nat>)
    requires Inv(s) && Enabled(s, act) && Quiet(s, xs)
    ensures Quiet(Next(s, act), xs)
  {
    hide Inv, Enabled, Next;
    forall j | 0 <= j < |Next(s, act).threads| ensures Below(xs, Next(s, act).threads[j].began) {
      StepSize(s, act);
      StepBegan(s, act, j);
      assert Below(xs, s.threads[j].began);
    }
  }

  lemma StepSize(s: State, act: Action)
    requires Inv(s) && Enabled(s, act)
    ensures |Next(s, act).threads| == |s.threads| && Next(s, act).clock == s.clock + 1
  {
  }

  /** The thread with the token is the one whose last receipt is oldest: since then
      every thread has begun an operation. */
  lemma LastIsQuiet(s: State, i: nat)
    requires Inv(s) && i < |s.threads| && s.threads[i].token
    ensures Quiet(s, s.threads[i].last.Items())
  {
    var xs := s.threads[i].last.Items();
    assert ThreadOk(s, s.threads[i]);
    forall j | 0 <= j < |s.threads| ensures Below(xs, s.threads[j].began) {
      assert Rank(|s.threads|, s.pos, i) <= Rank(|s.threads|, s.pos, j);
      assert ThreadOk(s, s.threads[j]);
    }
  }

  lemma OwnCheck(s: State, i: nat)
    requires Inv(s) && Enabled(s, Check(i))
    ensures var s' := Next(s, Check(i)); ThreadOk(s', s'.threads[i])
  {
    hide Below, Order, Ring;
    var s', t := Next(s, Check(i)), s.threads[i];
    assert ThreadOk(s, t);
    StepQuiet(s, Check(i), t.free);
    if t.token {
      LastIsQuiet(s, i);
      StepQuiet(s, Check(i), t.last.Items());
      forall j | 0 <= j < |s.threads| ensures s'.threads[j].closed <= s.clock {
        assert ThreadOk(s, s.threads[j]);
      }
    }
    BelowLater(t.curr.Items(), s.clock, s.clock + 1);
  }

  lemma BelowLater(xs: seq<nat>, t: nat, u: nat)
    requires Below(xs, t) && t <= u
    ensures Below(xs, u)
  {
  }

  lemma OwnRotate(s: State, i: nat)
    requires Inv(s) && Enabled(s, Rotate(i))
    ensures var s' := Next(s, Rotate(i)); ThreadOk(s', s'.threads[i])
  {
    hide Below, Order, Ring;
    var s', t := Next(s, Rotate(i)), s.threads[i];
    assert ThreadOk(s, t);
    QuietParts(s, t.last.full, t.last.head);
    QuietParts(s, t.free, t.last.full);
    StepQuiet(s, Rotate(i), t.free + t.last.full);
    BelowParts(t.last.full, t.last.head, t.closed);
    BelowLater(t.last.head, t.closed, s.clock + 1);
    assert s'.threads[i].curr.Items() == t.last.head;
  }

  lemma OwnDrain(s: State, i: nat, freed: seq<nat>, kept: seq<nat>)
    requires Inv(s) && Enabled(s, Drain(i, freed, kept))
    ensures var s' := Next(s, Drain(i, freed, kept)); ThreadOk(s', s'.threads[i]) && Quiet(s', s'.pool)
  {
    hide Below, Order, Ring;
    var act, t := Drain(i, freed, kept), s.threads[i];
    assert ThreadOk(s, t);
    QuietSplit(s, t.free, freed, kept);
    QuietParts(s, s.pool, freed);
    StepQuiet(s, act, kept);
    StepQuiet(s, act, s.pool + freed);
    BelowLater(t.curr.Items(), s.clock, s.clock + 1);
  }

  lemma QuietSplit(s: State, all: seq<nat>, xs: seq<nat>, ys: seq<nat>)
    requires multiset(xs) + multiset(ys) == multiset(all) && Quiet(s, all)
    ensures Quiet(s, xs) && Quiet(s, ys)
  {
    forall x | x in xs || x in ys ensures x in all {
      assert x in multiset(xs) + multiset(ys);
    }
    forall j | 0 <= j < |s.threads| ensures Below(xs, s.threads[j].began) && Below(ys, s.threads[j].began) {
      assert Below(all, s.threads[j].began);
    }
  }

  lemma OwnRetire(s: State, i: nat, closes: bool)
    requires Inv(s) && Enabled(s, Retire(i, closes))
    ensures var s' := Next(s, Retire(i, closes)); ThreadOk(s', s'.threads[i])
  {
    hide Order, Ring, Quiet;
    var t := s.threads[i];
    assert ThreadOk(s, t);
    StepQuiet(s, Retire(i, closes), t.free);
    assert t.curr.Add(s.clock, closes).Items() == t.curr.full + t.curr.head + [s.clock];
  }

  /** The thread that takes the step. */
  lemma OwnStep(s: State, act: Action)
    requires Inv(s) && Enabled(s, act)
    ensures var s' := Next(s, act); ThreadOk(s', s'.threads[act.i])
  {
    hide Below, Order, Ring;
    var t := s.threads[act.i];
    assert ThreadOk(s, t);
    match act
    case Check(i) => OwnCheck(s, i);
    case Rotate(i) => OwnRotate(s, i);
    case Drain(i, freed, kept) => OwnDrain(s, i, freed, kept);
    case Retire(i, closes) => OwnRetire(s, i, closes);
    case _ =>
      StepQuiet(s, act, t.free);
      if Rotates(t) {
        StepQuiet(s, act, t.last.Items());
      }
      BelowLater(t.curr.Items(), s.clock, s.clock + 1);
      if act.Pass? {
        BelowLater(t.last.Items(), t.closed, t.began);
      }
  }

  /** A thread that only watches. */
  lemma OtherStep(s: State, act: Action, j: nat)
    requires Inv(s) && Enabled(s, act) && j < |s.threads| && j != act.i
    ensures var s' := Next(s, act); ThreadOk(s', s'.threads[j])
  {
    hide Below, Order;
    var s', t := Next(s, act), s.threads[j];
    assert ThreadOk(s, t);
    assert s'.threads[j] == t || s'.threads[j] == t.(token := true);
    StepQuiet(s, act, t.free);
    BelowLater(t.curr.Items(), s.clock, s.clock + 1);
    if Rotates(t) {
      StepQuiet(s, act, t.last.Items());
    }
    if t.phase.Clearing? || t.phase.Passing? {
      assert !act.Pass?;
    }
  }

  /** Every step of every thread keeps the invariant. */
  lemma StepInv(s: State, act: Action)
    requires Inv(s) && Enabled(s, act)
    ensures Inv(Next(s, act))
  {
    StepRing(s, act);
    hide Below, Order, Ring, Quiet, ThreadOk;
    var s' := Next(s, act);
    TokenHolder(s, act);
    StepOrder(s, act);
    forall j | 0 <= j < |s'.threads| ensures ThreadOk(s', s'.threads[j]) {
      StepSize(s, act);
      if j == act.i {
        OwnStep(s, act);
      } else {
        OtherStep(s, act, j);
      }
    }
    if act.Drain? {
      OwnDrain(s, act.i, act.freed, act.kept);
    } else {
      StepQuiet(s, act, s.pool);
    }
  }

  lemma TokenHolder(s: State, act: Action)
    requires Inv(s) && Enabled(s, act)
    ensures act.Pass? ==> act.i == s.pos
  {
  }

  // ------------------------------------------------------------------- every run

  ghost predicate Steps(s: State, s': State) {
    exists act :: Enabled(s, act) && s' == Next(s, act)
  }

  /** Any number of threads, any interleaving. */
  ghost predicate Run(n: nat, run: seq<State>) {
    && n > 0 && |run| > 0 && run[0] == Initial(n)
    && forall i :: 0 <= i < |run| - 1 ==> Steps(run[i], run[i + 1])
  }

  lemma {:induction false} RunInv(n: nat, run: seq<State>, i: nat)
    requires Run(n, run) && i < |run|
    ensures Inv(run[i]) && |run[i].threads| == n
  {
    hide Inv;
    if i == 0 {
      InitialInv(n);
    } else {
      RunInv(n, run, i - 1);
      assert Steps(run[i - 1], run[i]);
      var act :| Enabled(run[i - 1], act) && run[i] == Next(run[i - 1], act);
      StepInv(run[i - 1], act);
      StepSize(run[i - 1], act);
    }
  }

  /** There is one token, counting the one that a thread has taken and not yet handed over. */
  lemma OneToken(n: nat, run: seq<State>, i: nat)
    requires Run(n, run) && i < |run|
    ensures |run[i].threads| == n
    ensures |set j | 0 <= j < n && TokenAt(run[i].threads[j])| == 1
    ensures forall j :: 0 <= j < n ==> !(run[i].threads[j].token && run[i].threads[j].phase.Passing?)
  {
    RunInv(n, run, i);
    var s := run[i];
    assert (set j | 0 <= j < n && TokenAt(s.threads[j])) == {s.pos};
  }

  /** A thread may use a node until its next startOp: the operation it is in read the token
      before the node was retired. */
  predicate MayHold(t: Thread, x: nat) {
    t.phase.Idle? && t.began <= x
  }

  /** x has been freed or may be freed at any moment. */
  ghost predicate Released(s: State, x: nat) {
    x in s.pool || exists k :: 0 <= k < |s.threads| && x in s.threads[k].free
  }

  lemma ReleasedIsQuiet(s: State, x: nat, j: nat)
    requires Inv(s) && Released(s, x) && j < |s.threads|
    ensures x < s.threads[j].began
  {
    if x in s.pool {
      assert Below(s.pool, s.threads[j].began);
    } else {
      var k :| 0 <= k < |s.threads| && x in s.threads[k].free;
      assert ThreadOk(s, s.threads[k]);
      assert Below(s.threads[k].free, s.threads[j].began);
    }
  }

  /** Every node that is freed, or merely waits to be, was retired before the latest startOp
      of every thread; so no operation in progress can hold it. */
  lemma GracePeriod(n: nat, run: seq<State>, i: nat, x: nat, j: nat)
    requires Run(n, run) && i < |run| && j < n
    requires Released(run[i], x)
    ensures |run[i].threads| == n && x < run[i].threads[j].began && !MayHold(run[i].threads[j], x)
  {
    RunInv(n, run, i);
    ReleasedIsQuiet(run[i], x, j);
  }

  // ----------------------------------------------------------------- conservation

  function Held(t: Thread, x: nat): nat {
    multiset(t.curr.Items())[x] + multiset(t.last.Items())[x] + multiset(t.free)[x]
  }

  function HeldBy(ts: seq<Thread>, x: nat): nat {
    if ts == [] then 0 else Held(ts[0], x) + HeldBy(ts[1..], x)
  }

  /** How often x occurs in bags and pool together. */
  function Places(s: State, x: nat): nat {
    HeldBy(s.threads, x) + multiset(s.pool)[x]
  }

  lemma {:induction false} HeldPut(ts: seq<Thread>, i: nat, t: Thread, x: nat)
    requires i < |ts|
    ensures HeldBy(ts[i := t], x) + Held(ts[i], x) == HeldBy(ts, x) + Held(t, x)
  {
    if i == 0 {
      assert ts[i := t][1..] == ts[1..];
    } else {
      assert ts[i := t][1..] == ts[1..][i - 1 := t];
      HeldPut(ts[1..], i - 1, t, x);
    }
  }

  lemma MultisetAppend(xs: seq<nat>, ys: seq<nat>, x: nat)
    ensures multiset(xs + ys)[x] == multiset(xs)[x] + multiset(ys)[x]
  {
  }

  /** Rotation moves nodes between the bags of a thread and loses none. */
  lemma RotatedHeld(t: Thread, x: nat)
    ensures Held(Rotated(t), x) == Held(t, x)
  {
    MultisetAppend(t.last.full, t.last.head, x);
    MultisetAppend(t.free, t.last.full, x);
    assert Rotated(t).curr.Items() == t.last.head;
  }

  lemma DrainedHeld(t: Thread, freed: seq<nat>, kept: seq<nat>, x: nat)
    requires multiset(freed) + multiset(kept) == multiset(t.free)
    ensures Held(Drained(t, kept), x) + multiset(freed)[x] == Held(t, x)
  {
    assert (multiset(freed) + multiset(kept))[x] == multiset(freed)[x] + multiset(kept)[x];
  }

  lemma RetiredHeld(t: Thread, y: nat, closes: bool, x: nat)
    ensures Held(t.(curr := t.curr.Add(y, closes)), x) == Held(t, x) + multiset([y])[x]
  {
    MultisetAppend(t.curr.Items(), [y], x);
    assert t.curr.Add(y, closes).Items() == t.curr.Items() + [y];
  }

  /** A step adds exactly the node it retires, and moves all others. */
  lemma StepPlaces(s: State, act: Action, x: nat)
    requires Enabled(s, act)
    ensures Places(Next(s, act), x) == Places(s, x) + if act.Retire? && x == s.clock then 1 else 0
    ensures s.pool <= Next(s, act).pool
  {
    hide Held, HeldBy;
    var t := s.threads[act.i];
    match act
    case Pass(i) =>
      PassPlaces(s, i, x);
    case Rotate(i) =>
      HeldPut(s.threads, i, Rotated(t), x);
      RotatedHeld(t, x);
    case Drain(i, freed, kept) =>
      HeldPut(s.threads, i, Drained(t, kept), x);
      DrainedHeld(t, freed, kept, x);
      MultisetAppend(s.pool, freed, x);
    case Retire(i, closes) =>
      HeldPut(s.threads, i, t.(curr := t.curr.Add(s.clock, closes)), x);
      RetiredHeld(t, s.clock, closes, x);
    case _ =>
      var t' := Next(s, act).threads[act.i];
      HeldPut(s.threads, act.i, t', x);
      SameBags(t, t', x);
  }

  lemma SameBags(t: Thread, u: Thread, x: nat)
    requires t.curr == u.curr && t.last == u.last && t.free == u.free
    ensures Held(t, x) == Held(u, x)
  {
  }

  lemma PassPlaces(s: State, i: nat, x: nat)
    requires Enabled(s, Pass(i))
    ensures Places(Next(s, Pass(i)), x) == Places(s, x)
  {
    hide Held, HeldBy;
    var t, k := s.threads[i], (i + 1) % |s.threads|;
    var u := t.(phase := Rotating, closed := t.began);
    var ts := s.threads[i := u];
    HeldPut(s.threads, i, u, x);
    HeldPut(ts, k, ts[k].(token := true), x);
    SameBags(t, u, x);
    SameBags(ts[k], ts[k].(token := true), x);
  }

  /** The log lists each retired node once. */
  ghost predicate Conserved(s: State, x: nat) {
    && Places(s, x) == (if x in s.log then 1 else 0)
    && (x in s.log ==> x < s.clock)
  }

  lemma {:induction false} HeldNothing(ts: seq<Thread>, x: nat)
    requires forall j :: 0 <= j < |ts| ==> ts[j] == NewThread(true) || ts[j] == NewThread(false)
    ensures HeldBy(ts, x) == 0
  {
    if ts != [] {
      HeldNothing(ts[1..], x);
    }
  }

  /** In every run, each node ever retired is in exactly one place: in curr, last or the free
      bag of one thread, or in the pool. Freed nodes stay freed. */
  lemma {:induction false} Conservation(n: nat, run: seq<State>, i: nat, x: nat)
    requires Run(n, run) && i < |run|
    ensures Conserved(run[i], x)
    ensures i > 0 ==> run[i - 1].pool <= run[i].pool
  {
    hide Places, Next, Enabled, Initial;
    if i == 0 {
      StartPlaces(n, x);
    } else {
      Conservation(n, run, i - 1, x);
      assert Steps(run[i - 1], run[i]);
      var act :| Enabled(run[i - 1], act) && run[i] == Next(run[i - 1], act);
      StepConserved(run[i - 1], act, x);
    }
  }

  lemma StepConserved(s: State, act: Action, x: nat)
    requires Enabled(s, act) && Conserved(s, x)
    ensures Conserved(Next(s, act), x) && s.pool <= Next(s, act).pool
  {
    hide Places;
    StepPlaces(s, act, x);
  }

  lemma StartPlaces(n: nat, x: nat)
    requires n > 0
    ensures Places(Initial(n), x) == 0 && Initial(n).log == []
  {
    HeldNothing(Initial(n).threads, x);
  }
}
