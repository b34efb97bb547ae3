/** The token-ring epoch reclaimer: N threads, one token, three bags a thread.
    Every access to shared memory is a step of its own; steps of different
    threads interleave freely.

    A retired node is named by the logical time of the call that retired it, so
    that two retirements of one address are two nodes. `called`, `began`, `closed` and
    `pos` are history variables: no step reads them. */
module RingSystem {
  import opened PacerModes

  /** A block bag: the nodes in full blocks, and those in the partly filled head block. */
  datatype Bag<T> = Bag(full: seq<T>, head: seq<T>) {
    function Items(): seq<T> {
      full + head
    }

    /** add; `closes` says that the head block became full. */
    function Add(x: T, closes: bool): Bag<T> {
      if closes then Bag(full + head + [x], []) else Bag(full, head + [x])
    }
  }

  /** Where a thread is in startOp; Idle means outside of it, possibly inside an operation. */
  datatype Phase = Idle | Entered | Clearing | Passing | Rotating | Draining

  datatype Thread = Thread(
    token: bool,
    phase: Phase,
    curr: Bag<nat>,
    last: Bag<nat>,
    free: seq<nat>,
    winWrites: nat,
    winSnaps: nat,
    spiEma: real,
    gcMode: GcMode,
    holdTicks: nat,
    called: nat,       // when the latest startOp was called
    began: nat,        // when the latest startOp read the token
    closed: nat        // `began` of the latest startOp that passed the token on
  )

  /** `pool` holds the freed nodes, `log` everything ever retired, `pos` is where the token is,
      or the thread that is about to hand it over. */
  datatype State = State(threads: seq<Thread>, pool: seq<nat>, log: seq<nat>, clock: nat, pos: nat)

  datatype Action =
    | Enter(i: nat, readOnly: bool)
    | Check(i: nat)
    | Clear(i: nat)
    | Pass(i: nat)
    | Rotate(i: nat)
    | Drain(i: nat, freed: seq<nat>, kept: seq<nat>)
    | Retire(i: nat, closes: bool)

  function NewThread(token: bool): Thread {
    Thread(token, Idle, Bag([], []), Bag([], []), [], 0, 0, 0.0, AggressiveEbr, 0, 0, 0, 0)
  }

  function Initial(n: nat): State
    requires n > 0
  {
    State(seq(n, i => NewThread(i == 0)), [], [], 1, 0)
  }

  /** Mode, tick count and number of nodes to free in the drain of one startOp. */
  function Plan(t: Thread): (GcMode, nat, nat) {
    var mode := SelectModeHyst(t.spiEma, t.gcMode);
    if mode == ConservativeHold then
      if t.holdTicks + 1 >= HOLD_LIMIT then (mode, 0, HOLD_LIMIT) else (mode, t.holdTicks + 1, 0)
    else
      (mode, 0, 1)
  }

  function Min(a: nat, b: nat): nat {
    if a <= b then a else b
  }

  ghost predicate Enabled(s: State, act: Action) {
    && act.i < |s.threads|
    && var t := s.threads[act.i];
       match act
       case Enter(_, _) => t.phase.Idle?
       case Check(_) => t.phase.Entered?
       case Clear(_) => t.phase.Clearing?
       case Pass(_) => t.phase.Passing?
       case Rotate(_) => t.phase.Rotating?
       case Drain(_, freed, kept) =>
         && t.phase.Draining?
         && multiset(freed) + multiset(kept) == multiset(t.free)
         && |freed| == Min(Plan(t).2, |t.free|)
       case Retire(_, _) => t.phase.Idle?
  }

  /** last keeps only its head block and becomes curr; its full blocks may be freed. */
  function Rotated(t: Thread): Thread {
    t.(phase := Draining,
       spiEma := Resampled(t.spiEma, t.winWrites, t.winSnaps), winWrites := 0, winSnaps := 0,
       free := t.free + t.last.full, last := t.curr, curr := Bag([], t.last.head))
  }

  function Drained(t: Thread, kept: seq<nat>): Thread {
    t.(phase := Idle, gcMode := Plan(t).0, holdTicks := Plan(t).1, free := kept)
  }

  function Put(s: State, i: nat, t: Thread): State
    requires i < |s.threads|
  {
    s.(threads := s.threads[i := t], clock := s.clock + 1)
  }

  function Next(s: State, act: Action): State
    requires Enabled(s, act)
  {
    var t := s.threads[act.i];
    match act
    case Enter(i, readOnly) =>
      Put(s, i, t.(phase := Entered, called := s.clock,
                   winWrites := if readOnly then t.winWrites else t.winWrites + 1,
                   winSnaps := if readOnly then t.winSnaps + 1 else t.winSnaps))
    case Check(i) =>
      Put(s, i, t.(phase := if t.token then Clearing else Draining, began := s.clock))
    case Clear(i) =>
      Put(s, i, t.(phase := Passing, token := false))
    case Pass(i) =>
      var k, u := (i + 1) % |s.threads|, t.(phase := Rotating, closed := t.began);
      var ts := s.threads[i := u];
      s.(threads := ts[k := ts[k].(token := true)], clock := s.clock + 1, pos := k)
    case Rotate(i) =>
      Put(s, i, Rotated(t))
    case Drain(i, freed, kept) =>
      Put(s, i, Drained(t, kept)).(pool := s.pool + freed)
    case Retire(i, closes) =>
      Put(s, i, t.(curr := t.curr.Add(s.clock, closes))).(log := s.log + [s.clock])
  }

  // ----------------------------------------------------------------------- token

  /** The token is at thread i, or thread i has taken it and is about to hand it over. */
  predicate TokenAt(t: Thread) {
    t.token || t.phase.Passing?
  }

  ghost predicate Ring(s: State) {
    && s.pos < |s.threads|
    && forall i :: 0 <= i < |s.threads| ==>
         var t := s.threads[i];
         && (TokenAt(t) <==> i == s.pos)
         && !(t.token && t.phase.Passing?)
         && (t.phase.Clearing? ==> t.token)
  }

  // ----------------------------------------------------------------- grace period

  /** How far thread i is from the token, downstream. */
  function Rank(n: nat, pos: nat, i: nat): nat
    requires i < n && pos < n
  {
    if i >= pos then i - pos else i + n - pos
  }

  /** The further downstream from the token, the more recently a thread held it. */
  ghost predicate Order(s: State)
    requires s.pos < |s.threads|
  {
    forall i, j :: 0 <= i < |s.threads| && 0 <= j < |s.threads| &&
                   Rank(|s.threads|, s.pos, i) <= Rank(|s.threads|, s.pos, j) ==>
      s.threads[i].closed <= s.threads[j].closed
  }

  predicate Below(xs: seq<nat>, t: nat) {
    forall x :: x in xs ==> x < t
  }

  /** Retired before the latest startOp of every thread. */
  ghost predicate Quiet(s: State, xs: seq<nat>) {
    forall j :: 0 <= j < |s.threads| ==> Below(xs, s.threads[j].began)
  }

  /** No thread passed the token on in a startOp that began later. */
  ghost predicate Latest(s: State, t: nat) {
    forall j :: 0 <= j < |s.threads| ==> s.threads[j].closed <= t
  }

  predicate Rotates(t: Thread) {
    t.phase.Clearing? || t.phase.Passing? || t.phase.Rotating?
  }

  ghost predicate ThreadOk(s: State, t: Thread) {
    && t.closed <= t.began < s.clock
    && t.called < s.clock && (if t.phase.Entered? then t.began < t.called else t.called <= t.began)
    && Below(t.curr.Items(), s.clock)
    && Below(t.last.Items(), t.closed)
    && (Rotates(t) ==> Below(t.curr.Items(), t.began) && Quiet(s, t.last.Items()))
    && (t.phase.Clearing? || t.phase.Passing? ==> Latest(s, t.began))
    && (t.phase.Rotating? ==> t.closed == t.began)
    && Quiet(s, t.free)
  }

  ghost predicate Inv(s: State) {
    && Ring(s)
    && Order(s)
    && (forall i :: 0 <= i < |s.threads| ==> ThreadOk(s, s.threads[i]))
    && Quiet(s, s.pool)
  }

  lemma InitialInv(n: nat)
    requires n > 0
    ensures Inv(Initial(n))
  {
    assert forall i :: 0 <= i < n ==> Initial(n).threads[i] == NewThread(i == 0);
  }

  lemma StepRing(s: State, act: Action)
    requires Ring(s) && Enabled(s, act)
    ensures Ring(Next(s, act))
    ensures Next(s, act).pos == if act.Pass? then (s.pos + 1) % |s.threads| else s.pos
  {
    if act.Pass? {
      assert act.i == s.pos;
    }
  }

  lemma PassedRank(n: nat, pos: nat, i: nat)
    requires i < n && pos < n
    ensures (pos + 1) % n == if pos + 1 == n then 0 else pos + 1
    ensures Rank(n, (pos + 1) % n, i) == if i == pos then n - 1 else Rank(n, pos, i) - 1
  {
    if pos + 1 == n {
      assert (pos + 1) % n == 0;
    } else {
      assert (pos + 1) % n == pos + 1;
    }
  }

  lemma StepOrder(s: State, act: Action)
    requires Inv(s) && Enabled(s, act) && Ring(Next(s, act))
    requires act.Pass? ==> Next(s, act).pos == (s.pos + 1) % |s.threads| && act.i == s.pos
    ensures Order(Next(s, act))
  {
    var s', n := Next(s, act), |s.threads|;
    if act.Pass? {
      hide Below, ThreadOk, Rank;
      forall i, j | 0 <= i < n && 0 <= j < n && Rank(n, s'.pos, i) <= Rank(n, s'.pos, j)
        ensures s'.threads[i].closed <= s'.threads[j].closed
      {
        PassedOrder(s, i, j);
      }
    } else {
      ClosedKept(s, act);
      hide Next, Enabled, Rank, Ring, ThreadOk;
    }
  }

  lemma ClosedKept(s: State, act: Action)
    requires Enabled(s, act) && !act.Pass?
    ensures var s' := Next(s, act);
            && |s'.threads| == |s.threads| && s'.pos == s.pos
            && forall i :: 0 <= i < |s.threads| ==> s'.threads[i].closed == s.threads[i].closed
  {
  }

  lemma PassedOrder(s: State, i: nat, j: nat)
    requires Inv(s) && Enabled(s, Pass(s.pos)) && i < |s.threads| && j < |s.threads|
    requires Rank(|s.threads|, (s.pos + 1) % |s.threads|, i) <= Rank(|s.threads|, (s.pos + 1) % |s.threads|, j)
    ensures Next(s, Pass(s.pos)).threads[i].closed <= Next(s, Pass(s.pos)).threads[j].closed
  {
    var n := |s.threads|;
    PassedRank(n, s.pos, i);
    PassedRank(n, s.pos, j);
    assert ThreadOk(s, s.threads[s.pos]);
    hide Rank, Below;
  }
}
