/** The epoch clock, the announcement table and the limbo bags of all threads, as
    interleaved atomic steps: timestamps are drawn and nodes retired while other
    threads register, announce, release, scan the table slot by slot and drain. */
module PinSystem {
  import opened LimboBags

  /** Fresh: not yet registered. Drawn: holds a timestamp of a node not yet retired.
      Scanning, Scanned: inside and after `min_active_ts`. Advancing: between the load and the
      compare_exchange of `try_advance_epoch`. Dead: stopped by a failed assertion, in a registration
      that found the table full, or by an index past the table, in a scan after such a registration. */
  datatype Phase = Fresh | Idle | Drawn | Scanning | Scanned | Advancing | Dead

  datatype Worker = Worker(phase: Phase, tid: nat, bag: seq<nat>, ts: nat, cur: nat, n: nat, at: nat, min: Safe)

  /** `draws` lists all write timestamps and `freed` all freed nodes, in order; `writes` and
      `advances` count. These four are history. */
  datatype State = State(
    epoch: nat,
    activeCount: nat,
    slots: seq<nat>,
    workers: seq<Worker>,
    draws: seq<nat>,
    freed: seq<nat>,
    writes: nat,
    advances: nat
  )

  datatype Action =
    | Register(i: nat)
    | Announce(i: nat, ts: nat)
    | Release(i: nat)
    | Draw(i: nat)
    | Push(i: nat)
    | BeginScan(i: nat)
    | ReadSlot(i: nat)
    | EndScan(i: nat)
    | Drain(i: nat, k: nat)
    | LoadEpoch(i: nat)
    | CasEpoch(i: nat)

  const NEW := Worker(Fresh, 0, [], 0, 0, 0, 0, Unpinned)

  /** n threads and a table of `size` slots, all empty. */
  function Initial(n: nat, size: nat): State {
    State(1, 0, seq(size, _ => 0), seq(n, _ => NEW), [], [], 0, 0)
  }

  predicate Enabled(s: State, act: Action) {
    && act.i < |s.workers|
    && var w := s.workers[act.i];
       match act
       case Register(_) => w.phase.Fresh?
       case Announce(_, _) => w.phase.Idle? && w.tid < |s.slots|
       case Release(_) => w.phase.Idle? && w.tid < |s.slots|
       case Draw(_) => w.phase.Idle?
       case Push(_) => w.phase.Drawn?
       case BeginScan(_) => w.phase.Idle?
       case ReadSlot(_) => w.phase.Scanning? && w.at < w.n
       case EndScan(_) => w.phase.Scanning? && w.at == w.n
       case Drain(_, _) => w.phase.Scanned?
       case LoadEpoch(_) => w.phase.Idle?
       case CasEpoch(_) => w.phase.Advancing?
  }

  function Put(s: State, i: nat, w: Worker): State
    requires i < |s.workers|
  {
    s.(workers := s.workers[i := w])
  }

  function Next(s: State, act: Action): State
    requires Enabled(s, act)
  {
    var i, w := act.i, s.workers[act.i];
    match act
    case Register(_) =>
      Put(s, i, w.(phase := if s.activeCount < |s.slots| then Idle else Dead, tid := s.activeCount))
      .(activeCount := s.activeCount + 1)
    case Announce(_, ts) => s.(slots := s.slots[w.tid := ts])
    case Release(_) => s.(slots := s.slots[w.tid := 0])
    case Draw(_) =>
      Put(s, i, w.(phase := Drawn, ts := s.epoch))
      .(epoch := s.epoch + 1, draws := s.draws + [s.epoch], writes := s.writes + 1)
    case Push(_) => Put(s, i, w.(phase := Idle, bag := w.bag + [w.ts]))
    case BeginScan(_) => Put(s, i, w.(phase := Scanning, n := s.activeCount, at := 0, min := Unpinned))
    case ReadSlot(_) =>
      if w.at < |s.slots| then Put(s, i, w.(at := w.at + 1, min := Smaller(w.min, s.slots[w.at])))
      else Put(s, i, w.(phase := Dead))
    case EndScan(_) => Put(s, i, w.(phase := Scanned))
    case Drain(_, k) =>
      var c := DrainCount(w.bag, w.min, k);
      Put(s, i, w.(phase := Idle, bag := w.bag[c..])).(freed := s.freed + w.bag[..c])
    case LoadEpoch(_) => Put(s, i, w.(phase := Advancing, cur := s.epoch))
    case CasEpoch(_) =>
      if s.epoch == w.cur
      then Put(s, i, w.(phase := Idle)).(epoch := s.epoch + 1, advances := s.advances + 1)
      else Put(s, i, w.(phase := Idle))
  }

  // ------------------------------------------------------------------- invariant

  predicate Upto(xs: seq<nat>, e: nat) {
    forall x :: x in xs ==> x < e
  }

  predicate WorkerOk(s: State, w: Worker) {
    && Increasing(w.bag) && Upto(w.bag, s.epoch)
    && (w.phase.Drawn? ==> Upto(w.bag, w.ts) && w.ts < s.epoch)
    && (w.phase.Scanning? || w.phase.Scanned? ==> w.at <= w.n <= s.activeCount)
    && (w.phase.Fresh? || w.phase.Dead? || w.tid < |s.slots|)
  }

  predicate Inv(s: State) {
    && s.epoch == 1 + s.writes + s.advances
    && |s.draws| == s.writes
    && Increasing(s.draws) && Upto(s.draws, s.epoch)
    && forall i :: 0 <= i < |s.workers| ==> WorkerOk(s, s.workers[i])
  }

  lemma InitialInv(n: nat, size: nat)
    ensures Inv(Initial(n, size))
  {
  }

  lemma IncreasingRest(q: seq<nat>, c: nat, e: nat)
    requires Increasing(q) && Upto(q, e) && c <= |q|
    ensures Increasing(q[c..]) && Upto(q[c..], e)
  {
    forall x | x in q[c..] ensures x < e {
      assert x in q;
    }
  }

  lemma IncreasingAdd(q: seq<nat>, e: nat)
    requires Increasing(q) && Upto(q, e)
    ensures Increasing(q + [e]) && Upto(q + [e], e + 1)
  {
    forall i, j | 0 <= i < j < |q + [e]| ensures (q + [e])[i] < (q + [e])[j] {
      assert q[i] in q;
    }
  }

  lemma StepOk(s: State, act: Action, j: nat)
    requires Inv(s) && Enabled(s, act) && j < |s.workers|
    ensures |Next(s, act).workers| == |s.workers| && WorkerOk(Next(s, act), Next(s, act).workers[j])
  {
    hide Increasing, DrainCount, Smaller;
    var w := s.workers[j];
    assert WorkerOk(s, w);
    if act.i != j {
      SharedGrow(s, act);
      OthersKept(s, act, j);
      hide Inv, Next, Enabled;
    } else {
      match act
      case Drain(_, k) =>
        IncreasingRest(w.bag, DrainCount(w.bag, w.min, k), s.epoch);
      case Push(_) =>
        IncreasingAdd(w.bag, w.ts);
      case _ =>
    }
  }

  lemma SharedGrow(s: State, act: Action)
    requires Enabled(s, act)
    ensures var s' := Next(s, act);
            s.epoch <= s'.epoch && s.activeCount <= s'.activeCount && |s'.slots| == |s.slots| && |s'.workers| == |s.workers|
  {
    hide DrainCount, Smaller;
  }

  lemma StepInv(s: State, act: Action)
    requires Inv(s) && Enabled(s, act)
    ensures Inv(Next(s, act))
  {
    hide WorkerOk;
    var s' := Next(s, act);
    forall j | 0 <= j < |s'.workers| ensures WorkerOk(s', s'.workers[j]) {
      StepOk(s, act, j);
    }
    if act.Draw? {
      IncreasingAdd(s.draws, s.epoch);
    }
  }

  // -------------------------------------------------------------------- all runs

  ghost predicate Run(n: nat, size: nat, run: seq<State>, acts: seq<Action>) {
    && |run| == |acts| + 1 && run[0] == Initial(n, size)
    && forall m :: 0 <= m < |acts| ==> Enabled(run[m], acts[m]) && run[m + 1] == Next(run[m], acts[m])
  }

  lemma StepAt(n: nat, size: nat, run: seq<State>, acts: seq<Action>, m: nat)
    requires Run(n, size, run, acts) && m < |acts|
    ensures Enabled(run[m], acts[m]) && run[m + 1] == Next(run[m], acts[m])
  {
  }

  lemma {:induction false} RunInv(n: nat, size: nat, run: seq<State>, acts: seq<Action>, m: nat)
    requires Run(n, size, run, acts) && m < |run|
    ensures Inv(run[m]) && |run[m].workers| == n && |run[m].slots| == size
  {
    if m == 0 {
      InitialInv(n, size);
    } else {
      hide Inv;
      RunInv(n, size, run, acts, m - 1);
      StepAt(n, size, run, acts, m - 1);
      StepInv(run[m - 1], acts[m - 1]);
      StepSize(run[m - 1], acts[m - 1]);
    }
  }

  lemma StepSize(s: State, act: Action)
    requires Enabled(s, act)
    ensures |Next(s, act).workers| == |s.workers| && |Next(s, act).slots| == |s.slots|
  {
  }

  lemma {:induction false} CountGrows(n: nat, size: nat, run: seq<State>, acts: seq<Action>, p: nat, q: nat)
    requires Run(n, size, run, acts) && p <= q < |run|
    ensures run[p].activeCount <= run[q].activeCount
    decreases q
  {
    hide Initial, Next, Enabled;
    if p < q {
      CountGrows(n, size, run, acts, p, q - 1);
      StepAt(n, size, run, acts, q - 1);
      SharedGrow(run[q - 1], acts[q - 1]);
    }
  }

  /** The epoch counts writes and successful advances, and no two writes share a timestamp. */
  lemma Timestamps(n: nat, size: nat, run: seq<State>, acts: seq<Action>, m: nat)
    requires Run(n, size, run, acts) && m < |run|
    ensures run[m].epoch == 1 + run[m].writes + run[m].advances
    ensures |run[m].draws| == run[m].writes
    ensures forall x, y :: 0 <= x < |run[m].draws| && 0 <= y < |run[m].draws| && x != y ==>
              run[m].draws[x] != run[m].draws[y]
  {
    RunInv(n, size, run, acts, m);
  }

  /** Threads that retire in the order in which they draw keep their bags sorted, so every drain
      frees exactly the min(k, number eligible) oldest nodes of the bag. */
  lemma DrainsOldest(n: nat, size: nat, run: seq<State>, acts: seq<Action>, m: nat)
    requires Run(n, size, run, acts) && m < |acts| && acts[m].Drain?
    ensures acts[m].i < |run[m].workers| == |run[m + 1].workers|
    ensures var w, w', k := run[m].workers[acts[m].i], run[m + 1].workers[acts[m].i], acts[m].k;
            var c := Min(k, Eligibles(w.bag, w.min));
            && Increasing(w.bag) && c <= |w.bag|
            && run[m + 1].freed == run[m].freed + w.bag[..c] && w'.bag == w.bag[c..]
            && (forall x :: x in w.bag[..c] ==> Eligible(x, w.min))
            && (c < k ==> forall x :: x in w'.bag ==> !Eligible(x, w.min))
  {
    RunInv(n, size, run, acts, m);
    StepAt(n, size, run, acts, m);
    var w, k := run[m].workers[acts[m].i], acts[m].k;
    assert WorkerOk(run[m], w);
    DrainExact(w.bag, w.min, k);
    var c := DrainCount(w.bag, w.min, k);
    forall i | 0 <= i < c ensures Eligible(w.bag[i], w.min) {
      DrainSafe(w.bag, w.min, k, i);
    }
  }

  // ---------------------------------------------------------------- conservation

  function Held(w: Worker, x: nat): nat {
    multiset(w.bag)[x] + if w.phase.Drawn? && w.ts == x then 1 else 0
  }

  function HeldBy(ws: seq<Worker>, x: nat): nat {
    if ws == [] then 0 else Held(ws[0], x) + HeldBy(ws[1..], x)
  }

  lemma {:induction false} HeldPut(ws: seq<Worker>, i: nat, w: Worker, x: nat)
    requires i < |ws|
    ensures HeldBy(ws[i := w], x) + Held(ws[i], x) == HeldBy(ws, x) + Held(w, x)
  {
    if i == 0 {
      assert ws[i := w][1..] == ws[1..];
    } else {
      assert ws[i := w][1..] == ws[1..][i - 1 := w];
      HeldPut(ws[1..], i - 1, w, x);
    }
  }

  lemma SplitCount(q: seq<nat>, c: nat, x: nat)
    requires c <= |q|
    ensures multiset(q)[x] == multiset(q[..c])[x] + multiset(q[c..])[x]
  {
    assert q == q[..c] + q[c..];
  }

  lemma AppendCount(q: seq<nat>, r: seq<nat>, x: nat)
    ensures multiset(q + r)[x] == multiset(q)[x] + multiset(r)[x]
  {
  }

  function Places(s: State, x: nat): nat {
    HeldBy(s.workers, x) + multiset(s.freed)[x]
  }

  lemma StepPlaces(s: State, act: Action, x: nat)
    requires Enabled(s, act)
    ensures Places(Next(s, act), x) == Places(s, x) + if act.Draw? && s.epoch == x then 1 else 0
  {
    hide HeldBy, Held, Next, Enabled;
    StepHeld(s, act, x);
    HeldPut(s.workers, act.i, Next(s, act).workers[act.i], x);
  }

  lemma StepHeld(s: State, act: Action, x: nat)
    requires Enabled(s, act)
    ensures var s', i := Next(s, act), act.i;
            && i < |s.workers| == |s'.workers|
            && s'.workers == s.workers[i := s'.workers[i]]
            && Held(s'.workers[i], x) + multiset(s'.freed)[x]
               == Held(s.workers[i], x) + multiset(s.freed)[x] + if act.Draw? && s.epoch == x then 1 else 0
  {
    hide Eligible, DrainCount, Smaller;
    var w := s.workers[act.i];
    if act.Push? {
      hide Held;
      PushPlaces(w, x);
    } else if act.Drain? {
      hide Held;
      DrainPlaces(w, DrainCount(w.bag, w.min, act.k), s.freed, x);
    } else {
      hide Held, Next, Enabled;
      QuietPlaces(s, act, x);
    }
  }

  lemma QuietPlaces(s: State, act: Action, x: nat)
    requires Enabled(s, act) && !act.Push? && !act.Drain?
    ensures var s', i := Next(s, act), act.i;
            && i < |s.workers| == |s'.workers| && s'.workers == s.workers[i := s'.workers[i]] && s'.freed == s.freed
            && Held(s'.workers[i], x) == Held(s.workers[i], x) + if act.Draw? && s.epoch == x then 1 else 0
  {
    hide Smaller;
  }

  lemma PushPlaces(w: Worker, x: nat)
    requires w.phase.Drawn?
    ensures Held(w.(phase := Idle, bag := w.bag + [w.ts]), x) == Held(w, x)
  {
    AppendCount(w.bag, [w.ts], x);
  }

  lemma DrainPlaces(w: Worker, c: nat, freed: seq<nat>, x: nat)
    requires c <= |w.bag| && w.phase.Scanned?
    ensures Held(w.(phase := Idle, bag := w.bag[c..]), x) + multiset(freed + w.bag[..c])[x]
            == Held(w, x) + multiset(freed)[x]
  {
    SplitCount(w.bag, c, x);
    AppendCount(freed, w.bag[..c], x);
  }

  lemma {:induction false} NothingHeld(ws: seq<Worker>, x: nat)
    requires forall i :: 0 <= i < |ws| ==> ws[i] == NEW
    ensures HeldBy(ws, x) == 0
  {
    if ws != [] {
      NothingHeld(ws[1..], x);
    }
  }

  /** Every node whose timestamp was drawn is in exactly one place: about to be retired, in one
      bag, or freed; none is freed twice. */
  lemma {:induction false} Conservation(n: nat, size: nat, run: seq<State>, acts: seq<Action>, m: nat, x: nat)
    requires Run(n, size, run, acts) && m < |run|
    ensures Places(run[m], x) == multiset(run[m].draws)[x] <= 1
  {
    hide Inv, Next, Enabled;
    if m == 0 {
      NothingHeld(run[0].workers, x);
    } else {
      Conservation(n, size, run, acts, m - 1, x);
      StepAt(n, size, run, acts, m - 1);
      StepPlaces(run[m - 1], acts[m - 1], x);
      DrawCount(run[m - 1], acts[m - 1], x);
    }
    OnceOnly(run[m].draws, x) by {
      Timestamps(n, size, run, acts, m);
    }
  }

  lemma DrawCount(s: State, act: Action, x: nat)
    requires Enabled(s, act)
    ensures multiset(Next(s, act).draws)[x] == multiset(s.draws)[x] + if act.Draw? && s.epoch == x then 1 else 0
  {
    if act.Draw? {
      AppendCount(s.draws, [s.epoch], x);
    }
  }

  lemma {:induction false} OnceOnly(xs: seq<nat>, x: nat)
    requires forall i, j :: 0 <= i < |xs| && 0 <= j < |xs| && i != j ==> xs[i] != xs[j]
    ensures multiset(xs)[x] <= 1
  {
    if xs != [] {
      var k := |xs| - 1;
      assert xs == xs[..k] + [xs[k]];
      OnceOnly(xs[..k], x);
    }
  }

  // --------------------------------------------------------------------- pinning

  /** Slot j holds the timestamp ts at every step from p to t. */
  ghost predicate Stays(run: seq<State>, j: nat, ts: nat, p: nat, t: nat) {
    p <= t < |run| && forall m :: p <= m <= t ==> j < |run[m].slots| && run[m].slots[j] == ts
  }

  /** The steps of thread b from p + 1 to t - 1 are those of one scan: it begins no other and ends none. */
  ghost predicate OneScan(acts: seq<Action>, b: nat, p: nat, t: nat) {
    && p < t <= |acts| && acts[p] == BeginScan(b)
    && forall m :: p < m < t && acts[m].i == b ==> acts[m].ReadSlot?
  }

  predicate Bounded(min: Safe, ts: nat) {
    min.Pinned? && min.ts <= ts
  }

  /** A scan that has passed a slot whose announcement stays put cannot return more than it. */
  lemma {:induction false} ScanSees(n: nat, size: nat, run: seq<State>, acts: seq<Action>,
                                    b: nat, p: nat, t: nat, j: nat, ts: nat)
    requires Run(n, size, run, acts) && OneScan(acts, b, p, t)
    requires ts > 0 && Stays(run, j, ts, p, t) && j < run[p].activeCount
    ensures b < |run[t].workers|
    ensures var w := run[t].workers[b];
            w.phase.Dead? || (w.phase.Scanning? && j < w.n && (w.at > j ==> Bounded(w.min, ts)))
    decreases t
  {
    hide Inv, Initial, Next, Enabled;
    RunInv(n, size, run, acts, t - 1);
    StepAt(n, size, run, acts, t - 1);
    if t - 1 == p {
      ScanStarts(run[p], b);
    } else {
      ScanSees(n, size, run, acts, b, p, t - 1, j, ts);
      assert run[t - 1].slots[j] == ts;
      ScanStep(run[t - 1], acts[t - 1], b, j, ts);
    }
  }

  lemma ScanStarts(s: State, b: nat)
    requires Enabled(s, BeginScan(b))
    ensures var s' := Next(s, BeginScan(b));
            && b < |s'.workers|
            && s'.workers[b] == s.workers[b].(phase := Scanning, n := s.activeCount, at := 0, min := Unpinned)
  {
  }

  lemma ScanStep(s: State, act: Action, b: nat, j: nat, ts: nat)
    requires Enabled(s, act) && b < |s.workers| && j < |s.slots| && s.slots[j] == ts > 0
    requires s.workers[b].phase.Dead? || (s.workers[b].phase.Scanning? && j < s.workers[b].n)
    requires s.workers[b].phase.Scanning? && s.workers[b].at > j ==> Bounded(s.workers[b].min, ts)
    requires act.i == b ==> act.ReadSlot?
    ensures |Next(s, act).workers| == |s.workers|
    ensures var w := Next(s, act).workers[b];
            w.phase.Dead? || (w.phase.Scanning? && j < w.n && (w.at > j ==> Bounded(w.min, ts)))
  {
  }

  /** Pinning: if a registered slot keeps a nonzero announcement ts from before thread b reads
      `active_count` (step p) until its scan ends (step t), the scan returns at most ts, whatever other
      threads register, announce or release meanwhile. */
  lemma ScanPins(n: nat, size: nat, run: seq<State>, acts: seq<Action>, b: nat, p: nat, t: nat, j: nat, ts: nat)
    requires Run(n, size, run, acts) && OneScan(acts, b, p, t) && t < |acts| && acts[t] == EndScan(b)
    requires ts > 0 && Stays(run, j, ts, p, t) && j < run[p].activeCount
    ensures b < |run[t + 1].workers| && Bounded(run[t + 1].workers[b].min, ts) && run[t + 1].workers[b].phase.Scanned?
  {
    ScanSees(n, size, run, acts, b, p, t, j, ts);
    StepAt(n, size, run, acts, t);
  }

  /** Thread b takes no step from t up to d. */
  ghost predicate Absent(acts: seq<Action>, b: nat, t: nat, d: nat) {
    d <= |acts| && forall m :: t <= m < d ==> acts[m].i != b
  }

  lemma {:induction false} MinKept(n: nat, size: nat, run: seq<State>, acts: seq<Action>, b: nat, t: nat, d: nat)
    requires Run(n, size, run, acts) && t <= d < |run| && b < n
    requires b < |run[t].workers|
    requires Absent(acts, b, t, d)
    ensures b < |run[d].workers| && run[d].workers[b] == run[t].workers[b]
    decreases d
  {
    hide Inv, Next, Enabled, Initial;
    if t < d {
      RunInv(n, size, run, acts, d - 1);
      MinKept(n, size, run, acts, b, t, d - 1);
      StepAt(n, size, run, acts, d - 1);
      OthersKept(run[d - 1], acts[d - 1], b);
    }
  }

  lemma OthersKept(s: State, act: Action, b: nat)
    requires Enabled(s, act) && b < |s.workers| && act.i != b
    ensures |Next(s, act).workers| == |s.workers| && Next(s, act).workers[b] == s.workers[b]
  {
  }

  /** So the drain that follows (step d) frees only nodes born before every snapshot that stayed
      announced during the scan, also if the snapshot is released in between. */
  lemma DrainRespectsPins(n: nat, size: nat, run: seq<State>, acts: seq<Action>,
                          b: nat, p: nat, t: nat, d: nat, j: nat, ts: nat)
    requires Run(n, size, run, acts) && OneScan(acts, b, p, t) && t < d < |acts| && acts[t] == EndScan(b)
    requires acts[d].Drain? && acts[d].i == b && Absent(acts, b, t + 1, d)
    requires ts > 0 && Stays(run, j, ts, p, t) && j < run[p].activeCount
    ensures run[d].freed <= run[d + 1].freed
    ensures Upto(run[d + 1].freed[|run[d].freed|..], ts)
  {
    ScanPins(n, size, run, acts, b, p, t, j, ts);
    RunInv(n, size, run, acts, t + 1);
    MinKept(n, size, run, acts, b, t + 1, d);
    DrainsOldest(n, size, run, acts, d);
    var w := run[d].workers[b];
    var c := Min(acts[d].k, Eligibles(w.bag, w.min));
    assert run[d + 1].freed[|run[d].freed|..] == w.bag[..c];
  }

  /** The other way round: a scan during which every slot stays empty reports no snapshot. */
  lemma {:induction false} ScanEmpty(n: nat, size: nat, run: seq<State>, acts: seq<Action>, b: nat, p: nat, t: nat)
    requires Run(n, size, run, acts) && OneScan(acts, b, p, t)
    requires forall j :: 0 <= j < size ==> Stays(run, j, 0, p, t)
    ensures b < |run[t].workers| && run[t].workers[b].min == Unpinned
    decreases t
  {
    hide Inv, Next, Enabled;
    var u := t - 1;
    RunInv(n, size, run, acts, u);
    StepAt(n, size, run, acts, u);
    if u == p {
      ScanStarts(run[p], b);
    } else {
      forall j | 0 <= j < size ensures Stays(run, j, 0, p, u) {
        assert Stays(run, j, 0, p, t);
      }
      ScanEmpty(n, size, run, acts, b, p, u);
      forall j | 0 <= j < size ensures run[u].slots[j] == 0 {
        assert Stays(run, j, 0, p, u);
      }
      EmptyStep(run[u], acts[u], b);
    }
  }

  lemma EmptyStep(s: State, act: Action, b: nat)
    requires Enabled(s, act) && b < |s.workers| && s.workers[b].min.Unpinned? && (act.i == b ==> act.ReadSlot?)
    requires forall j :: 0 <= j < |s.slots| ==> s.slots[j] == 0
    ensures |Next(s, act).workers| == |s.workers| && Next(s, act).workers[b].min.Unpinned?
  {
    if act.i != b {
      OthersKept(s, act, b);
    }
  }
}
