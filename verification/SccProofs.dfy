/** What callers of `take_snapshot` can rely on, whatever the interleaving. */
module SccProofs {
  import opened SccSystem

  /** A stretch of a run, with the steps taken. */
  ghost predicate Segment(run: seq<State>, acts: seq<Action>) {
    && |run| == |acts| + 1
    && forall m :: 0 <= m < |acts| ==> Enabled(run[m], acts[m]) && run[m + 1] == Next(run[m], acts[m])
  }

  /** A run of n threads from the start. */
  ghost predicate Run(n: nat, run: seq<State>, acts: seq<Action>) {
    Segment(run, acts) && run[0] == Initial(n)
  }

  lemma {:induction false} SegmentInv(run: seq<State>, acts: seq<Action>, m: nat)
    requires Segment(run, acts) && Inv(run[0]) && m < |run|
    ensures Inv(run[m]) && |run[m].callers| == |run[0].callers|
  {
    hide Inv;
    if m > 0 {
      SegmentInv(run, acts, m - 1);
      StepAt(run, acts, m - 1);
      StepInv(run[m - 1], acts[m - 1]);
      StepExclusive(run[m - 1], acts[m - 1]);
    }
  }

  lemma StepAt(run: seq<State>, acts: seq<Action>, m: nat)
    requires Segment(run, acts) && m < |acts|
    ensures Enabled(run[m], acts[m]) && run[m + 1] == Next(run[m], acts[m])
  {
  }

  lemma RunInv(n: nat, run: seq<State>, acts: seq<Action>, m: nat)
    requires Run(n, run, acts) && m < |run|
    ensures Inv(run[m]) && |run[m].callers| == n
  {
    InitialInv(n);
    SegmentInv(run, acts, m);
  }

  /** The generation is odd just when one thread is between claim and publish; never two. */
  lemma Exclusion(n: nat, run: seq<State>, acts: seq<Action>, m: nat)
    requires Run(n, run, acts) && m < |run|
    ensures |run[m].callers| == n
    ensures |set i | 0 <= i < n && InWindow(run[m].callers[i])| == run[m].windowGen % 2
  {
    RunInv(n, run, acts, m);
    var s := run[m];
    var inside := set i | 0 <= i < n && InWindow(s.callers[i]);
    if s.windowGen % 2 == 1 {
      assert inside == {s.owner};
    } else {
      assert inside == {};
    }
  }

  // ------------------------------------------------------------------ timestamps

  lemma {:induction false} TopGrows(n: nat, run: seq<State>, acts: seq<Action>, p: nat, q: nat)
    requires Run(n, run, acts) && p <= q < |run|
    ensures run[p].top <= run[q].top
  {
    hide Inv, Next, Enabled, Initial;
    if p < q {
      TopGrows(n, run, acts, p, q - 1);
      RunInv(n, run, acts, q - 1);
      StepAt(run, acts, q - 1);
      StepValues(run[q - 1], acts[q - 1]);
    }
  }

  predicate CallsAgain(acts: seq<Action>, b: nat, q: nat, t: nat)
    requires t <= |acts|
  {
    exists m :: q < m < t && acts[m].Call? && acts[m].i == b
  }

  lemma {:induction false} FloorKept(n: nat, run: seq<State>, acts: seq<Action>, b: nat, q: nat, t: nat)
    requires Run(n, run, acts) && q < t < |run| && acts[q].Call? && acts[q].i == b && !CallsAgain(acts, b, q, t)
    ensures b < |run[t].callers| && run[t].callers[b].floor == run[q].top
    decreases t
  {
    hide Inv, Initial, Next, Enabled;
    RunInv(n, run, acts, q);
    RunInv(n, run, acts, t - 1);
    RunInv(n, run, acts, t);
    StepAt(run, acts, t - 1);
    if q < t - 1 {
      FloorKept(n, run, acts, b, q, t - 1);
      FloorStep(run[t - 1], acts[t - 1], b);
    } else {
      CallStep(run[q], acts[q]);
    }
  }

  lemma FloorStep(s: State, act: Action, b: nat)
    requires Enabled(s, act) && b < |s.callers| && !(act.Call? && act.i == b)
    ensures |Next(s, act).callers| == |s.callers| && Next(s, act).callers[b].floor == s.callers[b].floor
  {
  }

  lemma ResultBounds(s: State, act: Action)
    requires Inv(s) && Enabled(s, act) && Returns(s, act)
    ensures 0 < Result(s, act) <= s.epoch && s.callers[act.i].floor <= Result(s, act) <= Next(s, act).top
  {
    assert CallerOk(s, s.callers[act.i]);
  }

  /** Snapshot timestamps are real-time monotone: if one call returns (at step p) before another
      starts (at step q), the result of the later one (at step t) is no smaller. */
  lemma RealTimeMonotone(n: nat, run: seq<State>, acts: seq<Action>, p: nat, q: nat, t: nat)
    requires Run(n, run, acts) && p < q < t < |acts|
    requires Enabled(run[p], acts[p]) && Returns(run[p], acts[p])
    requires acts[q].Call? && Enabled(run[t], acts[t]) && Returns(run[t], acts[t])
    requires acts[t].i == acts[q].i && !CallsAgain(acts, acts[q].i, q, t)
    ensures Result(run[p], acts[p]) <= Result(run[t], acts[t])
  {
    RunInv(n, run, acts, p);
    RunInv(n, run, acts, t);
    StepAt(run, acts, p);
    ResultBounds(run[p], acts[p]);
    TopGrows(n, run, acts, p + 1, q);
    FloorKept(n, run, acts, acts[q].i, q, t);
    ResultBounds(run[t], acts[t]);
  }

  /** The epoch moves by one at a time, so it held every value up to the current one. */
  lemma {:induction false} EpochHeld(n: nat, run: seq<State>, acts: seq<Action>, m: nat, v: nat) returns (k: nat)
    requires Run(n, run, acts) && m < |run| && 0 < v <= run[m].epoch
    ensures k <= m && run[k].epoch == v
  {
    hide Next, Enabled, CallerOk;
    k := m;
    if run[m].epoch != v {
      RunInv(n, run, acts, m - 1);
      StepAt(run, acts, m - 1);
      StepValues(run[m - 1], acts[m - 1]);
      k := EpochHeld(n, run, acts, m - 1, v);
    }
  }

  /** A result is never 0, so announcing it never looks like an empty slot; and the epoch
      did hold it at some moment before the call returned. */
  lemma ResultWasEpoch(n: nat, run: seq<State>, acts: seq<Action>, t: nat) returns (k: nat)
    requires Run(n, run, acts) && t < |acts| && Enabled(run[t], acts[t]) && Returns(run[t], acts[t])
    ensures Result(run[t], acts[t]) > 0
    ensures k <= t && run[k].epoch == Result(run[t], acts[t])
  {
    RunInv(n, run, acts, t);
    ResultBounds(run[t], acts[t]);
    k := EpochHeld(n, run, acts, t, Result(run[t], acts[t]));
  }

  // --------------------------------------------------------------------- progress

  /** Claims made by threads other than b in the steps from q up to t. */
  ghost function Rivals(run: seq<State>, acts: seq<Action>, b: nat, q: nat, t: nat): nat
    requires |run| == |acts| + 1 && t <= |acts|
  {
    if t <= q then 0
    else Rivals(run, acts, b, q, t - 1) + if Claims(run[t - 1], acts[t - 1]) && acts[t - 1].i != b then 1 else 0
  }

  /** Thread b calls at step q and is in that call up to step t. */
  ghost predicate InCall(run: seq<State>, acts: seq<Action>, b: nat, q: nat, t: nat)
    requires |run| == |acts| + 1
  {
    && q < t <= |acts| && acts[q].Call? && acts[q].i == b
    && forall m :: q < m <= t ==> b < |run[m].callers| && !run[m].callers[b].phase.Out?
  }

  lemma {:induction false} CountClaims(n: nat, run: seq<State>, acts: seq<Action>, b: nat, q: nat, t: nat)
    requires Run(n, run, acts) && InCall(run, acts, b, q, t)
    ensures var c := run[t].callers[b];
            && c.claims0 == run[q].claims
            && run[t].claims == run[q].claims + Rivals(run, acts, b, q, t) + if InWindow(c) then 1 else 0
    decreases t
  {
    hide Inv, Next;
    RunInv(n, run, acts, q);
    RunInv(n, run, acts, t - 1);
    StepAt(run, acts, t - 1);
    if q < t - 1 {
      CountClaims(n, run, acts, b, q, t - 1);
      assert !run[t].callers[b].phase.Out?;
      ClaimStep(run[t - 1], acts[t - 1], b);
    } else {
      CallStep(run[q], acts[q]);
    }
  }

  lemma CallStep(s: State, act: Action)
    requires Enabled(s, act) && act.Call?
    ensures var s' := Next(s, act);
            s'.claims == s.claims && !InWindow(s'.callers[act.i]) && s'.callers[act.i].claims0 == s.claims && !Claims(s, act)
    ensures act.i < |Next(s, act).callers| && Next(s, act).callers[act.i].floor == s.top
  {
  }

  lemma ClaimStep(s: State, act: Action, b: nat)
    requires Enabled(s, act) && b < |s.callers| && !s.callers[b].phase.Out? && !Next(s, act).callers[b].phase.Out?
    ensures var s', w := Next(s, act), (c: Caller) => if InWindow(c) then 1 else 0;
            && s'.callers[b].claims0 == s.callers[b].claims0
            && s'.claims == s.claims + (if Claims(s, act) then 1 else 0)
            && w(s'.callers[b]) == w(s.callers[b]) + (if Claims(s, act) && act.i == b then 1 else 0)
  {
  }

  /** A call retries no more often than other threads claimed the generation during it. */
  lemma FailuresBounded(n: nat, run: seq<State>, acts: seq<Action>, b: nat, q: nat, t: nat)
    requires Run(n, run, acts) && InCall(run, acts, b, q, t)
    ensures run[t].callers[b].fails <= Rivals(run, acts, b, q, t)
  {
    RunInv(n, run, acts, t);
    CountClaims(n, run, acts, b, q, t);
    hide Rivals, Next;
    var s, c := run[t], run[t].callers[b];
    assert CallerOk(s, c);
    if Reading(c) {
      assert c.gen / 2 <= (s.windowGen + 1) / 2;
    }
    if InWindow(c) {
      assert (c.gen + 2) / 2 == c.gen / 2 + 1;
    }
  }

  /** How many steps the owner of the window has left. */
  function Left(c: Caller): nat {
    match c.phase
    case Won => 4
    case StoredW => 3
    case StoredTs => 2
    case StoredOpened => 1
    case _ => 0
  }

  function OwnSteps(acts: seq<Action>, b: nat): nat {
    if acts == [] then 0
    else OwnSteps(acts[..|acts| - 1], b) + if !acts[|acts| - 1].Tick? && acts[|acts| - 1].i == b then 1 else 0
  }

  lemma OwnerStep(s: State, act: Action)
    requires Inv(s) && Enabled(s, act) && s.windowGen % 2 == 1 && Next(s, act).windowGen == s.windowGen
    ensures var s', own := Next(s, act), !act.Tick? && act.i == s.owner;
            s'.owner == s.owner < |s.callers| == |s'.callers| &&
            Left(s.callers[s.owner]) == Left(s'.callers[s.owner]) + if own then 1 else 0
  {
    assert CallerOk(s, s.callers[s.owner]) && InWindow(s.callers[s.owner]);
    hide Hit;
    if act.Cas? || act.Publish? {
      assert CallerOk(s, s.callers[act.i]);
    } else if !act.Tick? {
      hide Inv, Exclusive, CallerOk;
      OwnerMoves(s, act);
    }
  }

  lemma OwnerMoves(s: State, act: Action)
    requires Enabled(s, act) && !act.Tick? && !act.Cas? && !act.Publish?
    requires s.owner < |s.callers| && InWindow(s.callers[s.owner])
    ensures var s', own := Next(s, act), act.i == s.owner;
            s'.owner == s.owner && |s'.callers| == |s.callers| &&
            Left(s.callers[s.owner]) == Left(s'.callers[s.owner]) + if own then 1 else 0
  {
    hide Hit;
  }

  /** What the owner of an odd generation does next is always enabled. */
  lemma OwnerCanGo(s: State)
    requires Inv(s) && s.windowGen % 2 == 1
    ensures exists act: Action :: !act.Tick? && act.i == s.owner && Enabled(s, act)
    ensures Left(s.callers[s.owner]) == 1 ==>
              Enabled(s, Publish(s.owner)) && Next(s, Publish(s.owner)).windowGen == s.windowGen + 1
  {
    var b := s.owner;
    assert CallerOk(s, s.callers[b]);
    assert Enabled(s, StoreW(b, MIN_WINDOW_NS)) || Enabled(s, StoreTs(b)) || Enabled(s, StoreOpened(b)) || Enabled(s, Publish(b));
  }

  /** While an odd generation g stays unpublished, its owner is never blocked and has taken fewer
      than four steps: the fourth publishes. Nobody waits for more than that. */
  lemma {:induction false} PublishesSoon(run: seq<State>, acts: seq<Action>)
    requires Segment(run, acts) && Inv(run[0]) && run[0].windowGen % 2 == 1
    requires forall m :: 0 <= m < |run| ==> run[m].windowGen == run[0].windowGen
    ensures var b, s := run[0].owner, run[|acts|];
            && Inv(s) && s.owner == b < |s.callers| == |run[0].callers|
            && OwnSteps(acts, b) + Left(s.callers[b]) == Left(run[0].callers[b]) <= 4
            && OwnSteps(acts, b) < 4
    decreases |acts|
  {
    hide Next, CallerOk, Enabled;
    SegmentInv(run, acts, |acts|);
    if acts != [] {
      var k := |acts| - 1;
      SegmentInv(run, acts, k);
      StepAt(run, acts, k);
      OwnerStep(run[k], acts[k]);
      assert run[..|acts|][k] == run[k];
      forall m | 0 <= m < k
        ensures Enabled(run[..|acts|][m], acts[..k][m]) && run[..|acts|][m + 1] == Next(run[..|acts|][m], acts[..k][m])
      {
        StepAt(run, acts, m);
      }
      PublishesSoon(run[..|acts|], acts[..k]);
    }
  }
}
