/** What a window means: a call that no other thread's claim disturbs returns the
    window's timestamp while the window is open, and a value of the epoch otherwise. */
module SccWindow {
  import opened SccSystem
  import opened SccProofs

  /** The published window still covers the clock reading `now`. */
  predicate OpenAt(s: State, now: nat) {
    s.windowGen > 0 && now < s.windowOpenAt + s.adaptiveW
  }

  predicate SameWindowAs(s0: State, s: State) {
    && s.windowGen == s0.windowGen && s.currentTs == s0.currentTs
    && s.windowOpenAt == s0.windowOpenAt && s.adaptiveW == s0.adaptiveW
  }

  /** The caller has loaded parts of the window as it was in s0, and not claimed. */
  predicate Waiting(s0: State, now: nat, s: State, c: Caller) {
    && SameWindowAs(s0, s) && c.now == now
    && (c.phase.Top? || Reading(c))
    && (Reading(c) ==> c.gen == s0.windowGen)
    && (Loaded(c) ==> c.ts == s0.currentTs)
    && (c.phase.HasOpened? || c.phase.HasW? ==> c.openedAt == s0.windowOpenAt)
    && (c.phase.HasW? ==> c.w == s0.adaptiveW)
    && (c.phase.Miss? || c.phase.HasEpoch? ==> !OpenAt(s0, now))
    && (c.phase.HasEpoch? ==> s0.epoch <= c.newTs <= s.epoch)
  }

  /** It has claimed because the window was closed, and is opening the next. */
  predicate Opening(s0: State, now: nat, s: State, c: Caller) {
    && InWindow(c) && c.now == now && !OpenAt(s0, now)
    && s.windowGen == s0.windowGen + 1 && c.gen == s0.windowGen
    && s0.epoch <= c.newTs <= s.epoch
    && (c.phase.StoredTs? || c.phase.StoredOpened? ==> s.currentTs == c.newTs)
    && (c.phase.StoredOpened? ==> s.windowOpenAt == now)
  }

  predicate Undisturbed(s0: State, now: nat, s: State, b: nat) {
    b < |s.callers| && s0.epoch <= s.epoch && s0.windowGen % 2 == 0 && s0.adaptiveW > 0
    && (Waiting(s0, now, s, s.callers[b]) || Opening(s0, now, s, s.callers[b]))
  }

  lemma HitMeansOpen(s0: State, now: nat, s: State, c: Caller)
    requires Waiting(s0, now, s, c) && c.phase.HasW? && s0.adaptiveW > 0
    ensures Hit(c) <==> OpenAt(s0, now)
  {
  }

  /** A step of another thread that claims nothing does not touch the window. */
  lemma OtherLeaves(s0: State, now: nat, s: State, act: Action, b: nat)
    requires Inv(s) && Enabled(s, act) && Undisturbed(s0, now, s, b)
    requires (act.Tick? || act.i != b) && !Claims(s, act)
    ensures Undisturbed(s0, now, Next(s, act), b)
  {
    if !act.Tick? {
      assert InWindow(s.callers[act.i]) <==> s.windowGen % 2 == 1 && act.i == s.owner;
      assert InWindow(s.callers[b]) <==> s.windowGen % 2 == 1 && b == s.owner;
    }
    hide Inv, Exclusive, CallerOk, Hit;
  }

  lemma OwnLeaves(s0: State, now: nat, s: State, act: Action, b: nat)
    requires Enabled(s, act) && Undisturbed(s0, now, s, b) && !act.Tick? && act.i == b
    requires |Next(s, act).callers| == |s.callers| && !Next(s, act).callers[b].phase.Out?
    ensures Undisturbed(s0, now, Next(s, act), b)
  {
    if act.Decide? {
      HitMeansOpen(s0, now, s, s.callers[b]);
    }
    hide Hit;
  }

  /** At its return the call has found the window open and left it, or has opened the next one. */
  lemma ReturnSays(s0: State, now: nat, s: State, act: Action, b: nat)
    requires Enabled(s, act) && Undisturbed(s0, now, s, b) && !act.Tick? && act.i == b && Returns(s, act)
    ensures var s', r := Next(s, act), Result(s, act);
            if OpenAt(s0, now) then r == s0.currentTs && SameWindowAs(s0, s')
            else s0.epoch <= r <= s.epoch && s'.windowGen == s0.windowGen + 2 && s'.currentTs == r && s'.windowOpenAt == now
  {
    if act.Decide? {
      HitMeansOpen(s0, now, s, s.callers[b]);
    }
    hide Hit;
  }

  // -------------------------------------------------------------------- all runs

  /** The width that a thread last stored. */
  function LastWidth(acts: seq<Action>, m: nat): nat
    requires m <= |acts|
  {
    if m == 0 then 100_000 else if acts[m - 1].StoreW? then acts[m - 1].newW else LastWidth(acts, m - 1)
  }

  /** The width of a window is the one that was stored last, and always between 0.1 and 5 milliseconds. */
  lemma {:induction false} Width(n: nat, run: seq<State>, acts: seq<Action>, m: nat)
    requires Run(n, run, acts) && m < |run|
    ensures m <= |acts| && run[m].adaptiveW == LastWidth(acts, m)
    ensures 100_000 <= run[m].adaptiveW <= 5_000_000
  {
    if m > 0 {
      Width(n, run, acts, m - 1);
      StepAt(run, acts, m - 1);
    }
  }

  lemma {:induction false} EpochGrows(n: nat, run: seq<State>, acts: seq<Action>, p: nat, q: nat)
    requires Run(n, run, acts) && p <= q < |run|
    ensures run[p].epoch <= run[q].epoch
    decreases q
  {
    hide Inv, Next, Enabled, Initial;
    if p < q {
      EpochGrows(n, run, acts, p, q - 1);
      RunInv(n, run, acts, q - 1);
      StepAt(run, acts, q - 1);
      StepValues(run[q - 1], acts[q - 1]);
    }
  }

  /** Thread b is in one call from step q to step t, which began when no window was being opened, and no
      other thread claims the generation meanwhile. */
  ghost predicate Alone(run: seq<State>, acts: seq<Action>, b: nat, q: nat, t: nat)
    requires |run| == |acts| + 1
  {
    InCall(run, acts, b, q, t) && Rivals(run, acts, b, q, t) == 0 && run[q].windowGen % 2 == 0
  }

  lemma {:induction false} StaysUndisturbed(n: nat, run: seq<State>, acts: seq<Action>, b: nat, q: nat, t: nat)
    requires Run(n, run, acts) && Alone(run, acts, b, q, t)
    ensures Undisturbed(run[q], acts[q].now, run[t], b)
    decreases t
  {
    hide Inv, Initial, Undisturbed, Next, Enabled;
    var u := t - 1;
    RunInv(n, run, acts, u);
    RunInv(n, run, acts, t);
    StepAt(run, acts, u);
    if u == q {
      Width(n, run, acts, q);
      CallBegins(run[q], acts[q]);
    } else {
      StaysUndisturbed(n, run, acts, b, q, u);
      if acts[u].Tick? || acts[u].i != b {
        OtherLeaves(run[q], acts[q].now, run[u], acts[u], b);
      } else {
        assert !run[t].callers[b].phase.Out?;
        OwnLeaves(run[q], acts[q].now, run[u], acts[u], b);
      }
    }
  }

  lemma CallBegins(s: State, act: Action)
    requires Enabled(s, act) && act.Call? && s.windowGen % 2 == 0 && s.adaptiveW > 0
    ensures Undisturbed(s, act.now, Next(s, act), act.i)
  {
  }

  /** A call that nobody else's claim disturbs: if the published window covers its clock reading, it returns
      the window's timestamp and leaves the window as it is, so that all such calls share their
      timestamp. Otherwise its result is a value that the epoch held during the call, and a new window
      with that timestamp is open from its clock reading on. */
  lemma CallAlone(n: nat, run: seq<State>, acts: seq<Action>, b: nat, q: nat, t: nat) returns (k: nat)
    requires Run(n, run, acts) && t < |acts| && Alone(run, acts, b, q, t)
    requires Enabled(run[t], acts[t]) && Returns(run[t], acts[t]) && acts[t].i == b
    ensures var s, s', now, r := run[q], run[t + 1], acts[q].now, Result(run[t], acts[t]);
            if s.windowGen > 0 && now < s.windowOpenAt + s.adaptiveW then
              && r == s.currentTs && s'.windowGen == s.windowGen && s'.currentTs == s.currentTs
              && s'.windowOpenAt == s.windowOpenAt && s'.adaptiveW == s.adaptiveW
            else
              && q < k <= t && run[k].epoch == r
              && s'.windowGen == s.windowGen + 2 && s'.currentTs == r && s'.windowOpenAt == now
  {
    hide Next, Enabled, Initial, Inv, Undisturbed;
    StaysUndisturbed(n, run, acts, b, q, t);
    StepAt(run, acts, t);
    ReturnSays(run[q], acts[q].now, run[t], acts[t], b);
    k := t;
    if !OpenAt(run[q], acts[q].now) {
      k := HeldDuring(n, run, acts, q, t, Result(run[t], acts[t]));
    }
  }

  lemma HeldDuring(n: nat, run: seq<State>, acts: seq<Action>, q: nat, t: nat, v: nat) returns (k: nat)
    requires Run(n, run, acts) && q < t < |run| && acts[q].Call? && run[q].epoch <= v <= run[t].epoch
    ensures q < k <= t && run[k].epoch == v
  {
    hide Inv, Initial;
    RunInv(n, run, acts, q);
    StepAt(run, acts, q);
    StepValues(run[q], acts[q]);
    assert run[q].epoch == run[q + 1].epoch > 0;
    hide Next, Enabled;
    k := EpochHeld(n, run, acts, t, v);
    if k <= q {
      EpochGrows(n, run, acts, k, q);
      k := q + 1;
    }
  }

  /** So a call that begins 5 ms or more after the window was opened is never served from it. */
  lemma NotStale(n: nat, run: seq<State>, acts: seq<Action>, b: nat, q: nat, t: nat) returns (k: nat)
    requires Run(n, run, acts) && t < |acts| && Alone(run, acts, b, q, t)
    requires Enabled(run[t], acts[t]) && Returns(run[t], acts[t]) && acts[t].i == b
    requires run[q].windowGen == 0 || acts[q].now >= run[q].windowOpenAt + 5_000_000
    ensures q < k <= t && run[k].epoch == Result(run[t], acts[t])
  {
    Width(n, run, acts, q);
    k := CallAlone(n, run, acts, b, q, t);
  }

  /** How many steps of its own the caller has left at most. */
  function Ahead(c: Caller): nat {
    match c.phase
    case Top => 11
    case HasGen => 10
    case HasTs => 9
    case HasOpened => 8
    case HasW => 7
    case Miss => 6
    case HasEpoch => 5
    case _ => Left(c)
  }

  lemma StepAhead(s0: State, now: nat, s: State, act: Action, b: nat)
    requires Enabled(s, act) && Undisturbed(s0, now, s, b)
    requires |Next(s, act).callers| == |s.callers| && !Next(s, act).callers[b].phase.Out?
    ensures Ahead(s.callers[b]) == Ahead(Next(s, act).callers[b]) + if !act.Tick? && act.i == b then 1 else 0
  {
    if act.Tick? || act.i != b {
      OthersStay(s, act, b);
      hide Next, Enabled;
    }
    hide Hit;
  }

  lemma OthersStay(s: State, act: Action, b: nat)
    requires Enabled(s, act) && b < |s.callers| && (act.Tick? || act.i != b)
    ensures |Next(s, act).callers| == |s.callers| && Next(s, act).callers[b] == s.callers[b]
  {
    hide Hit;
  }

  /** Some step of thread b is possible. */
  ghost predicate MayGo(s: State, b: nat) {
    exists act: Action :: !act.Tick? && act.i == b && Enabled(s, act)
  }

  lemma {:induction false} OwnCount(n: nat, run: seq<State>, acts: seq<Action>, b: nat, q: nat, t: nat)
    requires Run(n, run, acts) && Alone(run, acts, b, q, t)
    ensures OwnSteps(acts[q + 1..t], b) + Ahead(run[t].callers[b]) == 11
    decreases t
  {
    hide Inv, Initial, Undisturbed, Next, Enabled, Ahead;
    var u := t - 1;
    RunInv(n, run, acts, u);
    RunInv(n, run, acts, t);
    StepAt(run, acts, u);
    if u == q {
      CallAhead(run[q], acts[q]);
      assert acts[q + 1..t] == [];
    } else {
      OwnCount(n, run, acts, b, q, u);
      StaysUndisturbed(n, run, acts, b, q, u);
      assert !run[t].callers[b].phase.Out?;
      StepAhead(run[q], acts[q].now, run[u], acts[u], b);
      hide Run, InCall, Rivals;
      OneMoreStep(acts, b, q + 1, t);
    }
  }

  lemma OneMoreStep(acts: seq<Action>, b: nat, p: nat, t: nat)
    requires p < t <= |acts|
    ensures OwnSteps(acts[p..t], b) == OwnSteps(acts[p..t - 1], b) + if !acts[t - 1].Tick? && acts[t - 1].i == b then 1 else 0
  {
    var own := acts[p..t];
    assert own[..|own| - 1] == acts[p..t - 1] && own[|own| - 1] == acts[t - 1];
  }

  /** Such a call returns with the eleventh step of its thread at the latest, and that thread is never blocked. */
  lemma ReturnsSoon(n: nat, run: seq<State>, acts: seq<Action>, b: nat, q: nat, t: nat)
    requires Run(n, run, acts) && Alone(run, acts, b, q, t)
    ensures OwnSteps(acts[q + 1..t], b) < 11 && MayGo(run[t], b)
  {
    OwnCount(n, run, acts, b, q, t);
    StaysUndisturbed(n, run, acts, b, q, t);
    CanGo(run[q], acts[q].now, run[t], b);
  }

  lemma CallAhead(s: State, act: Action)
    requires Enabled(s, act) && act.Call?
    ensures act.i < |Next(s, act).callers| && Ahead(Next(s, act).callers[act.i]) == 11
  {
  }

  lemma CanGo(s0: State, now: nat, s: State, b: nat)
    requires Undisturbed(s0, now, s, b)
    ensures MayGo(s, b) && Ahead(s.callers[b]) > 0
  {
    var c := s.callers[b];
    var act := match c.phase
      case Top => LoadGen(b)
      case HasGen => LoadTs(b)
      case HasTs => LoadOpened(b)
      case HasOpened => LoadW(b)
      case HasW => Decide(b)
      case Miss => LoadEpoch(b)
      case HasEpoch => Cas(b)
      case Won => StoreW(b, MIN_WINDOW_NS)
      case StoredW => StoreTs(b)
      case StoredTs => StoreOpened(b)
      case _ => Publish(b);
    assert Enabled(s, act);
  }

  // ---------------------------------------------------------------------- hit rate

  /** The calls of all threads, and their returns without opening a window, in the first m steps. */
  function CallsMade(acts: seq<Action>, m: nat): nat
    requires m <= |acts|
  {
    if m == 0 then 0 else CallsMade(acts, m - 1) + if acts[m - 1].Call? then 1 else 0
  }

  ghost function HitsMade(n: nat, run: seq<State>, acts: seq<Action>, m: nat): nat
    requires Run(n, run, acts) && m <= |acts|
  {
    if m == 0 then 0
    else HitsMade(n, run, acts, m - 1) +
         if acts[m - 1].Decide? && Enabled(run[m - 1], acts[m - 1]) && Returns(run[m - 1], acts[m - 1]) then 1 else 0
  }

  /** The counters from which the hit rate is computed count exactly these. */
  lemma {:induction false} HitRate(n: nat, run: seq<State>, acts: seq<Action>, m: nat)
    requires Run(n, run, acts) && m <= |acts|
    ensures run[m].totalCount == CallsMade(acts, m) && run[m].hitCount == HitsMade(n, run, acts, m)
  {
    if m > 0 {
      HitRate(n, run, acts, m - 1);
      StepAt(run, acts, m - 1);
      hide Run, Hit;
    }
  }
}
